/**
 * The train/validation split of `DataPreprocessor`. The raw directory is a map
 * from entry name to entry; the processed tree is two maps from category to
 * the names of the files copied into `train/<category>` and
 * `validation/<category>`. A copy keeps its file name, and the source of
 * `<subset>/<category>/<name>` is always `<raw>/<category>/<name>`, so the
 * names say which file was copied.
 */
module Preprocessing {
  import opened Splitting

  datatype Entry = PlainFile | Directory(files: seq<string>)

  /** `[d for d in os.listdir(raw_data_dir) if os.path.isdir(...)]`, as a set: the listing order is the file system's. */
  function Categories(raw: map<string, Entry>): (cats: set<string>)
    ensures forall d :: d in cats ==> d in raw && raw[d].Directory?
    ensures forall d :: d in raw && raw[d].Directory? ==> d in cats
  {
    set d | d in raw && raw[d].Directory?
  }

  /**
   * A category whose listing is `files` is split through `order`: the order holds
   * the `.jpg` names of the listing, each as often, and the first `train_count` of
   * it are the training files and the rest the validation files.
   */
  ghost predicate SplitOf(files: seq<string>, percent: int, order: seq<string>, train: set<string>, validation: set<string>)
  {
    && multiset(order) == multiset(JpgImages(files))
    && train == Elements(TrainPart(order, percent))
    && validation == Elements(ValidationPart(order, percent))
  }

  /** Category `d` is a subdirectory of the raw directory, and it is split. */
  ghost predicate Split(raw: map<string, Entry>, percent: int, d: string, shuffled: map<string, seq<string>>,
                        train: map<string, set<string>>, validation: map<string, set<string>>)
  {
    && d in raw && raw[d].Directory? && d in shuffled && d in train && d in validation
    && SplitOf(raw[d].files, percent, shuffled[d], train[d], validation[d])
  }

  /** Every category of `done` is split. */
  ghost predicate Splits(raw: map<string, Entry>, percent: int, done: set<string>, shuffled: map<string, seq<string>>,
                         train: map<string, set<string>>, validation: map<string, set<string>>)
  {
    forall d {:trigger Split(raw, percent, d, shuffled, train, validation)} :: d in done ==> Split(raw, percent, d, shuffled, train, validation)
  }

  /** Splitting category c after the categories of `done` leaves their splits as they were. */
  lemma SplitsGrow(raw: map<string, Entry>, percent: int, done: set<string>, c: string,
                   shuffled: map<string, seq<string>>, train: map<string, set<string>>, validation: map<string, set<string>>,
                   order: seq<string>, tr: set<string>, va: set<string>)
    requires c in raw && raw[c].Directory? && c !in done
    requires Splits(raw, percent, done, shuffled, train, validation)
    requires SplitOf(raw[c].files, percent, order, tr, va)
    ensures Splits(raw, percent, done + {c}, shuffled[c := order], train[c := tr], validation[c := va])
  {
    forall d | d in done + {c}
      ensures Split(raw, percent, d, shuffled[c := order], train[c := tr], validation[c := va])
    {
      if d != c {
        assert Split(raw, percent, d, shuffled, train, validation);
      }
    }
  }

  /**
   * Over a listing without repeated names, a split category has every `.jpg`
   * file in exactly one of its two directories and nothing else in them.
   */
  lemma SplitsPartition(raw: map<string, Entry>, percent: int, done: set<string>, shuffled: map<string, seq<string>>,
                        train: map<string, set<string>>, validation: map<string, set<string>>, d: string)
    requires Splits(raw, percent, done, shuffled, train, validation)
    requires d in done && d in raw && raw[d].Directory? && Distinct(raw[d].files)
    ensures d in train && d in validation
    ensures train[d] !! validation[d]
    ensures train[d] + validation[d] == set x | x in raw[d].files && IsJpg(x)
  {
    assert Split(raw, percent, d, shuffled, train, validation);
    SplitIsPartition(raw[d].files, shuffled[d], percent);
  }

  /** A directory created empty and then filled with `e` holds exactly `e`. */
  lemma CreatedThenFilled(m: map<string, set<string>>, c: string, e: set<string>)
    ensures m[c := {}][c := {} + e] == m[c := e]
  {
    assert {} + e == e;
  }

  /** Adding a new category's directory keeps every other directory and its files. */
  lemma DirectoryAdded(m: map<string, set<string>>, c: string, e: set<string>)
    requires c !in m
    ensures m[c := e].Keys == m.Keys + {c}
    ensures forall d :: d in m ==> d in m[c := e] && m[c := e][d] == m[d]
  {
  }

  /**
   * Giving category c the two parts of an order of its `.jpg` names as its
   * training and validation files splits c and keeps the splits of `done`.
   */
  lemma CategoryCopied(raw: map<string, Entry>, percent: int, done: set<string>, c: string,
                       shuffled: map<string, seq<string>>, train: map<string, set<string>>, validation: map<string, set<string>>,
                       order: seq<string>, train': map<string, set<string>>, validation': map<string, set<string>>)
    requires c in raw && raw[c].Directory? && c !in done
    requires Splits(raw, percent, done, shuffled, train, validation)
    requires multiset(order) == multiset(JpgImages(raw[c].files))
    requires train' == train[c := Elements(TrainPart(order, percent))]
    requires validation' == validation[c := Elements(ValidationPart(order, percent))]
    ensures Splits(raw, percent, done + {c}, shuffled[c := order], train', validation')
  {
    var tr, va := Elements(TrainPart(order, percent)), Elements(ValidationPart(order, percent));
    assert Splits(raw, percent, done + {c}, shuffled[c := order], train[c := tr], validation[c := va]) by {
      SplitsGrow(raw, percent, done, c, shuffled, train, validation, order, tr, va);
    }
  }

  class DataPreprocessor {
    /** The raw data directory: entry name to entry. */
    const raw: map<string, Entry>
    /** `train_ratio`, as a whole percentage. */
    const trainPercent: int
    const categories: set<string>
    /** Whether `processed_data_dir` exists. */
    var processedExists: bool
    /** `train/<category>` to the names of the files in it. */
    var train: map<string, set<string>>
    /** `validation/<category>` to the names of the files in it. */
    var validation: map<string, set<string>>
    /** The order `random.shuffle` left each category's images in. */
    ghost var shuffled: map<string, seq<string>>

    /** The categories are those of the raw directory, and a processed directory that does not exist holds nothing. */
    ghost predicate Valid()
      reads this
    {
      && categories == Categories(raw)
      && (!processedExists ==> train == map[] && validation == map[])
    }

    /** `__init__`: the categories are the subdirectories of the raw directory. */
    constructor (raw: map<string, Entry>, processedExists: bool, trainPercent: int)
      ensures Valid()
      ensures this.raw == raw && this.trainPercent == trainPercent && this.processedExists == processedExists
      ensures categories == Categories(raw)
      ensures train == map[] && validation == map[] && shuffled == map[]
    {
      this.raw := raw;
      this.trainPercent := trainPercent;
      this.categories := Categories(raw);
      this.processedExists := processedExists;
      this.train := map[];
      this.validation := map[];
      this.shuffled := map[];
    }

    /**
     * `split_data`: does nothing when the processed directory exists; otherwise, for
     * each category, creates its two directories, shuffles its `.jpg` names (with
     * the draws `draws(category)`), and copies the first `train_count` of them to
     * training and the rest to validation. With no category, no directory is created.
     */
    method SplitData(draws: string -> nat -> nat)
      requires Valid()
      modifies this`processedExists, this`train, this`validation, this`shuffled
      ensures Valid()
      ensures old(processedExists) ==>
        processedExists && train == old(train) && validation == old(validation) && shuffled == old(shuffled)
      ensures !old(processedExists) ==>
        && processedExists == (categories != {})
        && train.Keys == categories && validation.Keys == categories
        && Splits(raw, trainPercent, categories, shuffled, train, validation)
    {
      if processedExists {
        return;
      }
      var remaining := categories;
      ghost var done: set<string> := {};
      while remaining != {}
        invariant done !! remaining && done + remaining == categories
        invariant processedExists == (done != {})
        invariant train.Keys == done && validation.Keys == done
        invariant Splits(raw, trainPercent, done, shuffled, train, validation)
        decreases remaining
      {
        var c :| c in remaining;
        assert c in Categories(raw);
        processedExists := true;
        SplitCategory(c, draws(c), done);
        remaining := remaining - {c};
        done := done + {c};
      }
    }

    /**
     * One pass of the category loop: make both directories, shuffle the `.jpg`
     * names, cut, copy. The categories of `done`, split before, stay as they were.
     */
    method SplitCategory(c: string, draw: nat -> nat, ghost done: set<string>)
      requires c in raw && raw[c].Directory?
      requires c !in train && c !in validation && c !in done
      requires Splits(raw, trainPercent, done, shuffled, train, validation)
      modifies this`train, this`validation, this`shuffled
      ensures train.Keys == old(train).Keys + {c} && validation.Keys == old(validation).Keys + {c}
      ensures Splits(raw, trainPercent, done + {c}, shuffled, train, validation)
      ensures forall d :: d in old(train) ==> d in train && train[d] == old(train)[d]
      ensures forall d :: d in old(validation) ==> d in validation && validation[d] == old(validation)[d]
      ensures forall d :: d in old(shuffled) && d != c ==> d in shuffled && shuffled[d] == old(shuffled)[d]
    {
      ghost var train0, validation0 := train, validation;
      train := train[c := {}];
      validation := validation[c := {}];
      var images := JpgImages(raw[c].files);
      images := Shuffle(images, draw);
      var cut := SliceBound(TrainCount(|images|, trainPercent), |images|);
      CopyToTrain(c, images[..cut]);
      CopyToValidation(c, images[cut..]);
      assert images[..cut] == TrainPart(images, trainPercent) && images[cut..] == ValidationPart(images, trainPercent);
      CreatedThenFilled(train0, c, Elements(images[..cut]));
      CreatedThenFilled(validation0, c, Elements(images[cut..]));
      DirectoryAdded(train0, c, Elements(images[..cut]));
      DirectoryAdded(validation0, c, Elements(images[cut..]));
      CategoryCopied(raw, trainPercent, done, c, shuffled, train0, validation0, images, train, validation);
      shuffled := shuffled[c := images];
    }

    /** `for img in train_images: shutil.copy(..., os.path.join(self.train_dir, category, img))` */
    method CopyToTrain(c: string, names: seq<string>)
      requires c in train
      modifies this`train
      ensures train == old(train)[c := old(train)[c] + Elements(names)]
    {
      var i := 0;
      while i < |names|
        invariant 0 <= i <= |names|
        invariant c in train && train == old(train)[c := train[c]]
        invariant train[c] == old(train)[c] + Elements(names[..i])
      {
        assert Elements(names[..i + 1]) == Elements(names[..i]) + {names[i]} by {
          assert names[..i + 1] == names[..i] + [names[i]];
        }
        train := train[c := train[c] + {names[i]}];
        i := i + 1;
      }
      assert names[..|names|] == names;
    }

    /** `for img in val_images: shutil.copy(..., os.path.join(self.validation_dir, category, img))` */
    method CopyToValidation(c: string, names: seq<string>)
      requires c in validation
      modifies this`validation
      ensures validation == old(validation)[c := old(validation)[c] + Elements(names)]
    {
      var i := 0;
      while i < |names|
        invariant 0 <= i <= |names|
        invariant c in validation && validation == old(validation)[c := validation[c]]
        invariant validation[c] == old(validation)[c] + Elements(names[..i])
      {
        assert Elements(names[..i + 1]) == Elements(names[..i]) + {names[i]} by {
          assert names[..i + 1] == names[..i] + [names[i]];
        }
        validation := validation[c := validation[c] + {names[i]}];
        i := i + 1;
      }
      assert names[..|names|] == names;
    }
  }
}

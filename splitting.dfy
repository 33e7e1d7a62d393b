/**
 * The pure parts of the train/validation split: which names count as images,
 * how many of them go to training, how a Python slice cuts the list, and the
 * in-place shuffle, with the random draws given as input.
 */
module Splitting {
  import opened Strings

  const JpgSuffix := ".jpg"

  /** `f.lower().endswith('.jpg')` */
  predicate IsJpg(name: string)
  {
    EndsWith(Lower(name), JpgSuffix)
  }

  /** The same test, character by character: the name ends in '.', then j, p, g in either case. */
  lemma IsJpgByCharacters(name: string)
    ensures IsJpg(name) <==>
      && |name| >= 4
      && name[|name| - 4] == '.'
      && (name[|name| - 3] == 'j' || name[|name| - 3] == 'J')
      && (name[|name| - 2] == 'p' || name[|name| - 2] == 'P')
      && (name[|name| - 1] == 'g' || name[|name| - 1] == 'G')
  {
    var low := Lower(name);
    if |name| >= 4 {
      var n := |name|;
      assert low[n - 4..] == [low[n - 4], low[n - 3], low[n - 2], low[n - 1]];
    }
  }

  lemma JpgExamples()
    ensures IsJpg("X.JPG") && IsJpg("0000.jpg") && IsJpg("a.Jpg")
    ensures !IsJpg("x.png") && !IsJpg("x.jpeg") && !IsJpg("jpg")
  {
    IsJpgByCharacters("X.JPG");
    IsJpgByCharacters("0000.jpg");
    IsJpgByCharacters("a.Jpg");
    IsJpgByCharacters("x.png");
    IsJpgByCharacters("x.jpeg");
    IsJpgByCharacters("jpg");
  }

  /** `[f for f in names if f.lower().endswith('.jpg')]` */
  function JpgImages(names: seq<string>): (r: seq<string>)
    ensures |r| <= |names|
  {
    if names == [] then []
    else (if IsJpg(names[0]) then [names[0]] else []) + JpgImages(names[1..])
  }

  /**
   * The selection keeps exactly the names that pass the test, each as often as
   * the listing has it, and drops every other name.
   */
  lemma {:induction false} JpgImagesSelects(names: seq<string>)
    ensures forall x :: x in JpgImages(names) <==> x in names && IsJpg(x)
    ensures forall x :: multiset(JpgImages(names))[x] == if IsJpg(x) then multiset(names)[x] else 0
  {
    if names != [] {
      assert names == [names[0]] + names[1..];
      JpgImagesSelects(names[1..]);
    }
  }

  /** `int(n * train_ratio)` with the ratio given as a whole percentage: the quotient truncated toward zero. */
  function TrainCount(n: nat, percent: int): int
  {
    if percent >= 0 then n * percent / 100 else -(n * -percent / 100)
  }

  /** Where a Python slice bound `k` falls in a list of length n: a negative bound counts from the end, and both are clamped to 0..n. */
  function SliceBound(k: int, n: nat): (b: nat)
    ensures b <= n
  {
    if k < 0 then (if n + k < 0 then 0 else n + k)
    else if k > n then n
    else k
  }

  /** `images[:train_count]` */
  function TrainPart(images: seq<string>, percent: int): seq<string>
  {
    images[..SliceBound(TrainCount(|images|, percent), |images|)]
  }

  /** `images[train_count:]` */
  function ValidationPart(images: seq<string>, percent: int): seq<string>
  {
    images[SliceBound(TrainCount(|images|, percent), |images|)..]
  }

  /** The two parts put back together give the list again, so their multisets add up to it. */
  lemma SplitPartition(images: seq<string>, percent: int)
    ensures TrainPart(images, percent) + ValidationPart(images, percent) == images
    ensures multiset(TrainPart(images, percent)) + multiset(ValidationPart(images, percent)) == multiset(images)
  {
    assert TrainPart(images, percent) + ValidationPart(images, percent) == images;
  }

  /**
   * How many images go to training, for every ratio: the truncated product for
   * 0..100 percent, all of them above, and for a negative ratio the list less the
   * truncated share counted from its end, or nothing when that share truncates to 0.
   */
  lemma TrainSize(n: nat, percent: int)
    ensures 0 <= percent <= 100 ==> SliceBound(TrainCount(n, percent), n) == n * percent / 100
    ensures percent >= 100 ==> SliceBound(TrainCount(n, percent), n) == n
    ensures -100 <= percent < 0 ==>
      SliceBound(TrainCount(n, percent), n) == (if n * -percent / 100 == 0 then 0 else n - n * -percent / 100)
    ensures percent <= -100 ==> SliceBound(TrainCount(n, percent), n) == 0
  {
    var share := if percent >= 0 then percent else -percent;
    ShareOfWhole(n, share);
  }

  /** A share of at most 100 percent of n is at most n; a share of at least 100 percent is at least n. */
  lemma ShareOfWhole(n: nat, share: nat)
    ensures share <= 100 ==> n * share / 100 <= n
    ensures share >= 100 ==> n * share / 100 >= n
  {
    if share <= 100 {
      assert n * share <= n * 100;
    } else {
      assert n * share >= n * 100;
    }
  }

  /**
   * `random.shuffle(images)`: for i from the last position down to 1, swap
   * position i with a position j in 0..i; `draw(i)` is the random draw made at
   * step i and j is its remainder modulo i + 1, so every choice of j is possible.
   */
  method Shuffle(images: seq<string>, draw: nat -> nat) returns (r: seq<string>)
    ensures |r| == |images|
    ensures multiset(r) == multiset(images)
  {
    r := images;
    var i := |r| - 1;
    while i >= 1
      invariant i < |r| == |images|
      invariant multiset(r) == multiset(images)
    {
      var j := draw(i) % (i + 1);
      r := r[i := r[j]][j := r[i]];
      i := i - 1;
    }
  }

  /** No name occurs twice, as in a directory listing. */
  ghost predicate Distinct(s: seq<string>)
  {
    forall x :: multiset(s)[x] <= 1
  }

  function Elements(s: seq<string>): set<string>
  {
    set x | x in s
  }

  /**
   * For a directory listing without repeated names and any order of its images,
   * the split sends every selected image to exactly one of the two sets, and
   * nothing else.
   */
  lemma SplitIsPartition(files: seq<string>, order: seq<string>, percent: int)
    requires Distinct(files)
    requires multiset(order) == multiset(JpgImages(files))
    ensures Elements(TrainPart(order, percent)) !! Elements(ValidationPart(order, percent))
    ensures Elements(TrainPart(order, percent)) + Elements(ValidationPart(order, percent))
         == set x | x in files && IsJpg(x)
    ensures |TrainPart(order, percent)| + |ValidationPart(order, percent)| == |JpgImages(files)|
  {
    var tr, va := TrainPart(order, percent), ValidationPart(order, percent);
    SplitPartition(order, percent);
    JpgImagesSelects(files);
    forall x | x in tr
      ensures x !in va
    {
      assert multiset(order)[x] <= multiset(files)[x] <= 1;
      assert multiset(tr)[x] >= 1;
    }
    forall x | x in order
      ensures x in files && IsJpg(x)
    {
      assert multiset(order)[x] > 0;
    }
    forall x | x in files && IsJpg(x)
      ensures x in tr || x in va
    {
      assert multiset(files)[x] > 0;
      assert multiset(order)[x] > 0;
      assert x in tr + va;
    }
    assert |order| == |multiset(order)| == |multiset(JpgImages(files))|;
  }
}

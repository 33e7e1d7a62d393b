/**
 * What the thumbnail loop of the scraper does, as functions of scripted inputs:
 * the previews each thumbnail opens, and what fetching and decoding a URL gives.
 * `Harvest` is the loop; the lemmas state what it guarantees about the count
 * it returns, the requests it issues and the files it leaves in the category
 * directory.
 */
module Ingestion {
  import opened Wrappers
  import opened Strings
  import opened ImageNames

  /** Smallest width and height an image may have to be kept. */
  const MinSide: nat := 100

  datatype ColorMode = RGB | OtherMode(name: string)

  datatype Image = Image(width: nat, height: nat, mode: ColorMode)

  /**
   * Fetching and decoding one URL. Every exception on the way (connection or
   * timeout, an HTTP error status, a payload that is not an image) is FetchFailed.
   */
  datatype Fetch = FetchFailed | Decoded(image: Image)

  /**
   * One thumbnail of the results page: handling it raises (the click is rejected,
   * the element is stale, or no preview appears within the wait), or it opens
   * previews whose `src` attributes are listed in page order (None: no attribute).
   */
  datatype Thumbnail = Throws | Previews(srcs: seq<Option<string>>)

  /** What the loop carries: the success count, the category directory, and the URLs requested so far. */
  datatype Progress = Progress(count: nat, dir: map<string, Image>, requested: seq<string>)

  /** `src and src.startswith('http')` */
  predicate IsWebSrc(src: Option<string>)
  {
    src.Some? && |src.value| > 0 && StartsWith(src.value, "http")
  }

  /** Position of the first preview whose `src` is a web address. */
  function FirstWebIndex(srcs: seq<Option<string>>): (k: Option<nat>)
    ensures k.Some? ==> k.value < |srcs| && IsWebSrc(srcs[k.value])
    ensures k.Some? ==> forall j :: 0 <= j < k.value ==> !IsWebSrc(srcs[j])
    ensures k.None? ==> forall j :: 0 <= j < |srcs| ==> !IsWebSrc(srcs[j])
  {
    if srcs == [] then None
    else if IsWebSrc(srcs[0]) then Some(0)
    else match FirstWebIndex(srcs[1..])
      case None => None
      case Some(i) => Some(i + 1)
  }

  /** The URL downloaded for a thumbnail whose previews are `srcs`, if there is one. */
  function Candidate(srcs: seq<Option<string>>): Option<string>
  {
    match FirstWebIndex(srcs)
    case None => None
    case Some(k) => srcs[k]
  }

  /** The scan `for actual_image in actual_images` up to the first web `src`. */
  method ResolveCandidate(srcs: seq<Option<string>>) returns (url: Option<string>)
    ensures url == Candidate(srcs)
  {
    url := None;
    var i := 0;
    while i < |srcs|
      invariant 0 <= i <= |srcs|
      invariant forall j :: 0 <= j < i ==> !IsWebSrc(srcs[j])
    {
      if IsWebSrc(srcs[i]) {
        url := srcs[i];
        break;
      }
      i := i + 1;
    }
  }

  /** The image an accepted download is saved as. */
  predicate Acceptable(img: Image)
  {
    img.width >= MinSide && img.height >= MinSide && img.mode == RGB
  }

  /**
   * The gate of `_download_image`: a failed fetch or an image narrower or lower
   * than MinSide is refused; anything else is kept, converted to RGB.
   */
  function Validate(f: Fetch): (saved: Option<Image>)
    ensures saved.Some? <==> f.Decoded? && f.image.width >= MinSide && f.image.height >= MinSide
    ensures saved.Some? ==> Acceptable(saved.value)
    ensures saved.Some? ==> saved.value.width == f.image.width && saved.value.height == f.image.height
  {
    match f
    case FetchFailed => None
    case Decoded(img) =>
      if img.width < MinSide || img.height < MinSide then None
      else Some(Image(img.width, img.height, RGB))
  }

  /** The URL requested for a thumbnail: none if handling it raises or no preview has a web `src`. */
  function Target(t: Thumbnail): Option<string>
  {
    match t
    case Throws => None
    case Previews(srcs) => Candidate(srcs)
  }

  /** The image saved for a thumbnail, if its one download succeeds. */
  function Attempt(t: Thumbnail, fetch: string -> Fetch): Option<Image>
  {
    match Target(t)
    case None => None
    case Some(url) => Validate(fetch(url))
  }

  function RequestsOf(t: Thumbnail): seq<string>
  {
    match Target(t)
    case None => []
    case Some(url) => [url]
  }

  /** One pass of the loop body on thumbnail `t`; a save uses the current count as its index. */
  function Step(p: Progress, t: Thumbnail, fetch: string -> Fetch): Progress
  {
    var saved := Attempt(t, fetch);
    Progress(if saved.Some? then p.count + 1 else p.count,
             if saved.Some? then p.dir[Filename(p.count) := saved.value] else p.dir,
             p.requested + RequestsOf(t))
  }

  /** The loop `for thumb in image_thumbnails`, stopping before a thumbnail once the target is met. */
  function Harvest(thumbs: seq<Thumbnail>, target: int, fetch: string -> Fetch, p: Progress): Progress
    decreases |thumbs|
  {
    if thumbs == [] || p.count >= target then p
    else Harvest(thumbs[1..], target, fetch, Step(p, thumbs[0], fetch))
  }

  /** The images the downloads of `urls` save, in order. */
  function Saved(urls: seq<string>, fetch: string -> Fetch): (imgs: seq<Image>)
    ensures |imgs| <= |urls|
    ensures forall m :: 0 <= m < |imgs| ==> Acceptable(imgs[m])
  {
    if urls == [] then []
    else
      (match Validate(fetch(urls[0]))
       case None => []
       case Some(img) => [img])
      + Saved(urls[1..], fetch)
  }

  /** The names of the indices lo, lo+1, ..., hi-1. */
  function Indexed(lo: nat, hi: nat): set<string>
  {
    set i: nat | lo <= i < hi :: Filename(i)
  }

  lemma IndexedShrinks(lo: nat, hi: nat)
    requires lo < hi
    ensures Indexed(lo, hi) == {Filename(lo)} + Indexed(lo + 1, hi)
  {
    assert Filename(lo) in Indexed(lo, hi);
  }

  /** The name of an index below lo is none of the names from lo on. */
  lemma IndexedAbove(k: nat, lo: nat, hi: nat)
    requires k < lo
    ensures Filename(k) !in Indexed(lo, hi)
  {
    forall j: nat | lo <= j < hi
      ensures Filename(j) != Filename(k)
    {
      FilenameInjective(j, k);
    }
  }

  lemma {:induction false} SavedAppend(a: seq<string>, b: seq<string>, fetch: string -> Fetch)
    ensures Saved(a + b, fetch) == Saved(a, fetch) + Saved(b, fetch)
    decreases |a|
  {
    if a == [] {
      assert a + b == b;
    } else {
      assert (a + b)[0] == a[0] && (a + b)[1..] == a[1..] + b;
      SavedAppend(a[1..], b, fetch);
    }
  }

  /** What one thumbnail adds to the log and saves. */
  lemma StepSaves(p: Progress, t: Thumbnail, fetch: string -> Fetch)
    ensures |RequestsOf(t)| <= 1
    ensures Saved(RequestsOf(t), fetch) == if Attempt(t, fetch).Some? then [Attempt(t, fetch).value] else []
  {
    if Target(t).Some? {
      assert RequestsOf(t)[1..] == [];
    }
  }

  lemma LogSplit(p: seq<string>, x: seq<string>, r: seq<string>)
    requires |p + x| <= |r| && r[..|p + x|] == p + x
    ensures r[..|p|] == p
    ensures r[|p|..] == x + r[|p + x|..]
  {
    assert r[..|p|] == (p + x)[..|p|];
  }

  /**
   * The count never drops, and never passes the target unless it started above it;
   * the loop requests at most one URL per thumbnail and only appends to the log.
   */
  lemma {:induction false} HarvestLog(thumbs: seq<Thumbnail>, target: int, fetch: string -> Fetch, p: Progress)
    ensures p.count <= Harvest(thumbs, target, fetch, p).count
    ensures Harvest(thumbs, target, fetch, p).count == p.count || Harvest(thumbs, target, fetch, p).count <= target
    ensures |p.requested| <= |Harvest(thumbs, target, fetch, p).requested| <= |p.requested| + |thumbs|
    ensures Harvest(thumbs, target, fetch, p).requested[..|p.requested|] == p.requested
    decreases |thumbs|
  {
    if thumbs != [] && p.count < target {
      var q := Step(p, thumbs[0], fetch);
      StepSaves(p, thumbs[0], fetch);
      HarvestLog(thumbs[1..], target, fetch, q);
      LogSplit(p.requested, RequestsOf(thumbs[0]), Harvest(thumbs[1..], target, fetch, q).requested);
    }
  }

  /** The count grows by exactly the number of requested URLs whose download succeeded. */
  lemma {:induction false} HarvestCounts(thumbs: seq<Thumbnail>, target: int, fetch: string -> Fetch, p: Progress)
    ensures |p.requested| <= |Harvest(thumbs, target, fetch, p).requested|
    ensures var r := Harvest(thumbs, target, fetch, p);
      r.count == p.count + |Saved(r.requested[|p.requested|..], fetch)|
    decreases |thumbs|
  {
    HarvestLog(thumbs, target, fetch, p);
    var r := Harvest(thumbs, target, fetch, p);
    if thumbs != [] && p.count < target {
      var q := Step(p, thumbs[0], fetch);
      StepSaves(p, thumbs[0], fetch);
      HarvestCounts(thumbs[1..], target, fetch, q);
      HarvestLog(thumbs[1..], target, fetch, q);
      LogSplit(p.requested, RequestsOf(thumbs[0]), r.requested);
      SavedAppend(RequestsOf(thumbs[0]), r.requested[|q.requested|..], fetch);
    } else {
      assert r.requested[|p.requested|..] == [];
    }
  }

  /**
   * The files of the directory afterwards are the old ones plus one file per new
   * success, named by its index from p.count on.
   */
  lemma {:induction false} HarvestKeys(thumbs: seq<Thumbnail>, target: int, fetch: string -> Fetch, p: Progress)
    ensures var r := Harvest(thumbs, target, fetch, p);
      && p.count <= r.count
      && r.dir.Keys == p.dir.Keys + Indexed(p.count, r.count)
    decreases |thumbs|
  {
    var r := Harvest(thumbs, target, fetch, p);
    if thumbs == [] || p.count >= target {
      assert Indexed(p.count, r.count) == {};
    } else {
      var q := Step(p, thumbs[0], fetch);
      HarvestKeys(thumbs[1..], target, fetch, q);
      if q.count == p.count + 1 {
        IndexedShrinks(p.count, r.count);
      }
    }
  }

  /** A file whose name is not one of the new indices keeps its contents. */
  lemma {:induction false} HarvestKeepsOthers(thumbs: seq<Thumbnail>, target: int, fetch: string -> Fetch, p: Progress)
    ensures var r := Harvest(thumbs, target, fetch, p);
      forall f :: f in p.dir && f !in Indexed(p.count, r.count) ==> f in r.dir && r.dir[f] == p.dir[f]
    decreases |thumbs|
  {
    var r := Harvest(thumbs, target, fetch, p);
    if thumbs != [] && p.count < target {
      var q := Step(p, thumbs[0], fetch);
      HarvestKeepsOthers(thumbs[1..], target, fetch, q);
      if q.count == p.count + 1 {
        HarvestLog(thumbs[1..], target, fetch, q);
        IndexedShrinks(p.count, r.count);
      }
    }
  }

  /** The images `imgs` lie, in order, under the names of the indices lo, lo+1, ... */
  predicate SavedFrom(dir: map<string, Image>, lo: nat, imgs: seq<Image>)
  {
    forall i: nat :: lo <= i < lo + |imgs| ==> Filename(i) in dir && dir[Filename(i)] == imgs[i - lo]
  }

  lemma SavedFromCons(dir: map<string, Image>, lo: nat, img: Image, rest: seq<Image>)
    requires Filename(lo) in dir && dir[Filename(lo)] == img
    requires SavedFrom(dir, lo + 1, rest)
    ensures SavedFrom(dir, lo, [img] + rest)
  {
  }

  /**
   * The saved files hold, in index order, exactly the images of the successful
   * downloads among the requested URLs.
   */
  lemma {:induction false} HarvestSavesInOrder(thumbs: seq<Thumbnail>, target: int, fetch: string -> Fetch, p: Progress)
    ensures |p.requested| <= |Harvest(thumbs, target, fetch, p).requested|
    ensures var r := Harvest(thumbs, target, fetch, p);
      SavedFrom(r.dir, p.count, Saved(r.requested[|p.requested|..], fetch))
    decreases |thumbs|
  {
    HarvestLog(thumbs, target, fetch, p);
    var r := Harvest(thumbs, target, fetch, p);
    if thumbs != [] && p.count < target {
      HarvestSavesInOrder(thumbs[1..], target, fetch, Step(p, thumbs[0], fetch));
      SavesInOrderStep(thumbs, target, fetch, p);
    } else {
      assert r.requested[|p.requested|..] == [];
    }
  }

  /** One pass of the loop puts its image, if any, under the current index, ahead of the later ones. */
  lemma SavesInOrderStep(thumbs: seq<Thumbnail>, target: int, fetch: string -> Fetch, p: Progress)
    requires thumbs != [] && p.count < target
    requires var q := Step(p, thumbs[0], fetch);
      var r := Harvest(thumbs[1..], target, fetch, q);
      |q.requested| <= |r.requested| && SavedFrom(r.dir, q.count, Saved(r.requested[|q.requested|..], fetch))
    ensures var r := Harvest(thumbs, target, fetch, p);
      |p.requested| <= |r.requested| && SavedFrom(r.dir, p.count, Saved(r.requested[|p.requested|..], fetch))
  {
    var q := Step(p, thumbs[0], fetch);
    var r := Harvest(thumbs[1..], target, fetch, q);
    assert r == Harvest(thumbs, target, fetch, p);
    StepSaves(p, thumbs[0], fetch);
    HarvestLog(thumbs[1..], target, fetch, q);
    var added := r.requested[|p.requested|..];
    var later := r.requested[|q.requested|..];
    LogSplit(p.requested, RequestsOf(thumbs[0]), r.requested);
    SavedAppend(RequestsOf(thumbs[0]), later, fetch);
    var img := Attempt(thumbs[0], fetch);
    if img.Some? {
      assert Saved(added, fetch) == [img.value] + Saved(later, fetch);
      HarvestKeepsOthers(thumbs[1..], target, fetch, q);
      IndexedAbove(p.count, q.count, r.count);
      SavedFromCons(r.dir, p.count, img.value, Saved(later, fetch));
    } else {
      assert Saved(added, fetch) == Saved(later, fetch);
    }
  }


  /** Starting on a fresh directory, the files are exactly 0000.jpg up to the count, all passing the gate. */
  lemma FreshCategoryFiles(thumbs: seq<Thumbnail>, target: int, fetch: string -> Fetch, log: seq<string>)
    ensures var r := Harvest(thumbs, target, fetch, Progress(0, map[], log));
      && (r.count == 0 || r.count <= target)
      && r.dir.Keys == Indexed(0, r.count)
      && forall i: nat :: i < r.count ==> Acceptable(r.dir[Filename(i)])
  {
    var p := Progress(0, map[], log);
    HarvestLog(thumbs, target, fetch, p);
    HarvestKeys(thumbs, target, fetch, p);
    HarvestCounts(thumbs, target, fetch, p);
    HarvestSavesInOrder(thumbs, target, fetch, p);
  }

  /** Only the count and the directory decide where the loop goes; the request log does not. */
  lemma {:induction false} HarvestIgnoresLog(thumbs: seq<Thumbnail>, target: int, fetch: string -> Fetch, p: Progress, p': Progress)
    requires p.count == p'.count && p.dir == p'.dir
    ensures Harvest(thumbs, target, fetch, p).count == Harvest(thumbs, target, fetch, p').count
    ensures Harvest(thumbs, target, fetch, p).dir == Harvest(thumbs, target, fetch, p').dir
    decreases |thumbs|
  {
    if thumbs != [] && p.count < target {
      HarvestIgnoresLog(thumbs[1..], target, fetch, Step(p, thumbs[0], fetch), Step(p', thumbs[0], fetch));
    }
  }

  /** How many images the loop saves depends only on the count it starts from, not on the files already there or the log. */
  lemma {:induction false} HarvestCountIgnoresFiles(thumbs: seq<Thumbnail>, target: int, fetch: string -> Fetch, p: Progress, p': Progress)
    requires p.count == p'.count
    ensures Harvest(thumbs, target, fetch, p).count == Harvest(thumbs, target, fetch, p').count
    decreases |thumbs|
  {
    if thumbs != [] && p.count < target {
      HarvestCountIgnoresFiles(thumbs[1..], target, fetch, Step(p, thumbs[0], fetch), Step(p', thumbs[0], fetch));
    }
  }

  /**
   * A thumbnail that saves nothing (it raises, has no web preview, or its download
   * fails) is as if it were not there: it takes no index and leaves the same files.
   * One that raises or has no web preview does not even show in the request log.
   */
  lemma {:induction false} FailedThumbnailSkipped(pre: seq<Thumbnail>, t: Thumbnail, suf: seq<Thumbnail>,
                                                  target: int, fetch: string -> Fetch, p: Progress)
    requires Attempt(t, fetch).None?
    ensures Harvest(pre + [t] + suf, target, fetch, p).count == Harvest(pre + suf, target, fetch, p).count
    ensures Harvest(pre + [t] + suf, target, fetch, p).dir == Harvest(pre + suf, target, fetch, p).dir
    ensures Target(t).None? ==> Harvest(pre + [t] + suf, target, fetch, p) == Harvest(pre + suf, target, fetch, p)
    decreases |pre|
  {
    if pre == [] {
      assert pre + [t] + suf == [t] + suf && ([t] + suf)[1..] == suf && pre + suf == suf;
      if p.count < target {
        assert Step(p, t, fetch).count == p.count && Step(p, t, fetch).dir == p.dir;
        assert Target(t).None? ==> Step(p, t, fetch) == p;
        HarvestIgnoresLog(suf, target, fetch, Step(p, t, fetch), p);
      }
    } else {
      assert (pre + [t] + suf)[1..] == pre[1..] + [t] + suf;
      assert (pre + suf)[1..] == pre[1..] + suf;
      if p.count < target {
        FailedThumbnailSkipped(pre[1..], t, suf, target, fetch, Step(p, pre[0], fetch));
      }
    }
  }

  /** Once the thumbnails handled so far have met the target, the rest are never touched. */
  lemma {:induction false} StopsAtTarget(pre: seq<Thumbnail>, suf: seq<Thumbnail>, target: int,
                                         fetch: string -> Fetch, p: Progress)
    requires Harvest(pre, target, fetch, p).count >= target
    ensures Harvest(pre + suf, target, fetch, p) == Harvest(pre, target, fetch, p)
    decreases |pre|
  {
    if pre == [] {
      assert pre + suf == suf;
    } else if p.count < target {
      assert (pre + suf)[1..] == pre[1..] + suf;
      StopsAtTarget(pre[1..], suf, target, fetch, Step(p, pre[0], fetch));
    }
  }

  /**
   * Previews after the first one with a web `src` are never looked at: the same URL
   * is requested, and the outcome is the same, whether that download works or not.
   */
  lemma {:induction false} LaterPreviewsIgnored(srcs: seq<Option<string>>, more: seq<Option<string>>, fetch: string -> Fetch)
    requires FirstWebIndex(srcs).Some?
    ensures Candidate(srcs + more) == Candidate(srcs)
    ensures Attempt(Previews(srcs + more), fetch) == Attempt(Previews(srcs), fetch)
  {
    var k := FirstWebIndex(srcs).value;
    var all := srcs + more;
    assert all[k] == srcs[k];
    assert forall j :: 0 <= j < k ==> all[j] == srcs[j];
  }
}

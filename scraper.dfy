/**
 * The scraper object and its driver, with the browser and the network replaced
 * by scripted oracles: `web` gives the page the browser renders for an address,
 * `fetch` what downloading and decoding a URL gives. The output directory is a
 * map from category to that category's files, which the scraper updates in place.
 */
module Scraper {
  import opened Wrappers
  import opened ImageNames
  import opened SearchUrls
  import opened Pagination
  import opened Ingestion

  /** The cookie-consent dialog as a page presents it. */
  datatype ConsentDialog =
    | NoButton      // no clickable "Accept all" button within the wait
    | AcceptButton  // the button appears and the click goes through
    | ClickFails    // the button appears but clicking it raises

  /** What the browser shows for one address: consent dialog, scroll heights, thumbnails. */
  datatype Page = Page(consent: ConsentDialog, initialHeight: int, heights: seq<int>, thumbnails: seq<Thumbnail>)

  /** Number of images asked for per category. */
  const NumImagesPerCategory: nat := 120

  /** The categories `main` scrapes, in the order of its dictionary, with their search terms. */
  const FoodMap: seq<(string, string)> := [
    ("sate", "sate ayam madura"),
    ("bakso", "bakso kuah sapi"),
    ("martabak", "martabak manis terang bulan")
  ]

  /** The page for `term` either fails to load or its scrolling comes to rest within the script. */
  predicate ScrollEnds(web: string -> Option<Page>, term: string)
  {
    web(SearchUrl(term)).Some? ==>
      Settles(web(SearchUrl(term)).value.initialHeight, web(SearchUrl(term)).value.heights)
  }

  /** The files of a category directory; `os.makedirs(..., exist_ok=True)` keeps an existing one. */
  function DirOf(disk: map<string, map<string, Image>>, category: string): map<string, Image>
  {
    if category in disk then disk[category] else map[]
  }

  class GoogleImageScraper {
    /** The output directory: category name to the files saved in its subdirectory. */
    var disk: map<string, map<string, Image>>
    /** Every URL handed to the HTTP client, in order. */
    var requested: seq<string>
    /** How many times the consent button was clicked successfully. */
    var consentsAccepted: nat
    /** How many times the driver has been quit. */
    var quitCalls: nat

    /** A scraper whose driver started, over an output directory with contents `disk0`. */
    constructor (disk0: map<string, map<string, Image>>)
      ensures disk == disk0 && requested == [] && consentsAccepted == 0 && quitCalls == 0
    {
      disk := disk0;
      requested := [];
      consentsAccepted := 0;
      quitCalls := 0;
    }

    /** `_handle_consent`: clicks the button when there is one; every failure is swallowed. */
    method HandleConsent(dialog: ConsentDialog)
      modifies this`consentsAccepted
      ensures consentsAccepted == old(consentsAccepted) + (if dialog == AcceptButton then 1 else 0)
    {
      match dialog
      case NoButton =>
      case ClickFails =>
      case AcceptButton =>
        consentsAccepted := consentsAccepted + 1;
    }

    /**
     * `_download_image`: one request; on a decodable image of at least MinSide by
     * MinSide, saves it as RGB under the name of `index`. Every failure, including
     * a missing directory at save time, gives false and writes nothing.
     */
    method DownloadImage(url: string, category: string, index: nat, fetch: string -> Fetch) returns (ok: bool)
      modifies this`disk, this`requested
      ensures requested == old(requested) + [url]
      ensures ok <==> category in old(disk) && Validate(fetch(url)).Some?
      ensures ok ==> disk == old(disk)[category := old(disk)[category][Filename(index) := Validate(fetch(url)).value]]
      ensures !ok ==> disk == old(disk)
    {
      requested := requested + [url];
      var response := fetch(url);
      if response.FetchFailed? {
        return false;
      }
      var img := response.image;
      if img.width < MinSide || img.height < MinSide {
        return false;
      }
      if img.mode != RGB {
        img := img.(mode := RGB);
      }
      if category !in disk {
        return false;
      }
      disk := disk[category := disk[category][Filename(index) := img]];
      ok := true;
    }

    /**
     * `scrape_images`: creates the category directory, loads the search page
     * (None when loading raises), handles consent, scrolls until the height has
     * stalled, then walks the thumbnails in order as Harvest describes.
     */
    method ScrapeImages(term: string, category: string, numImages: int,
                        web: string -> Option<Page>, fetch: string -> Fetch) returns (result: Option<nat>)
      requires ScrollEnds(web, term)
      modifies this`disk, this`requested, this`consentsAccepted
      ensures category in disk
      ensures web(SearchUrl(term)).None? ==>
        && result.None?
        && disk == old(disk)[category := DirOf(old(disk), category)]
        && requested == old(requested)
        && consentsAccepted == old(consentsAccepted)
      ensures web(SearchUrl(term)).Some? ==>
        var page := web(SearchUrl(term)).value;
        var r := Harvest(page.thumbnails, numImages, fetch, Progress(0, DirOf(old(disk), category), old(requested)));
        && result == Some(r.count)
        && disk == old(disk)[category := r.dir]
        && requested == r.requested
        && consentsAccepted == old(consentsAccepted) + (if page.consent == AcceptButton then 1 else 0)
    {
      disk := disk[category := DirOf(disk, category)];
      var loaded := web(SearchUrl(term));
      if loaded.None? {
        return None;
      }
      var page := loaded.value;
      HandleConsent(page.consent);
      var cycles := ScrollUntilStalled(page.initialHeight, page.heights);

      var count := DownloadThumbnails(page.thumbnails, category, numImages, fetch);
      result := Some(count);
    }

    /**
     * The thumbnail loop: visits the thumbnails in order and stops before the next
     * one once `numImages` images are saved; the images are numbered from 0 in
     * the category directory.
     */
    method DownloadThumbnails(thumbs: seq<Thumbnail>, category: string, numImages: int, fetch: string -> Fetch)
      returns (count: nat)
      requires category in disk
      modifies this`disk, this`requested
      ensures var r := Harvest(thumbs, numImages, fetch, Progress(0, old(disk)[category], old(requested)));
        && category in disk
        && count == r.count
        && disk == old(disk)[category := r.dir]
        && requested == r.requested
    {
      ghost var final := Harvest(thumbs, numImages, fetch, Progress(0, disk[category], requested));
      count := 0;
      var i := 0;
      while i < |thumbs|
        invariant 0 <= i <= |thumbs|
        invariant category in disk
        invariant disk == old(disk)[category := disk[category]]
        invariant Harvest(thumbs[i..], numImages, fetch, Progress(count, disk[category], requested)) == final
        decreases |thumbs| - i
      {
        if count >= numImages {
          break;
        }
        assert thumbs[i..][1..] == thumbs[i + 1..];
        count := VisitThumbnail(thumbs[i], category, count, fetch);
        i := i + 1;
      }
    }

    /**
     * One pass of the thumbnail loop: find the first usable preview address and
     * download it under the index `count`, which grows on success. A thumbnail
     * whose click raises is skipped.
     */
    method VisitThumbnail(thumb: Thumbnail, category: string, count: nat, fetch: string -> Fetch) returns (next: nat)
      requires category in disk
      modifies this`disk, this`requested
      ensures category in disk && disk == old(disk)[category := disk[category]]
      ensures Progress(next, disk[category], requested) == Step(Progress(count, old(disk)[category], old(requested)), thumb, fetch)
    {
      next := count;
      match thumb {
        case Throws =>
        case Previews(srcs) =>
          var url := ResolveCandidate(srcs);
          if url.Some? {
            assert RequestsOf(thumb) == [url.value];
            var ok := DownloadImage(url.value, category, count, fetch);
            if ok {
              next := count + 1;
            }
          }
      }
    }

    /** `close`: quits the driver. */
    method Close()
      modifies this`quitCalls
      ensures quitCalls == old(quitCalls) + 1
    {
      quitCalls := quitCalls + 1;
    }
  }

  /** What the category loop of `main` leaves: the counts returned, whether a category raised, the output directory and the request log. */
  datatype Run = Run(counts: seq<nat>, raised: bool, disk: map<string, map<string, Image>>, requested: seq<string>)

  /**
   * The category loop of `main` over `categories`, from the output directory
   * `disk` and the request log `requested`: each category's directory is created,
   * and a page that fails to load raises and ends the loop; otherwise the
   * category's thumbnails are harvested from count 0 and the next category starts
   * from the directory and log that leaves.
   */
  function ScrapeAll(categories: seq<(string, string)>, numImages: int, web: string -> Option<Page>, fetch: string -> Fetch,
                     disk: map<string, map<string, Image>>, requested: seq<string>): (run: Run)
    ensures |run.counts| <= |categories|
    decreases |categories|
  {
    if categories == [] then Run([], false, disk, requested)
    else
      var category := categories[0].0;
      match web(SearchUrl(categories[0].1))
      case None => Run([], true, disk[category := DirOf(disk, category)], requested)
      case Some(page) =>
        var r := Harvest(page.thumbnails, numImages, fetch, Progress(0, DirOf(disk, category), requested));
        var rest := ScrapeAll(categories[1..], numImages, web, fetch, disk[category := r.dir], r.requested);
        Run([r.count] + rest.counts, rest.raised, rest.disk, rest.requested)
  }

  /**
   * The loop returns one count per category in order until one raises: it raises
   * exactly when it stops early, and then at a category whose page failed to load.
   * Count k is what harvesting category k's thumbnails gives, whatever the
   * directory and log held before, so it is 0 or at most the number asked for.
   */
  lemma {:induction false} ScrapeAllCounts(categories: seq<(string, string)>, numImages: int, web: string -> Option<Page>,
                                           fetch: string -> Fetch, disk: map<string, map<string, Image>>, requested: seq<string>)
    ensures var r := ScrapeAll(categories, numImages, web, fetch, disk, requested);
      && |r.counts| <= |categories|
      && (r.raised <==> |r.counts| < |categories|)
      && (r.raised ==> web(SearchUrl(categories[|r.counts|].1)).None?)
      && forall k :: 0 <= k < |r.counts| ==>
           && web(SearchUrl(categories[k].1)).Some?
           && r.counts[k] == Harvest(web(SearchUrl(categories[k].1)).value.thumbnails, numImages, fetch, Progress(0, map[], [])).count
           && (r.counts[k] == 0 || r.counts[k] <= numImages)
    decreases |categories|
  {
    if categories != [] {
      var category := categories[0].0;
      var loaded := web(SearchUrl(categories[0].1));
      if loaded.Some? {
        var p := Progress(0, DirOf(disk, category), requested);
        var r := Harvest(loaded.value.thumbnails, numImages, fetch, p);
        HarvestLog(loaded.value.thumbnails, numImages, fetch, p);
        HarvestCountIgnoresFiles(loaded.value.thumbnails, numImages, fetch, p, Progress(0, map[], []));
        var rest := ScrapeAll(categories[1..], numImages, web, fetch, disk[category := r.dir], r.requested);
        ScrapeAllCounts(categories[1..], numImages, web, fetch, disk[category := r.dir], r.requested);
        var counts := [r.count] + rest.counts;
        forall k | 1 <= k < |counts|
          ensures counts[k] == rest.counts[k - 1] && categories[k] == categories[1..][k - 1]
        {
        }
      }
    }
  }

  /**
   * Every directory that existed still exists, and a directory whose category was
   * not harvested keeps its files: one not in the list, one listed after the
   * category that raised, and that category's own (`makedirs(..., exist_ok=True)`).
   */
  lemma {:induction false} ScrapeAllKeepsOthers(categories: seq<(string, string)>, numImages: int, web: string -> Option<Page>,
                                                fetch: string -> Fetch, disk: map<string, map<string, Image>>, requested: seq<string>)
    ensures var r := ScrapeAll(categories, numImages, web, fetch, disk, requested);
      && disk.Keys <= r.disk.Keys
      && forall c :: c in disk && (forall k :: 0 <= k < |r.counts| ==> categories[k].0 != c) ==> r.disk[c] == disk[c]
    decreases |categories|
  {
    if categories != [] {
      var category := categories[0].0;
      var loaded := web(SearchUrl(categories[0].1));
      if loaded.Some? {
        var h := Harvest(loaded.value.thumbnails, numImages, fetch, Progress(0, DirOf(disk, category), requested));
        var rest := ScrapeAll(categories[1..], numImages, web, fetch, disk[category := h.dir], h.requested);
        var r := ScrapeAll(categories, numImages, web, fetch, disk, requested);
        assert r.counts == [h.count] + rest.counts;
        ScrapeAllKeepsOthers(categories[1..], numImages, web, fetch, disk[category := h.dir], h.requested);
        forall c | c in disk && (forall k :: 0 <= k < |r.counts| ==> categories[k].0 != c)
          ensures forall k :: 0 <= k < |rest.counts| ==> categories[1..][k].0 != c
        {
          assert categories[0].0 != c;
          forall k | 0 <= k < |rest.counts|
            ensures categories[1..][k].0 != c
          {
            assert categories[1..][k] == categories[k + 1];
          }
        }
      }
    }
  }

  /** The loop's result after `counts` were returned, when what is left of it gives `rest`. */
  function After(counts: seq<nat>, rest: Run): Run
  {
    Run(counts + rest.counts, rest.raised, rest.disk, rest.requested)
  }

  lemma AfterNothing(counts: seq<nat>, disk: map<string, map<string, Image>>, requested: seq<string>)
    ensures After(counts, Run([], false, disk, requested)) == Run(counts, false, disk, requested)
    ensures After(counts, Run([], true, disk, requested)) == Run(counts, true, disk, requested)
  {
    assert counts + [] == counts;
  }

  lemma AfterOne(counts: seq<nat>, count: nat, rest: Run)
    ensures After(counts, Run([count] + rest.counts, rest.raised, rest.disk, rest.requested)) == After(counts + [count], rest)
  {
    assert counts + ([count] + rest.counts) == counts + [count] + rest.counts;
  }

  /** The loop from category k on: category k is scraped, then the loop goes on from k + 1 unless it raised. */
  lemma ScrapeAllFrom(categories: seq<(string, string)>, k: nat, numImages: int, web: string -> Option<Page>,
                      fetch: string -> Fetch, disk: map<string, map<string, Image>>, requested: seq<string>)
    requires k < |categories|
    ensures var category := categories[k].0;
      ScrapeAll(categories[k..], numImages, web, fetch, disk, requested) ==
        match web(SearchUrl(categories[k].1))
        case None => Run([], true, disk[category := DirOf(disk, category)], requested)
        case Some(page) =>
          var r := Harvest(page.thumbnails, numImages, fetch, Progress(0, DirOf(disk, category), requested));
          var rest := ScrapeAll(categories[k + 1..], numImages, web, fetch, disk[category := r.dir], r.requested);
          Run([r.count] + rest.counts, rest.raised, rest.disk, rest.requested)
  {
    assert categories[k..][0] == categories[k] && categories[k..][1..] == categories[k + 1..];
  }

  /** How `main` ends. */
  datatype JobOutcome =
    | BackendFailed                                                      // the driver did not start; raised before the try
    | Completed(counts: seq<nat>, quitCalls: nat, files: map<string, map<string, Image>>)  // every category scraped
    | Raised(counts: seq<nat>, quitCalls: nat, files: map<string, map<string, Image>>)     // a category raised after `counts` were done

  /**
   * `main`: starts one scraper and scrapes the categories in order, asking for
   * `numImages` each (FoodMap and NumImagesPerCategory in the program). The
   * `finally` quits the driver exactly once, whether every category finished or
   * one raised, which ends the loop. The counts and the output directory are
   * those of `ScrapeAll` from the directory the scraper started with.
   */
  method RunMain(categories: seq<(string, string)>, numImages: int, backendStarts: bool,
                 disk0: map<string, map<string, Image>>,
                 web: string -> Option<Page>, fetch: string -> Fetch) returns (outcome: JobOutcome)
    requires forall k :: 0 <= k < |categories| ==> ScrollEnds(web, categories[k].1)
    ensures outcome.BackendFailed? <==> !backendStarts
    ensures !outcome.BackendFailed? ==> outcome.quitCalls == 1
    ensures !outcome.BackendFailed? ==>
      var run := ScrapeAll(categories, numImages, web, fetch, disk0, []);
      outcome.counts == run.counts && outcome.files == run.disk && (outcome.Raised? <==> run.raised)
    ensures outcome.Completed? ==> |outcome.counts| == |categories|
    ensures outcome.Raised? ==>
      |outcome.counts| < |categories| && web(SearchUrl(categories[|outcome.counts|].1)).None?
    ensures !outcome.BackendFailed? ==> forall k :: 0 <= k < |outcome.counts| ==>
      web(SearchUrl(categories[k].1)).Some? && (outcome.counts[k] == 0 || outcome.counts[k] <= numImages)
  {
    if !backendStarts {
      return BackendFailed;
    }
    var scraper := new GoogleImageScraper(disk0);
    var counts, failed := ScrapeCategories(scraper, categories, numImages, web, fetch);
    ScrapeAllCounts(categories, numImages, web, fetch, disk0, []);
    scraper.Close();
    if failed {
      outcome := Raised(counts, scraper.quitCalls, scraper.disk);
    } else {
      outcome := Completed(counts, scraper.quitCalls, scraper.disk);
    }
  }

  /**
   * The `for` loop of `main`: scrapes the categories in order with one scraper and
   * stops at the first that raises. It leaves exactly the counts, directory and
   * request log of `ScrapeAll`, and does not quit the driver.
   */
  method ScrapeCategories(scraper: GoogleImageScraper, categories: seq<(string, string)>, numImages: int,
                          web: string -> Option<Page>, fetch: string -> Fetch) returns (counts: seq<nat>, failed: bool)
    requires forall k :: 0 <= k < |categories| ==> ScrollEnds(web, categories[k].1)
    modifies scraper`disk, scraper`requested, scraper`consentsAccepted
    ensures Run(counts, failed, scraper.disk, scraper.requested)
         == ScrapeAll(categories, numImages, web, fetch, old(scraper.disk), old(scraper.requested))
  {
    ghost var run := ScrapeAll(categories, numImages, web, fetch, scraper.disk, scraper.requested);
    counts := [];
    failed := false;
    var k := 0;
    while k < |categories|
      invariant 0 <= k <= |categories|
      invariant After(counts, ScrapeAll(categories[k..], numImages, web, fetch, scraper.disk, scraper.requested)) == run
    {
      var category := categories[k].0;
      var term := categories[k].1;
      ghost var disk, requested := scraper.disk, scraper.requested;
      ScrapeAllFrom(categories, k, numImages, web, fetch, disk, requested);
      var scraped := scraper.ScrapeImages(term, category, numImages, web, fetch);
      if scraped.None? {
        AfterNothing(counts, scraper.disk, scraper.requested);
        failed := true;
        return;
      }
      AfterOne(counts, scraped.value, ScrapeAll(categories[k + 1..], numImages, web, fetch, scraper.disk, scraper.requested));
      counts := counts + [scraped.value];
      k := k + 1;
    }
    assert categories[k..] == [];
    AfterNothing(counts, scraper.disk, scraper.requested);
  }

  /**
   * `main` as the program runs it: the three food categories in dictionary order,
   * 120 images asked for each.
   */
  method ScrapeFoodMap(backendStarts: bool, disk0: map<string, map<string, Image>>,
                       web: string -> Option<Page>, fetch: string -> Fetch) returns (outcome: JobOutcome)
    requires forall k :: 0 <= k < |FoodMap| ==> ScrollEnds(web, FoodMap[k].1)
    ensures outcome.BackendFailed? <==> !backendStarts
    ensures !outcome.BackendFailed? ==> outcome.quitCalls == 1 && |outcome.counts| <= 3
    ensures !outcome.BackendFailed? ==> forall k :: 0 <= k < |outcome.counts| ==> outcome.counts[k] <= 120
    ensures outcome.Raised? ==> |outcome.counts| < 3 && web(SearchUrl(FoodMap[|outcome.counts|].1)).None?
    ensures !outcome.BackendFailed? ==>
      var run := ScrapeAll(FoodMap, NumImagesPerCategory, web, fetch, disk0, []);
      outcome.counts == run.counts && outcome.files == run.disk
  {
    outcome := RunMain(FoodMap, NumImagesPerCategory, backendStarts, disk0, web, fetch);
  }
}

# Indonesian street food classification: scraper and train/validation split

This project models the data-collection half of the Indonesian street food classifier. It has two parts.

- **The image scraper** (`GoogleImageScraper` in `src/data_scraper.py`):
  - builds the image-search address for a search term and handles the cookie-consent dialog;
  - scrolls the results page until five reads in a row find its height unchanged (any change resets the count);
  - walks the thumbnails in page order, downloading the first web preview of each;
  - keeps an image only if it decodes and is at least 100 by 100 pixels, converts it to RGB, and saves it as `0000.jpg`, `0001.jpg`, …;
  - stops once the requested number of images is saved.

  `main` runs this for the three food categories and always quits the browser at the end.
- **The split** (`DataPreprocessor` in `src/data_preprocessing.py`):
  - finds the categories (the subdirectories of the raw directory);
  - does nothing if the processed directory already exists;
  - otherwise, for each category, shuffles the `.jpg` names (case-insensitive), copies the first `int(n * train_ratio)` to `train/<category>` (modelled with the ratio as a whole percentage, see below) and the rest to `validation/<category>`.

The browser and the network are replaced by scripted oracles:

- `web` maps an address to the page the browser shows: consent dialog, scroll heights, thumbnails. `None` means loading it raised.
- `fetch` maps a URL to what downloading and decoding it gives.
- `Shuffle` takes the random draws as a parameter.

The modules:

- `Strings`: the string helpers.
- `ImageNames`: `f"{index:04d}.jpg"` and reading such a name back.
- `SearchUrls`: the search address.
- `Pagination`: the scroll loop.
- `Ingestion`: the thumbnail loop as pure functions (`Harvest`), with lemmas.
- `Scraper`: the scraper class, `main`, and its category loop as a function (`ScrapeAll`).
- `Splitting`: the pure parts of the split.
- `Preprocessing`: the preprocessor class.

Imperative code in the source is modelled as classes and methods, each proved against a specification function:

- `ScrapeImages` and `DownloadThumbnails` against `Harvest`;
- `ScrapeCategories` (the loop of `main`) against `ScrapeAll`;
- `ScrollUntilStalled` against `StalledAfter`;
- `ResolveCandidate` against `Candidate`;
- `SplitData` against `Splits`.

## Model

| member | source | states |
|---|---|---|
| `ImageNames.Filename` | src/data_scraper.py:108 | the name is at least `0000.jpg` long, ends in `.jpg` with only digits before it, and is exactly 8 characters for indices below 10000 |
| `ImageNames.FilenameRoundTrip` | src/data_scraper.py:108 | reading the digits of `f"{index:04d}.jpg"` gives back the index, for every index including those past 9999 |
| `ImageNames.FilenameInjective` | src/data_scraper.py:108-109 | distinct indices give distinct file names, so no save overwrites another save of the same run |
| `SearchUrls.ReplaceChar` | src/data_scraper.py:51 | `replace` of one character by another, as `replace(' ', '+')` uses it: same length, each occurrence replaced, every other character kept |
| `SearchUrls.SearchUrl` | src/data_scraper.py:51 | the address is the fixed prefix, the term with spaces replaced, and the `&tbm=isch` suffix |
| `SearchUrls.SearchTermRecovered` | src/data_scraper.py:51 | the query has no space, and a term without '+' is recovered from its address |
| `SearchUrls.SpaceAndPlusCollide` | src/data_scraper.py:51 | "sate ayam" and "sate+ayam" share one address (no escaping of '+') |
| `Pagination.ScrollUntilStalled` | src/data_scraper.py:56-66 | the loop stops after exactly the first scroll cycle at which the last five reads each found the height unchanged |
| `Pagination.ChangeThenSettle` | src/data_scraper.py:56-66 | a feed whose height changes on each of its first k reads and then stays the same for five stops after exactly k + 5 cycles (any change, up or down, resets the counter) |
| `Pagination.FlatPageStopsAfterThreshold` | src/data_scraper.py:56-66 | a page whose height never changes is left after exactly five cycles |
| `Ingestion.FirstWebIndex` | src/data_scraper.py:85-87 | the position found is the first preview whose `src` is present and starts with "http"; none is found only when no preview qualifies |
| `Ingestion.ResolveCandidate` | src/data_scraper.py:85-92 | the preview scan returns the first web `src` and looks no further |
| `Ingestion.Validate` | src/data_scraper.py:99-106 | an image is kept iff the fetch decoded and both sides are at least 100; what is kept is RGB with the same size |
| `Ingestion.HarvestLog` | src/data_scraper.py:72-94 | the count never drops and passes the target only if it started above it; at most as many URLs are requested as there are thumbnails; the request log is only appended to |
| `Ingestion.HarvestCounts` | src/data_scraper.py:72-94 | the count returned is the number of requested URLs whose download was kept |
| `Ingestion.HarvestKeys` | src/data_scraper.py:72-94 | the directory afterwards holds the old files plus exactly the names of the indices from the starting count to the final count |
| `Ingestion.HarvestKeepsOthers` | src/data_scraper.py:72-94 | a file whose name is not one of the new indices keeps its contents |
| `Ingestion.HarvestSavesInOrder` | src/data_scraper.py:72-94 | the new files hold, in index order, exactly the images of the kept downloads among the requested URLs |
| `Ingestion.FreshCategoryFiles` | src/data_scraper.py:72-94 | in an empty directory the files are exactly `0000.jpg` up to the count, all at least 100 by 100 and RGB, and the count is 0 or at most the target |
| `Ingestion.HarvestIgnoresLog` | src/data_scraper.py:72-94 | only the count and the directory decide the outcome; the request log does not |
| `Ingestion.HarvestCountIgnoresFiles` | src/data_scraper.py:72-94 | how many images a category gets depends only on the count it starts from (0 in `scrape_images`), not on files already in the directory or on earlier requests |
| `Ingestion.FailedThumbnailSkipped` | src/data_scraper.py:76-94 | a thumbnail that saves nothing takes no index and changes no file; if it raised or had no web preview it is as if it were absent |
| `Ingestion.StopsAtTarget` | src/data_scraper.py:73-75 | once the target is met, the remaining thumbnails are never touched |
| `Ingestion.LaterPreviewsIgnored` | src/data_scraper.py:85-92 | previews after the first web `src` change neither the URL nor the outcome, whether that download works or not |
| `Scraper.GoogleImageScraper.constructor` | src/data_scraper.py:16-31 | a started scraper has requested nothing and quit nothing, over the given output directory |
| `Scraper.GoogleImageScraper.HandleConsent` | src/data_scraper.py:33-44 | the button is clicked only when it is there and clickable; every failure is swallowed |
| `Scraper.GoogleImageScraper.DownloadImage` | src/data_scraper.py:99-112 | one request is made; the result is true iff the directory exists and the image passes the gate, and then exactly `f"{index:04d}.jpg"` is written with the RGB image; on false nothing is written |
| `Scraper.GoogleImageScraper.ScrapeImages` | src/data_scraper.py:46-97 | the category directory exists afterwards; a page that fails to load raises with nothing downloaded; otherwise consent is handled once and the count, files and requests are those `Harvest` gives from count 0 |
| `Scraper.GoogleImageScraper.DownloadThumbnails` | src/data_scraper.py:72-94 | the loop leaves exactly the count, directory and request log of `Harvest` |
| `Scraper.GoogleImageScraper.VisitThumbnail` | src/data_scraper.py:76-94 | one pass of the loop body is one `Step` of the specification |
| `Scraper.GoogleImageScraper.Close` | src/data_scraper.py:114-115 | the driver is quit once more |
| `Scraper.ScrapeAllCounts` | src/data_scraper.py:127-130 | the category loop returns one count per category in order and raises exactly when it stops early, at a category whose page failed to load; count k is what harvesting category k's thumbnails from count 0 gives, so it is 0 or at most the number asked for |
| `Scraper.ScrapeAllKeepsOthers` | src/data_scraper.py:127-130 | every directory that existed still exists, and one whose category was not harvested keeps its files: not in the list, listed after the category that raised, or that category itself |
| `Scraper.ScrapeCategories` | src/data_scraper.py:127-130 | the loop over the categories, one scraper for all, leaves exactly the counts, output directory and request log of `ScrapeAll` |
| `Scraper.RunMain` | src/data_scraper.py:117-133 | a driver that fails to start raises before the `try`; otherwise the driver is quit exactly once, and the counts, the output directory and whether it raised are those of `ScrapeAll` from the starting directory: one count per category in order, each 0 or at most the number asked for, and a raise only at a category whose page failed to load |
| `Scraper.ScrapeFoodMap` | src/data_scraper.py:117-133 | the program's own call: at most three categories, at most 120 images each, the driver quit exactly once, and the counts and directory of `ScrapeAll` over the three food categories |
| `Splitting.IsJpgByCharacters` | src/data_preprocessing.py:32 | `f.lower().endswith('.jpg')` holds iff the name ends in '.' and then j, p, g in either case |
| `Splitting.JpgExamples` | src/data_preprocessing.py:32 | `X.JPG`, `0000.jpg` and `a.Jpg` are selected; `x.png`, `x.jpeg` and `jpg` are not |
| `Splitting.JpgImagesSelects` | src/data_preprocessing.py:32 | the selection keeps exactly the names that pass the test, each as often as the listing has it |
| `Splitting.Shuffle` | src/data_preprocessing.py:33 | the shuffle is a permutation: same length, same multiset |
| `Splitting.TrainSize` | src/data_preprocessing.py:35-36 | the number of training images for every whole percentage: `n * percent / 100` truncated toward zero for 0..100 percent (equal to `int(n * ratio)` for the default 0.8), all for ratios above, the Python slice reading for negative ones |
| `Splitting.SplitPartition` | src/data_preprocessing.py:36-37 | the two slices put back together give the shuffled list |
| `Splitting.SplitIsPartition` | src/data_preprocessing.py:32-42 | over a listing without repeats, every `.jpg` file goes to exactly one of the two sets, nothing else does, and the sizes add up |
| `Preprocessing.Categories` | src/data_preprocessing.py:17 | the categories are exactly the entries of the raw directory that are directories |
| `Preprocessing.SplitsGrow` | src/data_preprocessing.py:26-42 | splitting one more category leaves the splits already done unchanged |
| `Preprocessing.CategoryCopied` | src/data_preprocessing.py:28-42 | giving a category the two parts of an order of its `.jpg` names as its training and validation files splits it and keeps the splits already done |
| `Preprocessing.SplitsPartition` | src/data_preprocessing.py:32-42 | for every split category whose listing has no repeats, the `.jpg` files are partitioned between training and validation |
| `Preprocessing.DataPreprocessor.constructor` | src/data_preprocessing.py:8-17 | the categories are those of the raw directory, and nothing is split yet |
| `Preprocessing.DataPreprocessor.SplitData` | src/data_preprocessing.py:19-43 | an existing processed directory is left alone; otherwise every category gets both directories and is split through some permutation of its `.jpg` names |
| `Preprocessing.DataPreprocessor.SplitCategory` | src/data_preprocessing.py:26-42 | one pass adds the category's two directories and splits it; every other category keeps its directories, its files and its shuffled order |
| `Preprocessing.DataPreprocessor.CopyToTrain` | src/data_preprocessing.py:39-40 | after the loop, the category's training directory holds its old files plus every name copied |
| `Preprocessing.DataPreprocessor.CopyToValidation` | src/data_preprocessing.py:41-42 | after the loop, the category's validation directory holds its old files plus every name copied |

## Left out

- Browser set-up: the Chrome options, the driver manager, headless mode, and the waits and sleeps. These are I/O and timing. A driver that fails to start is the `backendStarts` flag.
- The HTTP client and image library: timeouts, status codes, decoding and the JPEG quality. They are folded into the `fetch` oracle and the `Image` datatype, which keeps only width, height and colour mode.
- `print` output and the progress messages.
- `create_data_generators`, `src/model_training.py` and `api/main.py`: Keras and serving code outside this model.
- `Pagination.ScrollUntilStalled`: requires that the scripted heights eventually stall five times in a row. On a page that never settles, the source loops forever, and a terminating model cannot follow it.
- `Scraper.GoogleImageScraper.ScrapeImages`: requires `ScrollEnds` for the same reason. It models only the page load raising (`web` gives `None`). A scroll script or `find_elements` call that raises is not modelled.
- `Scraper.RunMain`: takes the category list and the image count as parameters; `ScrapeFoodMap` fixes them to the program's values. Its outcome carries the output directory; the number of consent clicks is not part of it.
- `Splitting.Shuffle`: models `random.shuffle` as a Fisher-Yates pass over drawn numbers. The generator itself and the distribution are not modelled.
- `train_ratio` is a float in the source and a whole percentage here. `int()` truncates toward zero, and that is modelled. Ratios that are not a whole percentage are not.
- `Splitting.TrainSize`: the floating-point rounding of `n * train_ratio` is not reproduced; the model multiplies exactly. The two can differ by one: with ratio 0.7 and 90 images the source computes `int(62.99999999999999)`, which is 62, and the model gives 63.
- `str.lower()` is modelled on ASCII letters only. Unicode case mapping is not.
- The listing order of `os.listdir`. The categories form a set, and each category's draws are a function of its name. The result per category does not depend on the order.
- A name that ends in `.jpg` but is a directory: `shutil.copy` would raise on it, and this is not modelled.

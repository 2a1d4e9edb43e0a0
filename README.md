# Gallery pages: lazy-load scheduler, lightbox, page widgets and image manifest

This project models the logic of three static gallery pages and of the
script behind their image list:

- **LazyLoad** (`lazy_load.dfy`) is the lazy-load scheduler. The portrait,
  cinematic and srt pages share it word for word, so it is modelled once, as
  the class `Gallery`, and the table cites whichever page's copy is clearest.
  The matching line ranges are:

  | part | portrait | cinematic | srt |
  |---|---|---|---|
  | `loadInitialBatch` | 36-41 | 33-38 | 27-33 |
  | `loadNextImage` | 43-55 | 40-52 | 35-48 |
  | `createAndPrepareItems` | 57-76 | 54-73 | 50-70 |
  | `processLazyQueue` | 78-96 | 75-93 | 72-91 |
  | observer callback | 99-111 | 96-108 | 97-122 |

  The scheduler has these parts:
  - a FIFO queue `lazyQueue`;
  - an in-flight counter `activeLoads`, capped at MAX_CONCURRENT_LOADS = 6;
  - a cursor `nextImageIndexToLoad` that starts at INITIAL_LOAD_SIZE = 30;
  - a per-item `loadTriggered` flag, which makes an item that comes into view append exactly one more image.

  Fetch completions (`onload`, `onerror`) and IntersectionObserver entries are event methods. Each runs to completion, as callbacks do in a browser.

  Ghost state records every item pushed and dispatched, the finished fetches and the number of `loadNextImage` calls. The invariant `Valid` then states five things:
  - the cap;
  - FIFO dispatch;
  - the counter equals the number of fetches in flight;
  - between events the dispatch loop has run, so the queue is empty or the window is full;
  - the count of created items and the cursor are exact functions of how often `loadNextImage` ran, and every call was triggered by a distinct item.
- **Lightbox** (`lightbox.dfy`) is the lightbox of the portrait and cinematic pages. It opens on a gallery image click, at once or once the image loads. Four paths close it.
- **BackToTop** (`back_to_top.dfy`) is the scroll rule of the back-to-top button.
- **PricingSlider** (`pricing_slider.dfy`) is the cinematic page's `initSwiper` toggle, which keeps a slider only at widths of 768 pixels or less.
- **Manifest** (`manifest.dfy`) is `change_url.py`. It walks `img`, keeps the files whose lower-cased `os.path.splitext` extension is a valid one, and turns each into `{src, alt}`:
  - `alt` is the relative path with backslashes turned into slashes;
  - `src` is that path under BASE_URL.

  It then reverses the list. The walk is an input: one `WalkDir` per directory, in walk order, each holding the relative-path prefix of its files and their names.

## Model

| member | source | states |
|---|---|---|
| LazyLoad.DispatchCount | public/portrait/portrait_script.js:79 | one run of the dispatch loop starts no more items than wait and never passes the cap, and it stops only when the queue is empty or the window is full |
| LazyLoad.TriggeredAfterMeans | public/portrait/portrait_script.js:101-106 | an item is triggered after a batch exactly when it was triggered before or some entry of the batch reports it as intersecting (both directions) |
| LazyLoad.Build | public/portrait/portrait_script.js:60-68 | createAndPrepareItems builds one item per image of the batch |
| LazyLoad.BuildAt | public/portrait/portrait_script.js:60-68 | item k of a built batch carries index first + k and the src and alt of image k of the batch |
| LazyLoad.BoundedCard | public/portrait/portrait_script.js:84-94 | helper of Gallery.Finish: a set of naturals below n has at most n members |
| LazyLoad.MissingBelowCard | public/portrait/portrait_script.js:84-94 | helper of Gallery.Finish: such a set that misses one natural below n has fewer than n members, so the counter of a finishing fetch is at least 1 |
| LazyLoad.TriggeredAfter | public/portrait/portrait_script.js:101-106 | the loadTriggered items after the rule for each entry ran in order: an intersecting entry sets its item's flag, nothing clears one (characterised by TriggeredAfterMeans) |
| LazyLoad.LastEntryFor | public/srt/srt_script.js:98-118 | the position of the last entry of a batch for a given item, or -1; it is a position of the batch |
| LazyLoad.LastEntryForMeans | public/srt/srt_script.js:98-118 | that entry names the item, no later entry does, and -1 means no entry names it |
| LazyLoad.VisibleAfter | public/srt/srt_script.js:98-118 | the `visible` items after the rule for each entry ran in order: add on intersecting, remove otherwise |
| LazyLoad.VisibleAfterMeans | public/srt/srt_script.js:98-118 | an item is visible after a batch exactly when the last entry for it intersects, or, when no entry names it, when it was visible before |
| LazyLoad.Gallery.ItemAt | public/portrait/portrait_script.js:60-66 | the item the page builds for allImages[i]: index i with that image's src and alt |
| LazyLoad.Gallery.CountsStep | public/cinematic/cinematic_script.js:40-52 | one loadNextImage call with the cursor below the end creates exactly one more item and moves the cursor by one; at or past the end nothing moves, and every image already has its item |
| LazyLoad.Gallery.CursorBound | public/srt/srt_script.js:27-48 | the cursor starts at 30 and never passes max(30, number of images); with at most 30 images the initial batch holds all of them, so loadNextImage never enqueues anything |
| LazyLoad.Gallery.FlagsStep | public/srt/srt_script.js:99-118 | one observer entry keeps the flags on created items, and one more loadNextImage call is paired with exactly one newly triggered item |
| LazyLoad.Gallery.constructor | public/portrait/portrait_script.js:22-30 | once images.json arrives, the initial batch allImages[0..min(30, n)] is created in order and the first min(6, batch size) items are dispatched; the invariant holds |
| LazyLoad.Gallery.LoadInitialBatch | public/srt/srt_script.js:27-33 | the items pushed are exactly built from allImages[..min(30, n)], in order; the window is then refilled from an empty state |
| LazyLoad.Gallery.CreateAndPrepareItems | public/srt/srt_script.js:50-70 | lazyQueue gains exactly the built items of the batch at its back, in batch order |
| LazyLoad.Gallery.ProcessLazyQueue | public/portrait/portrait_script.js:78-96 | on return the queue is empty or the window is full; the first DispatchCount items left the queue front in order, each started one fetch, and the cap still holds |
| LazyLoad.Gallery.Finish | public/cinematic/cinematic_script.js:81-91 | for a fetch in flight, the counter was at least 1, drops by one, and the window is refilled from the queue as it stood; the invariant holds |
| LazyLoad.Gallery.OnLoad | public/portrait/portrait_script.js:84-89 | the item's placeholder is replaced, and the scheduler effect is that of Finish |
| LazyLoad.Gallery.OnError | public/portrait/portrait_script.js:90-94 | the scheduler effect is the same as OnLoad's, and the placeholder stays |
| LazyLoad.Gallery.LoadNextImage | public/cinematic/cinematic_script.js:40-52 | at or past the end of allImages nothing changes; otherwise exactly allImages[cursor] is pushed, the window is refilled and the cursor grows by one, keeping the invariant |
| LazyLoad.Gallery.OnIntersect | public/srt/srt_script.js:99-118 | an intersecting item becomes visible and appends the next image only on its first intersection; a leaving item loses `visible` and changes nothing else; no created item disappears |
| LazyLoad.Gallery.ObserverCallback | public/portrait/portrait_script.js:99-111 | after a batch of entries, loadTriggered is TriggeredAfter(old flags, entries) and `visible` is VisibleAfter(old visible, entries), each item's latest intersection state; the invariant holds and no item disappears |
| LazyLoad.Gallery.DispatchedInOrder | public/portrait/portrait_script.js:68-81 | the dispatched items are a prefix of the pushed ones (FIFO), item k of the dispatch order carries index k, and no item is dispatched twice |
| Lightbox.Viewer.constructor | public/portrait/portrait_script.js:14-15 | the lightbox starts hidden with no pending load handler |
| Lightbox.Viewer.ShowLightbox | public/portrait/portrait_script.js:122-126 | the lightbox is shown and the pending load handler is cleared |
| Lightbox.Viewer.OnGalleryClick | public/cinematic/cinematic_script.js:112-124 | only an IMG target reacts: the lightbox image takes its src and is shown at once if complete, otherwise on its load; any other target changes nothing |
| Lightbox.Viewer.OnLightboxImageLoad | public/portrait/portrait_script.js:139 | a pending handler shows the lightbox and removes itself, so a later load does nothing |
| Lightbox.Viewer.Close | public/cinematic/cinematic_script.js:127-130 | the lightbox is hidden and its image src is "" |
| Lightbox.Viewer.OnCloseButtonClick | public/cinematic/cinematic_script.js:132 | the same end state as Close |
| Lightbox.Viewer.OnBackdropClick | public/portrait/portrait_script.js:151-156 | closes exactly when the click lands on the backdrop itself, otherwise changes nothing |
| Lightbox.Viewer.OnLightboxImageClick | public/portrait/portrait_script.js:159-162 | the same end state as Close |
| Lightbox.Viewer.OnKeyDown | public/cinematic/cinematic_script.js:137-141 | Escape while shown closes; any other key, or Escape while hidden, changes nothing |
| BackToTop.Button.constructor | public/portrait/portrait_script.js:173 | the button starts without the `show` class |
| BackToTop.Button.OnScroll | public/portrait/portrait_script.js:175-182 | after a scroll event the button is shown exactly when scrollY > 300 |
| PricingSlider.Swiper.constructor | public/cinematic/cinematic_script.js:175 | a new slider is live |
| PricingSlider.Swiper.Destroy | public/cinematic/cinematic_script.js:177 | the slider is destroyed |
| PricingSlider.Page.constructor | public/cinematic/cinematic_script.js:161 | pricingSwiper starts undefined |
| PricingSlider.Page.InitSwiper | public/cinematic/cinematic_script.js:173-180 | afterwards a slider exists exactly when innerWidth <= 768, whatever the state before; a slider that already fits is kept unchanged, so a second call with the same width changes nothing |
| Manifest.LastIndexOf | public/video/change_url.py:19 | the position of the last occurrence of a character, or -1; it is a position of the string (characterised by LastIndexOfMeans) |
| Manifest.Extension | public/video/change_url.py:19 | os.path.splitext(name)[1]: the suffix from the last dot, or "" when only dots precede it; never longer than the name (characterised by ExtensionMeans) |
| Manifest.Lower | public/video/change_url.py:19 | lower() on ASCII letters; keeps the length (characterised by LowerAt) |
| Manifest.IsImageFile | public/video/change_url.py:19-20 | the filter: the lower-cased extension is one of the five valid ones (properties in CaseInsensitive and ImageFilesMembership) |
| Manifest.Normalize | public/video/change_url.py:21 | replace('\\', '/'); keeps the length (characterised by NormalizeAt) |
| Manifest.MakeEntry | public/video/change_url.py:21-25 | the record {src, alt} for one relative path (characterised by MakeEntryWellFormed) |
| Manifest.ImageFiles | public/video/change_url.py:18-20 | a directory's files that pass the filter, in walk order (characterised by ImageFilesMembership) |
| Manifest.EntriesFor | public/video/change_url.py:22-25 | one record per kept file, in order; as many records as names (characterised by EntriesForAt) |
| Manifest.WalkEntries | public/video/change_url.py:17-25 | image_entries before reverse(): the records of every directory in walk order (characterised by WalkEntriesAt) |
| Manifest.DirPaths | public/video/change_url.py:21 | a directory's relative paths, one per name (characterised by DirPathsAt) |
| Manifest.ImagePaths | public/video/change_url.py:17-21 | the relative paths of all image files of the walk, in walk order |
| Manifest.Reversed | public/video/change_url.py:28 | reverse(): keeps the length (characterised by ReversedAt and ReversedMembership) |
| Manifest.LastIndexOfMeans | public/video/change_url.py:19 | the dot splitext splits at is the last dot: no dot follows it |
| Manifest.ExtensionMeans | public/video/change_url.py:19 | a name has an extension exactly when a non-dot character precedes some dot; the extension is then a proper suffix that starts with its only dot |
| Manifest.LowerAt | public/video/change_url.py:19 | lower() maps every character on its own |
| Manifest.ExtensionOfLower | public/video/change_url.py:19 | the extension of the lower-cased name is the lower-cased extension |
| Manifest.CaseInsensitive | public/video/change_url.py:19-20 | two names that lower-case alike are both image files or neither |
| Manifest.NormalizeAt | public/video/change_url.py:21 | replace turns each backslash into a slash and keeps every other character |
| Manifest.MakeEntryWellFormed | public/video/change_url.py:21-25 | an entry's src is BASE_URL + "/" + alt; alt is the normalised relative path, of the same length; neither contains a backslash |
| Manifest.ImageFilesMembership | public/video/change_url.py:18-20 | a name is kept exactly when it is one of the directory's files and its lower-cased extension is valid; non-image files contribute nothing |
| Manifest.EntriesForAt | public/video/change_url.py:22-25 | record i of a directory's entries is the entry for its i-th kept file |
| Manifest.DirectoryStep | public/video/change_url.py:18-25 | one turn of the inner loop appends an entry exactly when the file is an image file |
| Manifest.DirectoryEntries | public/video/change_url.py:18-25 | the inner loop appends the entries for the directory's image files, in walk order |
| Manifest.BuildManifest | public/video/change_url.py:17-28 | the output is the reversal of the walk-order list of the entries for all image files |
| Manifest.DirPathsAt | public/video/change_url.py:21 | the i-th path of a directory is its prefix joined to its i-th name |
| Manifest.WalkEntriesAt | public/video/change_url.py:17-25 | the walk yields one record per image file, in walk order: record i is the entry for the i-th image path |
| Manifest.WalkEntriesWellFormed | public/video/change_url.py:21-25 | every record of the walk has src == BASE_URL + "/" + alt and no backslash in alt |
| Manifest.ReversedAt | public/video/change_url.py:28 | record i of the reversed list is record n - 1 - i of the original |
| Manifest.ReversedMembership | public/video/change_url.py:28 | reversal keeps exactly the same records |
| Manifest.ManifestIsReversedPaths | public/video/change_url.py:17-28 | the manifest has exactly as many records as image files, and record i is the entry for the image path n - 1 - i: the reversal of walk order |
| Manifest.ReversedEntries | public/video/change_url.py:28 | reversing records built one per path gives, at position i, the record for path n - 1 - i |
| Manifest.ManifestWellFormed | public/video/change_url.py:21-28 | every record of the written manifest has src == BASE_URL + "/" + alt and no backslash in alt |

## Left out

- DOM construction, Masonry layout, `imagesLoaded`, the placeholder GIF and CSS rendering are not modelled. An item is its index and the `src` and `alt` it was built from; the `visible` class and `dataset.loadTriggered` are sets of item indices.
- `fetch('images.json')` and JSON parsing are network I/O. `allImages` is the constructor's argument.
- The browser primitives are replaced by events, and no timing is modelled:
  - `new Image()` loading becomes the events OnLoad and OnError, whose precondition is that the fetch is in flight;
  - IntersectionObserver becomes ObserverCallback and OnIntersect, with entries for created items.
- `visibilityObserver.observe` is not modelled: it only registers items with the browser. Entries are accepted for any created item.
- `img.src = tempImg.src` and `removeAttribute('data-src')` in onload are modelled as the item joining the `loaded` set.
- The `container` field of a queued record is dropped, because it is never read.
- `console.log` and `console.error` messages are not modelled.
- Page-wide effects and the widgets' set-up are not modelled:
  - `window.scrollTo`, `history.scrollRestoration` and the `beforeunload` handler;
  - the back-to-top click's smooth scroll;
  - the registration of the listeners themselves.
- Swiper's options and internals are not modelled. A slider is an object with a `destroyed` flag.
- Lightbox.Viewer.constructor: the lightbox image's initial src comes from the page markup, so it is a parameter.
- The manifest builder's file system and output are not modelled:
  - `os.walk` order is an input;
  - `os.path.relpath(os.path.join(root, file), 'img')` is modelled as the directory's prefix joined to the file name;
  - `json.dump` formatting and the closing `print` are not modelled.
- Manifest.LowerAt: lower() is modelled on ASCII letters only, and every other character is kept. Python's Unicode lower() can turn a non-ASCII character into ASCII:
  - the Kelvin sign becomes `k`, which no valid extension contains;
  - the dotted capital I becomes `i` followed by a combining dot, which is not ASCII.

  So a name passes the model's filter exactly when it passes the script's.
- Manifest.DirectoryEntries: the script appends straight to image_entries, while the model builds each directory's entries and then appends them in BuildManifest. The result is the same list.
- Manifest.BuildManifest: reverse() works in place on a Python list, while the model reassigns a sequence.

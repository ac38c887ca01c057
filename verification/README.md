# Manga reader core, modelled in Dafny

This project models the decision logic of a browser manga reader and of its
small catalogue server, with the DOM, storage, timers and network taken
away. What remains is a set of pure functions and small state machines over
integers, strings and sequences:

- the client image cache of the performance manager. It is an
  insertion-ordered map with a byte budget, and it evicts the oldest 30% of
  its entries. The same module covers the cache-hit path of image loading,
  the scroll-direction preload test and the `srcset`/WebP address rewriting;
- the search manager: additive scoring, filters, the two-level result
  order, bounded search history, genre toggling and suggestions;
- the reader: page navigation, chapter grouping and jumping, reading
  progress, bookmarks, and resuming and recent reads from the reading
  history;
- the touch-gesture classifier, a state machine over active touches;
- the theme manager: font-size buttons, the theme registry and its guards,
  settings merges and the camelCase to kebab-case toggle ids;
- the responsive breakpoints and the mobile reader layout;
- the application coordinator: theme cycling, the zoom clamp, the order of
  manager start-up with per-manager error isolation, and the status report;
- the scraper's deterministic catalogue generator and `parseInt`;
- the two servers' thirty-minute response cache, search guard and health
  report.

A JavaScript `Map`, or a plain object used as a dictionary, is a sequence
of entries in creation order (`OrderedMap`). Where the code lists a plain
object's keys (`Object.keys`, `Object.entries`), the model applies the
object key order, `OrderedMap.ObjectOrder`: keys that are array indices
("2", "10") come first by numeric value, and the other keys follow in
creation order. This order decides the chapter menu, the recent-reads list
and theme cycling. `Array.prototype.sort` is a stable insertion sort
(`Sorting`). Every asynchronous result, such as a download finishing, the
clock or a user's confirmation, is passed in as a parameter.

Three behaviours of the code are easy to misread, and the model follows the
code in each:

- The image cache can hold more than its budget after an insert. The code
  cleans at most once, before inserting, and never checks again
  (`ImageCache.AddToCacheMayExceedBudget`).
- Cleaning removes `ceil(0.3 n)` of the n entries, oldest first, whatever
  their sizes. It does not go on until 30% of the budget is free
  (`ImageCache.CleanCacheCount`).
- Two loads of the same image are not merged into one download. Each load
  runs its own, and the model does the same.

## Model

| member | source | states |
|---|---|---|
| ImageCache.EvictCount | public/js/performance-manager.js:260 | the number of entries cleaning removes is ceil(0.3 n), computed exactly on integers; it is 0 only for an empty cache and never more than n |
| ImageCache.CleanCache | public/js/performance-manager.js:255-269 | cleaning deletes exactly the visited victims' keys and lowers the recorded size by the victims' total size, keeping the budget |
| ImageCache.VictimsFacts | public/js/performance-manager.js:257-260 | the victims are ceil(0.3 n) stored entries, with distinct keys when the cache's keys are unique |
| ImageCache.CleanCacheCount | public/js/performance-manager.js:255-266 | on a consistent cache, cleaning leaves n - ceil(0.3 n) entries and keeps the recorded size equal to the sum of the stored sizes |
| ImageCache.CleanCacheOldestFirst | public/js/performance-manager.js:257-266 | every surviving entry is at least as recent as every evicted one |
| ImageCache.CleanCacheStable | public/js/performance-manager.js:258 | among entries with equal timestamps, the victims keep their insertion order, because the sort is stable |
| ImageCache.AddToCache | public/js/performance-manager.js:245-253 | after an insert the key maps to the new data; the size grows by the new size, after a clean exactly when the budget would be passed; every other key keeps its entry, except that a clean drops exactly the victims' keys |
| OrderedMap.LookupWithout | public/js/performance-manager.js:262-265 | deleting a set of keys makes exactly those keys absent and leaves the lookup of every other key unchanged |
| ImageCache.AddToCacheWithinBudget | public/js/performance-manager.js:247-251 | within budget, no entry under another key is touched |
| ImageCache.AddToCacheFresh | public/js/performance-manager.js:251-252 | inserting a key not yet cached keeps the keys unique and the recorded size equal to the stored sizes' sum |
| ImageCache.AddToCacheDoubleCounts | public/js/performance-manager.js:251-252 | re-adding a cached key replaces its entry, but the recorded size exceeds the stored total by the old entry's size |
| ImageCache.AddToCacheMayExceedBudget | public/js/performance-manager.js:247-252 | a concrete cache whose size stays above the budget after an insert, because the budget is not re-checked |
| ImageCache.CacheKey | public/js/performance-manager.js:188 | the cache key is `data-src` when present and `src` otherwise |
| ImageCache.LoadImage | public/js/performance-manager.js:184-243 | a hit shows the cached address and changes nothing; a completed miss stores the displayed address under the key; a failed download changes nothing |
| ImageCache.LoadImageThenHit | public/js/performance-manager.js:188-195 | once a download of an element has completed, loading it again is a hit that leaves the cache as it is |
| ImageCache.ClearCache | public/js/performance-manager.js:456-461 | clearing empties the map and zeroes the size, keeping the budget |
| ImageCache.PreloadUrls | public/js/performance-manager.js:463-477 | the addresses that start a download are exactly those given and not cached |
| ImageCache.PreloadFilters | public/js/performance-manager.js:463-466 | the downloads start in the order the addresses are given, and an uncached address given k times starts k downloads; a cached one starts none |
| ImageCache.EstimateImageSize | public/js/performance-manager.js:271-276 | the estimate is width times height halved, rounded half up, with each side falling back through the natural size, the layout size, then 300 by 400 |
| Preload.ScrollDirection | public/js/performance-manager.js:308 | the direction is down exactly when the position grew; standing still counts as up |
| Preload.ShouldPreload | public/js/performance-manager.js:312-323 | the test holds exactly when, going down, the image's top lies strictly between 0 and three screens, or, going up, its bottom lies strictly between 0 and two screens |
| Preload.SelectPreload | public/js/performance-manager.js:316-326 | one scroll event picks exactly the unloaded images that pass the test, in document order |
| Preload.OnScroll | public/js/performance-manager.js:306-327 | the remembered position becomes the current one, and the picked images are those that pass the test for the computed direction |
| ResponsiveImages.Extension | public/js/performance-manager.js:166 | the extension is the text after the last dot, lower-cased; it holds no dot |
| ResponsiveImages.WebpSource | public/js/performance-manager.js:170 | a trailing `.ext` is replaced by `.webp`, giving the address without that suffix followed by `.webp`; any other address is left as it is |
| ResponsiveImages.WidthVariant | public/js/performance-manager.js:177 | the first occurrence of `.ext` becomes `_<w>w.ext`, with the text before and after it kept; without an occurrence the address is unchanged |
| ResponsiveImages.SetupResponsiveImage | public/js/performance-manager.js:163-182 | nothing is set without a `data-src`; the WebP variant is set exactly when the browser supports it, and is the address with its trailing extension replaced by `.webp`; the `srcset` is the four width variants for 480, 768, 1024 and 1440, each followed by its `<w>w` descriptor, joined by `, ` |
| ResponsiveImages.SetupResponsiveImageLowerCase | public/js/performance-manager.js:164-180 | for a lower-case extension, the WebP variant of `stem.ext` is `stem.webp` and each width item is `stem_<w>w.ext <w>w` |
| ResponsiveImages.SrcsetNotRewritten | public/js/performance-manager.js:176-178 | when the lower-cased extension does not occur in the address, every `srcset` item names the original file |
| ResponsiveImages.UpperCaseExtensionNotRewritten | public/js/performance-manager.js:164-180 | for `photo.JPG`, neither the WebP variant nor the width items are rewritten |
| ResponsiveImages.SetupResponsiveImageFixedRewrites | public/js/performance-manager.js:164-180 | matching the extension as written rewrites `stem.ext` correctly whatever its case |
| Search.SearchText | public/js/search-manager.js:203-208 | the searchable text begins with the lower-cased name and contains every lower-cased genre |
| Search.IndexEntry | public/js/search-manager.js:210-220 | an index entry keeps the id and name and applies the fallbacks `unknown` for status and the clock for a missing update time; popularity is the scan count |
| Search.BuildSearchIndex | public/js/search-manager.js:197-224 | without a library the old index stays; otherwise there is one entry per manga, in library order |
| Search.WordHits | public/js/search-manager.js:262-267 | the word bonus counts at most one hit per word; it is positive exactly when some word occurs |
| Search.Score | public/js/search-manager.js:249-267 | the score is positive exactly when the name, the searchable text or some query word matches |
| Search.NameMatchScore | public/js/search-manager.js:249-267 | a query found in the name also earns the text bonus and every word bonus: at least 70 plus 10 per word, and 120 plus 10 per word for a prefix |
| Search.PassesFilters | public/js/search-manager.js:283-303 | an item passes exactly when some selected genre matches (if any is selected), the status filter is `all` or equal, and the rating is at least the minimum |
| Search.Candidates | public/js/search-manager.js:248-277 | the candidates are exactly the items that pass the filters and score above 0 |
| Search.DescendingKeepsScoreOrder | public/js/search-manager.js:305-339 | the descending order negates only the secondary comparison; the higher score always comes first |
| Search.SearchIndex | public/js/search-manager.js:244-281 | the result holds exactly the candidates, each as often as it occurs |
| Search.SearchRanked | public/js/search-manager.js:305-311 | results are ordered by score, highest first, whatever the secondary criterion |
| Search.CompareConsistent | public/js/search-manager.js:305-339 | the result comparison is a consistent order: swapping its arguments flips its sign and it is transitive, given a consistent name comparison |
| Sorting.SortWithOrdered | public/js/search-manager.js:306 | sorting with a consistent comparison leaves every pair of elements in order |
| Search.SearchTieOrder | public/js/search-manager.js:305-339 | among results with equal scores, the secondary criterion orders them: by name, rating, year, popularity or update time, reversed when descending; for the year, newer first unless descending |
| Search.AddToHistory | public/js/search-manager.js:542-551 | an empty or known query changes nothing; otherwise the query is put first, followed by the old history cut so that the length is min(n + 1, 20); the history stays free of duplicates |
| Search.ToggleGenre | public/js/search-manager.js:183-195 | an absent genre is appended, a present one removed, and the other filters are kept |
| Search.ToggleGenreTwice | public/js/search-manager.js:183-195 | toggling a genre twice gives back the same set of genres |
| Search.Suggestions | public/js/search-manager.js:401-414 | at most 5 suggestions: the first matching names in index order for a query, or the first history entries without one |
| Reader.NextPage | public/js/book-reader.js:368-374 | the index moves up by one only while a next page exists, so an index in range stays in range |
| Reader.PrevPage | public/js/book-reader.js:360-366 | the index moves down by one only while it is positive, so an index in range stays in range |
| Reader.Buttons | public/js/book-reader.js:376-382 | the previous button is disabled exactly when going back does nothing, and the next button exactly when going forward does nothing |
| Reader.ChapterKey | public/js/book-reader.js:432 | a page's group key is its chapter, or `Chapitre inconnu` when the chapter is empty |
| Reader.GroupsFaithful | public/js/book-reader.js:429-439 | grouping yields one group per key, without repeated names, and each group holds exactly the pages of its key, in input order |
| Reader.GroupSizesSum | public/js/book-reader.js:429-439 | the group sizes add up to the number of pages |
| Reader.JumpToChapter | public/js/book-reader.js:412-426 | as written, the jump goes to the first page whose raw chapter equals the name, and does nothing when none does |
| Reader.JumpToGroup | public/js/book-reader.js:412-426 | the corrected jump goes to the first page whose group key equals the name, and does nothing when none does |
| Reader.ChapterMenu | public/js/book-reader.js:386-393 | the chapter menu lists exactly the groups of the grouping, each as often, in object key order |
| Reader.ChapterMenuOrder | public/js/book-reader.js:393 | numbered groups come first, by ascending number; the other groups keep their order of first appearance |
| Reader.ChapterMenuPlain | public/js/book-reader.js:393 | when no chapter is named by an array index, the menu is the grouping itself, in order of first appearance |
| Reader.NumberedChapterFirst | public/js/book-reader.js:429-439 | a chapter named by an array index that is read after a named chapter is listed before it |
| OrderedMap.ObjectIndexFirst | public/js/book-reader.js:393 | in the object key order, no array-index key comes after any other key |
| OrderedMap.ObjectIndexAscending | public/js/book-reader.js:393 | in the object key order, array-index keys ascend by numeric value |
| OrderedMap.ObjectNamedKept | public/js/book-reader.js:393 | in the object key order, the keys that are not array indices keep their creation order |
| OrderedMap.ObjectNoIndex | public/js/book-reader.js:393 | an object without array-index keys lists its keys in creation order |
| Reader.JumpToGroupShowsFirstPage | public/js/book-reader.js:385-426 | jumping to any group listed in the chapter menu shows that group's first page |
| Reader.JumpToUnknownChapterIgnored | public/js/book-reader.js:412-417 | the `Chapitre inconnu` group is listed, yet the as-written jump to it does nothing; the corrected jump reaches an unnamed page |
| Reader.RoundPercent | public/js/book-reader.js:448 | the percentage is within one half of 100 i / n; on an exact half it is rounded down when the floating-point product falls below the half (`belowHalf`) and up otherwise; it lies in [0, 100] for an index in range |
| Reader.RoundPercentTies | public/js/book-reader.js:448 | the floating-point outcome matters only on an exact half, where the two results differ by one |
| Reader.RoundPercentHalfExample | public/js/book-reader.js:448 | page 23 of 40 gives 57 when the product falls below the half, as 23 / 40 * 100 does, and 58 otherwise |
| Reader.ReadingProgress | public/js/book-reader.js:441-449 | progress is 0 without history, without the manga or without scans, and otherwise the saved index's percentage, rounded as `RoundPercent` states |
| Reader.ToggleBookmark | public/js/book-reader.js:464-477 | an absent id is appended and a present one removed; other ids are kept |
| Reader.ToggleBookmarkTwice | public/js/book-reader.js:464-470 | toggling twice restores membership, and restores the list itself for an absent id |
| Reader.StartIndex | public/js/book-reader.js:263-264 | the reader starts at the saved page index, unclamped, or at 0 |
| Reader.OpenMangaReader | public/js/book-reader.js:244-280 | a missing manga or one without scans leaves the reader as it is; otherwise it shows the manga's scans from the start index |
| Reader.SaveReadingProgress | public/js/book-reader.js:451-461 | with a manga open, its history entry becomes the current index, the time and the name; other entries are kept |
| Reader.CloseThenOpenResumes | public/js/book-reader.js:244-307 | closing the reader and opening the same manga again resumes at the page that was shown |
| Reader.ShowPage | public/js/book-reader.js:310-357 | showing a page in range of the open manga saves its index, the time and the name under the manga; an index out of range saves nothing; other entries are kept |
| Reader.OpenWithHistory | public/js/book-reader.js:244-272 | opening shows the reader as `OpenMangaReader` does and saves the start page, so the saved index is the one resumed from; a manga that does not open changes nothing |
| Reader.NextPageSaved | public/js/book-reader.js:368-374 | a page turn forward saves the new index; when it does not move, nothing is saved |
| Reader.PrevPageSaved | public/js/book-reader.js:360-366 | a page turn back saves the new index; when it does not move, nothing is saved |
| Reader.JumpToChapterSaved | public/js/book-reader.js:412-417 | a jump that finds the chapter saves the new index; a jump that finds nothing saves nothing |
| Reader.HistoryEntries | public/js/book-reader.js:642 | `Object.entries` lists every history entry once, in object key order |
| Reader.RecentReads | public/js/book-reader.js:640-644 | min(5, n) entries, each taken from the history no more often than it occurs there |
| Reader.RecentReadsNewestFirst | public/js/book-reader.js:642-644 | recent reads come newest first, and every entry left out is no newer than every entry shown |
| Gestures.DetectGestureStart | public/js/gesture-manager.js:111-122 | one touch starts a potential swipe or tap, two a pinch and three or more a multi-touch; with none the gesture is kept |
| Gestures.TouchStart | public/js/gesture-manager.js:53-71 | touch start is ignored while disabled, and keeps the last tap |
| Gestures.TouchStartClassifies | public/js/gesture-manager.js:53-71 | after a touch start the gesture matches the number of active touches |
| Gestures.SquaredComparison | public/js/gesture-manager.js:154-160 | comparing the square root distance with a bound is the same as comparing the squared distance with the squared bound |
| Gestures.SwipeDirection | public/js/gesture-manager.js:163-171 | the direction is horizontal exactly when the horizontal displacement is larger, and right or down exactly for a positive displacement |
| Gestures.SwipeDirectionMirror | public/js/gesture-manager.js:163-171 | mirroring the displacement reverses the direction |
| Gestures.ProcessSwipe | public/js/gesture-manager.js:149-181 | a potential swipe with one touch becomes a swipe and emits a move event exactly when it has travelled more than 50 |
| Gestures.ClampScale | public/js/gesture-manager.js:273-276 | the pinch scale is clamped to [0.5, 5] |
| Gestures.ClampScaleMonotone | public/js/gesture-manager.js:273-276 | the clamp is monotone and idempotent |
| Gestures.ProcessPinch | public/js/gesture-manager.js:263-286 | a pinch event is emitted exactly with two touches during a pinch, and its clamped scale is remembered |
| Gestures.TouchMove | public/js/gesture-manager.js:73-87 | touch move is ignored while disabled or without touches; it keeps the touch keys and can only turn a potential swipe into a swipe |
| Gestures.MoveTouches | public/js/gesture-manager.js:77-83 | moving updates positions but keeps every touch key in its place |
| Gestures.AddTouches | public/js/gesture-manager.js:57-67 | every new touch is recorded, earlier touches stay, and keys stay unique |
| Gestures.ProcessTap | public/js/gesture-manager.js:220-249 | a double tap is emitted exactly when the tap is close to the last one in time and place, and then the last tap is forgotten |
| Gestures.FinalizeTapOrSwipe | public/js/gesture-manager.js:183-218 | with one touch, a swipe emits its direction and displacement; otherwise a short, close touch is a tap |
| Gestures.FinalizePinch | public/js/gesture-manager.js:288-295 | ending a pinch clears the pinch state and reports the last scale, or 1 |
| Gestures.TouchEnd | public/js/gesture-manager.js:89-104 | touch end is ignored while disabled; the ended touches are removed, and the gesture is reset when none remain |
| Gestures.TouchCancel | public/js/gesture-manager.js:106-109 | cancelling clears touches and gesture |
| Gestures.Disable | public/js/gesture-manager.js:371-376 | disabling clears touches and gesture |
| Gestures.Enable | public/js/gesture-manager.js:366-369 | enabling keeps touches and gesture |
| Gestures.TransitionsKeepValid | public/js/gesture-manager.js:53-109 | every transition keeps touch keys unique, no gesture without touches, and no touches while disabled |
| Gestures.DoubleTapNeverEmitted | public/js/gesture-manager.js:223-225 | as written, no touch end ever emits a double tap |
| Gestures.SwipeNeverEmitted | public/js/gesture-manager.js:138-147 | as written, no touch end ever emits a finished swipe |
| Gestures.SwipeTrace | public/js/gesture-manager.js:53-218 | a concrete one-finger swipe of 100 to the right emits nothing as written and a right swipe when corrected |
| Gestures.SwipeEmittedWhenCorrected | public/js/gesture-manager.js:193-212 | when the swipe state is finalised, the swipe is emitted with its direction and displacement |
| Gestures.DoubleTapEmittedWhenCorrected | public/js/gesture-manager.js:223-234 | when the distance is measured to the recorded tap, a close, quick second tap emits a double tap |
| Theme.Merge | public/js/theme-manager.js:160-162 | the shallow merge takes each field from the patch when present and from the current value otherwise |
| Theme.MergeLaws | public/js/theme-manager.js:639-645 | merging nothing changes nothing, a full patch overrides everything, and merging the same patch twice is the same as once |
| Theme.PressFontButton | public/js/theme-manager.js:299-309 | the buttons step the font size by one within [12, 24] and keep an in-range size in range |
| Theme.FontButtonsCancel | public/js/theme-manager.js:302-306 | inside the range, one press up and one press down cancel out |
| Theme.FontSizeOutsideRangeStays | public/js/theme-manager.js:305 | a size above the range is not clamped back by a press down |
| Theme.SelectTheme | public/js/theme-manager.js:403-421 | an unknown key is ignored; a known one becomes current |
| Theme.SaveSettings | public/js/theme-manager.js:554-557 | saving stores the current theme and the whole customisation |
| Theme.SetTheme | public/js/theme-manager.js:690-695 | only a known key is selected and saved |
| Theme.AddCustomTheme | public/js/theme-manager.js:697-700 | the key maps to the new theme and every other key is unchanged |
| Theme.RemoveCustomTheme | public/js/theme-manager.js:702-707 | `dark` and `light` are never removed; any other key is removed and nothing else |
| Theme.RegistryKeepsProtected | public/js/theme-manager.js:697-707 | adding and removing themes keep `dark` and `light` registered |
| Theme.LoadSettings | public/js/theme-manager.js:152-163 | a saved theme is adopted only if truthy and known; a saved customisation overrides the current fields |
| Theme.SaveThenLoad | public/js/theme-manager.js:152-163 | loading what was saved gives back the current theme and customisation |
| Theme.AutoTheme | public/js/theme-manager.js:535-552 | without a saved theme and with media queries, the system preference picks dark or light; otherwise nothing changes |
| Theme.ImportTheme | public/js/theme-manager.js:639-649 | an imported theme is adopted only if truthy and known, the customisation is merged, and the result is saved |
| Theme.ResetToDefault | public/js/theme-manager.js:559-577 | a confirmed reset restores dark and the defaults and saves them; an unconfirmed one changes nothing |
| Theme.OperationsKeepCurrentKnown | public/js/theme-manager.js:152-163 | selecting, setting, loading settings and importing keep the current theme registered; removal is not covered, since removing the current custom theme leaves it unregistered |
| Theme.OtherOperationsKeepCurrentKnown | public/js/theme-manager.js:535-577 | resetting, choosing by system preference and adding a theme keep the current theme registered |
| Theme.FontStack | public/js/theme-manager.js:457-468 | an unknown font family falls back to the system font stack |
| Theme.ToggleId | public/js/theme-manager.js:593 | the toggle id holds no capital letter and is at least as long as the key |
| Theme.ToggleIdOneCapital | public/js/theme-manager.js:593 | a key with one capital gets a dash before that letter, lower-cased |
| Theme.ToggleIdsMatchTable | public/js/theme-manager.js:332-338 | each boolean customisation key maps to the id of its toggle in the settings table |
| Responsive.BreakpointOf | public/js/responsive-utils.js:34-44 | widths up to 768 are mobile, up to 992 tablet, and wider ones desktop |
| Responsive.BreakpointMonotone | public/js/responsive-utils.js:34-44 | a wider window never has a smaller breakpoint |
| Responsive.ExactlyOneBreakpoint | public/js/responsive-utils.js:247-257 | exactly one of mobile, tablet and desktop holds, and the 1200 desktop breakpoint is never consulted |
| Responsive.HandleResize | public/js/responsive-utils.js:46-60 | the layout is updated and the change announced exactly when the breakpoint changes; the reader is always adjusted |
| Responsive.ResizeTwiceQuiet | public/js/responsive-utils.js:46-60 | a second resize to the same width announces nothing |
| Responsive.AdjustReaderLayout | public/js/responsive-utils.js:138-181 | only a shown reader with an image and its frame on mobile is adjusted; the heights leave room for header, navigation and margins, and the width margin is 40 in landscape and 20 otherwise |
| Responsive.ReaderLayoutMonotone | public/js/responsive-utils.js:155-181 | a larger viewport never shrinks the page image |
| App.NextThemeKey | public/js/app-initializer.js:277-284 | the theme button moves to the next registered key, wraps from the last to the first, and goes to the first from an unknown key |
| App.CycleReturns | public/js/app-initializer.js:277-284 | pressing the theme button once per registered theme returns to the starting theme |
| OrderedMap.ObjectKeys | public/js/app-initializer.js:279 | `Object.keys` lists each registered key once, and in creation order when no key is an array index (`ObjectKeysNoIndex`) |
| OrderedMap.ObjectKeysNoIndex | public/js/app-initializer.js:279 | without array-index keys, `Object.keys` lists the keys in creation order |
| App.ToggleTheme | public/js/app-initializer.js:277-284 | without a theme manager nothing happens; otherwise the key after the current one in `Object.keys` order becomes current and is saved |
| App.ClampZoom | public/js/app-initializer.js:150 | the pinch zoom is clamped to [0.5, 3] |
| App.ZoomOfPinch | public/js/app-initializer.js:150 | the classifier's own clamp to [0.5, 5] does not change the zoom |
| App.StepOutcome | public/js/app-initializer.js:68-117 | a manager is present exactly when it was constructed, and a warning is logged exactly when its constructor threw or it is the gesture manager, whose wiring throws |
| App.InitApp | public/js/app-initializer.js:27-56 | every manager is attempted in the fixed order whatever happened before; a manager is present exactly when constructed, and the warnings list the failures in order |
| App.GetStatus | public/js/app-initializer.js:486-501 | the status reports each manager, in the object's key order, as present exactly when non-null, and the features agree with it |
| App.AllManagersLoaded | public/js/app-initializer.js:94-100 | with every class loaded, every manager is present and only the gesture step reports a failure |
| Scraper.ParseIntOfNat | server.js:57-61 | `parseInt` reads back the decimal text of any natural number, so a default option keeps its value |
| Scraper.ParseIntNoDigit | server.js:57-61 | text that does not start with white space, a sign or a digit reads as NaN |
| Scraper.ParseIntIgnoresSurroundings | server.js:57-61 | leading white space and trailing text are ignored |
| Scraper.NumberParam | scrapers/DirectAnimeSamaScraper.js:19-23 | a missing option takes its default and a given one is read by `parseInt` |
| Scraper.FolderName | scrapers/DirectAnimeSamaScraper.js:139-150 | a known id maps to its folder and any other id to `Naruto` |
| Scraper.Count | scrapers/DirectAnimeSamaScraper.js:103-104 | a counting loop up to a bound runs bound times when the bound is at least 1, and not at all for a smaller or NaN bound |
| Scraper.MangaScans | scrapers/DirectAnimeSamaScraper.js:99-134 | a manga gets chapters times pages records, none when either bound is below 1 or NaN |
| Scraper.ScanAt | scrapers/DirectAnimeSamaScraper.js:107-122 | a record carries its chapter and page numbers, the `Chapitre N` label and the image address built from the folder, chapter and page |
| Scraper.GetMangaScans | scrapers/DirectAnimeSamaScraper.js:99-134 | the nested loops produce exactly the records in which record i is page i mod P + 1 of chapter i div P + 1 |
| Scraper.MangaScansOrder | scrapers/DirectAnimeSamaScraper.js:103-105 | records come in chapter-major order, and their numbers stay within the bounds |
| Scraper.MangaScansDistinctImages | scrapers/DirectAnimeSamaScraper.js:108 | no two records of a manga share an image address |
| Scraper.PopularScansShape | scrapers/DirectAnimeSamaScraper.js:63-93 | the list is empty when a manga gets no scans; otherwise it holds the first min(6, maxMangas) catalogue mangas, all six for NaN, each under its id |
| Scraper.SearchManga | scrapers/DirectAnimeSamaScraper.js:162-175 | the results are exactly the popular mangas, fetched with at most ten mangas, whose name contains the query ignoring case |
| Scraper.SearchEmptyQuery | scrapers/DirectAnimeSamaScraper.js:165-172 | an empty query matches all six mangas |
| ScansApi.PopularRequest | server.js:35-83 | a fresh cache is returned unchanged and marked cached; otherwise the list is fetched and stored with the time; count is the number of mangas |
| ScansApi.HitIgnoresOptions | api/index.js:34-45 | a cache hit does not depend on the request's options |
| ScansApi.MissThenHit | server.js:44-65 | after a miss, any request within thirty minutes is served the same list from the cache |
| ScansApi.ZeroTimestampNeverHits | server.js:45 | a list stored at time 0 is never served from the cache, since the timestamp is falsy |
| ScansApi.ClearCache | server.js:120-128 | clearing resets both cache fields |
| ScansApi.ClearThenMiss | api/index.js:147-155 | after clearing, the next request fetches again |
| ScansApi.MangasRequest | api/index.js:79-110 | the manga list is always fetched, never touches the cache and is marked not cached |
| ScansApi.MangasMatchesMiss | api/index.js:79-110 | the manga list equals what a cache miss of the popular list returns |
| ScansApi.SearchRequest | server.js:88-115 | a missing or empty query is rejected with 400 and the scraper is not called; otherwise the response carries the scraper's results and their count |
| ScansApi.Health | api/index.js:160-171 | health reports the cache as active when set, its timestamp, and its number of mangas or 0 |
| ScansApi.HealthAfterRequest | api/index.js:160-171 | after a miss, health reports the count and time of that response |
| ScansApi.WarmUpDoesNotFillCache | server.js:182-190 | the start-up warm-up leaves the cache empty, so the first request still fetches |

## Left out

- The PWA manager: service-worker registration, install prompts and message passing belong to the browser.
- DOM rendering, CSS, notifications, `localStorage`, `FileReader` and file import/export. Stored settings and history appear as plain values.
- The intersection, mutation and performance observers, memory sampling, and the `throttle`/`debounce` timers. Each trigger is an explicit call.
- Asynchronous image loading. The outcome of a download is the `Download` parameter of `ImageCache.LoadImage`. Concurrent loads of one key are not de-duplicated in the code, so there is nothing to model.
- The cache hit rate, the average scroll time, and brightness and zoom styles, because they are floating-point presentation.
- The pinch ratio. `Math.sqrt` of the two finger distances is the `ratio` parameter of `Gestures.ProcessPinch`, and swipe distances are compared squared (`Gestures.SquaredComparison`). When the two fingers start at the same point the code divides 0 by 0; the NaN that gives passes through `Math.max`/`Math.min` unclamped, while `Gestures.ClampScale` works on reals, which have no NaN.
- The mouse handlers and `updateConfig` of the gesture manager. They reuse the touch logic with a changed configuration.
- The long-press and rotation events. The gesture manager has no code that emits them.
- `localeCompare` in the name sort. It is a comparison parameter of `Search.SearchIndex`.
- The WebP capability probe and the canvas placeholder. Support is a boolean parameter.
- `waitForLibrary`. The search manager is assumed to start once the library is loaded; a library that never loads would stall start-up.
- The random `fileSize` of scan records and the scraper's logging.
- Express routing, `listen`, the 404 and 500 handlers and the `error` fields of failure responses. No modelled handler throws.
- Query parameters given as arrays, and Unicode case folding beyond ASCII in `toLowerCase`.
- Reader.RoundPercent: on an exact half, whether the floating-point product `(i / n) * 100` falls just below the half is the `belowHalf` parameter, not computed. Away from exact halves the model rounds the exact quotient 100 i / n; it does not state the bound on page counts beyond which floating-point error could change that.
- Reader.ShowPage: an index outside the pages makes `updatePageDisplay` throw before it saves. The model saves nothing and keeps the reader state. It leaves out that the rest of the caller is skipped too, which for `openMangaReader` is building the chapter menu and entering full screen, both DOM work.
- ResponsiveImages.WebpSource: the code builds the regular expression `\.ext$` from the extension without escaping it, and the model matches the literal suffix `.ext` instead. The two agree when the extension has no regular-expression metacharacter. They differ otherwise: for `photo.jpg?v=2`, `?` makes `g` optional, the pattern does not match and the code keeps the address, while the model yields `photo.webp`; for `c++`, building the pattern throws, and the model yields a result.
- ResponsiveImages.SetupResponsiveImage: it inherits the `WebpSource` divergence for the WebP variant. In the `srcset` items, the code's replacement text `_<w>w.ext` would expand `$` patterns such as `$&` if the extension held a `$`; the model inserts the text literally.
- ImageCache.LoadImage: an image without `data-src` makes the code download the text `undefined`, the string form of the absent attribute; the model uses the empty text as the address.
- Theme.SelectTheme: the code tests a key with `this.themes[key]`, which also finds the properties every object inherits (`constructor`, `toString`, ...). So `selectTheme('constructor')` makes `constructor` current in the code, and `applyTheme` then throws because that property has no colours. The model ignores the key as unknown. `Theme.SetTheme`, `Theme.LoadSettings` and `Theme.ImportTheme` share this divergence. The reader's lookups are affected in the same way: `readingHistory[id]` and `mangasLibrary[id]` for such an id, and `chapters[name]` in `groupPagesByChapter` for a chapter with such a name. The model sees only stored keys.
- Search.BuildSearchIndex: the library is given as the sequence `Object.entries(window.mangasLibrary)` yields, so it is already in object key order; the model does not reorder it.
- `Scraper.ParseInt`: it has no contract of its own; its behaviour is stated by the `ParseIntOfNat`, `ParseIntNoDigit` and `ParseIntIgnoresSurroundings` lemmas.

## Findings

| source | as written | input that shows it | evidently intended | confidence | as-written member | corrected member |
|---|---|---|---|---|---|---|
| public/js/gesture-manager.js:223-225 | the double-tap test measures the distance from the touch to the last tap with `getDistance`, which reads `currentX`/`currentY`; a tap record only has `x`/`y`, so the distance is NaN and the test is always false | two taps at (5, 5), 100 ms apart | a quick second tap close to the first emits `double_tap` | high (not executed) | Gestures.DoubleTapNeverEmitted | Gestures.DoubleTapEmittedWhenCorrected |
| public/js/gesture-manager.js:138-147 | touch end finalises only a `potential_swipe_or_tap`, so the `swipe` branch of `finalizeTapOrSwipe` is never reached and a finished swipe is never emitted | one finger from (0, 0) to (100, 0), lifted at 150 ms | lifting the finger after a swipe emits `swipe` with its direction | high (not executed) | Gestures.SwipeNeverEmitted | Gestures.SwipeEmittedWhenCorrected |
| public/js/book-reader.js:412-417 | the chapter menu lists pages without a chapter under `Chapitre inconnu`, but the jump compares the raw `chapter` field, so choosing that entry does nothing | pages `[("Chapitre 1", "1.jpg"), ("", "2.jpg")]`, jump to `Chapitre inconnu` | the jump uses the same key as the grouping and shows page 2 | high (not executed) | Reader.JumpToUnknownChapterIgnored | Reader.JumpToGroupShowsFirstPage |
| public/js/performance-manager.js:166-177 | the extension is lower-cased before it is searched for, so an upper-case extension is not found and neither the WebP variant nor the `srcset` items are rewritten | `data-src = "photo.JPG"` | `photo.webp` and `photo_480w.JPG 480w, ...` | medium (not executed) | ResponsiveImages.UpperCaseExtensionNotRewritten | ResponsiveImages.SetupResponsiveImageFixedRewrites |

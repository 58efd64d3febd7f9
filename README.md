# Carcass analysis viewer — verified model of its core logic

The viewer lists beef-carcass analysis records. Each record holds legacy values from the
original grading system next to values predicted by a new model. The viewer sorts and
searches the list, flags legacy/predicted pairs that disagree, and shows one record in
detail: a grouped field table and a gallery of three images (the raw photo, the legacy
analysis overlay and the new analysis overlay). A small server answers two questions for
it: which row has a given identifier, and which image files exist for it.

This project models that logic in Dafny and proves properties of the model:

- `js.dfy` (module `Js`): the JavaScript primitives the code relies on. Record values are
  `Null | Num(real) | Str(string)`. The module covers `toLowerCase`, string `<`,
  `includes`, `replace` with a string pattern (first occurrence only), `trim`, and
  number-to-string conversion.
- `carcass_table.dfy` (module `CarcassTable`), for `src/components/CarcassTable.jsx`:
  - the sort state, as a class;
  - the comparator and the sort built on it;
  - the disagreement test and the cell highlighting;
  - the sort arrow.
- `home_page.dfy` (module `HomePage`), for `src/pages/HomePage.jsx`: the search filter, with
  its state as a class, and the "last updated" label.
- `image_gallery.dfy` (module `ImageGallery`), for `src/components/ImageGallery.jsx`:
  - the per-image loading and error flags, the fallback counter and the enlarged-image
    slot. These are a class whose methods are proved against a step function on state
    values. Lemmas about runs of events sit on that step function.
  - the image source paths;
  - the marbling percent delta;
  - the "changed" badge.
- `detail_page.dfy` (module `DetailPage`), for `src/pages/DetailPage.jsx`:
  - the four-section field table;
  - `formatFieldName`;
  - the legacy→predict column pairing and the badge and N/A rules.
- `server.dfy` (module `Server`), for `src/server/index.js`:
  - the extension probe, as a loop with an early return;
  - the `images` response of `/api/check-images/:id`;
  - the not-found rule of `/api/carcass/:id`.

The filesystem is a set of existing paths. The database table is a sequence of rows. A
time is an integer number of milliseconds.

### Where the code departs from the intended design

The model follows the code in each case below.

- **Nulls in a descending sort.** By design, null values sort last in both directions.
  The comparator (`src/components/CarcassTable.jsx:23-24`) returns `-1` for a
  null left operand when sorting descending, so nulls come first. This is
  `CarcassTable.CompareNullPlacement`, and `CarcassTable.SortedOn` orders them that way.
- **Filesystem errors.** By design, filesystem errors are reported as errors. `fs.existsSync` reports every failure as "does not exist", so the probe has no
  error outcome. `Server.CheckFileWithExtensions` has none either.
- **Error overlay after a fallback retry.** By design, a failed image is retried once
  under its fallback name and shown if that succeeds. In the code, `imageError[t]`
  is never cleared by a later successful load (`src/components/ImageGallery.jsx:17-19`).
  So after a first failure the error overlay stays up until the carcass changes
  (`ImageGallery.ErrorSticks`).
- **Fallback names against this server.** The fallback names are used only when
  `paths[t]` is empty. This server sets `paths[t]` exactly when flag `t` is true, so a
  category it reports available is always shown from the file it found
  (`ImageGallery.AvailableUsesResolvedFile`).

## Model

| member | source | states |
|---|---|---|
| Js.Lower | src/pages/HomePage.jsx:49-53 | `toLowerCase` keeps the length and maps every character by the same per-character rule. |
| Js.LowerMeaning | src/components/CarcassTable.jsx:28-29 | Lower-casing leaves no Latin or basic Cyrillic capital and keeps every character that is not one. |
| Js.LowerIdempotent | src/pages/HomePage.jsx:49-53 | Lower-casing an already lower-cased string changes nothing. |
| Js.LexLessAsymmetric | src/components/CarcassTable.jsx:32-33 | String `<` never holds in both directions. |
| Js.LexLessTransitive | src/components/CarcassTable.jsx:32-33 | String `<` is transitive. |
| Js.LexLessTotal | src/components/CarcassTable.jsx:32-34 | Two strings are equal or one is `<` the other, so on two string keys the comparator's final `return 0` is reached only for strings equal once lower-cased. |
| Js.IndexOfFrom | src/pages/HomePage.jsx:53 | The search finds the first occurrence at or after `from`. When it reports none, no occurrence exists there. |
| Js.IncludesIff | src/pages/HomePage.jsx:53 | `includes` holds exactly when the substring occurs at some index. |
| Js.ReplaceFirst | src/pages/DetailPage.jsx:197-198 | With no occurrence the string is unchanged. Otherwise only the first occurrence is replaced: the text before it is kept, the replacement follows, then the rest. |
| Js.TrimStart | src/pages/HomePage.jsx:46 | The result is a suffix of the term, preceded in it only by white space, and is empty or does not start with white space. |
| Js.TrimEnd | src/pages/HomePage.jsx:46 | The result is a prefix of the term, followed in it only by white space, and is empty or does not end with white space. |
| Js.TrimEmptyIff | src/pages/HomePage.jsx:46 | A term trims to `''` exactly when every character is white space. |
| Js.NatToStringParses | src/pages/HomePage.jsx:81-82 | The decimal text of a natural number is all digits and reads back as that number. |
| Js.IntToStringParses | src/pages/HomePage.jsx:81-82 | The text `${n}` of an integer, with its minus sign when negative, reads back as `n`. |
| Js.CanonicalIsNatToString | src/pages/HomePage.jsx:81-82 | A digit string without a leading zero (or `0` itself) is exactly the text written for its value. |
| Js.ParseIntCanonical | src/pages/HomePage.jsx:81-82 | The only text that reads back as `n` is `${n}`: no zero padding, no `-0`. |
| CarcassTable.SortState.constructor | src/components/CarcassTable.jsx:5-6 | The initial sort is `carcass_id` ascending. |
| CarcassTable.SortState.HandleSort | src/components/CarcassTable.jsx:9-16 | Clicking the current column flips the direction and keeps the column. Clicking another column selects it, ascending. |
| CarcassTable.ClickedSortsByField | src/components/CarcassTable.jsx:9-16 | After a click the clicked column is the sort column. The direction flips when it was already the sort column and is ascending otherwise. |
| CarcassTable.ClickTwiceRestores | src/components/CarcassTable.jsx:10-11 | Clicking the sort column twice restores the sort. |
| CarcassTable.NewFieldTwiceIsDesc | src/components/CarcassTable.jsx:12-15 | Clicking a new column twice sorts it descending. |
| CarcassTable.SortState.SortIcon | src/components/CarcassTable.jsx:54-61 | An arrow shows only on the sort column, and it shows the current direction. |
| CarcassTable.Compare | src/components/CarcassTable.jsx:18-35 | The comparator returns -1, 0 or 1. |
| CarcassTable.CompareNullPlacement | src/components/CarcassTable.jsx:23-24 | A null sorts after a non-null ascending and before it descending. Two nulls compare as 1 ascending and -1 descending, in either order. |
| CarcassTable.CompareDescNegatesAsc | src/components/CarcassTable.jsx:32-33 | For non-null keys, descending is ascending negated. |
| CarcassTable.CompareAscMeaning | src/components/CarcassTable.jsx:26-34 | For two non-null keys of one kind, ascending returns -1, 1 or 0 exactly when the first is less, greater or equivalent. Strings are compared lower-cased. |
| CarcassTable.KeyLessTrichotomy | src/components/CarcassTable.jsx:27-34 | Two keys of one kind are less, greater or equivalent, and equivalent excludes the other two. |
| CarcassTable.CompareAntisymmetric | src/components/CarcassTable.jsx:18-35 | Unless both keys are null, swapping the operands negates the result. |
| CarcassTable.CompareNegativeIff | src/components/CarcassTable.jsx:18-35 | Unless both keys are null, a negative result means the first key precedes the second in the column order for that direction. |
| CarcassTable.NotPrecedesTransitive | src/components/CarcassTable.jsx:18-35 | "Does not precede" is transitive on keys of one kind, so the column order can be sorted by. |
| CarcassTable.CopyToArray | src/components/CarcassTable.jsx:18 | `[...data]` is a fresh array holding the rows in order, so the sort never reorders `data` itself. |
| CarcassTable.SortedData | src/components/CarcassTable.jsx:18-35 | The sorted copy is a permutation of the rows, with a ghost map `p` to each row's original index. Two rows end up in reverse of their original order only where the comparator answered negative for them. Rows with equivalent non-null keys keep their original order, and so do nulls when ascending in this insertion-sort model. When the column's non-null keys are of one kind, no row precedes an earlier one in the column order. |
| CarcassTable.TiedNeverNegative | src/components/CarcassTable.jsx:26-34 | The comparator never answers negative on equivalent non-null keys, or on two nulls ascending. |
| CarcassTable.InversionsAskedStable | src/components/CarcassTable.jsx:18-35 | A reordering that inverts only pairs the comparator answered negative for keeps rows with tied keys in their original order. |
| CarcassTable.SwapKeepsProvenance | src/components/CarcassTable.jsx:18-35 | Swapping two neighbours that are in original order, where the comparator put the second first, keeps the map to original indices exact and one-to-one, and keeps every inversion one the comparator asked for. |
| CarcassTable.IsDifferentMeaning | src/components/CarcassTable.jsx:38-44 | A pair with a null is never different. Two numbers differ when more than 0.5 apart. Two strings differ when unequal. A number and a string always differ. |
| CarcassTable.IsDifferentIrreflexiveSymmetric | src/components/CarcassTable.jsx:38-44 | No value differs from itself, and the test is symmetric. |
| CarcassTable.ComparisonStyle | src/components/CarcassTable.jsx:47-52 | The highlight classes are returned exactly when the pair differs. |
| HomePage.KeepMatching | src/pages/HomePage.jsx:50-55 | Exactly the rows with a matching field are kept, in their order, each as often as it was loaded. |
| HomePage.FilterRecordsSound | src/pages/HomePage.jsx:44-58 | The filtered list is an order-preserving sub-list of the loaded rows that keeps every matching row. |
| HomePage.BlankSearchKeepsAll | src/pages/HomePage.jsx:46-47 | An all-white-space term shows every row. |
| HomePage.NonBlankSearchKeepsMatches | src/pages/HomePage.jsx:48-56 | Any other term shows exactly the rows with a field whose string form contains the lower-cased term, each as often as it was loaded. |
| HomePage.NullNeverMatches | src/pages/HomePage.jsx:52 | A null field never matches. |
| HomePage.SearchIgnoresCase | src/pages/HomePage.jsx:49-53 | Lower-casing the term first changes nothing. |
| HomePage.PaddedTermIsNotTrimmed | src/pages/HomePage.jsx:46-53 | Only the blankness test trims: `" ab"` does not find a row whose field is `"ab"`. |
| HomePage.SearchState.constructor | src/pages/HomePage.jsx:8-12 | No rows loaded, an empty search term and no rows shown. |
| HomePage.SearchState.ApplySearch | src/pages/HomePage.jsx:44-58 | The effect sets the shown rows to the filter of the loaded rows by the term and changes nothing else. |
| HomePage.SearchState.SetSearchTerm | src/pages/HomePage.jsx:44-58 | A new term leaves the shown rows filtered by that term. |
| HomePage.FormatLastUpdated | src/pages/HomePage.jsx:75-85 | No time gives "never". Under 60 s gives the whole seconds elapsed. Under an hour gives the whole minutes, from 1 to 59. Otherwise the clock time. |
| HomePage.LabelText | src/pages/HomePage.jsx:76-84 | "Never" reads `Никогда`. A seconds or minutes label is text that reads back as the number followed by ` сек. назад` or ` мин. назад`. Only the clock time has no fixed text. |
| HomePage.ReadsAsExactly | src/pages/HomePage.jsx:81-82 | A label that reads as `n` in a unit is exactly `${n}` followed by the unit. |
| ImageGallery.StepWellFormed | src/components/ImageGallery.jsx:10-41 | Every event keeps a flag for each category and a counter of 1 or 2 for raw and legacy. |
| ImageGallery.RunWellFormed | src/components/ImageGallery.jsx:10-41 | The same holds for any sequence of events. |
| ImageGallery.ErrorSticks | src/components/ImageGallery.jsx:17-31 | Once an image has failed, its error flag stays set through any events until the carcass changes. |
| ImageGallery.FallbackNeverReturns | src/components/ImageGallery.jsx:21-31 | Once a counter is 2 it stays 2 until the carcass changes. |
| ImageGallery.FirstFailureSwitchesFallback | src/components/ImageGallery.jsx:21-31 | A failure ends loading and sets the error for that category only, and moves a raw or legacy counter to 2. |
| ImageGallery.GalleryState.constructor | src/components/ImageGallery.jsx:4-8 | All images loading, none failed, counters at 1, nothing enlarged. |
| ImageGallery.GalleryState.ResetForCarcass | src/components/ImageGallery.jsx:10-15 | A carcass change restores that initial state. |
| ImageGallery.GalleryState.HandleImageLoad | src/components/ImageGallery.jsx:17-19 | A load clears only that image's loading flag. |
| ImageGallery.GalleryState.HandleImageError | src/components/ImageGallery.jsx:21-31 | A failure clears loading, sets the error, and moves the counter from 1 to 2 for raw and legacy only. |
| ImageGallery.GalleryState.OpenModal | src/components/ImageGallery.jsx:33-37 | An image is enlarged only if the server reported it and it has not failed. Otherwise nothing changes. |
| ImageGallery.GalleryState.CloseModal | src/components/ImageGallery.jsx:39-41 | Closing empties the enlarged-image slot and changes nothing else. |
| ImageGallery.ImageSourceMeaning | src/components/ImageGallery.jsx:44-58 | Each source lies in its category's directory. It names the server's file when `paths[t]` is non-empty. Otherwise it is `0000{id}-{n}c.jpg` or `0000{id}-{n}s.jpg` by counter, or `processed_{id}.jpg`. |
| ImageGallery.AvailableUsesResolvedFile | src/components/ImageGallery.jsx:44-58 | Against the server's response, an available category's source is the first existing `{id}{ext}` in the probed directory. |
| ImageGallery.ShowComparison | src/components/ImageGallery.jsx:177 | The comparison panel shows exactly when both the legacy and the new overlay are reported available. |
| ImageGallery.ComparisonShowsResolvedOverlays | src/components/ImageGallery.jsx:44-58 | Against the server's response, when the panel shows, both overlays are shown from the first existing file in their own directories. |
| ImageGallery.CalculateDifference | src/components/ImageGallery.jsx:155-162 | No delta when either value is zero or missing. Otherwise the delta is `(predict - legacy) / legacy * 100`, positive exactly when it is > 0. |
| ImageGallery.DifferenceSign | src/components/ImageGallery.jsx:155-161 | With a positive legacy value the delta is positive exactly when the prediction is larger. |
| ImageGallery.DifferenceExamples | src/components/ImageGallery.jsx:155-161 | 100→110 gives +10, 100→90 gives -10, a zero legacy value or a missing prediction gives none. |
| ImageGallery.ChangedVersusTableHighlight | src/components/ImageGallery.jsx:236 | The "changed" badge (`!==`) fires whenever the table would highlight the pair. It also fires when exactly one side is null or two numbers are within 0.5. |
| Server.CheckFileWithExtensions | src/server/index.js:114-124 | The probe reports a file exactly when one of the five extensions exists. It then reports the first in `.png, .jpg, .jpeg, .bmp, .webp` order, with its path. Otherwise it reports `{exists:false, path:null, extension:null}`. |
| Server.FirstExistingUnique | src/server/index.js:116-121 | Only one extension can be the first existing one. |
| Server.ProbeReportsUnique | src/server/index.js:115-124 | The probe's result is determined by the files present. |
| Server.PngPreferredOverJpg | src/server/index.js:114-121 | With `123.png` and `123.jpg` both present, `.png` is reported. |
| Server.MissingImageIsAbsent | src/server/index.js:123 | With no file in any extension the probe reports absence. |
| Server.CheckImages | src/server/index.js:126-143 | Each flag is its own directory's probe result: `original_images`, `legacy_images`, `processed_images`. `paths[t]` is non-null exactly when flag `t` is set, and is then `id` plus the first existing extension. |
| Server.SelectById | src/server/index.js:96 | The query returns only rows with that identifier, and is empty exactly when none has it. Its first row is the first such row. |
| Server.CarcassDetail | src/server/index.js:96-101 | 404 exactly when no row has the identifier. Otherwise the first matching row. |
| DetailPage.GroupData | src/pages/DetailPage.jsx:45-54 | No record gives no sections. Otherwise the four sections, in order. |
| DetailPage.SectionsHaveNoDuplicates | src/pages/DetailPage.jsx:49-52 | No section lists a column twice. |
| DetailPage.SectionsDisjoint | src/pages/DetailPage.jsx:49-52 | No column is listed in two sections. |
| DetailPage.UnderscoresToSpaces | src/pages/DetailPage.jsx:59 | Every `_` becomes a space and nothing else changes. |
| DetailPage.CapitalizeWords | src/pages/DetailPage.jsx:60 | The length is kept. The first character of every run of `\w` characters is upper-cased. Every other character is kept. |
| DetailPage.FormatFieldNameMeaning | src/pages/DetailPage.jsx:57-61 | The display name has the column name's length and no `_`. It upper-cases each word's first character and keeps every other character except `_`. |
| DetailPage.FormatFieldNameExample | src/pages/DetailPage.jsx:57-61 | `rea_legacy` is shown as `Rea Legacy`. |
| DetailPage.CellContent | src/pages/DetailPage.jsx:203-204 | A null value is shown as N/A and any other present value as itself. |
| DetailPage.ShowBadgesMeaning | src/pages/DetailPage.jsx:206-207 | On a row with the column, the badges show exactly when: the column name contains `legacy`; its rewrite is a key of the row; both values are non-null; and the values differ. |
| DetailPage.NoLegacyNoPair | src/pages/DetailPage.jsx:197-198 | A column without `legacy` is left unchanged by the rewrite and never shows badges. |
| DetailPage.RewriteAfterPrefix | src/pages/DetailPage.jsx:197-198 | When the prefix cannot start a `legacy`, the rewrite replaces the `legacy` that follows it. |
| DetailPage.PairReaLegacy | src/pages/DetailPage.jsx:197-198 | `rea_legacy` pairs with `rea_predict`. |
| DetailPage.PairMarblingLegacyGrade | src/pages/DetailPage.jsx:197-198 | `marbling_legacy_grade` pairs with `marbling_predict_grade`. |

## Left out

- The sort algorithm itself is `Array.prototype.sort`, a library routine. It is modelled as an insertion sort over a copy that moves an element only while `compare(new, existing) < 0`.
- CarcassTable.SortedData: stability for two nulls is a property of the insertion-sort model only, not of `Array.prototype.sort`. The comparator answers the same sign in both argument orders for two nulls (1 ascending, -1 descending), and a non-zero answer when a null row is compared with itself (`src/components/CarcassTable.jsx:23`). It is therefore not a consistent comparator, and the engine may order nulls either way in both directions. The model keeps them in order ascending and reverses them descending; no order of nulls is promised descending.
- CarcassTable.SortedData: sortedness is proved only when the column's non-null keys are all numbers or all strings. With a string key on the left and a number on the right, the source throws a TypeError at `bValue.toLowerCase()` (`src/components/CarcassTable.jsx:29`). With a number on the left and a string on the right, `<` coerces the string (`5 < "10"` holds, giving -1). The model's `Compare` returns 0 for every mixed pair instead.
- CarcassTable.Key: a missing column reads as null, not `undefined`. In the source `undefined` is not `=== null`, so the null rule does not place it. Against a number it compares 0 both ways, and after a string key it throws a TypeError. The model places it as a null instead.
- CarcassTable.IsDifferent: numbers are exact reals, whereas the program computes on IEEE doubles. Pairs at or near 0.5 apart can therefore get a different answer: in doubles `Math.abs(1.1 - 0.6)` is 0.5000000000000001, so the program flags the pair, while the model does not. The same holds for `<` in `Compare` and for the division in `ImageGallery.CalculateDifference`.
- Js.Lower: lower-casing covers ASCII and the basic Cyrillic letters (U+0400–U+042F) only. Other scripts are left unchanged.
- Js.LexLess: compares code points, not UTF-16 code units. The two agree on the Basic Multilingual Plane, where the application's text lies.
- Js.NumberToString: writes the integer part and at most 20 fractional digits, never the exponent form. The search matches numbers through this text.
- ImageGallery.CalculateDifference: `toFixed(1)` rounding is not modelled. The delta and its sign are on the exact value, whereas the source compares the rounded string with 0.
- HomePage.LabelText: the clock-time branch uses `toLocaleTimeString`, which depends on the browser's locale, and is left unrendered.
- Server.CheckImages: `path.join` normalisation (including `..` inside `id`) is not modelled. Paths are plain concatenation under an images root.
- Server.SelectById: the SQL comparison of the identifier, including its type coercion, is modelled as value equality on `carcass_id`.
- ImageGallery.ImageSource: a response without a `paths` object is not modelled, because the server always sends one.
- Database errors (the 500 answers) and all network I/O: the axios client, timeouts, the Express bootstrap, CORS, logging and static serving.
- Asynchronous loading, refresh, timers and polling are not modelled. React rendering, CSS classes, the modal markup and tab switching are not modelled either.

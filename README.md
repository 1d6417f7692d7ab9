# Sunday-school question papers: a verified model of the viewer's core

The viewer lists the question papers stored in a GitHub repository. Each PDF
or image becomes a *material*. Its class ("Class 7") and year ("2023") come
from the segments of its path. The user can narrow the list with a search box
and two dropdowns, and can page through a PDF in a modal. This project models
the logic of `app.js` behind those features in Dafny and proves what it
promises:

- `Text`: the JavaScript built-ins the core relies on, with their exact
  semantics. These are `toLowerCase` (ASCII), `includes`, `split` on one
  character, and the regular-expression classes `\d`, `\w` and `\s`.
- `PathLabels`: `extractClass` and `extractYear`. Each regular expression is
  written twice: as the declarative shape of the leftmost match JavaScript
  reports, and as a left-to-right scanner proved to find exactly that match.
- `Materials`: how one listed file is classified, and the recursive listing.
  The network listing is replaced by the directory tree it describes. The
  module also holds the `Catalog` class, which owns the global
  `allMaterials`, `classes` and `years`, with `fetchGitHubContents`,
  `loadMaterials` and the refresh button as methods.
- `Filter`: `filterMaterials`, an order-preserving filter on three
  criteria.
- `Viewer`: the page-navigation state (`pdfDoc`, `currentPage`, the page
  box). `PageViewer` is the code as written. `GuardedPageViewer` fixes the
  race described under Findings.

The asynchronous `renderPage` is split in two. `RenderPage` is the part
before the first `await`: it checks `pdfDoc` and records a pending render.
`CompleteRender` is the continuation of one pending render, which may run in
any order relative to the others.

When no segment matches the class pattern, `extractClass` returns
`pathParts[0] || 'Unknown'` (app.js:182). That gives `"Unknown"` both for an
empty path and for a path whose first segment is the empty string, for
example a path that starts with `/`. `ExtractClass` does the same.

## Model

| member | source | states |
|---|---|---|
| Text.Lower | app.js:222 | `toLowerCase` keeps the length and lower-cases each ASCII letter, leaving every other character alone |
| Text.LowerIdempotent | app.js:227 | lower-casing an already lower-cased string changes nothing |
| Text.Contains | app.js:227 | `hay.includes(needle)`: the needle occurs in the string at some offset |
| Text.ContainsEmpty | app.js:227 | every string `includes` the empty search term |
| Text.Split | app.js:152 | `split('/')` always gives at least one piece, so `pop()` and `pathParts[0]` have something to return |
| Text.SplitIsPieces | app.js:152 | no piece of a split holds the separator, and joining the pieces with the separator gives back the input |
| Text.SplitAfterWord | app.js:152 | a separator-free word in front of more text is glued to the first piece of that text |
| Text.SplitWord | app.js:152 | a separator-free string splits into itself alone |
| Text.SplitAfterSeparator | app.js:152 | a leading separator yields an empty first piece |
| Text.SplitJoin | app.js:152 | splitting separator-free pieces joined by the separator gives back exactly those pieces |
| Text.JoinEndsWithLast | app.js:150 | the last piece of a split ends the string and is preceded by the separator when there are several pieces |
| PathLabels.KeywordAtIsLowerWord | app.js:177 | the keyword test at an offset is exactly the `/i` comparison of the next five characters with "class" or "grade" |
| PathLabels.ClassMatchAt | app.js:177 | the match JavaScript reports for the class-or-grade pattern at a start: the keyword, a run of separators, then digits with no digit after them |
| PathLabels.ClassMatchIsScanned | app.js:177 | any match of the class-or-grade pattern at a given start takes the whole separator run and then the whole digit run |
| PathLabels.ClassMatchUnique | app.js:177-179 | at a given start the class pattern has at most one match, so the capture is determined |
| PathLabels.SeparatorsEnd | app.js:177 | `[\s_-]*` is greedy: every character up to the result is a separator and the next one is not |
| PathLabels.DigitsEnd | app.js:177 | `\d+` is greedy: every character up to the result is a digit and the next one is not |
| PathLabels.ClassMatchFrom | app.js:177-178 | a match reported by the scanner starts at or after the offset, and its digits follow the keyword inside the segment |
| PathLabels.ClassMatchFromIsMatch | app.js:177-178 | what the scanner reports is a match of the class pattern: keyword, separators, a maximal digit run |
| PathLabels.ClassMatchFromIsLeftmost | app.js:177-178 | every match starting at or after the offset starts no earlier than the reported one, so one is reported whenever one exists |
| PathLabels.NoClassMatchAt | app.js:177 | where no digit follows the keyword and its separators, no match starts |
| PathLabels.FindClass | app.js:177-178 | `part.match(...)` of the class pattern reports positions inside the segment with a non-empty capture |
| PathLabels.FindClassIsLeftmost | app.js:177-178 | the reported match is a match and the leftmost one, and there is none exactly when the segment has no match |
| PathLabels.ClassCapture | app.js:179 | the captured group is a non-empty run of digits |
| PathLabels.CaptureOfLeftmost | app.js:177-179 | a match with no keyword before it is the one reported, and its digits are the capture |
| PathLabels.FirstClassSegment | app.js:176-181 | the reported index is a segment, at or after the start, in which the class pattern matches |
| PathLabels.FirstClassSegmentIsFirst | app.js:176-181 | no earlier segment matches, and none is reported exactly when no segment matches |
| PathLabels.ExtractClass | app.js:174-183 | the class label is never the empty string |
| PathLabels.ExtractClassIsFirstMatch | app.js:174-183 | the label is "Class " plus the capture of the first matching segment; with no match, the first segment if non-empty, else "Unknown" |
| PathLabels.YearAt | app.js:189 | `\b20\d{2}\b` at an offset: "20" and two digits, with no word character just before or just after |
| PathLabels.YearFrom | app.js:189 | a hit reported from an offset is a `\b20\d{2}\b` token at or after it |
| PathLabels.YearFromIsLeftmost | app.js:189 | no token lies between the offset and the hit, and there is no hit exactly when there is no token from the offset on |
| PathLabels.FindYear | app.js:189 | `part.match(/\b(20\d{2})\b/)` reports a year token |
| PathLabels.FindYearIsLeftmost | app.js:189 | the reported token is the leftmost one, and none is reported exactly when the segment has none |
| PathLabels.FirstYearSegment | app.js:188-193 | the reported index is a segment, at or after the start, that contains a year token |
| PathLabels.FirstYearSegmentIsFirst | app.js:188-193 | no earlier segment has a token, and none is reported exactly when no segment has one |
| PathLabels.ExtractYear | app.js:186-195 | the year label is "Unknown" or four characters "20dd" |
| PathLabels.ExtractYearIsFirstToken | app.js:186-195 | the label is the leftmost token of the first segment with one, and "Unknown" exactly when no segment has one |
| PathLabels.UnanchoredClass | app.js:177 | the pattern is not anchored: the segment "subclass3" is labelled "Class 3" |
| PathLabels.SubclassCapture | app.js:177-179 | in "subclass3" the leftmost class match starts inside the word and captures "3" |
| PathLabels.UnderscoreHidesYear | app.js:189 | `_` is a word character, so "Class_2023" carries no year |
| Materials.RawExtension | app.js:150 | `name.split('.').pop()` holds no dot |
| Materials.RawExtensionIsLastPiece | app.js:150 | the raw extension ends the name and is either the whole name or the text after its last dot |
| Materials.FileExtension | app.js:150 | the lower-cased extension compared against the list holds no dot |
| Materials.ExtensionOfSuffix | app.js:150 | a name ending in a dot and a dot-free lower-case extension has that extension, whatever dots come before |
| Materials.KnownExtension | app.js:150 | "paper1.pdf" has extension "pdf" and "file.png" has "png" |
| Materials.ExtensionAfterDot | app.js:150 | a name with one dot has the text after the dot as its extension |
| Materials.MakeMaterial | app.js:150-161 | a file becomes a material exactly when its extension is pdf, jpg, jpeg, png, gif or webp; its type is PDF exactly for "pdf"; name, path and URL are kept; the labels are those of the path's segments and the class is never empty |
| Materials.ClassSevenPaperScenario | app.js:150-161 | "class_7/2023/paper1.pdf" is a PDF labelled "Class 7", "2023" |
| Materials.UnsortedImageScenario | app.js:150-161 | "Unsorted/file.png" is an image labelled "Unsorted", "Unknown" |
| Materials.NoKeywordNoClassMatch | app.js:177 | a segment with no `c` or `g` that a keyword could start at has no class match |
| Materials.NoDigitNoYear | app.js:189 | a segment without the digit 2 has no year |
| Materials.Listing | app.js:144-170 | the materials the walk collects, depth first and in listing order, with at most one for each file of the tree |
| Materials.Files | app.js:145-149 | the depth-first walk yields only `file` entries |
| Materials.MaterialsOfExactly | app.js:150-161 | every material comes from a listed file, every allowed file yields its material, and there are none exactly when no file is allowed |
| Materials.MaterialsOfAppend | app.js:145-165 | classifying two consecutive runs of files gives the materials of the first followed by those of the second |
| Materials.ListingFlattensFiles | app.js:144-170 | the listing's materials are the tree's files, depth first and in listing order, each classified on its own |
| Materials.ListingAppend | app.js:144-167 | the materials of two consecutive runs of items are those of the first followed by those of the second |
| Materials.ListingSoundAndComplete | app.js:144-170 | every listed material is an allowed file of the tree with a non-empty class, and every allowed file of the tree is listed |
| Materials.ClassLabels | app.js:164 | the class labels that the listed materials add to `classes` |
| Materials.YearLabels | app.js:165 | the year labels that the listed materials add to `years` |
| Materials.LabelsAreCarried | app.js:164-165 | a label is in `classes` or `years` exactly when some material carries it |
| Materials.Catalog.constructor | app.js:2-4 | the application starts with no materials and empty label sets |
| Materials.Catalog.FetchItem | app.js:145-165 | one listed item: a directory contributes its whole listing, an allowed file its material, anything else nothing; the labels found join the sets |
| Materials.Catalog.FetchContents | app.js:118-171 | returns the materials of the listing in depth-first order and adds exactly their class and year labels to the two sets |
| Materials.Catalog.LoadMaterials | app.js:95-115 | fails with nothing changed when the user or repository name is missing; otherwise `allMaterials` becomes the listing |
| Materials.Catalog.Refresh | app.js:34-39 | a refresh fails exactly when the user or repository name is missing; afterwards `allMaterials` is the listing (empty on failure) and the sets hold exactly its labels, never the empty class |
| Materials.RefreshIsIdempotent | app.js:34-39 | a second refresh with the same configuration and tree shows the same materials and classes as the first, and with a complete configuration they are the listing |
| Filter.Matches | app.js:226-230 | a material matches when its lower-cased name includes the lower-cased search text and its class and year equal the selected ones where one is selected; with nothing typed or selected every material matches |
| Filter.SubsequenceElements | app.js:226 | an order-preserving subsequence is no longer than the list and holds only its elements |
| Filter.FilterMaterials | app.js:221-234 | the result is an order-preserving subsequence of `allMaterials`, holds only matching materials and holds every matching one |
| Filter.FilterAppend | app.js:226-231 | filtering a concatenation filters each part |
| Filter.FilterKeepsAllIff | app.js:226-231 | the filter returns the list unchanged exactly when every material matches |
| Filter.FilterEmptyIff | app.js:226-231 | the filter returns nothing exactly when no material matches, which is when the empty state is shown |
| Filter.NoCriteriaShowsAll | app.js:226-231 | with an empty search and "All" in both dropdowns every material is shown, in order |
| Filter.FilterIdempotent | app.js:226-231 | filtering the result again with the same criteria returns it unchanged |
| Filter.SearchIgnoresCase | app.js:222 | lower-casing the search text first does not change what is shown |
| Filter.UnknownClassShowsNothing | app.js:229 | selecting a class that no material carries shows nothing |
| Filter.UnknownYearShowsNothing | app.js:230 | selecting a year that no material carries shows nothing |
| Viewer.Without | app.js:336-354 | removing one pending render keeps the others in order |
| Viewer.PageViewer.constructor | app.js:7-8 | no document is open and the page is 1 |
| Viewer.PageViewer.RenderPage | app.js:332-336 | with no document open nothing happens; otherwise a render of the page is started on the open document |
| Viewer.PageViewer.CompleteRender | app.js:336-354 | when the render succeeds the page and the page box become the rendered page, otherwise nothing changes; the page stays in range if the render belongs to the open document |
| Viewer.PageViewer.Prev | app.js:50-56 | acts only on an open document past page 1: one page back and a render of it; keeps the page in range |
| Viewer.PageViewer.Next | app.js:58-64 | acts only on an open document before its last page: one page on and a render of it; keeps the page in range |
| Viewer.PageViewer.PageInputChanged | app.js:66-75 | a typed page in `1..numPages` of the open document is rendered; anything else puts the current page back in the box |
| Viewer.PageViewer.Open | app.js:299-315 | a failed load changes nothing; a loaded document is opened at page 1 and page 1 is rendered |
| Viewer.PageViewer.Close | app.js:318-330 | no document is open and the page is 1 |
| Viewer.StaleRenderEscapesRange | app.js:332-355 | a render started before close that resumes after a shorter document is opened leaves page 8 of a 3-page document |
| Viewer.GuardedPageViewer.constructor | app.js:7-8 | no document, page 1, generation 0, and the invariant holds |
| Viewer.GuardedPageViewer.RenderPage | app.js:332-336 | as `RenderPage`, with the render tagged with the current generation |
| Viewer.GuardedPageViewer.CompleteRender | app.js:336-354 | a render from an earlier generation changes nothing; otherwise as written; the page stays in range of the open document |
| Viewer.GuardedPageViewer.Prev | app.js:50-56 | as `Prev`, keeping the invariant |
| Viewer.GuardedPageViewer.Next | app.js:58-64 | as `Next`, keeping the invariant |
| Viewer.GuardedPageViewer.PageInputChanged | app.js:66-75 | as `PageInputChanged`, keeping the invariant |
| Viewer.GuardedPageViewer.Open | app.js:299-315 | as `Open`, and a loaded document starts a new generation |
| Viewer.GuardedPageViewer.Close | app.js:318-330 | as `Close`, and a new generation starts |
| Viewer.StaleRenderIgnored | app.js:332-355 | the sequence of `StaleRenderEscapesRange` leaves the guarded viewer at page 1 of the 3-page document |

## Left out

- HTTP: the URL, headers, token and the status-to-message mapping of `fetchGitHubContents` (app.js:118-141) are network I/O. The listing is given as the directory tree it returns, and a failed request is not modelled.
- PDF.js: `getDocument`, `getPage`, `getViewport` and `render`, and the canvas sizing. A loaded document is its page count, and a render's outcome is a success flag.
- A loaded PDF is assumed to have at least one page (`PageCount`).
- Zoom: `scale` and the zoom buttons (app.js:9, 77-91, 304, 325) are floating-point. Starting from 1.5 and subtracting 0.2 five times in a row, as app.js:87 does, gives 0.5000000000000002, which is still above 0.5. A model in tenths would therefore guard wrongly. A zoom button re-renders `currentPage`. When that page is out of range, `getPage` rejects it and the render changes nothing, as `CompleteRender` with a failed outcome does.
- The awaits inside `fetchGitHubContents` and `loadMaterials` are not split: each load runs to completion as one step. The refresh button (app.js:34-39) does not await `loadMaterials`, so a refresh clicked while an earlier load is still running can interleave two loads. That interleaving is not modelled.
- `parseInt` of the page box: `PageInputChanged` receives the parsed number, `None` standing for `NaN`.
- The page box's value before any PDF is opened depends on the HTML page, which is not part of this model; the constructors take it to be 1.
- `Viewer.PageViewer.Open`: the await on `getDocument` is not split. The method is the state change once the document has loaded, or has failed to load.
- The order in which renders of the same document finish is left to the caller of `CompleteRender`. The model does not say which page the canvas shows.
- DOM work is not modelled: dropdown population with its locale-dependent sort, cards, modals, the loading and error displays, the image modal, and the click and key handlers (app.js:198-218, 237-285, 358-415).
- `toLowerCase` and the `/i` flag are modelled for ASCII only. Unicode case folding is not modelled.
- config.js holds only constants. The configuration enters the model as `Materials.Config`.

## Findings

| source | as written | input that shows it | evidently intended | confidence | as-written member | corrected member |
|---|---|---|---|---|---|---|
| app.js:332-355 | after its two awaits `renderPage` sets `currentPage` and the page box to the page it was asked for, without checking that `pdfDoc` is still the document the render started on | open a 10-page PDF, type 8 in the page box, close the modal, open a 3-page PDF, and let the page-8 render finish last: `currentPage` is 8 while `numPages` is 3 | a render that resumes after its document was closed changes nothing, so the page stays in `1..numPages` | medium; depends on the old render finishing after the new document loads; not executed | Viewer.StaleRenderEscapesRange | Viewer.GuardedPageViewer.CompleteRender |

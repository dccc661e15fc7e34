# WEB2MD page-to-Markdown conversion, modelled in Dafny

WEB2MD is a browser extension that turns the current web page into Markdown.
Its content script (`content.js`) finds the page's content area, clones it,
prunes noise, images and links from the clone, runs it through Turndown (or
through a small fallback converter when Turndown is not loaded), cleans up
the Markdown with a chain of regular-expression rewrites, and puts the page
title in front. The popup (`popup.js`) and the background worker
(`background.js`) each turn a title into a download file name, and the popup
shows a truncated preview.

This project models that core and proves what it promises:

- `Dom`, `Selectors`: the page is a value tree
  `Node = Element(tag, attrs, children) | Text(text)`. The CSS selectors the
  converter uses become a `Selector` datatype with a `Matches` predicate.
  `Malformed` stands for selector text on which a query throws.
  `querySelector`/`querySelectorAll` are document-order searches of the
  descendants.
- `JsString`: ECMAScript string operations the code relies on: `trim`,
  `\s` and the line terminators, run replacement (`/\s+/g`, `/\n+/g`), and
  ASCII `toLowerCase`.
- `CellFormat`, `TableSerializer`: `processTable` and
  `processCellContent`. The methods keep the source's loops. Functions over
  the rows' cell contents specify them, and the lemmas prove the layout of
  a pipe table: column count, padding, separator, and cell shape.
- `Pruning`: the noise filter, `removeImages` and `removeLinks`. Each is a
  function on trees. The class `ContentClone` holds the cloned tree, and its
  methods replace the tree by that function's value.
- `TurndownRules`: the custom Turndown rules (`tables`, the pass-through
  rules, `codeBlock`, `images`) inside a model of Turndown's walk.
  Turndown's own behaviour is an `Engine` record of functions.
- `ContentLocator`: `extractContentManually`.
- `FallbackConverter`: `basicHtmlToMarkdown`.
- `MarkdownCleanup`: `cleanMarkdown`. Each regular expression is a scan
  that picks the match the ECMAScript backtracking matcher picks.
- `PageConverter`: `convertPageToMarkdown` without its messaging, and
  `getTextFromElement`.
- `Popup`, `Background`: the two `sanitizeFilename` functions, the download
  names, and the preview.

Where the code and its description disagree, the model follows the code:

- An element that the noise filter keeps because it contains a table is not
  left untouched. Its descendants are in the same node list, and each of them
  is removed when it matches and holds no table
  (`Pruning.PruneWithoutTablesRemovesAllMatches`,
  `Pruning.FilterNotIdempotent`).
- When no content selector matches, the code does not report "content not
  found". It falls back to `document.body`. Since `body` is the last
  selector, that fallback is reached only for a frameset document
  (`ContentLocator.BodyFallbackIsFrameset`). When `document.body` is null,
  reading it throws, which the model reports as the error `NoBody`.
- `cleanMarkdown` is described as safe to apply twice. It is not: the list
  pattern's `\s*` runs over line ends, so `-\n-` becomes `- - `, and a
  second pass trims the trailing space (`MarkdownCleanup.BulletLinesMerge`,
  `MarkdownCleanup.CleanMarkdownNotIdempotent`).

## Model

| member | source | states |
|---|---|---|
| Selectors.FilterSpec | content.js:364 | the filtered list holds exactly the nodes of the input that match the selector |
| Selectors.FilterAppend | content.js:364 | filtering distributes over concatenation, so the matches keep their document order and their number |
| Selectors.FirstIndexSpec | content.js:172 | `querySelector` finds the first match in document order, and finds none only when no node matches |
| JsString.TrimSpec | content.js:144 | `trim` gives the slice of the input between its leading and its trailing whitespace, and that slice starts and ends with non-whitespace |
| JsString.TrimEmpty | content.js:144 | `trim` gives the empty string exactly when the input is all whitespace |
| JsString.TrimOfTrimmed | content.js:427 | a text with no whitespace at either end is its own trim |
| JsString.ReplaceRunsSpec | content.js:144 | after a run replacement, the only run character left is the fill, no two run characters are adjacent, and the first character is the fill exactly when the input started with a run |
| JsString.ReplaceRunsKeepsText | popup.js:232 | a run replacement changes nothing but the runs: with run characters and the fill erased, input and output agree |
| JsString.ReplaceRunsAppend | popup.js:232 | run replacement works piecewise on both sides of a cut that does not fall inside a run |
| JsString.ReplaceRunsSplit | popup.js:232 | a maximal run between two pieces becomes exactly one fill character, and each piece is replaced on its own |
| JsString.ReplaceRunsOfPlain | content.js:144 | text without run characters is left unchanged |
| JsString.EraseAppend | popup.js:232 | erasing whitespace distributes over concatenation |
| JsString.AsciiLower | popup.js:234 | lower-casing leaves no ASCII upper-case letter, keeps whitespace whitespace, and changes only upper-case letters |
| JsString.ToLowerCase | popup.js:234 | `toLowerCase` keeps the length and lower-cases each character |
| JsString.Prefix | popup.js:233 | `substring(0, n)` is a prefix of at most `n` characters, the whole text when it is shorter |
| CellFormat.CollapseRunsSpec | content.js:144 | collapsing keeps emptiness and the first character (or a space for a leading run), leaves no newline, and leaves whitespace single-spaced |
| CellFormat.EscapePipesSpec | content.js:146 | escaping leaves every pipe preceded by a backslash, keeps the ends, and keeps a single-spaced text single-spaced |
| CellFormat.UnescapeEscape | content.js:146 | unescaping the escaped text gives back the text |
| CellFormat.NormalizedCellIsWellFormed | content.js:144-147 | every emitted cell is non-empty, one line, single-spaced, trimmed unless it is the lone space, and has every pipe escaped |
| CellFormat.ReadNormalizedCell | content.js:144-147 | reading an emitted cell back (trim, unescape) gives the cell's collapsed and trimmed text |
| CellFormat.ReadPaddedCell | content.js:153 | the spaces the row line puts around a cell do not change what the cell reads as |
| TableSerializer.ProcessTable | content.js:118-164 | the loops compute the table's Markdown as the specification functions define it, failing with the first failing cell |
| TableSerializer.CountColumns | content.js:124-130 | the first loop computes the largest cell count of any row |
| TableSerializer.BuildRow | content.js:138-151 | the column loop gives one row's data, or the error of its first failing cell |
| TableSerializer.ProcessCellContent | content.js:167-182 | a complex cell goes through the converter; any other cell gives its `textContent` |
| TableSerializer.CleanCell | content.js:144-147 | the cell cleanup collapses, trims, escapes and gives `' '` for an empty result |
| TableSerializer.ColumnCountSpec | content.js:124-130 | the column count bounds every row's cell count and equals one of them, or is 0 |
| TableSerializer.Dashes | content.js:157 | the separator has `columnCount` entries, each `---` |
| TableSerializer.RowDataSucceeds | content.js:139-151 | a row's data succeeds exactly when every present cell's content does |
| TableSerializer.RowDataValues | content.js:139-151 | a successful row's data has exactly `columnCount` entries: the normalised cell at each present column, `' '` past the last cell |
| TableSerializer.RowDataError | content.js:139-151 | a failing row carries the error of its first failing cell |
| TableSerializer.RowDataWellFormed | content.js:139-151 | every entry of a row's data is a well-formed cell, and there are `columnCount` of them |
| TableSerializer.TableLinesSucceed | content.js:133-160 | the table fails exactly when some row with cells fails |
| TableSerializer.DataRowsSpec | content.js:135 | the rows that produce a line are exactly the rows with cells, in document order |
| TableSerializer.DataRowsEmpty | content.js:135 | no row produces a line exactly when no row has a cell |
| TableSerializer.TableLinesCount | content.js:153-159 | one line per row with cells, plus a `---` separator as the second line exactly when the first row has cells |
| TableSerializer.TableLinesLayout | content.js:133-160 | the j-th row with cells gives the line after the separator (if any), in document order |
| TableSerializer.TableLinesShape | content.js:139-159 | every emitted line has `columnCount` cells, all well formed |
| TableSerializer.TableMarkdownEmpty | content.js:120-121 | a table gives the empty string exactly when none of its rows has a cell, in particular when it has no row |
| TableSerializer.RowsMarkdownEmpty | content.js:121-160 | the serialization of the rows' contents is empty exactly when no row has a cell |
| TableSerializer.LinesTextEmpty | content.js:153 | the text of the lines is empty exactly when there is no line |
| Pruning.Removed | content.js:368-375 | every element the filter removes is a descendant of the root, matches the selector, and has no table below it |
| Pruning.PruneConserves | content.js:362-380 | every node either stays or is in a removed subtree: sizes add up |
| Pruning.PruneCountsTables | content.js:370-375 | the only tables a pass loses are matched tables with no table inside, so an element that contains a table is never removed |
| Pruning.PruneWithoutTablesRemovesAllMatches | content.js:364-375 | in a tree without tables no matching descendant survives |
| Pruning.PruneKeepsRoot | content.js:364 | the root is never removed: its kind, tag and attributes stay |
| Pruning.RemoveUnwanted | content.js:329-385 | after the whole denylist the root keeps its kind, tag and attributes |
| Pruning.Parsing | content.js:363-379 | the selectors whose queries run are exactly the ones that parse |
| Pruning.MalformedSelectorsAreSkipped | content.js:363-379 | a selector whose query throws is skipped and changes nothing for the others |
| Pruning.DenylistParses | content.js:331-359 | no selector of the denylist is skipped |
| Pruning.FilterNotIdempotent | content.js:362-380 | a `.ads` block kept for its `.ads` table loses that table, and a second run removes the block |
| Pruning.StripImagesSpec | content.js:387-390 | after `removeImages` no `img` is left; the root stays; a tree without images is unchanged |
| Pruning.StripLinksSpec | content.js:392-398 | after `removeLinks` no `a` is left and the `textContent` is unchanged; the root stays; a tree without links is unchanged |
| Pruning.StripImagesAddsNoTag | content.js:387-390 | removing images brings in no element that was not there |
| Pruning.StripLinksAddsNoTag | content.js:392-398 | replacing links by text brings in no element that was not there |
| Pruning.StripImagesIsPrune | content.js:387-390 | when no image holds a table, `removeImages` removes exactly the `img` subtrees and leaves every other node in place: it is the filter pass for `img`, and the sizes add up |
| Pruning.StripLinksKeepsPlaces | content.js:392-398 | every node reached by a path that does not go through a link is still there: a link as a text node with its `textContent`, another element with its tag, attributes and number of children, a text node unchanged |
| Pruning.StripLinksDropsInside | content.js:392-398 | nothing that lay inside a link is left |
| Pruning.ContentClone.RemoveUnwantedElements | content.js:329-385 | the clone becomes the filtered tree |
| Pruning.ContentClone.RemoveImages | content.js:387-390 | the clone becomes the tree without images |
| Pruning.ContentClone.RemoveLinks | content.js:392-398 | the clone becomes the tree with its links replaced by their text |
| TurndownRules.TableGoesToTableRule | content.js:48-62 | a table is never blank and goes to the `tables` rule |
| TurndownRules.FindLanguageSpec | content.js:92 | the search finds the leftmost `language-` followed by a word character, and none only when there is none |
| TurndownRules.MatchLanguageSpec | content.js:92 | the capture of `language-(\w+)` is the maximal non-empty run of word characters after the leftmost `language-` that is followed by one; none exactly when there is no such `language-` |
| TurndownRules.CodeLanguageIsWord | content.js:92 | the language of a code block is empty or made of word characters only |
| TurndownRules.ReadFenceRoundTrip | content.js:93 | a fenced block reads back into its language and its content, whatever the content holds |
| TurndownRules.CodeBlockReadable | content.js:89-95 | the `codeBlock` rule's output reads back into the block's language and content |
| TurndownRules.ImageMarkdownSpec | content.js:98-114 | an image with an unresolvable source fails, an image without a source vanishes, and any other image gives exactly `![alt](url)` for the resolved `url`, or `![alt](url "title")` when the image has a title |
| TurndownRules.RenderSucceeds | content.js:57-114 | only the `tables` and `images` rules can fail: a tree without tables and images renders |
| TurndownRules.TurndownSucceeds | content.js:238 | content without tables and images converts without error |
| ContentLocator.DocumentQuerySpec | content.js:313 | `document.querySelector` finds a matching element of the document, and finds none only when none matches |
| ContentLocator.FirstMatchSpec | content.js:312-321 | the content area is the result of the first selector whose query finds something, and there is none only when no query does |
| ContentLocator.QueryInOrder | content.js:312-321 | the first-match loop returns what `FirstMatch` defines |
| ContentLocator.ExtractionFails | content.js:312-326 | extraction fails exactly when no content selector matches and the document has no body |
| ContentLocator.BodyFallbackIsFrameset | content.js:309-326 | the `document.body` fallback is reached only for a frameset document |
| ContentLocator.ExtractedFromDocument | content.js:312-326 | the extracted content is the filtered clone of an element of the document |
| ContentLocator.ExtractContentManually | content.js:295-327 | the method returns a fresh clone holding the extracted content, or the extraction error |
| FallbackConverter.PlaceTablesWithoutTables | content.js:405-415 | the table pass leaves a tree without tables unchanged |
| FallbackConverter.WalkVisitsDescendants | content.js:417-425 | the tree walker visits every node below the root in document order, the root excluded |
| FallbackConverter.BasicHtmlToMarkdown | content.js:400-480 | the walker loop appends each visited node's piece, in order, after the table pass |
| FallbackConverter.PlaceholderPieces | content.js:426-436 | a table placeholder contributes exactly its table's Markdown between blank lines |
| FallbackConverter.FallbackWithoutTables | content.js:400-480 | without tables the fallback succeeds and walks the content unchanged |
| FallbackConverter.ComplexCellFails | content.js:172-177 | without Turndown, a complex table cell makes the conversion fail |
| FallbackConverter.ParagraphTextTwice | content.js:426-454 | a paragraph's text is written twice, once for the `p` element and once for its text node |
| MarkdownCleanup.CollapseBlankLinesSpec | content.js:485 | after `/\n{3,}/g` no three newlines are in a row, and the first character and emptiness are kept |
| MarkdownCleanup.CollapseBlankLinesKeeps | content.js:485 | a text without three newlines in a row is left unchanged |
| MarkdownCleanup.CollapseBlankLinesKeepsText | content.js:485 | the rewrite only shortens newline runs |
| MarkdownCleanup.CollapseBlankLinesAppend | content.js:485 | the rewrite works piecewise on both sides of a cut that does not fall inside a newline run |
| MarkdownCleanup.CollapseBlankLinesSplit | content.js:485 | a maximal newline run becomes exactly two newlines when it has three or more and stays otherwise; the text on either side is rewritten on its own |
| MarkdownCleanup.CollapseBlankLinesOfPlain | content.js:485 | text without newlines is left unchanged |
| MarkdownCleanup.MatchHeaderFound | content.js:489 | a header match is one the pattern allows, and its text runs to the end of its line |
| MarkdownCleanup.MatchHeaderBest | content.js:489 | the header pattern matches exactly when a match exists, and then with the most hashes and the latest text start, as the backtracking matcher does |
| MarkdownCleanup.HeaderLineShape | content.js:489 | a header replacement starts with the first hash, holds no newline, and ends inside the line |
| MarkdownCleanup.FixHeadersKeepsText | content.js:489 | the header pass only removes and inserts whitespace |
| MarkdownCleanup.FixHeadersNoTriple | content.js:489 | the header pass brings in no run of three newlines |
| MarkdownCleanup.FixHeadersFirst | content.js:489 | the header pass keeps the first character |
| MarkdownCleanup.FixHeadersLast | content.js:489 | a text that ends inside a line still does after the header pass |
| MarkdownCleanup.FixHeadersNoHash | content.js:489 | a text without `#` is left unchanged by the header pass |
| MarkdownCleanup.MatchBulletSpec | content.js:491 | the list pattern matches exactly when the line looks like a list item, and then takes both whitespace runs whole |
| MarkdownCleanup.FixBulletsNormalizes | content.js:491 | after the list pass every line that looks like a list item starts with `- ` |
| MarkdownCleanup.FixBulletsNoTriple | content.js:491 | the list pass brings in no run of three newlines |
| MarkdownCleanup.FixBulletsFirst | content.js:491 | the list pass does not make a text start with whitespace |
| MarkdownCleanup.FixBulletsLast | content.js:491 | a text that ends inside a line still does after the list pass |
| MarkdownCleanup.FixBulletsKeepsNonBullet | content.js:491 | a text that does not look like a list item does not start to look like one |
| MarkdownCleanup.FixBulletsOneLine | content.js:491 | a single line that is not a list item is left unchanged |
| MarkdownCleanup.FixBulletsKeepsText | content.js:491 | the list pass changes only markers and the whitespace around them: with whitespace ignored and `*`, `+` read as `-`, input and output read the same |
| MarkdownCleanup.StripOuterNewlinesSpec | content.js:493 | the result is the input less the newlines at its two ends, and it neither starts nor ends with a newline |
| MarkdownCleanup.StripOuterNewlinesKeeps | content.js:493 | the rewrite changes the text exactly when it starts or ends with a newline |
| MarkdownCleanup.LinePassesShape | content.js:485-491 | after trimming and the two line passes there is no triple newline, no leading whitespace and no trailing line break |
| MarkdownCleanup.StripPassIsIdentity | content.js:493 | the last rewrite has nothing left to remove |
| MarkdownCleanup.CleanMarkdownShape | content.js:482-494 | cleaned Markdown has no run of three newlines, does not start with whitespace, and does not end with a line break |
| MarkdownCleanup.CleanMarkdownEmpty | content.js:482-494 | cleaned Markdown is empty exactly when the input is all whitespace, the empty string included |
| MarkdownCleanup.CleanMarkdownBullets | content.js:482-494 | in cleaned Markdown every line that looks like a list item starts with `- ` |
| MarkdownCleanup.CleanMarkdownKeepsText | content.js:482-494 | cleaning changes only whitespace and list markers: with whitespace ignored and `*`, `+` read as `-`, the cleaned Markdown reads as the input did |
| MarkdownCleanup.HashesAreSplit | content.js:489 | `##` alone becomes `# #`: the pattern gives back a hash so that `.+` can match |
| MarkdownCleanup.BoldBecomesListItem | content.js:491 | a line of bold text `**a**` becomes the list item `- *a**` |
| MarkdownCleanup.BulletLinesMerge | content.js:491 | `\s*` crosses the line end: two marker lines `-` merge into `- - ` |
| MarkdownCleanup.CleanMarkdownNotIdempotent | content.js:482-494 | cleaning twice can differ from cleaning once |
| PageConverter.ConvertPageToMarkdown | content.js:202-251 | the conversion returns the page's Markdown as `ConvertedPage` defines it, or the first error |
| PageConverter.PreparedSpec | content.js:202-231 | a falsy or absent `includeImages` leaves no image, a falsy or absent `includeLinks` leaves no link, and neither adds a table or changes the root |
| PageConverter.ConversionSucceeds | content.js:202-251 | a page whose content holds no table converts, unless an image can reach the `images` rule |
| PageConverter.ConversionFails | content.js:202-251 | a conversion fails exactly when extraction fails or converting the prepared content does |
| PageConverter.ConvertedPageShape | content.js:246-251 | the result is `# title` and a blank line before the cleaned Markdown when the title is non-empty, the cleaned Markdown alone otherwise |
| PageConverter.TextsOfSubtree | content.js:185-200 | the text nodes of a subtree, in document order, spell its `textContent` |
| PageConverter.GetTextFromElement | content.js:185-200 | the walker loop gives an element's `textContent`, and nothing for a text node |
| Popup.RemoveForbiddenSpec | popup.js:231 | no forbidden character is left, every other one is kept, and a clean name is unchanged |
| Popup.RemoveForbiddenAppend | popup.js:231 | the removal works character by character, so the kept characters stay in order |
| Popup.SanitizeFilenameSpec | popup.js:228-235 | a sanitized name has no `<>:"/\|?*`, no whitespace, no ASCII upper case, and at most 100 characters |
| Popup.SanitizeFilenameSplit | popup.js:228-235 | a whitespace run between two pieces becomes exactly one dash, and each piece is cleaned on its own, before the name is cut to 100 characters and lower-cased |
| Popup.DashesKeepPlainName | popup.js:232 | a name without whitespace keeps every character in the dash replacement |
| Popup.SanitizeFilenameKeepsClean | popup.js:228-235 | a name that is already clean is left unchanged |
| Popup.SanitizeFilenameIdempotent | popup.js:228-235 | sanitizing twice gives what sanitizing once does |
| Popup.SpacesAroundBecomeDashes | popup.js:232 | leading and trailing whitespace become dashes that stay: `" A "` becomes `-a-` |
| Popup.DownloadFilenameSpec | popup.js:203 | a download is always a clean name plus `.md`, and an untitled page gives `网页.md` |
| Popup.PreviewSpec | popup.js:132-134 | the preview is the Markdown when it has at most 500 characters, else its first 500 plus `...`; never longer than 503 |
| Background.TrimDashesSpec | background.js:176 | removing edge dashes cuts off exactly the leading and the trailing run of dashes: the rest neither starts nor ends with a dash, is empty only for dashes alone, and equals the input when it has no edge dashes |
| Background.SanitizeFilenameSpec | background.js:169-177 | the name is the popup's name for the same input with its leading and trailing dashes cut off: clean as in the popup, and neither starting nor ending with a dash |
| Background.SanitizeFilenameIdempotent | background.js:169-177 | sanitizing twice gives what sanitizing once does |
| Background.FilenameWinsOverTitle | background.js:75 | a non-empty requested file name wins over the title |
| Background.UntitledDownloadName | background.js:75 | without a file name and a title the download is `webpage.md` |
| Background.BlankNameWitness | background.js:169-177 | a title of forbidden characters and spaces sanitizes to the empty name, so the file is just `.md` |

## Left out

- String lengths and indices count `char`s, not UTF-16 code units. `substring(0, 100)`, `length > 500` and `substring(0, 500)` agree with the code for text without astral characters.
- Popup.SanitizeFilename: `toLowerCase` is modelled for ASCII letters only. Full Unicode case mapping can change a string's length, and it is not modelled.
- Background.SanitizeFilename: the same ASCII-only lower-casing as the popup's.
- Turndown itself is not modelled: its escaping, its built-in rules, its blank and block tests, flanking whitespace, joining, post-processing and HTML parsing. They are the functions of an `Engine` value. The custom rules and the order in which rules are tried are modelled.
- Turndown collapses whitespace in its own clone of the tree before any rule runs. That step is not modelled: the rules see the tree as the pruning passes left it, so the `textContent` a simple table cell reads may differ from the real one in whitespace.
- TurndownRules.IsBlank: the converter replaces `isBlank` on the Turndown service so that a table is never blank. Rule lookup does not read that property, and Turndown's own blank test already treats a table as meaningful, so the model has one blank test that never calls a table blank.
- Selectors.FilterSpec: states which nodes are kept, not their order or number; Selectors.FilterAppend states those.
- JsString.ReplaceRunsSpec: states the shape of the result; its value is pinned by JsString.ReplaceRunsSplit and JsString.ReplaceRunsOfPlain.
- JsString.ReplaceRunsKeepsText: erases the runs and the fill, so it does not say that a run becomes one fill character; JsString.ReplaceRunsSplit does.
- CellFormat.CollapseRunsSpec: states the shape of the collapsed cell; `CollapseRuns` is `ReplaceRuns` with a space as fill, whose value JsString.ReplaceRunsSplit and JsString.ReplaceRunsOfPlain pin.
- MarkdownCleanup.CollapseBlankLinesSpec: states the shape of the result; its value is pinned by MarkdownCleanup.CollapseBlankLinesSplit and MarkdownCleanup.CollapseBlankLinesOfPlain.
- MarkdownCleanup.CollapseBlankLinesKeepsText: erases every newline, so on its own it would allow a run to vanish; MarkdownCleanup.CollapseBlankLinesSplit states that a run of three or more becomes exactly two newlines.
- Popup.RemoveForbiddenSpec: states which characters are kept, not their order; Popup.RemoveForbiddenAppend states it.
- Popup.SanitizeFilenameSpec: states what a sanitized name is free of; Popup.SanitizeFilenameSplit and Popup.DashesKeepPlainName pin its value.
- MarkdownCleanup.CleanMarkdownBullets: states the list markers of the output lines; MarkdownCleanup.FixBulletsKeepsText and MarkdownCleanup.CleanMarkdownKeepsText state that the rest of each line survives.
- Pruning.StripImagesSpec: states what goes; Pruning.StripImagesIsPrune states what stays, for trees in which no image holds a table, which holds for parsed HTML because `img` is a void element.
- Pruning.StripLinksSpec: states what goes and that the text is kept; Pruning.StripLinksKeepsPlaces states what stays where.
- TurndownRules.ImageMarkdown: `new URL(src, location.href)` is the `resolve` function of the `Engine`; `None` stands for a source on which it throws.
- A complex table cell is converted by the `convertCell` function of the `Engine`, which stands for serialising the cell to HTML and running Turndown on it again.
- The Readability path of `convertPageToMarkdown` and `extractMainContent` are not modelled: the `&& false` in their guard makes them unreachable.
- The `!contentToConvert` check has no counterpart: extraction returns a clone or throws.
- Messaging is not modelled: the listeners, `sendMessage`, the error message text, the popup's buttons and state, the background worker's downloads, `Blob` and object URLs, and notifications. A conversion's outcome is the returned `Result`.
- `document.title` and the options object are parameters of the conversion. `Math.random` in the fallback's table placeholders is the `token` parameter.
- The DOM is a value tree. `cloneNode`, `remove` and `replaceWith` on the clone are modelled by their net effect on the tree that `ContentClone` holds: the node lists are static and taken before any removal. Aliasing between DOM nodes is not modelled.
- Selectors cover only the forms the converter uses (type, type list, class, id, attribute substring). Selector parsing is not modelled; `Malformed` stands for selector text on which a query throws.

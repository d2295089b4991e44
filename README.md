# Project-Checker: the per-file audit rules, modelled and proved

Project-Checker audits a directory of web pages. The POST /check handler in `app.js`
checks either every `.js`, `.jsx`, `.php` and `.html` file under a directory, or a
comma-separated list of page names. It reads each file and appends findings to a
shared `warnings` array. A finding is `{filePath, fileName, type, message, lineNumber}`.
The rules in that file cover missing `alt` text and broken links; a missing-tag rule
is written but commented out of `checkFile`. `utils/globalFunction.js` holds the
larger rule set:

- missing `alt` text with an ignore marker;
- mailto links (address shape, `target="_blank"`, and a moving search offset);
- console statements;
- empty files;
- HTML comments;
- uses of configured global variables;
- a missing footer;
- an offset-based line locator;
- the folder walk, and the rule that creates a placeholder `index.php`.

The project has five modules:

- `Text` (text.dfy). The JavaScript string built-ins the rules use: `indexOf`, `includes`,
  `startsWith`, `trim`, and `split` and its inverse `join`. It also holds the line
  arithmetic: the line holding an offset is one plus the number of `"\n"` before it.
- `Findings` (findings.dfy). The finding record and its `type` labels. The `warnings`
  array is a `WarningList` class whose methods append to it. The cheerio document is a
  sequence of elements with optional attributes. `KeepMap` is the "one record per
  flagged element, in order" shape that most rules share.
- `FileSystem` (filesystem.dfy). Directory listings as a tree of entries. `path.join`
  and `path.basename` for plain entry names. A `Disk` class holds file contents by path
  and the set of directory paths, which is what `pathExists`, `readFile` and `writeFile`
  act on.
- `GlobalFunction` (global_function.dfy). The rules of `utils/globalFunction.js`. Each
  rule is a method that appends to a `WarningList`. Its contract ties the appended
  records to a function of the inputs, and lemmas about that function state what the
  rule promises.
- `App` (app.js → app.dfy). The handler, `checkFile`, the project walk, and the rules
  of `app.js`, in the same style.

Some things are parameters rather than parts of the model:

- The HTTP probe is `reachable: string -> bool`.
- The HTML parser is `parse: string -> Document`.
- The config module is a `Config` value: ignored file names, global variable names and
  ignored directory names.

Two details of the code shape the model:

- The rules use two line locators. `utils/globalFunction.js:256-262` takes the line of
  the first occurrence of the needle; `app.js:196-204` takes the first line that contains
  it. Both are modelled, and `App.LocatorsAgree` relates them.
- In `app.js` the alt message contains "in <fileName>". The `utils` version does not.
  Each model uses its own text.

## Model

The `…Step` and `…Snoc` lemmas beside each recursive definition only unfold it one
element at a time for the loop proofs; they have no rows of their own. The properties
of each operation are carried by the rows below.

| member | source | states |
|---|---|---|
| GlobalFunction.FindLineNumber | utils/globalFunction.js:256-262 | -1 exactly when the needle does not occur; otherwise 1 plus the number of "\n" before its first occurrence, between 1 and the number of lines |
| GlobalFunction.FindLineNumberFirst | utils/globalFunction.js:256-262 | when the needle occurs at i, the result is the line of some occurrence at or before i, so no later than i's line |
| GlobalFunction.Src | utils/globalFunction.js:20 | a missing or empty src reads as the "[no src]" placeholder; the result is never empty |
| GlobalFunction.AltMissingIff | utils/globalFunction.js:38 | alt text is missing exactly when the attribute is absent or only white space |
| GlobalFunction.SrcLine | utils/globalFunction.js:22-34 | the line found is -1 or a line (1-based) that holds the src |
| GlobalFunction.SearchSrcLine | utils/globalFunction.js:22-34 | the inner loop's line number and ignore flag are those of the first line holding the src; the placeholder is never searched for |
| GlobalFunction.UtilsAltExact | utils/globalFunction.js:18-47 | a record is appended for each flagged image and for nothing else |
| GlobalFunction.UtilsAltFlaggedIff | utils/globalFunction.js:29-38 | an image is flagged iff its alt is absent or blank and the first line holding its src lacks "#evIgnore" |
| GlobalFunction.UtilsAltShape | utils/globalFunction.js:39-45 | each record is a missing-alt one naming the src, with a null line or one between 1 and the line count |
| GlobalFunction.UtilsAltLine | utils/globalFunction.js:44 | the line is null iff the src is the placeholder or no line holds it |
| GlobalFunction.VisitImage | utils/globalFunction.js:18-47 | the callback for one image appends its record exactly when it is flagged |
| GlobalFunction.CheckForMissingAltAttributes | utils/globalFunction.js:10-48 | appends the records of the flagged images, in document order |
| GlobalFunction.ConsoleFindings | utils/globalFunction.js:108-125 | at most one record per line scanned |
| GlobalFunction.ConsoleBounds | utils/globalFunction.js:117-123 | every record's line number is that of a scanned line |
| GlobalFunction.ConsoleSound | utils/globalFunction.js:110-123 | every record names a line that has a console call and no ignore marker |
| GlobalFunction.ConsoleComplete | utils/globalFunction.js:110-123 | every such line has its record |
| GlobalFunction.ConsoleExact | utils/globalFunction.js:108-125 | the records are exactly one per flagged line, with line number index+1 |
| GlobalFunction.ConsoleOrdered | utils/globalFunction.js:109 | records come in strictly increasing line order |
| GlobalFunction.RemoveConsoleLogs | utils/globalFunction.js:107-126 | appends the records of all the lines of the text, split on "\n" |
| GlobalFunction.EmptyFileFindings | utils/globalFunction.js:129-141 | at most one record; one iff the name is not ignored and the trimmed text is empty; it carries "N/A" |
| GlobalFunction.CheckForEmptyFiles | utils/globalFunction.js:129-141 | appends the empty-file records |
| GlobalFunction.FooterFindings | utils/globalFunction.js:243-253 | at most one record; one iff no element is a footer; its line is where "<footer>" is found |
| GlobalFunction.CheckForMissingFooter | utils/globalFunction.js:243-253 | appends the footer records |
| GlobalFunction.IsEmailShape | utils/globalFunction.js:52 | every address the character scan accepts matches /^[^\s@]+@[^\s@]+\.[^\s@]+$/ |
| GlobalFunction.ShapeChars | utils/globalFunction.js:52 | in a matching address every character other than its "@" is neither "@" nor white space |
| GlobalFunction.ShapeIsEmail | utils/globalFunction.js:52 | every address the expression matches is accepted by the scan |
| GlobalFunction.ShapeIsEmailAt | utils/globalFunction.js:52 | the scan accepts a matching address split at a given "@" and "." |
| GlobalFunction.IsEmailIff | utils/globalFunction.js:84 | the scan accepts exactly the addresses the expression matches |
| GlobalFunction.MailtoRecords | utils/globalFunction.js:84-102 | at most two records, both on the anchor's line: the invalid one iff the address fails, the target one iff the target is not "_blank" |
| GlobalFunction.AnchorRecordsExact | utils/globalFunction.js:64-102 | for a mailto anchor: the invalid record iff the trimmed address after "mailto:" fails the expression; the target record iff target !== "_blank" |
| GlobalFunction.MailtoScanBound | utils/globalFunction.js:56-75 | the search offset never passes the end of the text |
| GlobalFunction.MailtoVisitSkips | utils/globalFunction.js:62-73 | a non-mailto anchor appends nothing and keeps the offset; a mailto anchor whose snippet is not found appends nothing and resets the offset to 0 |
| GlobalFunction.MailtoVisitFound | utils/globalFunction.js:67-92 | a found snippet is found at or after the offset, the offset moves just past it, and its records go on its line unless that line has "#evIgnore" |
| GlobalFunction.MailtoSuccessive | utils/globalFunction.js:67-78 | two mailto anchors found one after the other have strictly increasing offsets and non-decreasing lines |
| GlobalFunction.ReportAnchor | utils/globalFunction.js:84-102 | appends the anchor's records: invalid address, then missing target |
| GlobalFunction.VisitAnchor | utils/globalFunction.js:58-103 | the callback for one anchor appends its records and returns the next offset |
| GlobalFunction.CheckForInvalidMailtoLinks | utils/globalFunction.js:51-104 | appends the records of the scan over the anchors in document order, starting at offset 0 |
| GlobalFunction.NextComment | utils/globalFunction.js:168-171 | a match lies at or after the offset and within the text |
| GlobalFunction.NextCommentFound | utils/globalFunction.js:168-173 | a match is "<!--", a body and "-->"; no "<!--" comes before it and no "-->" inside the body (the lazy match) |
| GlobalFunction.NextCommentMissing | utils/globalFunction.js:168-171 | no match means there is no "<!--" after the offset, or no "-->" after that "<!--" |
| GlobalFunction.CommentsPlaced | utils/globalFunction.js:168-173 | every match lies at or after the offset and is a full comment |
| GlobalFunction.CommentsOrdered | utils/globalFunction.js:171 | each match starts after the previous one ends |
| GlobalFunction.Preview | utils/globalFunction.js:189-191 | the body itself when at most 80 characters; otherwise its first 80 characters followed by "..." |
| GlobalFunction.CommentExact | utils/globalFunction.js:171-194 | one record per match whose trimmed body is non-empty, and no other |
| GlobalFunction.CommentReportedIff | utils/globalFunction.js:177 | a body is reported iff it is not only white space |
| GlobalFunction.CommentFindingLine | utils/globalFunction.js:174-183 | multi-line kind iff the full match holds "\n"; the line is a number no later than the match's own line |
| GlobalFunction.VisitComment | utils/globalFunction.js:172-193 | the loop body for one match appends its record exactly when it is reported |
| GlobalFunction.CheckForHtmlComments | utils/globalFunction.js:167-195 | appends the records of all matches from offset 0, in match order |
| GlobalFunction.OccurrencesSpec | utils/globalFunction.js:209-213 | every match of a name is an occurrence at or after the offset, and matches do not overlap |
| GlobalFunction.OccurrencesBounded | utils/globalFunction.js:212-213 | every match index lies within the text |
| GlobalFunction.OccurrencesLeftmost | utils/globalFunction.js:209-213 | the matches are the leftmost non-overlapping occurrences; nothing is skipped |
| GlobalFunction.VarFindings | utils/globalFunction.js:212-238 | at most one record per match |
| GlobalFunction.VarFindingsExact | utils/globalFunction.js:212-238 | one record per match whose line lacks "#evIgnore", on the line holding the match, and no other |
| GlobalFunction.GlobalFindingsAppend | utils/globalFunction.js:208 | the records are grouped by name in configuration order |
| GlobalFunction.MatchLine | utils/globalFunction.js:216-224 | the charCount loop yields the line holding the match (1 plus the "\n" before it), between 1 and the line count |
| GlobalFunction.VisitMatch | utils/globalFunction.js:213-237 | the body for one match appends its record unless the line is ignored |
| GlobalFunction.CheckVariable | utils/globalFunction.js:209-238 | appends the records of all matches of one name |
| GlobalFunction.CheckForGlobalProjectVariablesMissing | utils/globalFunction.js:198-240 | appends the records of all configured names, in configuration order |
| GlobalFunction.FoldersReach | utils/globalFunction.js:266-280 | a path is listed iff it is reached through directories none of which is ignored |
| GlobalFunction.EntryFoldersReach | utils/globalFunction.js:270-276 | the same for one entry of a listing |
| GlobalFunction.FoldersNotIgnored | utils/globalFunction.js:273 | no listed folder's base name is in the ignore list |
| GlobalFunction.EntryFoldersNotIgnored | utils/globalFunction.js:273 | the same for one entry |
| GlobalFunction.FoldersSkipIgnored | utils/globalFunction.js:273-276 | the walk never descends into an ignored directory: what lies beneath one does not change the result |
| GlobalFunction.EntryFoldersSkipIgnored | utils/globalFunction.js:273-276 | the same for one entry |
| GlobalFunction.GetAllFolders | utils/globalFunction.js:266-280 | appends to the folders array exactly the walk's folders, depth first in listing order |
| GlobalFunction.IndexPhpEffect | utils/globalFunction.js:282-300 | one "N/A" record iff nothing was at index.php; afterwards the path exists, holds the placeholder if it was written, and no other path changes |
| GlobalFunction.IndexPhpIdempotent | utils/globalFunction.js:282-300 | a second run emits nothing and writes nothing |
| GlobalFunction.CheckFolderForMissingIndexPhp | utils/globalFunction.js:282-300 | the new files and appended records are those of the rule; the directories are unchanged |
| App.FindLineNumber | app.js:196-204 | -1 iff no line holds the needle; otherwise the 1-based number of the first line that does |
| App.OccurrenceInLine | app.js:197-199 | an occurrence inside a line is an occurrence in the text, inside that line's span |
| App.LineOfSound | app.js:196-204 | a result other than -1 means the needle occurs in the text |
| App.LineOfBound | app.js:196-204 | for a needle without "\n", an occurrence at i means a result no later than i's line |
| App.OccurrenceLine | app.js:197-199 | an occurrence in line k lies on line k+1 of the text |
| App.LineOfAtLeast | app.js:196-204 | when a line holds the needle, the needle occurs in the text, and its first occurrence is on that line or an earlier one |
| App.LineOfFirstOccurrence | app.js:196-204 | for a needle without "\n" that occurs, the result is the line of its first occurrence |
| App.LocatorsAgree | app.js:196-204 | for a needle without "\n", this locator and the offset-based one of utils/globalFunction.js:256-262 agree |
| App.LineOfNewline | app.js:197-199 | a needle holding "\n" is never found, since no line holds one |
| App.MissingTagsExact | app.js:127-141 | at most 4 records; a record for exactly each essential tag with no element |
| App.TagMissingIff | app.js:130 | $(tag).length === 0 iff no element has that tag |
| App.MissingTagsListed | app.js:128-140 | on any page the records are those of the missing tags among header, footer, main and nav, in that order |
| App.MissingTagsOrder | app.js:128-140 | when all four are missing, the records are header, footer, main, nav in that order |
| App.VisitTag | app.js:129-140 | one tag appends its record exactly when it is missing |
| App.CheckForMissingTags | app.js:127-141 | appends the records of the missing essential tags, in list order |
| App.AltExact | app.js:151-164 | a record for exactly each image whose alt is absent or blank; no ignore marker applies |
| App.AltCount | app.js:151-164 | as many records as images without alt text |
| App.VisitImage | app.js:151-164 | the callback for one image appends its record exactly when its alt is missing |
| App.CheckForMissingAltAttributes | app.js:144-165 | appends the records of the images without alt text, in document order |
| App.LinksSpec | app.js:170-175 | a link is probed iff some anchor of the page has it as an href starting with "http" |
| App.BrokenSound | app.js:177-191 | every record is for a link that fails the probe |
| App.BrokenComplete | app.js:177-191 | every link that fails the probe has its record |
| App.BrokenLinksExact | app.js:168-193 | the set of records equals the set of records of the probed links that fail |
| App.CollectLinks | app.js:169-175 | the links loop collects the filtered hrefs in document order |
| App.ProbeLink | app.js:178-190 | one probe appends its record exactly when it fails |
| App.CheckForBrokenLinks | app.js:168-193 | appends the records of the failing links, in link order |
| App.ReactFilesHold | app.js:65-84 | a path is collected iff it is a file with a checked extension reached through any directories |
| App.ReactFilesSound | app.js:65-84 | every collected path is such a file |
| App.EntryFilesSound | app.js:70-81 | the same for one entry |
| App.ReactFilesComplete | app.js:65-84 | every such file is collected, in every subdirectory |
| App.EntryFilesComplete | app.js:70-81 | the same for one entry |
| App.ReactFilesChecked | app.js:74-79 | every collected path ends in .js, .jsx, .php or .html |
| App.EntryFilesChecked | app.js:74-79 | the same for one entry |
| App.GetReactFiles | app.js:65-84 | returns the collected files, depth first in listing order |
| App.CheckFileOutcome | app.js:87-101 | a missing path gives exactly one not-found record and runs no rule; checkFile throws exactly on a directory |
| App.NotFoundShape | app.js:90-97 | the not-found record is filed under the directory and has no lineNumber |
| App.FileFindingsKinds | app.js:101-124 | a file that was read yields only missing-alt and broken-link records |
| App.AltKinds | app.js:154-162 | every record of the app's alt rule is a missing-alt one |
| App.BrokenKinds | app.js:181-189 | every record of the link rule is a broken-link one |
| App.CheckFile | app.js:87-124 | reports a throw exactly on a directory, with nothing appended; otherwise appends the file's records |
| App.PageNamesSpec | app.js:43 | the page names are the comma-separated fields, in order, one per field, each trimmed; the fields join back to the input |
| App.PageNamesTrimmed | app.js:43 | every page name holds no comma and no white space at either end |
| App.RunAllThrown | app.js:34-60 | once a call throws, the whole loop throws |
| App.RunAllEach | app.js:44-47 | when every call appends one record, the records are one per path, in path order |
| App.CheckAllThrown | app.js:34-60 | once a checkFile call throws, the handler's loop throws |
| App.CheckAllMissing | app.js:43-47 | when no listed page exists, the warnings are one not-found record per page, in list order |
| App.RespondShape | app.js:20-62 | the count is always the number of warnings; an error message comes with no warnings; the invalid-path message appears iff the directory does not exist |
| App.CheckPaths | app.js:38-47 | reports a throw exactly when the fold throws; otherwise appends the fold's records |
| App.Check | app.js:20-62 | the rendered values are the handler's response for the disk, the listing, the page list and the check type |
| Text.TrimEmptyIff | utils/globalFunction.js:132 | content.trim() is empty iff the content is only white space |
| Text.JoinSplit | app.js:197 | splitting on "\n" and joining back gives the text |
| Text.LineOfOffset | utils/globalFunction.js:216-224 | the line holding an offset starts at or before it and ends at or after it |

## Left out

- Express plumbing: routing, view rendering, the static and body-parser middleware, GET / and `app.listen` (app.js:1-17, 206-209). Only the values the handler renders with are modelled (`App.Page`).
- POST /check reads `pageName` from the request body. The model takes it as a string, so a page-list request that omits it is not modelled. An empty `pageName` is modelled: it yields one empty name, whose path is the directory itself, so reading it throws and the error page is shown.
- The HTTP probe (axios). A link's reachability is the parameter `reachable`, and its order is not modelled.
- App.CheckForBrokenLinks: it states that records come in link order. The source appends them in whatever order the probes fail under `Promise.all`. The set of records is the same (`App.BrokenLinksExact`).
- The `checkForBrokenLinks` of `utils/globalFunction.js` (lines 144-163). It calls `axios`, which that file never imports, so on a page with an http link it rejects instead of probing. Its link filter is the same as the one modelled for `app.js` (`App.LinksSpec`).
- cheerio parsing. A page's parse is the parameter `parse`. `$(tag)` is the selection of elements by tag name, in document order.
- The regular-expression engine:
  - A configured global-variable name is matched as a literal substring.
  - The e-mail expression is an explicit character-class predicate. It is proved equal to the expression's language.
  - The comment expression is a scan for "<!--" followed by the nearest "-->".
- GlobalFunction.CheckForGlobalProjectVariablesMissing: it requires every configured name to be non-empty. For an empty name, `new RegExp("", "g").exec` matches the empty string at index 0 and leaves `lastIndex` at 0, so it returns the same match every time and the source's `while` (utils/globalFunction.js:212) never ends.
- The filesystem. Directory listings (an `Entry` tree) and the `Disk` (contents by path and directory paths) are given separately. No consistency between them is assumed. Errors from `fs.stat` and `fs.writeFile` are not modelled.
- `path.join`. It is modelled as joining with "/" for plain entry names. Its normalisation of "..", "." and repeated slashes is not modelled.
- App.CheckForMissingTags: it is modelled and proved on its own. `checkFile` leaves its call commented out (app.js:105), so `App.FileFindings` does not include it.
- Text: Dafny strings are sequences of code points, while JavaScript indexes UTF-16 code units. Offsets and the 80-character preview differ for text outside the Basic Multilingual Plane.
- White space for `trim` and `\s` is the fixed set `Text.SpaceChars`. It has no dependence on a Unicode database.
- `config.js` is a parameter (`GlobalFunction.Config`), not a fixed value.
- `analyzeWebsite.js`, `utils/exportExcel.js` and `utils/exportPdf.js`, because they drive a headless browser and stream spreadsheets and PDFs into the response.
- The `console.error` of the handler's catch block (app.js:55): it is output only.

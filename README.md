# EPUB site build scripts, modelled in Dafny

The repository is a static site about EPUB. Six JavaScript files hold its logic:
- the gettext script that converts each `.po` file into a JSON table;
- the script that extracts translatable keys from Nunjucks templates into `messages.pot`;
- the two scripts that rewrite `msgstr` lines in place, one from a fixed table and one from a machine-translation service;
- the two data files that build the EPUB catalog and the sample-file lists.

This project models each of them as one Dafny module, on top of five shared modules:

| module | file | what it models |
|---|---|---|
| `Wrappers` | `wrappers.dfy` | `Option`, standing for `null`/`undefined` and for thrown-and-caught errors |
| `JsString` | `js_string.dfy` | the JavaScript string operations the scripts use (`trim`, `split`, `join`, `indexOf`, `includes`, `replace` with a string pattern, `substring` with bound clamping and swapping, ASCII `toUpperCase`, template-literal numbers) |
| `OrderedDict` | `ordered_dict.dfy` | a plain JavaScript object as an insertion-ordered list of distinct keys (`Object.keys`, `obj[k]`, `obj[k] = v`, filtering `forEach`) |
| `StableSort` | `stable_sort.dfy` | `Array.prototype.sort` with a numeric comparator: a stable sort by an integer key |
| `PoPattern` | `po_pattern.dfy` | the regular expression `msgid "key"\s*\n<tail>` with the `g` flag, and `String.prototype.replace` with it |
| `PoToJson` | `po_to_json.dfy` | `scripts/po-to-json.js` |
| `Epubs` | `epubs.dfy` | `src/_data/epubs.js` |
| `SampleFiles` | `sample_files.dfy` | `src/_data/sampleFiles.js` |
| `ExtractI18n` | `extract_i18n.dfy` | `scripts/extract-i18n.js` |
| `RestoreTranslations` | `restore_translations.dfy` | `scripts/restore-translations.js` |
| `TranslateQa` | `translate_qa.dfy` | `scripts/translate-qa.js` |

Code that works step by step is modelled as methods with loops, each proved equal to a specification function. This covers:
- the PO line loop;
- the filters;
- the per-key rewriting loops;
- the translation loop with its pauses;
- the `exec` loops;
- `findNjkFiles`;
- the catalog loops.

Expression chains are modelled as functions. Examples are `formatDisplayName`, `extractDate`, `scanDirectory` and the XML field rules.

The file system, the zip library, the XML parser, the clock (`new Date`) and the translation service become function parameters. These are `files`, `open`, `parse`, `time` and `api`.

## Model

| member | source | states |
|---|---|---|
| PoToJson.ParsePoFile | scripts/po-to-json.js:7-68 | the line loop followed by the final commit yields exactly `Parse(poContent)`, the table the step function builds |
| PoToJson.Parse | scripts/po-to-json.js:7-68 | the table read from a file never holds an empty key or an empty value |
| PoToJson.Step | scripts/po-to-json.js:16-58 | one line changes the table at most by storing the pending msgid and msgstr, and only when both are non-empty |
| PoToJson.Classify | scripts/po-to-json.js:17-57 | after trimming, an empty line is skipped; a line is read as a msgid line only if it starts with `msgid `, as a msgstr line only if it starts with `msgstr `, and as a continuation only if it starts and ends with `"` |
| PoToJson.RunTableNonEmpty | scripts/po-to-json.js:26-30 | while the loop runs, every stored key and value is a non-empty string, and no key is stored twice |
| PoToJson.CommitNonEmpty | scripts/po-to-json.js:60-65 | the commit of the last pending pair keeps the table free of empty keys and values |
| PoToJson.ParseNonEmpty | scripts/po-to-json.js:26-30 | the parsed table never holds an empty key (so never the header entry) or an empty value |
| PoToJson.IndentIgnored | scripts/po-to-json.js:17 | lines are trimmed first, so leading white space never changes a step |
| PoToJson.CommentIgnored | scripts/po-to-json.js:19-22 | a line starting with `#` after any indentation leaves the whole parser state unchanged |
| PoToJson.ContinuationExtends | scripts/po-to-json.js:49-57 | a quoted line extends the msgid being read, else the msgstr being read, else it changes nothing |
| PoToJson.LoneQuoteAppendsQuote | scripts/po-to-json.js:49-52 | a line holding one `"` both starts and ends with a quote; `substring(1, 0)` swaps its bounds, so the quote itself is appended |
| PoToJson.MsgidWithoutMsgstrDropped | scripts/po-to-json.js:25-37 | a new msgid line discards a pending msgid that never got a msgstr and stores nothing |
| PoToJson.OrphanMsgstrIgnored | scripts/po-to-json.js:41-46 | a msgstr with no msgid before it is never stored |
| PoToJson.StripQuotesQuoted | scripts/po-to-json.js:33 | stripping one quote from each end of `"v"` gives back `v` |
| PoToJson.ClassifyKeywordLine | scripts/po-to-json.js:25-46 | a trimmed line that starts with `msgid ` or `msgstr ` is classified by that keyword alone, with the rest of the line as its value |
| PoToJson.ClassifyMsgidLine | scripts/po-to-json.js:25-33 | `msgid "id"` is read as a msgid line whose value is `id` |
| PoToJson.ClassifyMsgstrLine | scripts/po-to-json.js:41-42 | `msgstr "str"` is read as a msgstr line whose value is `str` |
| PoToJson.RunRendered | scripts/po-to-json.js:16-58 | after the lines of rendered entries followed by those of one more entry, that entry is pending and the table is the last-wins table of the earlier entries |
| PoToJson.ParseRender | scripts/po-to-json.js:7-68 | parsing rendered single-line entries gives the table in which a later entry for a msgid replaces an earlier one in place and empty entries are dropped |
| PoToJson.SplitRender | scripts/po-to-json.js:9 | splitting a rendered table on `\n` gives back its lines |
| PoToJson.RenderLinesNoNewline | scripts/po-to-json.js:9 | rendered entries without newlines give two lines each, none of them holding a newline |
| PoToJson.ParseEmptyText | scripts/po-to-json.js:7-68 | an empty file gives an empty table |
| PoToJson.EmptyMsgstrDropped | scripts/po-to-json.js:61-63 | a msgid whose msgstr is `""` stores nothing |
| PoToJson.RepeatedMsgidLastWins | scripts/po-to-json.js:29 | a repeated msgid keeps the position of its first entry and the value of its last |
| PoToJson.RepeatedMsgidTable | scripts/po-to-json.js:29 | the last-wins table of `a, b, a` has `a` first, holding the later value |
| PoToJson.FilterTranslations | scripts/po-to-json.js:93-98 | the filter keeps, in key order, exactly the entries whose key and value are truthy |
| PoToJson.FilterOfParse | scripts/po-to-json.js:92-98 | the filter returns the parser's table unchanged, since the parser never stores an empty entry |
| PoToJsonDriver.ConvertLocales | scripts/po-to-json.js:83-113 | one write per language whose `.po` file exists, in language order; `processedCount` is the number of writes |
| PoToJsonDriver.ConversionWritesSound | scripts/po-to-json.js:83-113 | a language writes at most one JSON file, and that file holds the parsed table of its own `.po` file |
| PoToJsonDriver.ConversionWritesComplete | scripts/po-to-json.js:87-101 | every language whose `.po` file exists gets its JSON file |
| Epubs.FindEntry | src/_data/epubs.js:12 | the lookup fails exactly when no archive entry has the path |
| Epubs.FindEntryFirst | src/_data/epubs.js:12 | the entry found is the first one whose path is exactly the one asked for |
| Epubs.SelectFirst | src/_data/epubs.js:22 | the first element selected is the first element of the document that matches |
| Epubs.SelectEmpty | src/_data/epubs.js:22-25 | nothing is selected exactly when no element of the document matches |
| Epubs.SelectMembers | src/_data/epubs.js:43 | the selection keeps exactly the matching elements |
| Epubs.MatchIndicesExact | src/_data/epubs.js:22-57 | the matching indices are strictly increasing, and they are exactly the indices of the elements that match |
| Epubs.SelectIndexed | src/_data/epubs.js:22-57 | the selection has one element per matching index, and its k-th element is the document element at the k-th matching index |
| Epubs.SelectAppend | src/_data/epubs.js:22-57 | the selection of two parts of a document is the selection of the first followed by that of the second |
| Epubs.SelectSingle | src/_data/epubs.js:22-57 | a one-element document selects its element exactly when it matches |
| Epubs.Texts | src/_data/epubs.js:57 | one text per element, in order, each the element's text content |
| Epubs.FirstFieldRule | src/_data/epubs.js:53-66 | title, description, language and publisher are the text of the first Dublin Core element of that name, and null when there is none |
| Epubs.AllFieldRule | src/_data/epubs.js:56-57 | authors and subjects hold one text per Dublin Core element of that name, in document order: the k-th text is the text content of the k-th such element; a text is listed exactly when some such element has it |
| Epubs.FirstWithAttribute | src/_data/epubs.js:44-50 | the search fails exactly when no element at or after the start has the attribute value |
| Epubs.FirstWithAttributeAt | src/_data/epubs.js:45-49 | the text found is that of the first element whose attribute matches |
| Epubs.FindByAttribute | src/_data/epubs.js:44-50 | the loop with `break` returns the text of the first element whose attribute matches, and null when none does |
| Epubs.ExtractEpubMetadata | src/_data/epubs.js:6-97 | the extraction resolves to `Extract`: the metadata, or null when any step throws |
| Epubs.Extract | src/_data/epubs.js:6-97 | an archive that cannot be opened gives null, and a success is tagged with the path of its file |
| Epubs.PackageMetadata | src/_data/epubs.js:40-91 | the record is tagged with the file path, and has no more authors or subjects than the package document has elements |
| Epubs.ExtractFails | src/_data/epubs.js:9-39 | extraction fails exactly when one of these holds: the archive cannot be opened; it has no `META-INF/container.xml`; the container has no `rootfile`; the first rootfile's `full-path` names no entry; or the package document has no root element |
| Epubs.ExtractReadsPackage | src/_data/epubs.js:22-91 | a successful extraction read a rootfile and a non-empty package document, and its metadata is that document's |
| Epubs.UuidRule | src/_data/epubs.js:40-50 | the uuid is the text of the first identifier whose `id` equals the package's `unique-identifier`, and null when none does |
| Epubs.MissingUniqueIdentifier | src/_data/epubs.js:40-47 | with no `unique-identifier`, the first identifier that also lacks an `id` is taken, since both attributes read as `""` |
| Epubs.ModifiedRule | src/_data/epubs.js:72-79 | `modified` is the text of the first `meta` whose `property` is exactly `dcterms:modified`, and null when there is none |
| Epubs.DirNames | src/_data/epubs.js:105-107 | the names kept are exactly those of the directory entries |
| Epubs.EpubFiles | src/_data/epubs.js:111-112 | a file name is kept exactly when it ends in `.epub`, and no more names than were listed |
| Epubs.EpubFilesAppend | src/_data/epubs.js:111-112 | the filter of two listings is the filter of the first followed by that of the second, so it keeps listing order and repeated names |
| Epubs.EpubFilesSingle | src/_data/epubs.js:111-112 | one name is kept exactly when it ends in `.epub` |
| Epubs.RelativePath | src/_data/epubs.js:121-124 | the relative path never holds a backslash |
| Epubs.BuildCatalog | src/_data/epubs.js:99-149 | the exported builder returns `Catalog`; an unreadable samples directory gives `{}` |
| Epubs.CollectBooks | src/_data/epubs.js:116-132 | the inner loop pushes one record per file whose metadata can be read, in listing order |
| Epubs.CatalogStep | src/_data/epubs.js:109-141 | each directory that can be listed adds its category, or replaces it if already there |
| Epubs.CatalogFrom | src/_data/epubs.js:109-141 | the catalog has at most one category per directory listed |
| Epubs.CatalogLast | src/_data/epubs.js:109-141 | a catalog for a non-empty list of directories is the previous catalog with the last directory's category put in |
| Epubs.CatalogFromNone | src/_data/epubs.js:145-148 | once one directory cannot be listed, a longer list of directories gives no catalog either |
| Epubs.UnlistableEmptiesCatalog | src/_data/epubs.js:109-148 | one category directory that cannot be listed empties the whole catalog |
| Epubs.CatalogKeys | src/_data/epubs.js:109-141 | the catalog's keys are exactly the listed directories, even those with no readable book, each once |
| Epubs.CategoryValue | src/_data/epubs.js:110-140 | a directory listed once has the value computed from its own listing |
| Epubs.CategorySorted | src/_data/epubs.js:134-139 | a category holds its records sorted by modified date, each exactly once; records with the same date keep their listing order |
| Epubs.SortDate | src/_data/epubs.js:135-138 | the sort date is never empty: it is the book's own `modified` text, or `9999-12-31` |
| Epubs.UndatedLast | src/_data/epubs.js:135-138 | a book with a missing or empty `modified` comes after every book whose date is earlier than `9999-12-31` |
| Epubs.BooksSound | src/_data/epubs.js:117-131 | every record comes from a readable `.epub` file of its category; it is tagged with that category and a path without backslashes |
| Epubs.BooksComplete | src/_data/epubs.js:117-131 | the record of every readable file is in its category |
| SampleFiles.TitleCase | src/_data/sampleFiles.js:15-18 | the shape of the title case: the length is kept and no hyphen is left |
| SampleFiles.WordsTitleCase | src/_data/sampleFiles.js:15-18 | splitting on `-`, capitalising each word and joining with spaces is, character by character, the original with every hyphen turned into a space and the letter after it capitalised |
| SampleFiles.FormatDisplayName | src/_data/sampleFiles.js:5-19 | a name whose stem holds ` - ` is shown as the stem's text before the first ` - `, trimmed, which is shorter than the stem and has no white space at either end; any other name is shown with as many characters as its stem and no hyphen |
| SampleFiles.WordsNoDash | src/_data/sampleFiles.js:15-18 | a name without a hyphen is one word, only capitalised |
| SampleFiles.WordsAtDash | src/_data/sampleFiles.js:15-18 | the words are the first word, capitalised, a space, then the words after the first hyphen |
| SampleFiles.TitleCaseAtDash | src/_data/sampleFiles.js:15-18 | the title case splits at the first hyphen as the words do |
| SampleFiles.CapitalizeNoDash | src/_data/sampleFiles.js:17 | capitalising a hyphen-free word is its title case |
| SampleFiles.HyphenatedName | src/_data/sampleFiles.js:5-19 | a name without ` - ` is shown as the title case of its stem |
| SampleFiles.StemOfSuffixed | src/_data/sampleFiles.js:6 | when a name holds no `.epub` of its own, the `.epub` appended to it is the first occurrence, and only it is removed |
| SampleFiles.SplitAfterPart | src/_data/sampleFiles.js:26 | a part that holds no ` - ` and does not end in ` -` ends at the first ` - `, so it is the first piece of the split |
| SampleFiles.SplitNoSpace | src/_data/sampleFiles.js:26 | a part without a space is not split further |
| SampleFiles.DateText | src/_data/sampleFiles.js:30 | a year, month and day written on 4, 2 and 2 digits pass the `^\d{4}-\d{2}-\d{2}$` test |
| SampleFiles.DateOrdinalOfText | src/_data/sampleFiles.js:31 | the date read from that text is the year, month and day it was written from |
| SampleFiles.OrdinalOrdersDates | src/_data/sampleFiles.js:52-56 | a later calendar date reads as a larger value, so comparing the values compares the dates |
| SampleFiles.ConventionNoDot | src/_data/sampleFiles.js:6 | a conventional name has no dot before its suffix |
| SampleFiles.ConventionParts | src/_data/sampleFiles.js:23-26 | a stem `title - author - YYYY-MM-DD` whose title and author hold no ` - ` and do not end in ` -` contains ` - ` and splits into exactly its title, author and date |
| SampleFiles.ConventionStem | src/_data/sampleFiles.js:6 | the stem of a conventional name with no `.epub` before its suffix drops only the `.epub` suffix |
| SampleFiles.NamingConvention | src/_data/sampleFiles.js:5-37 | `Title - Author - YYYY-MM-DD.epub` is shown as the trimmed title and dated by its date, for any title and author (hyphens and dots allowed) that hold no ` - `, do not end in ` -`, and put no `.epub` before the suffix |
| SampleFiles.NoDotNoSuffix | src/_data/sampleFiles.js:6 | a name without a dot holds no `.epub` |
| SampleFiles.UndatedIsEpoch | src/_data/sampleFiles.js:26-36 | a name without ` - ` is dated at the epoch |
| SampleFiles.OneSeparatorIsEpoch | src/_data/sampleFiles.js:26-36 | a name whose stem holds exactly one ` - ` splits into two parts and is dated at the epoch |
| SampleFiles.ExtractDate | src/_data/sampleFiles.js:22-37 | a file is dated by the trimmed last part of its stem's ` - ` split, as the date that text writes, exactly when the split has at least three parts and that part is `YYYY-MM-DD` text (any number of parts from three up); every other file is dated at the epoch |
| SampleFiles.Samples | src/_data/sampleFiles.js:45-51 | one record per `.epub` file, in listing order: the i-th record is that of the i-th `.epub` name, with its display name and its public path |
| SampleFiles.ScanDirectory | src/_data/sampleFiles.js:40-61 | an unreadable directory gives `[]`; otherwise the result is a permutation of the records, latest date first |
| SampleFiles.ScanMembers | src/_data/sampleFiles.js:44-56 | the scan lists exactly the `.epub` files of the directory |
| SampleFiles.ScanStable | src/_data/sampleFiles.js:52-56 | files with the same date keep their listing order |
| SampleFiles.EpochAfterDated | src/_data/sampleFiles.js:35-56 | an epoch-dated file comes after every file with a later date |
| SampleFiles.SampleCatalog | src/_data/sampleFiles.js:63-67 | the three audiences `writers`, `designers` and `developers`, in that order, each scanned from its own directory under `epub/samples` |
| ExtractI18n.FirstFrom | scripts/extract-i18n.js:34 | `exec` finds the first index at or after `lastIndex` where the expression matches, and nothing when there is none |
| ExtractI18n.HitsOrdered | scripts/extract-i18n.js:33-42 | every hit is a real match; hits come left to right and never overlap |
| ExtractI18n.HitsComplete | scripts/extract-i18n.js:33-42 | every index where the expression matches lies within one of the hits |
| ExtractI18n.HitsStep | scripts/extract-i18n.js:34 | a found match is the next hit, and the search resumes where it ends |
| ExtractI18n.SkipKey | scripts/extract-i18n.js:31 | the key run is the maximal run of characters without `'`, `"` or a backtick |
| ExtractI18n.I18nSpans | scripts/extract-i18n.js:31 | a match starts with `{{`; quotes, bar, word and closing braces follow in that order, within the text |
| ExtractI18n.I18nSpansSound | scripts/extract-i18n.js:31 | what the scan finds matches `\{\{\s*['"`]([^'"`]+)['"`]\s*\|\s*i18n\s*\}\}` read literally |
| ExtractI18n.I18nSpansComplete | scripts/extract-i18n.js:31 | every literal match is the one the scan finds, so the expression matches in one way only |
| ExtractI18n.I18nAdvances | scripts/extract-i18n.js:31-34 | every match is non-empty and inside the text, so the `exec` loop ends |
| ExtractI18n.KeyShape | scripts/extract-i18n.js:31-35 | a key is non-empty and holds no quote character |
| ExtractI18n.LineCountsNewlines | scripts/extract-i18n.js:36 | the line of a match is one more than the number of `\n` before its start |
| ExtractI18n.MessagesOf | scripts/extract-i18n.js:38-41 | one message per hit, in order |
| ExtractI18n.ExtractFromNunjucks | scripts/extract-i18n.js:29-43 | the `exec` loop adds exactly the messages of the hits, in source order |
| ExtractI18n.ExtractedMatches | scripts/extract-i18n.js:33-42 | each message's text is the key of a literal match, and its reference is `filename:line`, the line being one plus the newlines before the match |
| ExtractI18n.SkipToQuote | scripts/extract-i18n.js:80 | the msgid run is the maximal run of characters other than `"` |
| ExtractI18n.MsgidAdvances | scripts/extract-i18n.js:80-82 | every msgid match is non-empty and inside the text, so the loop ends |
| ExtractI18n.MsgidAtIsRegex | scripts/extract-i18n.js:80 | a msgid is found at an index exactly when a line starts there with `msgid "`, a non-empty text without `"`, then `"` |
| ExtractI18n.CollectExistingMsgids | scripts/extract-i18n.js:79-84 | the `exec` loop collects exactly the msgid texts of the hits |
| ExtractI18n.ExistingSound | scripts/extract-i18n.js:80-84 | every collected msgid is non-empty (never the header's), free of `"`, and written at the start of a line after `msgid "` |
| ExtractI18n.ExistingComplete | scripts/extract-i18n.js:80-84 | a line-initial `msgid "…"` that lies in no earlier match is collected |
| ExtractI18n.NewMessages | scripts/extract-i18n.js:90 | a message is kept exactly when its text is not an existing msgid, and nothing is added |
| ExtractI18n.NewMessagesAppend | scripts/extract-i18n.js:90 | the filter keeps the messages' relative order |
| ExtractI18n.NewMessagesAll | scripts/extract-i18n.js:90 | with no existing msgid every message is new |
| ExtractI18n.Blocks | scripts/extract-i18n.js:96-99 | one block per message, in order |
| ExtractI18n.UpdatePot | scripts/extract-i18n.js:72-112 | a new `messages.pot` is created exactly when none exists; an existing one is kept as it was exactly when every message text is already one of its msgids |
| ExtractI18n.UpdateKeepsOld | scripts/extract-i18n.js:92-105 | the old content is a prefix of the new, and the file is left as it was exactly when every message text is already a msgid |
| ExtractI18n.AppendedNonEmpty | scripts/extract-i18n.js:96-101 | the appended text starts with a newline, so the first new entry starts on a line of its own |
| ExtractI18n.AppendedConcat | scripts/extract-i18n.js:96-99 | the blocks of two batches are joined by a newline, and one message's text is its block |
| ExtractI18n.AppendedHasEntry | scripts/extract-i18n.js:97-98 | for each new message, the appended text holds the lines `msgid "text"` and `msgstr ""` |
| ExtractI18n.FindNjkFiles | scripts/extract-i18n.js:10-26 | the recursive walk returns `NjkFiles`: the `.njk` files in listing order, depth first |
| ExtractI18n.NjkFilesExact | scripts/extract-i18n.js:10-26 | the result lists exactly the paths of the files, at any depth, whose names end in `.njk` |
| ExtractI18n.Run | scripts/extract-i18n.js:46-112 | the script creates `messages.pot` exactly when it does not exist yet |
| RestoreTranslations.PatternsWellFormed | scripts/restore-translations.js:182-183 | both patterns have a tail that starts with other than white space |
| RestoreTranslations.UpdatePoFile | scripts/restore-translations.js:165-198 | a missing file writes nothing; otherwise the keys are rewritten in key order, each on the content the previous ones left, and the count is the number of rewrites |
| RestoreTranslations.RewriteKeyCounts | scripts/restore-translations.js:178-192 | a key raises the count exactly when it has a text and either the empty-msgstr or the key-msgstr pattern matches; otherwise the content is kept |
| RestoreTranslations.RewriteKeysStep | scripts/restore-translations.js:177-194 | one more key applies its rewrite to what the earlier keys left, and raises the count when that rewrite counts |
| RestoreTranslations.CountBound | scripts/restore-translations.js:177-193 | each key raises the count at most once, and only when it has a text for the language |
| RestoreTranslations.UntranslatedUnchanged | scripts/restore-translations.js:178 | a language none of whose keys has a text leaves the file as it was, with a count of 0 |
| RestoreTranslations.NoPatternUnchanged | scripts/restore-translations.js:186-192 | a key whose msgstr is neither empty nor the key itself rewrites nothing |
| RestoreTranslations.EmptyMsgstrFilled | scripts/restore-translations.js:182-188 | an empty msgstr after the key's msgid gets the text, the msgid line and white space kept, and the count goes up |
| RestoreTranslations.KeyMsgstrFilled | scripts/restore-translations.js:183-191 | a msgstr that still holds the key gets the text when no empty msgstr follows that msgid |
| RestoreTranslations.RestoreAll | scripts/restore-translations.js:201-206 | the loop over the four languages writes exactly `RestoreWrites`: in language order, one write for each language whose `.po` file exists |
| RestoreTranslations.RestoreWrites | scripts/restore-translations.js:204-206 | there are no more writes than languages |
| RestoreTranslations.RestoreWritesStep | scripts/restore-translations.js:204-206 | the writes for one more language are the earlier writes followed by that language's own write, if any |
| RestoreTranslations.RestoreWritesSound | scripts/restore-translations.js:165-206 | every write belongs to a language whose `.po` file exists, and holds that file with its keys rewritten |
| RestoreTranslations.RestoreWritesComplete | scripts/restore-translations.js:165-206 | every language whose `.po` file exists gets its rewritten file written |
| PoPattern.MatchAtIsRegex | scripts/restore-translations.js:182-183 | the scan matches exactly when the expression, read with backtracking, does, and the split point is unique |
| PoPattern.TailStartSkips | scripts/restore-translations.js:182 | after the head, `\s*\n` ends where the maximal white-space run ends, when that run ends in `\n` |
| PoPattern.FirstMatchFrom | scripts/restore-translations.js:186 | the first index at or after the start where the pattern matches, and nothing when there is none |
| PoPattern.ScanNoHit | scripts/restore-translations.js:187 | with no match left, the global replace copies the rest of the text |
| PoPattern.ScanFirstHit | scripts/restore-translations.js:187 | the global replace copies the text before the first match, then its replacement, then resumes after it |
| PoPattern.ReplaceAllNoMatch | scripts/translate-qa.js:123-124 | without a match the replace leaves the content unchanged |
| PoPattern.ReplaceAllFirst | scripts/translate-qa.js:124 | the replace is the text before the first match, that match's replacement, and the replace of the rest |
| PoPattern.ReplaceAllPrefix | scripts/restore-translations.js:187 | the result starts with the text before the first match followed by its replacement |
| TranslateQa.SuccessCount | scripts/translate-qa.js:165-167 | the count of successful translations is at most the number of values |
| TranslateQa.TranslateText | scripts/translate-qa.js:12-43 | a blank text is returned as it is; otherwise the service is asked with the trimmed text, and a 200 answer with a truthy translation gives that translation after the robot prefix, anything else the `[LANG] text` fallback |
| TranslateQa.SuccessCountExtremes | scripts/translate-qa.js:165-167 | the count is the total exactly when every value counts as translated, and 0 exactly when none does |
| TranslateQa.FallbackNotSuccessful | scripts/translate-qa.js:41 | a `[LANG] text` fallback is never counted as a translation |
| TranslateQa.RobotContains | scripts/translate-qa.js:32 | `] ` occurs in the robot-prefixed text exactly when it occurs in the translation |
| TranslateQa.TranslateTextClassified | scripts/translate-qa.js:12-43 | a text with content counts as translated exactly when the service answered 200 with a truthy translation free of `] ` |
| TranslateQa.BlankCountsAsSuccess | scripts/translate-qa.js:15-16 | a white-space-only text is returned as it is, and counts as translated |
| TranslateQa.LoadEnglishQAContent | scripts/translate-qa.js:59-73 | the Q&A content is the English entries whose key starts with `qa_`, in order |
| TranslateQa.QaContentExact | scripts/translate-qa.js:64-70 | exactly the `qa_` keys are kept, each with its English value |
| TranslateQa.TranslateQAContent | scripts/translate-qa.js:75-107 | each key is stored with its translation in key order, and the loop pauses after the items of the schedule |
| TranslateQa.MapValuesStep | scripts/translate-qa.js:85-97 | storing the next item's value extends the mapped prefix by one entry |
| TranslateQa.TranslatedKeys | scripts/translate-qa.js:85-97 | the output has the input's keys; a blank text is copied, and any other text is translated |
| TranslateQa.TranslateItem | scripts/translate-qa.js:91-97 | a text that trims to nothing is copied; any other text is translated |
| TranslateQa.PauseScheduleMembers | scripts/translate-qa.js:100 | the loop pauses after item `i` exactly when `i + 1` is a multiple of 3 and `i` is not the last item |
| TranslateQa.PauseScheduleLength | scripts/translate-qa.js:100 | before the last item there is one pause in every three items |
| TranslateQa.PauseCount | scripts/translate-qa.js:99-103 | there is no pause after the last item, and `(total - 1) / 3` pauses in all |
| TranslateQa.EscapeCons | scripts/translate-qa.js:121 | the two global replaces escape character by character |
| TranslateQa.Escape | scripts/translate-qa.js:121 | the escaped text holds no newline |
| TranslateQa.EscapeShape | scripts/translate-qa.js:121 | the escaped text has no newline, and each quote and newline gains one character |
| TranslateQa.CountAfterQuotes | scripts/translate-qa.js:121 | escaping the quotes leaves the newlines as they were |
| TranslateQa.UnescapeEscape | scripts/translate-qa.js:121 | on a text without backslashes, reading back the PO escapes gives the translation |
| TranslateQa.BackslashAmbiguous | scripts/translate-qa.js:121 | backslashes are not escaped, so the two characters `\n` and a newline escape alike |
| TranslateQa.UpdatePoFile | scripts/translate-qa.js:109-134 | the keys are rewritten in key order; only a truthy translation whose empty msgstr is present rewrites the content; an unreadable file writes nothing |
| TranslateQa.NothingToFill | scripts/translate-qa.js:116-130 | when no key with a translation has an empty msgstr in the file, the file is written back unchanged |
| TranslateQa.EmptyMsgstrFilled | scripts/translate-qa.js:120-124 | an empty msgstr after the key's msgid becomes `msgid "key"` and `msgstr "<escaped>"`, with the white space between them dropped |
| TranslateQa.FilledLineParses | scripts/translate-qa.js:121 | the filled msgstr stays on one line, which the PO reader takes as a msgstr holding the escaped text |
| TranslateQa.Outcomes | scripts/translate-qa.js:159-179 | one result per locale, in locale order |
| TranslateQa.QaWrites | scripts/translate-qa.js:159-162 | at most one write per locale |
| TranslateQa.TranslateLocale | scripts/translate-qa.js:161-178 | a locale whose `.po` file is missing yields an error result and no write; otherwise its summary and the file with the translations filled in |
| TranslateQa.TranslateAll | scripts/translate-qa.js:136-202 | an unreadable English table gives no results and no writes; otherwise one result per locale and one write per existing `.po` file |
| TranslateQa.SummaryConsistent | scripts/translate-qa.js:164-178 | translated strings and fallbacks add up to the number of Q&A entries, and a locale fails exactly when its `.po` file is missing |
| JsString.TrimSpec | scripts/po-to-json.js:17 | the trim is an infix of the string |
| JsString.Trim | src/_data/sampleFiles.js:11 | the trim starts and ends with other than white space, and is no longer than the string |
| JsString.TrimNoop | src/_data/sampleFiles.js:11 | a string that starts and ends with other than white space is its own trim |
| JsString.TrimSkipsIndent | scripts/po-to-json.js:17 | white space in front does not change the trim |
| JsString.TrimEmptyAllSpace | scripts/translate-qa.js:92 | a string that trims to nothing is white space only |
| JsString.IndexOf | src/_data/sampleFiles.js:9 | `indexOf` finds the first occurrence, and nothing when there is none |
| JsString.JoinSplit | src/_data/sampleFiles.js:15-18 | joining the pieces of a split gives back the string |
| JsString.SplitJoin | scripts/po-to-json.js:9 | splitting on one character undoes a join of pieces that do not contain it |
| JsString.SplitCount | scripts/extract-i18n.js:36 | splitting on one character gives one piece more than there are occurrences |
| JsString.JoinConcat | scripts/extract-i18n.js:96-99 | joining two non-empty lists puts the separator between their joins |
| JsString.ReplaceFirst | src/_data/sampleFiles.js:6 | a string pattern replaces only its first occurrence, and nothing when it does not occur |
| JsString.ReplaceChar | src/_data/epubs.js:124 | every occurrence of the character is replaced and no other character changes |
| JsString.ReplaceCharByShape | scripts/translate-qa.js:121 | the length and alphabet of a text after a global one-character replace |
| JsString.JsSubstring | scripts/po-to-json.js:50 | the substring is no longer than the string |
| JsString.NatToString | scripts/extract-i18n.js:40 | the decimal text of a line number is non-empty and all digits |
| OrderedDict.PutGet | scripts/po-to-json.js:29 | after `d[k] = v`, `k` reads as `v` and every other key as before |
| OrderedDict.Put | scripts/po-to-json.js:29 | an existing key keeps its place, and a new key is appended |
| OrderedDict.FilterGet | scripts/po-to-json.js:94-98 | a filtered object has each key once, and a key reads as its value exactly when that entry is kept |
| OrderedDict.FilterKeepsAll | scripts/po-to-json.js:94-98 | when every entry is kept, the filter changes nothing |
| OrderedDict.FilterIdempotent | scripts/translate-qa.js:66-70 | filtering twice is filtering once |
| OrderedDict.MapValuesGet | scripts/translate-qa.js:81-97 | mapping the values keeps the keys, and each key reads as `f` of its old value |
| StableSort.SortBy | src/_data/epubs.js:135-139 | the sort is a permutation, ordered by ascending key |
| StableSort.SortByStable | src/_data/sampleFiles.js:52-56 | elements with equal keys keep their relative order |
| StableSort.InsertPermutes | src/_data/epubs.js:135-139 | insertion adds the element and nothing else |
| StableSort.InsertSorted | src/_data/epubs.js:135-139 | inserting into a sorted sequence keeps it sorted |

## Left out

- File-system access is modelled only through function parameters: `readFileSync`, `existsSync`, `readdirSync`, `statSync`, `writeFileSync`, `appendFileSync` and `mkdirSync`. Each write is returned as a (path, content) pair. Console output and `process.exit` are not modelled.
- `path.join` is modelled as concatenation with `/`, with no normalisation. `path.relative` is modelled as the `samples/<category>/<file>` path it gives for files under the samples directory.
- ExtractI18n.FindNjkFiles: the walk starts from `src`, not `./src`. It is modelled over a tree of file and directory entries, not a real directory.
- The gettext-extractor library is not part of this model. `addMessage` de-duplication and the `getMessages()` order are an opaque parameter (`ExtractI18n.Run`). `savePotFile`'s format is not modelled: creating a new `messages.pot` is `Create(messages)`.
- Keys are put into regular expressions and replacement strings without escaping. The model treats every key as literal text. It therefore does not capture:
  - regular-expression metacharacters in a key;
  - `$` patterns in a translation;
  - `"` or newlines inside a key.
- `JSON.parse` and `JSON.stringify` are not modelled. A JSON file is its table.
- JavaScript orders integer-like property keys (`"1"`) before other keys, and treats `__proto__` specially. Neither is modelled: objects keep pure insertion order.
- `toUpperCase` is modelled on ASCII letters only. Unicode case mapping is not modelled.
- Dates:
  - In epubs, `new Date(...)` is an abstract `time` function to integers, so a NaN comparison result (an unparseable `modified`) is not modelled.
  - In sampleFiles, a `YYYY-MM-DD` text is given the ordinal `year*10000 + month*100 + day`. An out-of-range month or day therefore gets an ordinal of its own. JavaScript gives NaN for month 13, which the model does not, and Node rolls a day past the month's end over into the next month (`2024-02-31` is 2 March 2024): the model orders `2024-02-31` before `2024-03-01`, JavaScript after it.
- Zip archives are a list of (path, text) entries. XML documents are lists of elements in document order, and the first element is `documentElement`. Neither the archive format nor XML parsing is modelled.
- Sorting in place with `Array.prototype.sort` is modelled on values, as a stable insertion sort by key. Modern engines sort stably, which is what the model assumes.
- TranslateQa: the mapping from locale to language code is the identity, as the table in the source is. The HTTP request, `encodeURIComponent`, `response.json()` and the 2-second `setTimeout` become a `Reply` parameter and a returned pause schedule. Logged previews are not modelled.
- RestoreTranslations: the fixed translation table is a parameter, not the literal in the source.
- RestoreTranslations.UpdatePoFile: running it twice is not proved to equal running it once, because the code does not have that property. The key pattern is tried only when no empty msgstr matches. Two counterexamples:
  - A file holds `msgid "k"` / `msgstr ""` and, later, a second `msgid "k"` / `msgstr "k"`. The first run fills only the empty msgstr. The second run rewrites the other entry and counts 1.
  - A text that starts with `"` leaves `msgstr ""…`, which the empty pattern matches again, so every run rewrites it once more.
  Idempotence would hold only for files with one entry per msgid and texts without `"`, newlines or `$`. That restricted theorem is not proved.
- The log counts of each script are not modelled: per-file string counts, `updatedCount` messages and "Found N" lines. The counts that are returned (`processedCount`, `updatedCount`, the success and fallback counts) are modelled.
- `scripts/auto-translate.js`, `epub/sw.js`, `src/_data/licenseText.js` and `.eleventy.js` are not part of this model.

Behaviour of the code worth noting:
- `relativePath` is relative to the `epub` directory, so it starts with `samples/`. The samples root is not the base.
- One category directory that cannot be listed makes the whole catalog `{}`. The failure is not confined to that category.
- Only a missing or empty `modified` sorts last, as `9999-12-31`. An unparseable one is given to `new Date` as it is.

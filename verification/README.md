# AI-Blog content core in Dafny

This project models the logic of the AI-Blog site (Next.js, TypeScript) that works without
the network or a database. It covers:

- **Content loading** (lib/notes.ts, lib/notes-fs.ts, lib/articles.ts). The `.mdx` files of a
  locale directory are listed. The `---` header of each file is matched. The `key: value`
  lines are read, with the last line winning. `tags` are split on commas. A record is kept
  only when its required fields are non-empty. The result is sorted newest first. A record can
  also be looked up by id, and a file's body can be read without its header. The derived
  queries are by type, by tag, search, tags and statistics.
- **The two API routes.**
  - GET `/api/notes` chooses one query, by type, then tag, then search text, then all notes.
  - POST `/api/notes` validates the fields (400) before it checks for a database (501).
  - GET `/api/search` filters the articles.
- **The search box** (components/SearchBar.tsx). It keeps a history of at most five
  queries, most recent first, each at most once.
- **The locale and path rules** of lib/i18n.ts, components/Header.tsx,
  components/MobileMenu.tsx and components/LanguageSwitcher.tsx.

The header parser is written once (module `Frontmatter`). A `Dialect` flag picks its header
delimiters:

- `Lf`: plain `\n`, as in lib/notes.ts.
- `CrLf`: `\r?\n`, as in lib/notes-fs.ts and lib/articles.ts.

A record kind gives the parser the set of keys it assigns (`Format`). The listing loop
(`ContentDirectory.ListDirectory`) and the header-line loop (`Frontmatter.ReadFields`) are
methods. Each is proved equal to a function (`Listing`, `FieldsOf`), and the properties are
proved about those functions.

The file format the loaders read is also stated as a writer: an opening `---` line, one
`key: value` line per field, a closing `---` line and the body, saved with either `\n` or
`\r\n` line ends (`Frontmatter.WriteFile`, `Frontmatter.WriteCrLfFile`). Round-trip lemmas
prove that a written note or article is read back as itself by each loader that accepts its
line ends. They also prove that lib/notes.ts finds no header in a CRLF file.

The outside world becomes parameters:

- **The file system.** A content tree maps a locale to its directory entries, each a file
  name and its text (`None` when reading fails), in listing order. A locale missing from the
  tree is a directory that cannot be listed.
- **`new Date(date).getTime()`.** An integer `dateKey`.
- **`String.prototype.toLowerCase`.** A character function `lower`.
- **The POST handler's environment.** `process.env.POSTGRES_URL`, `Date.now()` and the
  `createNote` call are parameters of the handler.
- **React state.** The components' state hooks become fields of a class. `router.push` and
  `onSearch` calls are recorded in a sequence field.

Behaviour of the source that the model keeps as written:

- **Notes without a `tags:` line.** A note without a `tags:` line has no tags (`None`).
  - Filtering by tag then throws, so GET `/api/notes?tag=…` answers 500.
  - A search throws when such a note does not already match on title or content.
  - The tag list gains an `undefined` entry, which sorts last and is counted.
- **A file that cannot be read.** When one `.mdx` file cannot be read while the directory is
  listed, the loop stops. The caller then receives the notes collected so far, unsorted.
- **Ids keep inner `.mdx`.** The id of a file is its name with the first `.mdx` removed, so
  `a.mdxb.mdx` gets the id `ab.mdx`.
- **`type` is not checked.** Any non-empty `type` is kept.
- **Prefix matching of nav items.** The `blog` nav item is active on `blogger`.

## Model

| member | source | states |
|---|---|---|
| Text.FindFrom | lib/notes.ts:29 | the first position at or after `from` where one of the patterns occurs, or none when no later position has one (the lazy `[\s\S]*?` match) |
| Text.IndexOf | lib/notes.ts:38 | the first occurrence of a pattern; none exactly when the pattern does not occur |
| Text.RemoveFirst | lib/notes.ts:33 | `String.replace` with a string: unchanged without an occurrence, otherwise one occurrence cut out and the length shorter by the pattern's |
| Text.RemoveFirstSuffix | lib/notes.ts:33 | a name that holds `.mdx` only at its end loses exactly that suffix |
| Text.Split | lib/notes.ts:37 | `split(sep)` on a one-character separator: at least one piece; its properties are `SplitPieces`, `JoinSplit`, `SplitJoin`, `SplitAround` and `SplitFirst` |
| Text.Join | lib/notes.ts:40 | `join(sep)`: the pieces with the separator between each two; inverse of `Split` by `JoinSplit` and `SplitJoin` |
| Text.SplitPieces | lib/notes.ts:37 | no piece of `split(sep)` holds the separator, and every piece's characters come from the input |
| Text.JoinSplit | lib/notes.ts:40 | `split(sep).join(sep)` gives the input back |
| Text.SplitJoin | components/Header.tsx:16 | splitting the join of separator-free pieces gives the pieces back |
| Text.SplitAround | components/Header.tsx:16 | splitting `a + sep + b` splits `a` and `b` and concatenates the results |
| Text.SplitFirst | lib/notes.ts:38 | the first piece of a split runs up to the first separator, and the rest is the split of what follows |
| Text.Trim | lib/notes.ts:40 | `trim()`: leading then trailing whitespace removed, with the whitespace set of JavaScript; characterised by `TrimIsSlice` |
| Text.TrimIsSlice | lib/notes.ts:40 | `trim()` is a slice of the input with only whitespace removed at both ends, and it neither starts nor ends with whitespace |
| Text.TrimSpaces | lib/notes.ts:40 | trimming leading whitespace off text that ends in non-space gives that text |
| Text.StripQuotes | lib/notes.ts:41 | the quote-removing `replace`: one leading and one trailing double quote removed; characterised by `StripQuotesKeeps` and `StripQuoted` |
| Text.StripQuotesKeeps | lib/notes.ts:41 | removing one leading and one trailing quote leaves unquoted text alone and removes at most two characters |
| Text.StripQuoted | lib/notes.ts:41 | a value wrapped in one pair of quotes loses exactly that pair |
| Text.RemoveCharsKeeps | lib/notes.ts:47 | deleting brackets leaves none of them and adds no character |
| Text.Lower | lib/notes.ts:155 | lower-casing maps each character and keeps the length |
| Text.LexLessTotal | lib/notes.ts:140 | the default string order of `sort()` is total on distinct strings |
| Text.LexLessTransitive | lib/notes.ts:140 | that order is transitive |
| Lists.FilterKeeps | lib/notes.ts:145 | `filter` keeps exactly the elements that pass, in their order, as a sub-list |
| Lists.FilterAppend | components/SearchBar.tsx:30 | filtering distributes over concatenation |
| Lists.DisjointFilters | lib/notes.ts:175-176 | two filters that no element passes both count at most the length together |
| Lists.FilterDistinct | components/SearchBar.tsx:30 | filtering a list without repeats leaves none |
| Frontmatter.MatchHeader | lib/notes.ts:29 | `content.match(...)[1]` of the three header patterns (also lib/notes-fs.ts:18 and lib/articles.ts:27): the text between the opening delimiter and the first closer; characterised by `MatchHeaderFirstCloser` |
| Frontmatter.MatchHeaderFirstCloser | lib/notes.ts:29 | a header matches exactly when the content opens with `---` and a newline and a closing `\n---` follows; the header is the text up to the first closer, even mid-line |
| Frontmatter.LfRejectsCrLf | lib/notes.ts:29 | a file opening with `---\r\n` is never recognised by the plain-newline parser |
| Frontmatter.EmptyDelimitersRejected | lib/notes.ts:29 | `---\n---` holds no header in either dialect |
| Frontmatter.ParseLine | lib/notes.ts:38-41 | one header line: the key before the first `": "`, the rest trimmed and unquoted, nothing for a line without a key or separator; characterised by `ParseLineSplitsAtFirst` |
| Frontmatter.ParseLineSplitsAtFirst | lib/notes.ts:38-41 | a line counts exactly when it holds `": "` and does not start with it; the key is the non-empty text before the first separator and the value is the rest, trimmed and unquoted |
| Frontmatter.CarriageReturnIgnored | lib/notes-fs.ts:26-30 | a trailing `\r` on a header line does not change what it reads as |
| Frontmatter.ParseWrittenLine | lib/notes.ts:38-41 | `key: raw` reads as that key and the trimmed, unquoted raw value |
| Frontmatter.FieldsOf | lib/notes.ts:37-53 | the fields the header lines assign in order, only recognised keys stored; characterised by `LastLineWins` and computed by `ReadFields` |
| Frontmatter.LastLineWins | lib/notes.ts:37-53 | a key is set exactly when it is recognised and some line sets it, and its value is that of the last such line |
| Frontmatter.ReadFields | lib/notes.ts:37-53 | the `forEach` over the header lines builds exactly the field map of the lines |
| Frontmatter.ParseTags | lib/notes.ts:47 | brackets deleted, split on commas, each piece trimmed and unquoted; characterised by `ParseTagsPieces` and `ReadWrittenTags` |
| Frontmatter.ParseTagsPieces | lib/notes.ts:47 | one tag per comma-separated piece of the bracket-free value, none holding a comma or bracket |
| Frontmatter.EmptyBracketsGiveOneEmptyTag | lib/notes.ts:47 | `[]` yields the one-element list `[""]` |
| Frontmatter.ReadWrittenTags | lib/notes.ts:47 | a `["a", "b"]` list of plain tags reads back as those tags |
| Frontmatter.ParseInt | lib/articles.ts:47 | `parseInt` without a radix: whitespace, one sign, an optional `0x`, the longest digit run, NaN without digits; characterised by `LeadingDigitsLongest`, `ParseWrittenInt`, `ParseIntNeedsDigit` and `NotANumber` |
| Frontmatter.LeadingDigitsLongest | lib/articles.ts:47 | `parseInt` reads the longest run of digits at the start |
| Frontmatter.ParseWrittenInt | lib/articles.ts:47 | `parseInt` of a decimal number followed by a non-digit gives that number |
| Frontmatter.ParseIntNeedsDigit | lib/articles.ts:47 | text without a digit is NaN |
| Frontmatter.NotANumber | lib/articles.ts:47 | text starting with a character that is neither whitespace, sign nor digit is NaN |
| Frontmatter.DecimalValue | app/api/notes/route.ts:48 | the decimal writing of a number has that value |
| Frontmatter.StripHeaderBlock | lib/notes.ts:126 | getNoteContent's removal of the leading `---\n…\n---\n` block; characterised by `StripHeaderBlockFirst` |
| Frontmatter.StripHeaderBlockFirst | lib/notes.ts:126 | the body is what follows the first `\n---\n` after an opening `---\n`, and the text is unchanged exactly when there is no such block |
| Frontmatter.UnterminatedBlockKept | lib/notes.ts:126 | a header closed without a trailing newline is not removed |
| Frontmatter.ReadWrittenLines | lib/notes.ts:37-53 | header lines written one per field read back as the stored fields |
| Frontmatter.MatchWrittenHeader | lib/notes.ts:29 | a written header is matched exactly, in both dialects |
| Frontmatter.StripWrittenHeader | lib/notes.ts:126 | removing the header block of a written file gives its body |
| Frontmatter.ReadWrittenFile | lib/notes-fs.ts:18-42 | a written file is recognised, its fields read back as written, and its body is what follows the header |
| Frontmatter.StoredGet | lib/notes.ts:42-51 | a field written once reads back as its trimmed, unquoted value, and an unwritten one is absent |
| Frontmatter.ColonSpaceUnmoved | lib/notes-fs.ts:26-30 | a character other than a space appended to a line leaves its first `": "` where it was |
| Frontmatter.CarriageReturnsRead | lib/notes-fs.ts:26-30 | the lines of a CRLF header, split on `\n` and so keeping their `\r`, parse as the lines without it |
| Frontmatter.FieldsOfParsedAlike | lib/notes-fs.ts:26-46 | lines that parse alike one for one assign the same fields |
| Frontmatter.MatchCrLfWrittenHeader | lib/notes-fs.ts:18 | in a file saved with CRLF line ends the `\r?\n` pattern finds exactly the written header and the plain-newline pattern of lib/notes.ts:29 finds none |
| Frontmatter.ReadCrLfWrittenFile | lib/notes-fs.ts:18-46 | a file saved with CRLF line ends is recognised by the `\r?\n` pattern and its fields read back as written although each line keeps its `\r`; the plain-newline pattern finds no header |
| Chronology.NewestFirst | lib/notes.ts:62 | the date sort, as a stable insertion sort by descending key; characterised by `NewestFirstSorts` and `NewestFirstStable` |
| Chronology.NewestFirstSorts | lib/notes.ts:62 | the date sort orders by descending key and is a permutation |
| Chronology.NewestFirstStable | lib/notes.ts:62 | the sort is stable: records with equal keys keep their order |
| Chronology.InsertKeepsOrder | lib/notes.ts:62 | inserting into a newest-first list keeps it newest first |
| Chronology.InsertPermutes | lib/notes.ts:62 | inserting adds exactly the one record |
| ContentDirectory.IdOf | lib/notes.ts:33 | `file.replace('.mdx', '')`: the first `.mdx` removed; see `IdOfInnerExtension` and `Text.RemoveFirstSuffix` |
| ContentDirectory.Scan | lib/notes.ts:24-60 | the file loop: the records of the `.mdx` entries in directory order, and whether a read aborted it; characterised by `ScanMembers` and `ScanAborts` |
| ContentDirectory.Listing | lib/notes.ts:14-68 | the loader's result: nothing for an unlistable directory, the unsorted partial result after a failed read, otherwise the records sorted newest first; characterised by `ListingOrdered` |
| ContentDirectory.ListDirectory | lib/notes.ts:14-68 | the listing loop returns exactly `Listing`: nothing for an unlistable directory, the records built so far, unsorted, when a read fails, and otherwise all records sorted newest first |
| ContentDirectory.ScanMembers | lib/notes.ts:24-60 | every listed record comes from a readable `.mdx` entry, and when no read fails every record such an entry yields is listed |
| ContentDirectory.ScanAborts | lib/notes.ts:24-60 | the loop aborts exactly when some `.mdx` entry cannot be read |
| ContentDirectory.ListingOrdered | lib/notes.ts:62 | a complete listing is newest first, a permutation of the records read, and keeps the directory order among equal dates |
| ContentDirectory.ReadText | lib/notes.ts:80-107 | one file's text is turned into its record exactly as the listing does |
| ContentDirectory.Lookup | lib/notes.ts:70-115 | the by-id read: the record built from `id.mdx`, nothing when it is missing or has no valid header; characterised by `LookupAgreesWithListing` and `ListedRecordFound` |
| ContentDirectory.ReadRecord | lib/notes.ts:70-115 | the by-id read gives `Lookup`: the record of `id.mdx`, or nothing |
| ContentDirectory.FirstNamedFinds | lib/notes-fs.ts:65-67 | with unique names, reading a listed name gives that entry's text |
| ContentDirectory.LookupAgreesWithListing | lib/notes-fs.ts:59-104 | reading a listed entry by its id builds the same record as the listing |
| ContentDirectory.ListedRecordFound | lib/notes-fs.ts:59-104 | a record the listing yields is in the listing and is found again by its id |
| ContentDirectory.IdOfInnerExtension | lib/notes.ts:33 | `a.mdxb.mdx` gets the id `ab.mdx`, which does not lead back to the file |
| NoteRecord.NoteOf | lib/notes.ts:32-57 | the `Partial<Note>` completed from the header fields and kept when title, description, date and type are set; characterised by `NoteOfValidity` and `NoteOfStored` |
| NoteRecord.NoteOfValidity | lib/notes.ts:55-57 | a note is kept exactly when title, description, date and type are non-empty; it carries the given id and locale, and has tags exactly when a `tags:` line was read |
| NoteRecord.AnyTypeKept | lib/notes.ts:45 | a note of type `essay` is kept: the type is not checked |
| NoteRecord.ListedNote | lib/notes.ts:24-57 | every listed note has the requested locale, the four required fields, and the id of a readable `.mdx` entry |
| NoteRecord.LookedUpNote | lib/notes.ts:70-115 | getNote gives nothing for a missing file, and a note it returns has the requested id, locale and required fields |
| Frontmatter.PlainValueReads | lib/notes.ts:40-41 | a value without surrounding whitespace or quotes reads as itself |
| NoteRecord.NoteOfStored | lib/notes.ts:42-57 | the fields of a written note rebuild exactly that note |
| NoteRecord.ReadRenderedNote | lib/notes.ts:29-57 | a note written as a header file reads back as itself in both dialects, and its body is what getNoteContent returns |
| NoteRecord.ReadRenderedCrLfNote | lib/notes-fs.ts:18-46 | a note file saved with CRLF line ends reads back as that note under the `\r?\n` pattern and as nothing under the plain-newline one |
| NoteQueries.ByType | lib/notes.ts:143-146 | `notes.filter(note => note.type === type)`; characterised by `ByTypeSublist` |
| NoteQueries.ByTag | lib/notes.ts:148-151 | `notes.filter(note => note.tags.includes(tag))`, throwing at the first note without tags; characterised by `ByTagSublist` |
| NoteQueries.Search | lib/notes.ts:153-162 | the title, content and tag test with the lower-cased query, throwing where `note.tags` is read and absent; characterised by `SearchThrows` and `SearchKeeps` |
| NoteQueries.ByTypeSublist | lib/notes.ts:143-146 | by type keeps exactly the notes of that type, in listing order |
| NoteQueries.ByTagSublist | lib/notes.ts:148-151 | by tag throws exactly when a note has no tags, and otherwise keeps exactly the notes holding the tag, in order |
| NoteQueries.SomeTagContainsMeans | lib/notes.ts:160 | `tags.some(...)` holds exactly when some lower-cased tag contains the query |
| NoteQueries.SearchThrows | lib/notes.ts:153-162 | the search throws exactly when some note without tags matches neither on title nor on content |
| NoteQueries.SearchKeeps | lib/notes.ts:153-162 | a search that returns keeps exactly the notes whose lower-cased title, content or some tag contains the lower-cased query, in order |
| NoteQueries.EmptyQueryKeepsAll | lib/notes.ts:153-162 | the empty query keeps every note |
| NoteQueries.AllTagsMembers | lib/notes.ts:138 | `flatMap` gathers every tag of every note, and an `undefined` for each note without tags |
| NoteQueries.DedupeDistinct | lib/notes.ts:139 | `new Set` keeps each value once and loses none |
| NoteQueries.SortTagsSorts | lib/notes.ts:140 | `sort()` of distinct tags orders them strictly and keeps the members |
| NoteQueries.Tags | lib/notes.ts:136-141 | `flatMap`, `new Set` and `sort()` of the notes' tags; characterised by `TagsSortedUnion` |
| NoteQueries.TagsSortedUnion | lib/notes.ts:136-141 | getTags is strictly sorted, holds exactly the tags of the notes, and holds `undefined` exactly when some note has no tags |
| NoteQueries.StrictlyOrderedDistinct | lib/notes.ts:140 | a sorted tag list has no repeats and `undefined` only at its end |
| NoteQueries.TagCount | lib/notes.ts:177 | the tag count is the number of distinct tags |
| NoteQueries.StatisticsOf | lib/notes.ts:164-179 | the four counts of getStatistics; characterised by `StatisticsCounts` and `TagCount` |
| NoteQueries.StatisticsCounts | lib/notes.ts:164-179 | total is the number of notes, thoughts plus notes is at most the total, and tags is the number of distinct tags |
| Notes.NotesOfValid | lib/notes.ts:14-68 | every note getNotes returns has the requested locale and the required fields, and an unlistable directory gives none |
| Notes.GetNotes | lib/notes.ts:14-68 | getNotes is the plain-newline listing of the locale's directory, with valid notes only |
| Notes.GetNote | lib/notes.ts:70-115 | getNote is the by-id read; nothing for a missing file; a note with the requested id and locale |
| Notes.GetNoteContent | lib/notes.ts:117-134 | the body of the file without its first header block, or nothing when the file cannot be read |
| Notes.NoteContentOfRendered | lib/notes.ts:117-134 | for a file holding a written note, getNote finds the note and getNoteContent gives its body |
| Notes.GetTags | lib/notes.ts:136-141 | getTags is the sorted distinct tag list of getNotes |
| Notes.GetNotesByType | lib/notes.ts:143-146 | exactly the listed notes of the type |
| Notes.GetNotesByTag | lib/notes.ts:148-151 | the tag filter over getNotes, with its throw |
| Notes.SearchNotes | lib/notes.ts:153-162 | the search over getNotes, with its throw |
| Notes.GetStatistics | lib/notes.ts:164-179 | the counts over getNotes and getTags, thoughts plus notes at most the total |
| NotesFs.GetNotesFromFS | lib/notes-fs.ts:3-57 | the `\r?\n` listing of the locale's directory, with valid notes only; an unlistable directory gives none |
| NotesFs.GetNoteByIdFromFS | lib/notes-fs.ts:59-104 | the by-id read in the `\r?\n` dialect; nothing for a missing file; a note with the requested id and locale |
| NotesFs.ListedNoteFoundById | lib/notes-fs.ts:59-104 | a note from file `id.mdx` that getNotesFromFS lists is found again by getNoteByIdFromFS(id) |
| NotesFs.CrLfNoteFoundById | lib/notes-fs.ts:59-104 | a note whose file was saved with CRLF line ends is found by getNoteByIdFromFS as that note, and lib/notes.ts's getNote finds none in the same file |
| NotesFs.GetTagsFromFS | lib/notes-fs.ts:106-111 | the sorted distinct tag list of getNotesFromFS |
| NotesFs.GetNotesByTypeFromFS | lib/notes-fs.ts:113-116 | exactly the listed notes of the type |
| NotesFs.GetNotesByTagFromFS | lib/notes-fs.ts:118-121 | the tag filter over getNotesFromFS |
| NotesFs.SearchNotesFromFS | lib/notes-fs.ts:123-132 | the search over getNotesFromFS |
| NotesFs.GetStatisticsFromFS | lib/notes-fs.ts:134-149 | the counts over getNotesFromFS and getTagsFromFS |
| Articles.ArticleOf | lib/articles.ts:30-53 | the `Partial<Article>` completed from the header fields and kept when title, description and date are set; characterised by `ArticleOfValidity` and `ArticleOfStored` |
| Articles.ArticleOfValidity | lib/articles.ts:51-53 | an article is kept exactly when title, description and date are non-empty; tags, category and readingTime are set exactly when their lines were read |
| Articles.ReadingTimeOf | lib/articles.ts:47 | readingTime is `parseInt` of the read value |
| Articles.ReadingTimeNumber | lib/articles.ts:47 | `5 min` gives 5 |
| Articles.ReadingTimeNaN | lib/articles.ts:47 | a word without leading digits gives NaN |
| Articles.ListedArticle | lib/articles.ts:22-53 | every listed article has the requested locale, the three required fields and the slug of a readable `.mdx` entry |
| Articles.GetArticles | lib/articles.ts:12-64 | the `\r?\n` article listing; valid articles of the locale; an unlistable directory gives none |
| Articles.GetArticle | lib/articles.ts:66-109 | the by-slug read; nothing for a missing file; an article with the requested slug, locale and required fields |
| Articles.ListedArticleFoundBySlug | lib/articles.ts:66-109 | an article from file `slug.mdx` that getArticles lists is found again by getArticle(slug) |
| Articles.ReadingTimeTextReads | lib/articles.ts:47 | a reading time written as `String(n)`, or as `NaN`, is a plain value that `parseInt` reads back as the same number |
| Articles.ParseWrittenNegative | lib/articles.ts:47 | `parseInt` reads a written negative number back |
| Articles.ArticlePairsWritable | lib/articles.ts:35-48 | every header line of a writable article has a recognised key and a value that fits on the line |
| Articles.ArticleOfStored | lib/articles.ts:35-53 | the fields stored from a written article rebuild exactly that article, tags and reading time included |
| Articles.WrittenArticleFoundBySlug | lib/articles.ts:66-109 | an article written with plain or CRLF line ends is read back as itself and getArticle finds it under its slug |
| NotesRoute.Dispatch | app/api/notes/route.ts:14-22 | the query the GET handler runs; characterised by `DispatchPriority` |
| NotesRoute.HandleGet | app/api/notes/route.ts:4-29 | GET `/api/notes`: the chosen query over getNotes, 200 with the notes or 500 when it throws; characterised by `GetAnswers` and `DefaultLocale` |
| NotesRoute.DispatchPriority | app/api/notes/route.ts:14-22 | a type of `thought` or `note` wins, any other type is ignored, then a tag, then a search text |
| NotesRoute.DefaultLocale | app/api/notes/route.ts:7 | an absent or empty locale reads the `zh` notes |
| NotesRoute.GetAnswers | app/api/notes/route.ts:4-29 | status 200 or 500; type and plain listings never fail; a tag query fails exactly when a note has no tags; a reply holds, in order, exactly the notes the query asks for |
| NotesRoute.DraftOf | app/api/notes/route.ts:48-61 | the record handed to `createNote`: the clock reading as id, the body's fields, `[]` for missing tags |
| NotesRoute.HandlePost | app/api/notes/route.ts:31-68 | POST `/api/notes`: 400, 501, 201 or 500; characterised by `PostChecksFieldsFirst` and `PostCreates` |
| NotesRoute.PostChecksFieldsFirst | app/api/notes/route.ts:36-46 | 400 exactly when a required field is missing or empty; 501 exactly when the fields are complete and no database is set; in neither case is `createNote` called |
| NotesRoute.PostCreates | app/api/notes/route.ts:48-67 | 201 with the created note exactly when `createNote` returns, 500 when it throws; the note handed over has the clock reading as id, the body's fields and `[]` for missing tags |
| SearchRoute.HandleGet | app/api/search/route.ts:4-31 | GET `/api/search`: no articles for a missing or empty query, otherwise the filtered articles of the locale; characterised by `EmptyQueryReadsNothing`, `DefaultLocale` and `SearchFilters` |
| SearchRoute.EmptyQueryReadsNothing | app/api/search/route.ts:9-11 | a missing or empty query gives no articles and reads no content |
| SearchRoute.DefaultLocale | app/api/search/route.ts:7 | an absent or empty locale searches the `zh` articles |
| SearchRoute.SearchFilters | app/api/search/route.ts:13-26 | status 200 with, in getArticles order, exactly the articles whose lower-cased title, description or some tag contains the lower-cased query |
| SearchBar.Remembered | components/SearchBar.tsx:30 | the new history: the query, then the old entries other than it, cut to five; characterised by the `Remembered…` lemmas |
| SearchBar.RememberedFront | components/SearchBar.tsx:30 | the new history starts with the query as typed, holds it once, continues with the newest other entries in order, and has at most five entries |
| SearchBar.RememberedKeepsOrder | components/SearchBar.tsx:30 | the remaining entries are a sub-list of the old history |
| SearchBar.RememberedDistinct | components/SearchBar.tsx:30 | a history without repeats stays without repeats |
| SearchBar.RememberedMovesToFront | components/SearchBar.tsx:30 | re-searching an entry moves it to the front and keeps length and entries |
| SearchBar.FilterDropsOne | components/SearchBar.tsx:30 | filtering out an entry that occurs once shortens the history by one |
| SearchBar.RememberedNew | components/SearchBar.tsx:30 | a new query goes in front, and the oldest entry drops out of a full history |
| SearchBar.SearchBox.constructor | components/SearchBar.tsx:14-16 | an empty box and an empty history |
| SearchBar.SearchBox.HandleSearch | components/SearchBar.tsx:25-34 | a blank query changes nothing; any other is set, reported, and remembered at the front of a history of at most five |
| SearchBar.SearchBox.HandleClear | components/SearchBar.tsx:36-39 | the box empties, the empty search is reported, the history stays |
| SearchBar.SearchBox.HandleKeyPress | components/SearchBar.tsx:41-45 | Enter searches the box's text; any other key changes nothing |
| I18n.LocaleFromPathname | lib/i18n.ts:5-9 | the result is always a site locale |
| I18n.LocaleOfFirstSegment | lib/i18n.ts:5-9 | only the piece after the first `/` decides, and further segments never change the result |
| I18n.SiteLocales | lib/i18n.ts:5-9 | `/en-US/blog` gives `en-US` and `/zh` gives `zh` |
| I18n.RootFallsBack | lib/i18n.ts:5-9 | `/` and the empty path give `zh` |
| I18n.UnknownLocaleFallsBack | lib/i18n.ts:5-9 | `/fr/x` and `/en-us` give `zh` |
| I18n.RelativePathFallsBack | lib/i18n.ts:5-9 | `en-US/x` gives `zh` |
| NavPaths.Segments | components/Header.tsx:16 | `pathname.split('/').filter(Boolean)`; characterised by `SegmentsClean`, `SlashesIgnored`, `SegmentsAround` and `SegmentsOfJoin` |
| NavPaths.RemainingPath | components/Header.tsx:19-21 | the page path: the segments after a locale prefix, or all of them, joined by `/` |
| NavPaths.IsActive | components/Header.tsx:29-34 | the home item on the empty page path, any other item by prefix; characterised by `ActiveItems` and `AtMostOneActive` |
| NavPaths.BuildHref | components/Header.tsx:36-41 | an item's href: no prefix for the default locale; characterised by `HrefShape`, `HrefLeadsTo` and `NavHrefsLeadToItems` |
| NavPaths.SegmentsClean | components/Header.tsx:16 | the segments are non-empty and hold no `/` |
| NavPaths.SlashesIgnored | components/Header.tsx:16 | leading, trailing and repeated slashes do not change the segments |
| NavPaths.SegmentsAround | components/Header.tsx:16 | the segments around a `/` are those of each side |
| NavPaths.SegmentsOfJoin | components/Header.tsx:16-21 | joining clean segments and splitting again gives them back, and the join is empty exactly for no segments |
| NavPaths.ActiveItems | components/Header.tsx:29-34 | the home item is active exactly on the home page; `blog` is active on `blogger` and on `blog/first-post` |
| NavPaths.AtMostOneActive | components/MobileMenu.tsx:30-35 | at most one menu item is active on any page |
| NavPaths.HrefShape | components/Header.tsx:36-41 | every href starts with `/`; the default locale adds no prefix; another locale adds its own |
| NavPaths.CurrentPageHref | components/Header.tsx:16-41 | the href of the current page is `/` and its segments, without a leading `zh` segment |
| NavPaths.HrefLeadsTo | components/Header.tsx:36-41 | the href of a page path leads to that page in that locale, unless the path starts with a locale |
| NavPaths.NavHrefsLeadToItems | components/Header.tsx:23-41 | every header and menu item's href leads to that item's page in the locale |
| NavPaths.LocaleLikePageLeavesLocale | components/Header.tsx:16-41 | on `/zh/en-US` the page path is `en-US`, whose href is the English home page |
| MobileMenu.ClickedItemActive | components/MobileMenu.tsx:23-42 | the item a click leads to is active on the page it opens |
| MobileMenu.ClickedItemHighlighted | components/MobileMenu.tsx:23-46 | following an item's link from any page lands on a page whose menu highlights that item and builds its links for the same locale |
| MobileMenu.Menu.constructor | components/MobileMenu.tsx:14 | the menu starts closed |
| MobileMenu.Menu.Open | components/MobileMenu.tsx:51 | the menu button opens the menu |
| MobileMenu.Menu.Close | components/MobileMenu.tsx:67 | the close button closes the menu |
| MobileMenu.Menu.HandleNavClick | components/MobileMenu.tsx:44-46 | an item click closes the menu and changes nothing else |
| LanguageSwitcher.SwitchTarget | components/LanguageSwitcher.tsx:26 | `newPath`: the new locale's prefix, then the page path when there is one; characterised by `SwitchKeepsPage` |
| LanguageSwitcher.SwitchKeepsPage | components/LanguageSwitcher.tsx:14-29 | the target starts with the new locale's prefix, even for `zh`; its segments are the new locale and the current page segments; getLocaleFromPathname and the header read the new locale from it; its page path is the current one |
| LanguageSwitcher.TargetSegments | components/LanguageSwitcher.tsx:26 | the target of a page path splits back into the locale and the page segments |
| LanguageSwitcher.PageSegmentsClean | components/LanguageSwitcher.tsx:14-18 | the page segments are non-empty and hold no `/` |
| LanguageSwitcher.Switcher.constructor | components/LanguageSwitcher.tsx:9-12 | the list starts closed and nothing has been pushed |
| LanguageSwitcher.Switcher.Toggle | components/LanguageSwitcher.tsx:39 | the button flips the list open or closed |
| LanguageSwitcher.Switcher.SwitchLanguage | components/LanguageSwitcher.tsx:20-29 | the list closes in both branches; the current locale pushes nothing; another pushes the target, which names the new locale and keeps the page path |

## Left out

- **File-system calls.** `fs.readdir` and `fs.readFile` become the content tree parameter.
  `path.join` is not modelled: a locale or id that holds `/` or `..` names another directory
  in the source.
- **`new Date(...).getTime()`.** It becomes an integer key. NaN dates, which make the
  comparator inconsistent, are not modelled.
- **`toLowerCase`.** It is an abstract per-character function. Unicode case mappings that
  change the length are not modelled.
- **UTF-16 code-unit order.** `sort()` on tags compares characters as Dafny does, by code
  point.
- **`parseInt` at large values.** Precision loss beyond 2^53 is not modelled. The result is an
  unbounded integer or NaN.
- **lib/db.ts, `createNote` and app/api/notes/[id]/route.ts.** lib/db.ts is not part of this
  model, and `createNote` is a parameter of the POST handler. app/api/notes/route.ts imports
  `createNote` from lib/notes.ts, which does not export it. What that import does at run time
  is not modelled: `create` may return or throw.
- **The POST body's field values.** They are strings or absent. The JSON body's other value
  types (numbers, booleans, non-array `tags`) are not modelled.
- **`console.error` logging.** It is left out.
- **Reply headers and JSON encoding.** Only the status and the body's value are modelled.
- **The search route's unreachable branch.** In the model nothing inside its `try` throws, so
  its 500 branch is never taken.
- **The search history's persistence.** Loading it from `localStorage` when the box mounts,
  and saving it after a search, are not modelled.
- SearchBar.SearchBox.HandleSearch: keeps `Valid` (at most five entries, no repeats) only when
  it held before, because a history loaded from storage could be anything.
- SearchBar.SearchBox.HandleKeyPress: keeps `Valid` only when it held before, for the same
  reason.
- **Staleness of state in a component's closures.** Re-rendering between events is not
  modelled: `HandleKeyPress` reads the current field.
- **The search box's focus state.** The `isFocused` flag and the dropdown it shows are not
  modelled.
- **Header.tsx as a component.** It has no state of its own. Its path rules are module
  `NavPaths`, shared with MobileMenu.tsx.
- **Rendering.** JSX, labels and styling of every component are left out.
- **Other parts of the repository.**
  - The chat route and the AI chat component.
  - i18n/request.ts, middleware.ts and the page components.
  - The database initialisation.
  - app/sitemap.ts.
- **Values the writer cannot round-trip.** The round trips cover values without a newline and
  without whitespace or a double quote at either end, and tags without a comma or bracket.
  Other values are read as the loaders read them, but no writer is stated for them.
- **`undefined` as a tag.** A note without tags contributes a `None` entry to the tag list.
  The model sorts it last, as `sort()` places `undefined`.

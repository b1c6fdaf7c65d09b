/**
 * lib/notes-fs.ts: the same loaders and queries as lib/notes.ts over
 * `public/content/notes/<locale>`, with a header pattern that accepts an optional `\r` before
 * the newline of either delimiter.
 */
module NotesFs {
  import opened Wrappers
  import opened Text
  import opened Frontmatter
  import opened ContentDirectory
  import opened NoteRecord
  import opened NoteQueries
  import opened Notes

  /** getNotesFromFS. */
  method GetNotesFromFS(tree: map<string, seq<Entry>>, locale: string, dateKey: string -> int) returns (notes: seq<Note>)
    ensures notes == NotesOf(tree, locale, CrLf, dateKey)
    ensures forall n | n in notes :: n.locale == locale && n.title != "" && n.content != "" && n.date != "" && n.kind != ""
    ensures locale !in tree ==> notes == []
  {
    notes := ListDirectory(DirOf(tree, locale), NoteFormat(locale, CrLf), NoteDate(dateKey));
    NotesOfValid(tree, locale, CrLf, dateKey);
  }

  /** getNoteByIdFromFS. */
  method GetNoteByIdFromFS(tree: map<string, seq<Entry>>, id: string, locale: string) returns (note: Option<Note>)
    ensures note == Lookup(DirOf(tree, locale), id, NoteFormat(locale, CrLf))
    ensures ReadFile(DirOf(tree, locale), id + ".mdx").None? ==> note.None?
    ensures note.Some? ==> note.value.id == id && note.value.locale == locale
  {
    note := ReadRecord(DirOf(tree, locale), id, NoteFormat(locale, CrLf));
    LookedUpNote(DirOf(tree, locale), id, locale, CrLf);
  }

  /**
   * A note listed from the file `id + ".mdx"`, where the extension is the name's only `.mdx`,
   * is found again by getNoteByIdFromFS under the id the listing gave it.
   */
  lemma ListedNoteFoundById(tree: map<string, seq<Entry>>, locale: string, dateKey: string -> int, i: nat, n: Note)
    requires locale in tree && UniqueNames(tree[locale]) && i < |tree[locale]|
    requires tree[locale][i].text.Some?
    requires exists id :: tree[locale][i].name == id + ".mdx" && forall k: nat | k < |id| :: !OccursAt(id + ".mdx", ".mdx", k)
    requires FromText(NoteFormat(locale, CrLf), IdOf(tree[locale][i].name), tree[locale][i].text.value) == Some(n)
    requires !Scan(tree[locale], NoteFormat(locale, CrLf)).1
    ensures n in NotesOf(tree, locale, CrLf, dateKey)
    ensures Lookup(DirOf(tree, locale), IdOf(tree[locale][i].name), NoteFormat(locale, CrLf)) == Some(n)
  {
    ListedRecordFound(tree[locale], NoteFormat(locale, CrLf), NoteDate(dateKey), i, n);
  }

  /**
   * A note whose file was saved with CRLF line ends is found by getNoteByIdFromFS as that
   * note, while lib/notes.ts's getNote finds none in the same file.
   */
  lemma CrLfNoteFoundById(tree: map<string, seq<Entry>>, n: Note, body: string)
    requires WritableNote(n)
    requires ReadFile(DirOf(tree, n.locale), n.id + ".mdx") == Some(RenderCrLfNote(n, body))
    ensures Lookup(DirOf(tree, n.locale), n.id, NoteFormat(n.locale, CrLf)) == Some(n)
    ensures Lookup(DirOf(tree, n.locale), n.id, NoteFormat(n.locale, Lf)) == None
  {
    ReadRenderedCrLfNote(n, body);
  }

  /** getTagsFromFS. */
  method GetTagsFromFS(tree: map<string, seq<Entry>>, locale: string, dateKey: string -> int) returns (tags: seq<Option<string>>)
    ensures tags == Tags(NotesOf(tree, locale, CrLf, dateKey))
    ensures StrictlyOrdered(tags)
  {
    var notes := GetNotesFromFS(tree, locale, dateKey);
    tags := SortTags(Dedupe(AllTags(notes)));
    TagsSortedUnion(notes);
  }

  /** getNotesByTypeFromFS. */
  method GetNotesByTypeFromFS(tree: map<string, seq<Entry>>, t: string, locale: string, dateKey: string -> int) returns (notes: seq<Note>)
    ensures notes == ByType(NotesOf(tree, locale, CrLf, dateKey), t)
    ensures forall n :: n in notes <==> n in NotesOf(tree, locale, CrLf, dateKey) && n.kind == t
  {
    var all := GetNotesFromFS(tree, locale, dateKey);
    notes := ByType(all, t);
    ByTypeSublist(all, t);
  }

  /** getNotesByTagFromFS. */
  method GetNotesByTagFromFS(tree: map<string, seq<Entry>>, tag: string, locale: string, dateKey: string -> int) returns (r: Outcome<seq<Note>>)
    ensures r == ByTag(NotesOf(tree, locale, CrLf, dateKey), tag)
  {
    var all := GetNotesFromFS(tree, locale, dateKey);
    r := ByTag(all, tag);
  }

  /** searchNotesFromFS. */
  method SearchNotesFromFS(tree: map<string, seq<Entry>>, query: string, locale: string, dateKey: string -> int, lower: char -> char)
    returns (r: Outcome<seq<Note>>)
    ensures r == Search(NotesOf(tree, locale, CrLf, dateKey), query, lower)
  {
    var all := GetNotesFromFS(tree, locale, dateKey);
    r := Search(all, query, lower);
  }

  /** getStatisticsFromFS. */
  method GetStatisticsFromFS(tree: map<string, seq<Entry>>, locale: string, dateKey: string -> int) returns (s: Statistics)
    ensures s == StatisticsOf(NotesOf(tree, locale, CrLf, dateKey), Tags(NotesOf(tree, locale, CrLf, dateKey)))
    ensures s.thoughts + s.notes <= s.total
  {
    var notes := GetNotesFromFS(tree, locale, dateKey);
    var tags := GetTagsFromFS(tree, locale, dateKey);
    s := Statistics(|notes|, |ByType(notes, "thought")|, |ByType(notes, "note")|, |tags|);
    StatisticsCounts(notes);
  }
}

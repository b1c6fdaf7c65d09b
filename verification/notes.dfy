/**
 * lib/notes.ts: the note loaders over `content/notes/<locale>`, whose header pattern wants a
 * plain `\n` after both delimiters, and the queries built on getNotes.
 *
 * The content tree maps each locale to its directory; `dateKey` stands for
 * `new Date(date).getTime()` and `lower` for the per-character effect of `toLowerCase`.
 */
module Notes {
  import opened Wrappers
  import opened Frontmatter
  import opened ContentDirectory
  import opened NoteRecord
  import opened NoteQueries

  /** The notes a loader returns for `locale` when it reads headers in dialect `d`. */
  function NotesOf(tree: map<string, seq<Entry>>, locale: string, d: Dialect, dateKey: string -> int): seq<Note> {
    Listing(DirOf(tree, locale), NoteFormat(locale, d), NoteDate(dateKey))
  }

  /** Every listed note passed the check and carries the locale; a missing directory lists nothing. */
  lemma NotesOfValid(tree: map<string, seq<Entry>>, locale: string, d: Dialect, dateKey: string -> int)
    ensures forall n | n in NotesOf(tree, locale, d, dateKey) ::
      n.locale == locale && n.title != "" && n.content != "" && n.date != "" && n.kind != ""
    ensures locale !in tree ==> NotesOf(tree, locale, d, dateKey) == []
  {
    if locale in tree {
      forall n | n in NotesOf(tree, locale, d, dateKey)
        ensures n.locale == locale && n.title != "" && n.content != "" && n.date != "" && n.kind != ""
      {
        ListedNote(tree[locale], locale, d, dateKey, n);
      }
    }
  }

  /** getNotes. */
  method GetNotes(tree: map<string, seq<Entry>>, locale: string, dateKey: string -> int) returns (notes: seq<Note>)
    ensures notes == NotesOf(tree, locale, Lf, dateKey)
    ensures forall n | n in notes :: n.locale == locale && n.title != "" && n.content != "" && n.date != "" && n.kind != ""
    ensures locale !in tree ==> notes == []
  {
    notes := ListDirectory(DirOf(tree, locale), NoteFormat(locale, Lf), NoteDate(dateKey));
    NotesOfValid(tree, locale, Lf, dateKey);
  }

  /** getNote. */
  method GetNote(tree: map<string, seq<Entry>>, id: string, locale: string) returns (note: Option<Note>)
    ensures note == Lookup(DirOf(tree, locale), id, NoteFormat(locale, Lf))
    ensures ReadFile(DirOf(tree, locale), id + ".mdx").None? ==> note.None?
    ensures note.Some? ==> note.value.id == id && note.value.locale == locale
  {
    note := ReadRecord(DirOf(tree, locale), id, NoteFormat(locale, Lf));
    LookedUpNote(DirOf(tree, locale), id, locale, Lf);
  }

  /** getNoteContent: the file's text with its leading header block removed. */
  method GetNoteContent(tree: map<string, seq<Entry>>, id: string, locale: string) returns (body: Option<string>)
    ensures ReadFile(DirOf(tree, locale), id + ".mdx").None? ==> body.None?
    ensures ReadFile(DirOf(tree, locale), id + ".mdx").Some? ==>
      body == Some(StripHeaderBlock(ReadFile(DirOf(tree, locale), id + ".mdx").value))
  {
    var content := ReadFile(DirOf(tree, locale), id + ".mdx");
    if content.None? {
      return None;
    }
    body := Some(StripHeaderBlock(content.value));
  }

  /** The body of a written note file is what getNoteContent gives back. */
  lemma NoteContentOfRendered(tree: map<string, seq<Entry>>, n: Note, body: string)
    requires WritableNote(n)
    requires ReadFile(DirOf(tree, n.locale), n.id + ".mdx") == Some(RenderNote(n, body))
    ensures Lookup(DirOf(tree, n.locale), n.id, NoteFormat(n.locale, Lf)) == Some(n)
    ensures StripHeaderBlock(ReadFile(DirOf(tree, n.locale), n.id + ".mdx").value) == body
  {
    ReadRenderedNote(n, body, Lf);
  }

  /** getTags. */
  method GetTags(tree: map<string, seq<Entry>>, locale: string, dateKey: string -> int) returns (tags: seq<Option<string>>)
    ensures tags == Tags(NotesOf(tree, locale, Lf, dateKey))
    ensures StrictlyOrdered(tags)
  {
    var notes := GetNotes(tree, locale, dateKey);
    tags := SortTags(Dedupe(AllTags(notes)));
    TagsSortedUnion(notes);
  }

  /** getNotesByType. */
  method GetNotesByType(tree: map<string, seq<Entry>>, t: string, locale: string, dateKey: string -> int) returns (notes: seq<Note>)
    ensures notes == ByType(NotesOf(tree, locale, Lf, dateKey), t)
    ensures forall n :: n in notes <==> n in NotesOf(tree, locale, Lf, dateKey) && n.kind == t
  {
    var all := GetNotes(tree, locale, dateKey);
    notes := ByType(all, t);
    ByTypeSublist(all, t);
  }

  /** getNotesByTag. */
  method GetNotesByTag(tree: map<string, seq<Entry>>, tag: string, locale: string, dateKey: string -> int) returns (r: Outcome<seq<Note>>)
    ensures r == ByTag(NotesOf(tree, locale, Lf, dateKey), tag)
  {
    var all := GetNotes(tree, locale, dateKey);
    r := ByTag(all, tag);
  }

  /** searchNotes. */
  method SearchNotes(tree: map<string, seq<Entry>>, query: string, locale: string, dateKey: string -> int, lower: char -> char)
    returns (r: Outcome<seq<Note>>)
    ensures r == Search(NotesOf(tree, locale, Lf, dateKey), query, lower)
  {
    var all := GetNotes(tree, locale, dateKey);
    r := Search(all, query, lower);
  }

  /** getStatistics: reads the listing for the counts and again, through getTags, for the tags. */
  method GetStatistics(tree: map<string, seq<Entry>>, locale: string, dateKey: string -> int) returns (s: Statistics)
    ensures s == StatisticsOf(NotesOf(tree, locale, Lf, dateKey), Tags(NotesOf(tree, locale, Lf, dateKey)))
    ensures s.thoughts + s.notes <= s.total
  {
    var notes := GetNotes(tree, locale, dateKey);
    var tags := GetTags(tree, locale, dateKey);
    s := Statistics(|notes|, |ByType(notes, "thought")|, |ByType(notes, "note")|, |tags|);
    StatisticsCounts(notes);
  }
}

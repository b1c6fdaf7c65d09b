/**
 * The `Note` record of lib/notes.ts and how one is built from the fields of a header: the
 * recognised keys, the `description` key feeding `content`, the `tags` list, and the check
 * that keeps a record only when title, content, date and type are non-empty.
 */
module NoteRecord {
  import opened Wrappers
  import opened Text
  import opened Frontmatter
  import opened ContentDirectory

  /**
   * A note. `kind` is the `type` field, whatever its text; `tags` is `None` when no `tags:`
   * line was read (the record then has no `tags` property at all).
   */
  datatype Note = Note(
    id: string,
    kind: string,
    title: string,
    content: string,
    tags: Option<seq<string>>,
    date: string,
    locale: string,
    mood: Option<string>,
    source: Option<string>,
    sourceUrl: Option<string>)

  /** The keys the `forEach` over the header lines assigns. */
  const NoteKeys: set<string> := {"title", "description", "date", "type", "tags", "mood", "source", "sourceUrl"}

  /** The `Partial<Note>` completed from the header fields, kept only when it passes the check. */
  function NoteOf(id: string, locale: string, fields: map<string, string>): Option<Note> {
    if Filled(fields, "title") && Filled(fields, "description") && Filled(fields, "date") && Filled(fields, "type") then
      Some(Note(
        id,
        fields["type"],
        fields["title"],
        fields["description"],
        if "tags" in fields then Some(ParseTags(fields["tags"])) else None,
        fields["date"],
        locale,
        Get(fields, "mood"),
        Get(fields, "source"),
        Get(fields, "sourceUrl")))
    else None
  }

  /** How a note file of `locale` is read, in the header dialect `d`. */
  function NoteFormat(locale: string, d: Dialect): Format<Note> {
    Format(d, NoteKeys, (id, fields) => NoteOf(id, locale, fields))
  }

  /** `new Date(note.date).getTime()`, for a date-to-number mapping `dateKey`. */
  function NoteDate(dateKey: string -> int): Note -> int {
    (n: Note) => dateKey(n.date)
  }

  /**
   * A record is kept exactly when title, description, date and type are non-empty; it then
   * carries the given id and locale, and its tags are set exactly when a `tags:` line was read.
   */
  lemma NoteOfValidity(id: string, locale: string, fields: map<string, string>)
    ensures NoteOf(id, locale, fields).Some? <==>
      Filled(fields, "title") && Filled(fields, "description") && Filled(fields, "date") && Filled(fields, "type")
    ensures NoteOf(id, locale, fields).Some? ==>
      var n := NoteOf(id, locale, fields).value;
      && n.id == id && n.locale == locale
      && n.title != "" && n.content != "" && n.date != "" && n.kind != ""
      && (n.tags.Some? <==> "tags" in fields)
      && (n.tags.Some? ==> |n.tags.value| >= 1)
  {
  }

  /** The type is not checked against `thought` and `note`: any non-empty text is kept. */
  lemma AnyTypeKept()
    ensures NoteOf("n", "zh", map["title" := "t", "description" := "d", "date" := "2024-01-01", "type" := "essay"]).Some?
  {
    var m := map["title" := "t", "description" := "d", "date" := "2024-01-01", "type" := "essay"];
    assert Filled(m, "title") && Filled(m, "description") && Filled(m, "date") && Filled(m, "type");
  }

  /** Every note read from a directory of `locale` passed the check and carries that locale. */
  lemma ListedNote(entries: seq<Entry>, locale: string, d: Dialect, dateKey: string -> int, n: Note)
    requires n in Listing(Some(entries), NoteFormat(locale, d), NoteDate(dateKey))
    ensures n.locale == locale
    ensures n.title != "" && n.content != "" && n.date != "" && n.kind != ""
    ensures exists i | 0 <= i < |entries| ::
      && IsContentFile(entries[i].name)
      && entries[i].text.Some?
      && n.id == IdOf(entries[i].name)
  {
    var f := NoteFormat(locale, d);
    var rs := Scan(entries, f).0;
    if !Scan(entries, f).1 {
      ListingOrdered(entries, f, NoteDate(dateKey));
      assert n in multiset(rs);
    }
    ScanMembers(entries, f, n);
    var i :| 0 <= i < |entries| && IsContentFile(entries[i].name) && entries[i].text.Some?
      && FromText(f, IdOf(entries[i].name), entries[i].text.value) == Some(n);
    var h := MatchHeader(entries[i].text.value, d).value;
    NoteOfValidity(IdOf(entries[i].name), locale, FieldsOf(Split(h, '\n'), NoteKeys));
  }

  /** A note read by id carries that id and the locale asked for, and passed the check. */
  lemma LookedUpNote(dir: Directory, id: string, locale: string, d: Dialect)
    ensures var r := Lookup(dir, id, NoteFormat(locale, d));
      && (ReadFile(dir, id + ".mdx").None? ==> r.None?)
      && (r.Some? ==>
        && r.value.id == id && r.value.locale == locale
        && r.value.title != "" && r.value.content != "" && r.value.date != "" && r.value.kind != "")
  {
    var t := ReadFile(dir, id + ".mdx");
    if t.Some? && MatchHeader(t.value, d).Some? {
      var h := MatchHeader(t.value, d).value;
      NoteOfValidity(id, locale, FieldsOf(Split(h, '\n'), NoteKeys));
    }
  }

  // Writing a note. A value is written on its own line and must read back as itself.

  /** A note that the loaders would keep and that can be written as a header. */
  predicate WritableNote(n: Note) {
    && n.title != "" && n.content != "" && n.date != "" && n.kind != ""
    && PlainValue(n.title) && PlainValue(n.content) && PlainValue(n.date) && PlainValue(n.kind)
    && (n.tags.Some? ==> |n.tags.value| >= 1 && forall t | t in n.tags.value :: PlainTag(t))
    && (n.mood.Some? ==> PlainValue(n.mood.value))
    && (n.source.Some? ==> PlainValue(n.source.value))
    && (n.sourceUrl.Some? ==> PlainValue(n.sourceUrl.value))
  }

  /** The lines every kept note has. */
  function RequiredPairs(n: Note): seq<(string, string)> {
    [("title", n.title), ("description", n.content), ("date", n.date), ("type", n.kind)]
  }

  /** The lines of the optional fields that are set. */
  function OptionalPairs(n: Note): seq<(string, string)> {
    (if n.tags.Some? then [("tags", WriteTags(n.tags.value))] else [])
    + OptionalPair("mood", n.mood) + OptionalPair("source", n.source) + OptionalPair("sourceUrl", n.sourceUrl)
  }

  /** The header lines of a note file, one per set field. */
  function NotePairs(n: Note): seq<(string, string)> {
    RequiredPairs(n) + OptionalPairs(n)
  }

  /** The file of a note: its header, then `body`. */
  function RenderNote(n: Note, body: string): string {
    WriteFile(NotePairs(n), body)
  }

  /** The same file saved with CRLF line ends. */
  function RenderCrLfNote(n: Note, body: string): string {
    WriteCrLfFile(NotePairs(n), body)
  }

  lemma NoteKeysWritable()
    ensures forall k | k in NoteKeys :: |k| > 0 && ':' !in k && '\n' !in k && k[0] != '-'
  {
  }

  /** The four lines every kept note has. */
  lemma RequiredPairsPlain(n: Note)
    requires PlainValue(n.title) && PlainValue(n.content) && PlainValue(n.date) && PlainValue(n.kind)
    ensures PlainPairs(RequiredPairs(n), NoteKeys)
  {
    NoteKeysWritable();
  }

  /** The optional lines: tags, mood, source and sourceUrl, each when set. */
  lemma OptionalPairsPlain(n: Note)
    requires n.tags.Some? ==> forall t | t in n.tags.value :: PlainTag(t)
    requires n.mood.Some? ==> PlainValue(n.mood.value)
    requires n.source.Some? ==> PlainValue(n.source.value)
    requires n.sourceUrl.Some? ==> PlainValue(n.sourceUrl.value)
    ensures PlainPairs(OptionalPairs(n), NoteKeys)
  {
    var t: seq<(string, string)> := if n.tags.Some? then [("tags", WriteTags(n.tags.value))] else [];
    if n.tags.Some? {
      WrittenTagsPlain(n.tags.value);
    }
    OptionalPairPlain("tags", if n.tags.Some? then Some(WriteTags(n.tags.value)) else None, NoteKeys);
    OptionalPairPlain("mood", n.mood, NoteKeys);
    OptionalPairPlain("source", n.source, NoteKeys);
    OptionalPairPlain("sourceUrl", n.sourceUrl, NoteKeys);
    PlainPairsAppend(t, OptionalPair("mood", n.mood), NoteKeys);
    PlainPairsAppend(t + OptionalPair("mood", n.mood), OptionalPair("source", n.source), NoteKeys);
    PlainPairsAppend(t + OptionalPair("mood", n.mood) + OptionalPair("source", n.source), OptionalPair("sourceUrl", n.sourceUrl), NoteKeys);
  }

  /** Every line of a writable note's header can be written and read back. */
  lemma NotePairsWritable(n: Note)
    requires WritableNote(n)
    ensures forall p | p in NotePairs(n) :: WritablePair(p, NoteKeys)
  {
    RequiredPairsPlain(n);
    OptionalPairsPlain(n);
    PlainPairsAppend(RequiredPairs(n), OptionalPairs(n), NoteKeys);
    var ps := NotePairs(n);
    forall p | p in ps ensures WritablePair(p, NoteKeys) {
      var i :| 0 <= i < |ps| && ps[i] == p;
    }
  }

  // What each key of a written note is stored as, one key at a time.

  lemma StoredTitle(n: Note)
    requires PlainValue(n.title)
    ensures Get(Stored(NotePairs(n)), "title") == Some(n.title)
  {
    StoredGet(NotePairs(n), "title", Some(n.title));
    PlainValueReads(n.title);
  }

  lemma StoredDescription(n: Note)
    requires PlainValue(n.content)
    ensures Get(Stored(NotePairs(n)), "description") == Some(n.content)
  {
    StoredGet(NotePairs(n), "description", Some(n.content));
    PlainValueReads(n.content);
  }

  lemma StoredDate(n: Note)
    requires PlainValue(n.date)
    ensures Get(Stored(NotePairs(n)), "date") == Some(n.date)
  {
    StoredGet(NotePairs(n), "date", Some(n.date));
    PlainValueReads(n.date);
  }

  lemma StoredType(n: Note)
    requires PlainValue(n.kind)
    ensures Get(Stored(NotePairs(n)), "type") == Some(n.kind)
  {
    StoredGet(NotePairs(n), "type", Some(n.kind));
    PlainValueReads(n.kind);
  }

  lemma StoredTags(n: Note)
    requires n.tags.Some? ==> forall t | t in n.tags.value :: PlainTag(t)
    ensures Get(Stored(NotePairs(n)), "tags") == if n.tags.Some? then Some(WriteTags(n.tags.value)) else None
  {
    var v := if n.tags.Some? then Some(WriteTags(n.tags.value)) else None;
    StoredGet(NotePairs(n), "tags", v);
    if n.tags.Some? {
      WrittenTagsPlain(n.tags.value);
      PlainValueReads(v.value);
    }
  }

  lemma StoredMood(n: Note)
    requires n.mood.Some? ==> PlainValue(n.mood.value)
    ensures Get(Stored(NotePairs(n)), "mood") == n.mood
  {
    StoredGet(NotePairs(n), "mood", n.mood);
    if n.mood.Some? {
      PlainValueReads(n.mood.value);
    }
  }

  lemma StoredSource(n: Note)
    requires n.source.Some? ==> PlainValue(n.source.value)
    ensures Get(Stored(NotePairs(n)), "source") == n.source
  {
    StoredGet(NotePairs(n), "source", n.source);
    if n.source.Some? {
      PlainValueReads(n.source.value);
    }
  }

  lemma StoredSourceUrl(n: Note)
    requires n.sourceUrl.Some? ==> PlainValue(n.sourceUrl.value)
    ensures Get(Stored(NotePairs(n)), "sourceUrl") == n.sourceUrl
  {
    StoredGet(NotePairs(n), "sourceUrl", n.sourceUrl);
    if n.sourceUrl.Some? {
      PlainValueReads(n.sourceUrl.value);
    }
  }

  /** The fields stored from a writable note's header complete the same note. */
  lemma NoteOfStored(n: Note)
    requires WritableNote(n)
    ensures NoteOf(n.id, n.locale, Stored(NotePairs(n))) == Some(n)
  {
    StoredTitle(n);
    StoredDescription(n);
    StoredDate(n);
    StoredType(n);
    StoredTags(n);
    StoredMood(n);
    StoredSource(n);
    StoredSourceUrl(n);
    if n.tags.Some? {
      ReadWrittenTags(n.tags.value);
    }
  }

  /**
   * Reading a written note file gives the note back in either header dialect, and
   * getNoteContent's block removal gives the body back.
   */
  lemma ReadRenderedNote(n: Note, body: string, d: Dialect)
    requires WritableNote(n)
    ensures FromText(NoteFormat(n.locale, d), n.id, RenderNote(n, body)) == Some(n)
    ensures StripHeaderBlock(RenderNote(n, body)) == body
  {
    NotePairsWritable(n);
    ReadWrittenFile(NotePairs(n), body, NoteKeys, d);
    NoteOfStored(n);
  }

  /**
   * A note file saved with CRLF line ends is read back as the same note by the CRLF-tolerant
   * pattern, and yields nothing under the plain-newline one.
   */
  lemma ReadRenderedCrLfNote(n: Note, body: string)
    requires WritableNote(n)
    ensures FromText(NoteFormat(n.locale, CrLf), n.id, RenderCrLfNote(n, body)) == Some(n)
    ensures FromText(NoteFormat(n.locale, Lf), n.id, RenderCrLfNote(n, body)) == None
  {
    NotePairsWritable(n);
    ReadCrLfWrittenFile(NotePairs(n), body, NoteKeys);
    NoteOfStored(n);
  }
}

/**
 * app/api/notes/route.ts: the GET handler chooses one of the lib/notes.ts queries from the
 * request parameters; the POST handler validates a new note, checks that a database is
 * configured and hands the note to `createNote`.
 *
 * The content tree, the date key and the lower-casing function stand for the file system,
 * `Date` and `toLowerCase`; `process.env.POSTGRES_URL`, `Date.now()` and `createNote` are
 * parameters of the POST handler.
 */
module NotesRoute {
  import opened Wrappers
  import opened Text
  import opened Frontmatter
  import opened ContentDirectory
  import opened Lists
  import opened NoteRecord
  import opened NoteQueries
  import opened Notes
  import opened Params

  /** The search parameters the GET handler reads; `kind` is the `type` parameter. */
  datatype Request = Request(locale: Option<string>, kind: Option<string>, tag: Option<string>, q: Option<string>)

  /** The one query function a GET calls. */
  datatype Query = TypeQuery(t: string) | TagQuery(tag: string) | TextQuery(q: string) | AllNotes

  /** The body of a GET reply: the notes, or `None` for `{ error: 'Failed to fetch notes' }`. */
  datatype GetReply = GetReply(status: nat, notes: Option<seq<Note>>)

  /** The locale a request reads, `'zh'` when the parameter is absent or empty. */
  function RequestLocale(req: Request): string {
    OrDefault(req.locale, "zh")
  }

  /** The `if`/`else if` chain: a known type, then a tag, then a search text, then everything. */
  function Dispatch(req: Request): Query {
    if Truthy(req.kind) && (req.kind.value == "thought" || req.kind.value == "note") then TypeQuery(req.kind.value)
    else if Truthy(req.tag) then TagQuery(req.tag.value)
    else if Truthy(req.q) then TextQuery(req.q.value)
    else AllNotes
  }

  /** What the chosen query function returns on the listing `all`. */
  function RunQuery(query: Query, all: seq<Note>, lower: char -> char): Outcome<seq<Note>> {
    match query
    case TypeQuery(t) => Returned(ByType(all, t))
    case TagQuery(tag) => ByTag(all, tag)
    case TextQuery(q) => Search(all, q, lower)
    case AllNotes => Returned(all)
  }

  /** The notes a query asks for, as the handler's contract describes them. */
  predicate Selects(query: Query, n: Note, lower: char -> char) {
    match query
    case TypeQuery(t) => n.kind == t
    case TagQuery(tag) => n.tags.Some? && tag in n.tags.value
    case TextQuery(text) => NoteMatches(n, Lower(text, lower), lower)
    case AllNotes => true
  }

  /** GET: the query's notes with status 200, or status 500 when it throws. */
  function HandleGet(req: Request, tree: map<string, seq<Entry>>, dateKey: string -> int, lower: char -> char): GetReply {
    var all := NotesOf(tree, RequestLocale(req), Lf, dateKey);
    match RunQuery(Dispatch(req), all, lower)
    case Threw => GetReply(500, None)
    case Returned(notes) => GetReply(200, Some(notes))
  }

  /**
   * A known type decides whatever the other parameters say; a type that is neither
   * `thought` nor `note` is ignored as if it were absent.
   */
  lemma DispatchPriority(req: Request)
    ensures req.kind == Some("thought") || req.kind == Some("note") ==> Dispatch(req) == TypeQuery(req.kind.value)
    ensures req.kind != Some("thought") && req.kind != Some("note") ==> Dispatch(req) == Dispatch(req.(kind := None))
    ensures Truthy(req.tag) && !Dispatch(req).TypeQuery? ==> Dispatch(req) == TagQuery(req.tag.value)
    ensures Dispatch(req).TextQuery? <==> !Dispatch(req).TypeQuery? && !Truthy(req.tag) && Truthy(req.q)
  {
  }

  /** An absent and an empty locale parameter both read the `'zh'` notes. */
  lemma DefaultLocale(req: Request, tree: map<string, seq<Entry>>, dateKey: string -> int, lower: char -> char)
    ensures HandleGet(req.(locale := None), tree, dateKey, lower) == HandleGet(req.(locale := Some("zh")), tree, dateKey, lower)
    ensures HandleGet(req.(locale := Some("")), tree, dateKey, lower) == HandleGet(req.(locale := Some("zh")), tree, dateKey, lower)
  {
  }

  /**
   * A GET fails only through the tag filter or the search, when they meet a note without
   * tags; otherwise it answers 200 with an order-preserving sub-list of getNotes holding
   * exactly the notes the query asks for.
   */
  lemma GetAnswers(req: Request, tree: map<string, seq<Entry>>, dateKey: string -> int, lower: char -> char)
    ensures var all := NotesOf(tree, RequestLocale(req), Lf, dateKey);
      var r := HandleGet(req, tree, dateKey, lower);
      && (r.status == 200 || r.status == 500)
      && (r.status == 500 <==> r.notes.None?)
      && (Dispatch(req).TypeQuery? || Dispatch(req).AllNotes? ==> r.status == 200)
      && (Dispatch(req).TagQuery? ==> (r.status == 500 <==> exists n | n in all :: n.tags.None?))
      && (r.status == 200 ==> IsSubsequence(r.notes.value, all))
      && (r.status == 200 ==> forall n :: n in r.notes.value <==> n in all && Selects(Dispatch(req), n, lower))
  {
    var all := NotesOf(tree, RequestLocale(req), Lf, dateKey);
    match Dispatch(req)
    case TypeQuery(t) =>
      ByTypeSublist(all, t);
    case TagQuery(tag) =>
      ByTagSublist(all, tag);
    case TextQuery(q) =>
      if Search(all, q, lower).Returned? {
        SearchKeeps(all, q, lower);
      }
    case AllNotes =>
      SubsequenceOfItself(all);
  }

  // POST

  /** The fields of the JSON body; `kind` is `type`. A field that is absent is `None`. */
  datatype Payload = Payload(
    kind: Option<string>,
    title: Option<string>,
    content: Option<string>,
    tags: Option<seq<string>>,
    date: Option<string>,
    locale: Option<string>,
    mood: Option<string>,
    source: Option<string>,
    sourceUrl: Option<string>)

  /** The note handed to `createNote`. */
  datatype Draft = Draft(
    id: string,
    kind: string,
    title: string,
    content: string,
    tags: seq<string>,
    date: string,
    locale: string,
    mood: Option<string>,
    source: Option<string>,
    sourceUrl: Option<string>)

  /** The reply of a POST: the created note, or `{ error: message }`. */
  datatype PostBody<R> = Created(note: R) | Error(message: string)

  datatype PostReply<R> = PostReply(status: nat, body: PostBody<R>)

  const MissingFields := "Missing required fields"
  const DatabaseOnly := "Note creation is only available in database mode. Please deploy to Vercel with Postgres enabled."
  const CreateFailed := "Failed to create note"

  /** `!type || !title || !content || !date || !locale` is false. */
  predicate Complete(p: Payload) {
    Truthy(p.kind) && Truthy(p.title) && Truthy(p.content) && Truthy(p.date) && Truthy(p.locale)
  }

  /** The note built for a complete body at the clock reading `now`. */
  function DraftOf(p: Payload, now: nat): Draft
    requires Complete(p)
  {
    Draft(Decimal(now), p.kind.value, p.title.value, p.content.value,
      if p.tags.Some? then p.tags.value else [],
      p.date.value, p.locale.value, p.mood, p.source, p.sourceUrl)
  }

  /**
   * POST with the parsed body (`None` when `request.json()` throws), the database URL, the
   * clock reading and the `createNote` call.
   */
  function HandlePost<R>(body: Option<Payload>, databaseUrl: Option<string>, now: nat, create: Draft -> Outcome<R>): PostReply<R> {
    match body
    case None => PostReply(500, Error(CreateFailed))
    case Some(p) =>
      if !Complete(p) then PostReply(400, Error(MissingFields))
      else if !Truthy(databaseUrl) then PostReply(501, Error(DatabaseOnly))
      else
        match create(DraftOf(p, now))
        case Threw => PostReply(500, Error(CreateFailed))
        case Returned(n) => PostReply(201, Created(n))
  }

  /**
   * A body missing a required field is refused with 400 whatever the database setting; a
   * complete body without a database is refused with 501; in neither case, nor when the body
   * does not parse, is `createNote` called.
   */
  lemma PostChecksFieldsFirst<R>(body: Option<Payload>, databaseUrl: Option<string>, now: nat, create: Draft -> Outcome<R>, other: Draft -> Outcome<R>)
    ensures HandlePost(body, databaseUrl, now, create).status == 400 <==> body.Some? && !Complete(body.value)
    ensures HandlePost(body, databaseUrl, now, create).status == 501 <==> body.Some? && Complete(body.value) && !Truthy(databaseUrl)
    ensures !(body.Some? && Complete(body.value) && Truthy(databaseUrl)) ==>
      HandlePost(body, databaseUrl, now, create) == HandlePost(body, databaseUrl, now, other)
  {
  }

  /**
   * A complete body with a database answers 201 with what `createNote` returns, or 500 when
   * it throws; the note handed over has the clock reading as its id, the body's fields, and
   * no tags when the body names none.
   */
  lemma PostCreates<R>(p: Payload, databaseUrl: Option<string>, now: nat, create: Draft -> Outcome<R>)
    requires Complete(p) && Truthy(databaseUrl)
    ensures var r := HandlePost(Some(p), databaseUrl, now, create);
      && (r.status == 201 <==> create(DraftOf(p, now)).Returned?)
      && (r.status == 201 ==> r.body == Created(create(DraftOf(p, now)).value))
      && (r.status != 201 ==> r == PostReply(500, Error(CreateFailed)))
    ensures var d := DraftOf(p, now);
      && ParseInt(d.id) == Int(now)
      && d.kind == p.kind.value && d.title == p.title.value && d.content == p.content.value
      && d.date == p.date.value && d.locale == p.locale.value
      && d.tags == (if p.tags.None? then [] else p.tags.value)
  {
    ParseWrittenInt(now, "");
    assert Decimal(now) + "" == Decimal(now);
  }
}

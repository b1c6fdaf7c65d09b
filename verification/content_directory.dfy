/**
 * The file loop shared by getNotes, getNotesFromFS and getArticles, and the single-file read
 * shared by getNote, getNoteByIdFromFS and getArticle.
 *
 * A directory is given as its entries in `readdir` order, each with the text `readFile`
 * returns for it (`None` when the read throws), or as `None` when `readdir` throws. The
 * record built from a header differs between notes and articles and is a parameter.
 */
module ContentDirectory {
  import opened Wrappers
  import opened Text
  import opened Frontmatter
  import opened Chronology

  /** A listed name and what reading it gives; `None` when the read throws. */
  datatype Entry = Entry(name: string, text: Option<string>)

  /** A locale directory: its entries, or `None` when it cannot be listed. */
  type Directory = Option<seq<Entry>>

  /** The directories of one content tree, by locale; a missing locale cannot be listed. */
  function DirOf(tree: map<string, seq<Entry>>, locale: string): Directory {
    if locale in tree then Some(tree[locale]) else None
  }

  /**
   * How a record is read: the header dialect, the keys the record recognises, and the
   * record built from an id and the fields read (`None` when the validity check fails).
   */
  datatype Format<R> = Format(d: Dialect, keys: set<string>, make: (string, map<string, string>) -> Option<R>)

  predicate IsContentFile(name: string) {
    IsSuffix(".mdx", name)
  }

  /** `file.replace('.mdx', '')`: the id or slug of a listed file. */
  function IdOf(name: string): string {
    RemoveFirst(name, ".mdx")
  }

  /** The record a file's text yields under `id`: header matched, fields read, record built. */
  function FromText<R>(f: Format<R>, id: string, text: string): Option<R> {
    match MatchHeader(text, f.d)
    case None => None
    case Some(h) => f.make(id, FieldsOf(Split(h, '\n'), f.keys))
  }

  /** The record a listed content file yields, as a list of zero or one elements. */
  function Built<R>(f: Format<R>, name: string, text: string): seq<R> {
    match FromText(f, IdOf(name), text)
    case None => []
    case Some(r) => [r]
  }

  /**
   * The loop over the listing: the records pushed before it ends, and whether a failed read
   * ended it early (the `catch` then returns what was pushed so far).
   */
  function Scan<R>(entries: seq<Entry>, f: Format<R>): (seq<R>, bool) {
    if entries == [] then ([], false)
    else
      var e := entries[0];
      if !IsContentFile(e.name) then Scan(entries[1..], f)
      else
        match e.text
        case None => ([], true)
        case Some(t) =>
          var rest := Scan(entries[1..], f);
          (Built(f, e.name, t) + rest.0, rest.1)
  }

  /**
   * The listing a directory yields: empty when it cannot be listed, the unsorted records
   * read so far when a read fails, and otherwise every record newest first.
   */
  function Listing<R>(dir: Directory, f: Format<R>, key: R -> int): seq<R> {
    match dir
    case None => []
    case Some(entries) =>
      var (rs, aborted) := Scan(entries, f);
      if aborted then rs else NewestFirst(rs, key)
  }

  /** The `for (const file of files)` loop with its `push`, then the in-place sort. */
  method ListDirectory<R>(dir: Directory, f: Format<R>, key: R -> int) returns (rs: seq<R>)
    ensures rs == Listing(dir, f, key)
  {
    rs := [];
    if dir.None? {
      return;
    }
    var entries := dir.value;
    var i := 0;
    assert entries[0..] == entries;
    while i < |entries|
      invariant 0 <= i <= |entries|
      invariant Scan(entries, f).0 == rs + Scan(entries[i..], f).0
      invariant Scan(entries, f).1 == Scan(entries[i..], f).1
    {
      var e := entries[i];
      ScanStep(entries, i, f);
      if IsContentFile(e.name) {
        if e.text.None? {
          assert rs + [] == rs;
          return;
        }
        var r := ReadText(f, IdOf(e.name), e.text.value);
        var built := if r.Some? then [r.value] else [];
        assert rs + (built + Scan(entries[i + 1..], f).0) == (rs + built) + Scan(entries[i + 1..], f).0;
        rs := rs + built;
      }
      i := i + 1;
    }
    assert entries[i..] == [];
    assert rs + [] == rs;
    rs := NewestFirst(rs, key);
  }

  /** One turn of the loop: what the entry at `i` contributes before the rest is scanned. */
  lemma ScanStep<R>(entries: seq<Entry>, i: nat, f: Format<R>)
    requires i < |entries|
    ensures Scan(entries[i..], f) ==
      if !IsContentFile(entries[i].name) then Scan(entries[i + 1..], f)
      else if entries[i].text.None? then ([], true)
      else (Built(f, entries[i].name, entries[i].text.value) + Scan(entries[i + 1..], f).0, Scan(entries[i + 1..], f).1)
  {
    assert entries[i..][0] == entries[i] && entries[i..][1..] == entries[i + 1..];
  }

  /** The body of the `try` for one file: match the header, run the `forEach`, check validity. */
  method ReadText<R>(f: Format<R>, id: string, text: string) returns (r: Option<R>)
    ensures r == FromText(f, id, text)
  {
    match MatchHeader(text, f.d) {
      case None =>
        return None;
      case Some(h) =>
        var fields := ReadFields(h, f.keys);
        return f.make(id, fields);
    }
  }

  /** A record is listed exactly when a content file read before any failure yields it. */
  lemma {:induction false} ScanMembers<R>(entries: seq<Entry>, f: Format<R>, r: R)
    ensures r in Scan(entries, f).0 ==> exists i | 0 <= i < |entries| ::
      && IsContentFile(entries[i].name)
      && entries[i].text.Some?
      && FromText(f, IdOf(entries[i].name), entries[i].text.value) == Some(r)
    ensures !Scan(entries, f).1 ==> forall i | 0 <= i < |entries| ::
      && IsContentFile(entries[i].name)
      && entries[i].text.Some?
      && FromText(f, IdOf(entries[i].name), entries[i].text.value) == Some(r)
      ==> r in Scan(entries, f).0
  {
    if entries != [] {
      ScanMembers(entries[1..], f, r);
      assert forall i | 1 <= i < |entries| :: entries[i] == entries[1..][i - 1];
    }
  }

  /** The loop stops early exactly when some content file cannot be read. */
  lemma {:induction false} ScanAborts<R>(entries: seq<Entry>, f: Format<R>)
    ensures Scan(entries, f).1 <==> exists i | 0 <= i < |entries| :: IsContentFile(entries[i].name) && entries[i].text.None?
  {
    if entries != [] {
      ScanAborts(entries[1..], f);
      assert forall i | 1 <= i < |entries| :: entries[i] == entries[1..][i - 1];
    }
  }

  /**
   * A complete listing is ordered newest first, keeps the records sharing a date in
   * directory order, and holds exactly the records read.
   */
  lemma ListingOrdered<R>(entries: seq<Entry>, f: Format<R>, key: R -> int)
    requires !Scan(entries, f).1
    ensures IsNewestFirst(Listing(Some(entries), f, key), key)
    ensures multiset(Listing(Some(entries), f, key)) == multiset(Scan(entries, f).0)
    ensures forall v :: WithKey(Listing(Some(entries), f, key), key, v) == WithKey(Scan(entries, f).0, key, v)
  {
    NewestFirstSorts(Scan(entries, f).0, key);
    forall v ensures WithKey(Listing(Some(entries), f, key), key, v) == WithKey(Scan(entries, f).0, key, v) {
      NewestFirstStable(Scan(entries, f).0, key, v);
    }
  }

  /** `readFile(dir/name)`: the text of the entry with that name, if it exists and reads. */
  function ReadFile(dir: Directory, name: string): Option<string> {
    match dir
    case None => None
    case Some(entries) => FirstNamed(entries, name)
  }

  function FirstNamed(entries: seq<Entry>, name: string): Option<string> {
    if entries == [] then None
    else if entries[0].name == name then entries[0].text
    else FirstNamed(entries[1..], name)
  }

  /** The record read from the file `id + ".mdx"`, under the id asked for. */
  function Lookup<R>(dir: Directory, id: string, f: Format<R>): Option<R> {
    match ReadFile(dir, id + ".mdx")
    case None => None
    case Some(t) => FromText(f, id, t)
  }

  /** getNote: read the file named after the id and build the record from it. */
  method ReadRecord<R>(dir: Directory, id: string, f: Format<R>) returns (r: Option<R>)
    ensures r == Lookup(dir, id, f)
  {
    var content := ReadFile(dir, id + ".mdx");
    if content.None? {
      return None;
    }
    r := ReadText(f, id, content.value);
  }

  predicate UniqueNames(entries: seq<Entry>) {
    forall i, j | 0 <= i < j < |entries| :: entries[i].name != entries[j].name
  }

  lemma {:induction false} FirstNamedFinds(entries: seq<Entry>, i: nat)
    requires UniqueNames(entries) && i < |entries|
    ensures FirstNamed(entries, entries[i].name) == entries[i].text
  {
    if i > 0 {
      assert UniqueNames(entries[1..]) by {
        forall a, b | 0 <= a < b < |entries| - 1 ensures entries[1..][a].name != entries[1..][b].name {
          assert entries[1..][a] == entries[a + 1] && entries[1..][b] == entries[b + 1];
        }
      }
      FirstNamedFinds(entries[1..], i - 1);
    }
  }

  /**
   * Reading one file by the id the listing gave it yields the record the listing holds for
   * that file, when the file's only `.mdx` is its extension.
   */
  lemma LookupAgreesWithListing<R>(entries: seq<Entry>, i: nat, f: Format<R>)
    requires UniqueNames(entries) && i < |entries|
    requires entries[i].text.Some?
    requires exists id :: entries[i].name == id + ".mdx" && forall k: nat | k < |id| :: !OccursAt(id + ".mdx", ".mdx", k)
    ensures Lookup(Some(entries), IdOf(entries[i].name), f) == FromText(f, IdOf(entries[i].name), entries[i].text.value)
  {
    var id :| entries[i].name == id + ".mdx" && forall k: nat | k < |id| :: !OccursAt(id + ".mdx", ".mdx", k);
    RemoveFirstSuffix(id, ".mdx");
    FirstNamedFinds(entries, i);
  }

  /**
   * A record listed from the file `id + ".mdx"` of a complete listing is found again by
   * reading the id the listing gave it.
   */
  lemma ListedRecordFound<R>(entries: seq<Entry>, f: Format<R>, key: R -> int, i: nat, r: R)
    requires UniqueNames(entries) && i < |entries| && entries[i].text.Some?
    requires exists id :: entries[i].name == id + ".mdx" && forall k: nat | k < |id| :: !OccursAt(id + ".mdx", ".mdx", k)
    requires FromText(f, IdOf(entries[i].name), entries[i].text.value) == Some(r)
    requires !Scan(entries, f).1
    ensures r in Listing(Some(entries), f, key)
    ensures Lookup(Some(entries), IdOf(entries[i].name), f) == Some(r)
  {
    LookupAgreesWithListing(entries, i, f);
    assert IsContentFile(entries[i].name) by {
      var id :| entries[i].name == id + ".mdx" && forall k: nat | k < |id| :: !OccursAt(id + ".mdx", ".mdx", k);
      assert entries[i].name[|id|..] == ".mdx";
    }
    ScanMembers(entries, f, r);
    ListingOrdered(entries, f, key);
    assert r in multiset(Scan(entries, f).0);
  }

  /**
   * Removing the first `.mdx` is not removing the extension: a file named `a.mdxb.mdx` is
   * listed under the id `ab.mdx`, and reading that id looks for `ab.mdx.mdx`.
   */
  lemma IdOfInnerExtension()
    ensures IdOf("a.mdxb.mdx") == "ab.mdx"
    ensures IdOf("a.mdxb.mdx") + ".mdx" != "a.mdxb.mdx"
  {
    var s := "a.mdxb.mdx";
    assert s[1..5] == ".mdx";
    DiffersAt(s, ".mdx", 0, 0);
    IndexOfAt(s, ".mdx", 1);
    assert s[..1] + s[5..] == "ab.mdx";
  }
}

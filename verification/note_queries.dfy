/**
 * The queries lib/notes.ts and lib/notes-fs.ts derive from a note listing: by type, by tag,
 * substring search, the sorted set of tags, and the counts of getStatistics.
 *
 * A note read without a `tags:` line has no tags property. `note.tags.includes(tag)` and
 * `note.tags.some(...)` then throw, which the queries model as `Threw`; `flatMap` passes the
 * missing value through, so the tag list can hold it, as `None`.
 */
module NoteQueries {
  import opened Wrappers
  import opened Text
  import opened Lists
  import opened NoteRecord

  /** `note.type === type`. */
  function OfType(t: string): Note -> bool {
    (n: Note) => n.kind == t
  }

  /** getNotesByType: the notes whose type is exactly `t`, in listing order. */
  function ByType(notes: seq<Note>, t: string): seq<Note> {
    Filter(notes, OfType(t))
  }

  lemma ByTypeSublist(notes: seq<Note>, t: string)
    ensures forall n :: n in ByType(notes, t) <==> n in notes && n.kind == t
    ensures IsSubsequence(ByType(notes, t), notes)
  {
    FilterKeeps(notes, OfType(t));
  }

  predicate Untagged(n: Note) {
    n.tags.None?
  }

  /** `note.tags.includes(tag)`, for a note that has tags. */
  function HasTag(tag: string): Note -> bool {
    (n: Note) => n.tags.Some? && tag in n.tags.value
  }

  /** getNotesByTag: the filter throws at the first note without tags. */
  function ByTag(notes: seq<Note>, tag: string): Outcome<seq<Note>> {
    if exists i | 0 <= i < |notes| :: Untagged(notes[i]) then Threw
    else Returned(Filter(notes, HasTag(tag)))
  }

  /**
   * getNotesByTag fails exactly when some listed note has no tags; otherwise it keeps, in
   * order, the notes whose tags include `tag`.
   */
  lemma ByTagSublist(notes: seq<Note>, tag: string)
    ensures ByTag(notes, tag).Threw? <==> exists n | n in notes :: n.tags.None?
    ensures ByTag(notes, tag).Returned? ==>
      && (forall n :: n in ByTag(notes, tag).value <==> n in notes && tag in n.tags.value)
      && IsSubsequence(ByTag(notes, tag).value, notes)
  {
    FilterKeeps(notes, HasTag(tag));
    if exists n | n in notes :: n.tags.None? {
      var n :| n in notes && n.tags.None?;
      var i :| 0 <= i < |notes| && notes[i] == n;
      assert Untagged(notes[i]);
    }
  }

  /** `tags.some(tag => tag.toLowerCase().includes(lq))`. */
  predicate SomeTagContains(tags: seq<string>, lq: string, lower: char -> char) {
    |tags| > 0 && (Contains(Lower(tags[0], lower), lq) || SomeTagContains(tags[1..], lq, lower))
  }

  lemma {:induction false} SomeTagContainsMeans(tags: seq<string>, lq: string, lower: char -> char)
    ensures SomeTagContains(tags, lq, lower) <==> exists i | 0 <= i < |tags| :: Contains(Lower(tags[i], lower), lq)
  {
    if |tags| > 0 {
      SomeTagContainsMeans(tags[1..], lq, lower);
      assert forall i | 1 <= i < |tags| :: tags[1..][i - 1] == tags[i];
    }
  }

  /**
   * The search test on one note, evaluated left to right: a match on the title or the content
   * decides before the tags are touched, and a note without tags then throws.
   */
  function MatchNote(n: Note, lq: string, lower: char -> char): Outcome<bool> {
    if Contains(Lower(n.title, lower), lq) || Contains(Lower(n.content, lower), lq) then Returned(true)
    else
      match n.tags
      case None => Threw
      case Some(ts) => Returned(SomeTagContains(ts, lq, lower))
  }

  function Matches(lq: string, lower: char -> char): Note -> bool {
    (n: Note) => MatchNote(n, lq, lower) == Returned(true)
  }

  /** searchNotes: the notes matching the lower-cased query, or a throw. */
  function Search(notes: seq<Note>, query: string, lower: char -> char): Outcome<seq<Note>> {
    var lq := Lower(query, lower);
    if exists i | 0 <= i < |notes| :: MatchNote(notes[i], lq, lower).Threw? then Threw
    else Returned(Filter(notes, Matches(lq, lower)))
  }

  /** What the search promises: the lower-cased query in the title, the content or some tag. */
  predicate NoteMatches(n: Note, lq: string, lower: char -> char) {
    || Contains(Lower(n.title, lower), lq)
    || Contains(Lower(n.content, lower), lq)
    || (n.tags.Some? && exists i | 0 <= i < |n.tags.value| :: Contains(Lower(n.tags.value[i], lower), lq))
  }

  /**
   * searchNotes throws exactly when some note matches on neither title nor content and has
   * no tags.
   */
  lemma SearchThrows(notes: seq<Note>, query: string, lower: char -> char)
    ensures var lq := Lower(query, lower);
      (Search(notes, query, lower).Threw? <==> exists n | n in notes ::
        !Contains(Lower(n.title, lower), lq) && !Contains(Lower(n.content, lower), lq) && n.tags.None?)
  {
    var lq := Lower(query, lower);
    if exists n | n in notes :: MatchNote(n, lq, lower).Threw? {
      var n :| n in notes && MatchNote(n, lq, lower).Threw?;
      var i :| 0 <= i < |notes| && notes[i] == n;
      assert MatchNote(notes[i], lq, lower).Threw?;
    }
  }

  /** When it does not throw, searchNotes keeps, in order, exactly the matching notes. */
  lemma SearchKeeps(notes: seq<Note>, query: string, lower: char -> char)
    requires Search(notes, query, lower).Returned?
    ensures IsSubsequence(Search(notes, query, lower).value, notes)
    ensures forall n :: n in Search(notes, query, lower).value <==> n in notes && NoteMatches(n, Lower(query, lower), lower)
  {
    var lq := Lower(query, lower);
    FilterKeeps(notes, Matches(lq, lower));
    forall n | n in notes ensures Matches(lq, lower)(n) <==> NoteMatches(n, lq, lower) {
      var i :| 0 <= i < |notes| && notes[i] == n;
      assert !MatchNote(notes[i], lq, lower).Threw?;
      if n.tags.Some? {
        SomeTagContainsMeans(n.tags.value, lq, lower);
      }
    }
  }

  /** The empty query matches every note on its title, so nothing throws and nothing is dropped. */
  lemma EmptyQueryKeepsAll(notes: seq<Note>, lower: char -> char)
    ensures Search(notes, "", lower) == Returned(notes)
  {
    assert Lower("", lower) == "";
    forall n: Note ensures MatchNote(n, "", lower) == Returned(true) {
      assert OccursAt(Lower(n.title, lower), "", 0);
    }
    FilterAll(notes, Matches("", lower));
  }

  // The tag list: `notes.flatMap(note => note.tags)`, then `Array.from(new Set(...))`, then
  // `.sort()`. A missing tags property is the value `undefined`, written `None`.

  function Somes(ts: seq<string>): (r: seq<Option<string>>)
    ensures |r| == |ts| && forall i | 0 <= i < |ts| :: r[i] == Some(ts[i])
  {
    seq(|ts|, i requires 0 <= i < |ts| => Some(ts[i]))
  }

  /** `notes.flatMap(note => note.tags)`. */
  function AllTags(notes: seq<Note>): seq<Option<string>> {
    if notes == [] then []
    else (match notes[0].tags case None => [None] case Some(ts) => Somes(ts)) + AllTags(notes[1..])
  }

  /** Every tag of a listed note is in the flat list, and a note without tags adds `None`. */
  lemma {:induction false} AllTagsMembers(notes: seq<Note>)
    ensures forall s :: Some(s) in AllTags(notes) <==> exists n | n in notes :: n.tags.Some? && s in n.tags.value
    ensures None in AllTags(notes) <==> exists n | n in notes :: n.tags.None?
  {
    if notes != [] {
      AllTagsMembers(notes[1..]);
      assert forall n :: n in notes <==> n == notes[0] || n in notes[1..];
      var head: seq<Option<string>> := match notes[0].tags case None => [None] case Some(ts) => Somes(ts);
      assert AllTags(notes) == head + AllTags(notes[1..]);
      if notes[0].tags.Some? {
        var ts := notes[0].tags.value;
        assert forall s :: Some(s) in head <==> s in ts by {
          forall s | s in ts ensures Some(s) in head {
            var i :| 0 <= i < |ts| && ts[i] == s;
            assert head[i] == Some(s);
          }
        }
        assert None !in head;
      }
    }
  }

  /** `Array.from(new Set(xs))`: each value at its first occurrence, in order. */
  function Dedupe<T(==)>(xs: seq<T>): seq<T> {
    if xs == [] then []
    else
      var d := Dedupe(xs[..|xs| - 1]);
      if xs[|xs| - 1] in d then d else d + [xs[|xs| - 1]]
  }

  lemma {:induction false} DedupeDistinct<T>(xs: seq<T>)
    ensures Distinct(Dedupe(xs))
    ensures forall x :: x in Dedupe(xs) <==> x in xs
  {
    if xs != [] {
      var init := xs[..|xs| - 1];
      DedupeDistinct(init);
      assert xs == init + [xs[|xs| - 1]];
    }
  }

  /** The order of the default sort: strings by character, the missing value last. */
  predicate TagBefore(a: Option<string>, b: Option<string>) {
    a.Some? && (b.None? || LexLess(a.value, b.value))
  }

  lemma TagBeforeTotal(a: Option<string>, b: Option<string>)
    requires a != b
    ensures TagBefore(a, b) || TagBefore(b, a)
  {
    if a.Some? && b.Some? {
      LexLessTotal(a.value, b.value);
    }
  }

  lemma TagBeforeTransitive(a: Option<string>, b: Option<string>, c: Option<string>)
    requires TagBefore(a, b) && TagBefore(b, c)
    ensures TagBefore(a, c)
  {
    if c.Some? {
      LexLessTransitive(a.value, b.value, c.value);
    }
  }

  lemma TagBeforeAsymmetric(a: Option<string>, b: Option<string>)
    requires TagBefore(a, b)
    ensures !TagBefore(b, a) && a != b
  {
    if b.Some? {
      LexLessAsymmetric(a.value, b.value);
      LexLessIrreflexive(a.value);
    }
  }

  function InsertTag(x: Option<string>, ys: seq<Option<string>>): seq<Option<string>> {
    if ys == [] || TagBefore(x, ys[0]) then [x] + ys else [ys[0]] + InsertTag(x, ys[1..])
  }

  /** An insertion sort standing for the engine's sort; on distinct values the order is total. */
  function SortTags(xs: seq<Option<string>>): seq<Option<string>> {
    if xs == [] then [] else InsertTag(xs[0], SortTags(xs[1..]))
  }

  predicate StrictlyOrdered(xs: seq<Option<string>>) {
    forall i, j | 0 <= i < j < |xs| :: TagBefore(xs[i], xs[j])
  }

  lemma {:induction false} InsertTagMembers(x: Option<string>, ys: seq<Option<string>>)
    ensures forall z :: z in InsertTag(x, ys) <==> z == x || z in ys
  {
    if ys != [] && !TagBefore(x, ys[0]) {
      InsertTagMembers(x, ys[1..]);
      assert forall z :: z in ys <==> z == ys[0] || z in ys[1..];
    }
  }

  lemma {:induction false} InsertTagOrdered(x: Option<string>, ys: seq<Option<string>>)
    requires StrictlyOrdered(ys) && x !in ys
    ensures StrictlyOrdered(InsertTag(x, ys))
  {
    if ys == [] {
    } else if TagBefore(x, ys[0]) {
      var r := [x] + ys;
      forall i, j | 0 <= i < j < |r| ensures TagBefore(r[i], r[j]) {
        if i == 0 && j > 1 {
          TagBeforeTransitive(x, ys[0], ys[j - 1]);
        }
      }
    } else {
      var t := ys[1..];
      assert StrictlyOrdered(t) by {
        forall i, j | 0 <= i < j < |t| ensures TagBefore(t[i], t[j]) {
          assert t[i] == ys[i + 1] && t[j] == ys[j + 1];
        }
      }
      assert x != ys[0];
      TagBeforeTotal(x, ys[0]);
      InsertTagOrdered(x, t);
      InsertTagMembers(x, t);
      var rest := InsertTag(x, t);
      var r := [ys[0]] + rest;
      forall i, j | 0 <= i < j < |r| ensures TagBefore(r[i], r[j]) {
        assert r[j] == rest[j - 1];
        if i == 0 {
          assert rest[j - 1] in rest;
          if rest[j - 1] != x {
            var k :| 0 <= k < |t| && t[k] == rest[j - 1];
            assert t[k] == ys[k + 1];
          }
        } else {
          assert r[i] == rest[i - 1];
        }
      }
    }
  }

  lemma {:induction false} SortTagsSorts(xs: seq<Option<string>>)
    requires Distinct(xs)
    ensures StrictlyOrdered(SortTags(xs))
    ensures forall z :: z in SortTags(xs) <==> z in xs
  {
    if xs != [] {
      var t := xs[1..];
      assert Distinct(t) by {
        forall i, j | 0 <= i < j < |t| ensures t[i] != t[j] {
          assert t[i] == xs[i + 1] && t[j] == xs[j + 1];
        }
      }
      SortTagsSorts(t);
      assert xs[0] !in t by {
        forall k | 0 <= k < |t| ensures t[k] != xs[0] {
          assert t[k] == xs[k + 1];
        }
      }
      InsertTagOrdered(xs[0], SortTags(t));
      InsertTagMembers(xs[0], SortTags(t));
      assert forall z :: z in xs <==> z == xs[0] || z in t;
    }
  }

  /** getTags: the distinct tags of the listed notes, sorted. */
  function Tags(notes: seq<Note>): seq<Option<string>> {
    SortTags(Dedupe(AllTags(notes)))
  }

  /**
   * The tag list is strictly ordered, so free of duplicates; it holds exactly the tags of the
   * listed notes, and the missing value, last, exactly when some note has no tags.
   */
  lemma TagsSortedUnion(notes: seq<Note>)
    ensures StrictlyOrdered(Tags(notes))
    ensures forall s :: Some(s) in Tags(notes) <==> exists n | n in notes :: n.tags.Some? && s in n.tags.value
    ensures None in Tags(notes) <==> exists n | n in notes :: n.tags.None?
  {
    DedupeDistinct(AllTags(notes));
    SortTagsSorts(Dedupe(AllTags(notes)));
    AllTagsMembers(notes);
  }

  /** A strictly ordered list has no repeated value and, if it holds `None`, holds it last. */
  lemma StrictlyOrderedDistinct(xs: seq<Option<string>>)
    requires StrictlyOrdered(xs)
    ensures Distinct(xs)
    ensures forall i | 0 <= i < |xs| - 1 :: xs[i].Some?
  {
    forall i, j | 0 <= i < j < |xs| ensures xs[i] != xs[j] {
      TagBeforeAsymmetric(xs[i], xs[j]);
    }
    forall i | 0 <= i < |xs| - 1 ensures xs[i].Some? {
      assert TagBefore(xs[i], xs[i + 1]);
    }
  }

  /** The counts getStatistics returns. */
  datatype Statistics = Statistics(total: nat, thoughts: nat, notes: nat, tags: nat)

  function StatisticsOf(notes: seq<Note>, tags: seq<Option<string>>): Statistics {
    Statistics(|notes|, |ByType(notes, "thought")|, |ByType(notes, "note")|, |tags|)
  }

  lemma {:induction false} DistinctCount<T>(xs: seq<T>)
    requires Distinct(xs)
    ensures |set x | x in xs| == |xs|
  {
    if xs != [] {
      var t := xs[1..];
      assert Distinct(t) by {
        forall i, j | 0 <= i < j < |t| ensures t[i] != t[j] {
          assert t[i] == xs[i + 1] && t[j] == xs[j + 1];
        }
      }
      DistinctCount(t);
      var rest := set x | x in t;
      assert xs[0] !in rest by {
        forall k | 0 <= k < |t| ensures t[k] != xs[0] {
          assert t[k] == xs[k + 1];
        }
      }
      assert (set x | x in xs) == rest + {xs[0]} by {
        assert forall x :: x in xs <==> x == xs[0] || x in t;
      }
    }
  }

  /** The tag count is the number of distinct values in the flat tag list. */
  lemma TagCount(notes: seq<Note>)
    ensures |Tags(notes)| == |set t | t in AllTags(notes)|
  {
    DedupeDistinct(AllTags(notes));
    SortTagsSorts(Dedupe(AllTags(notes)));
    StrictlyOrderedDistinct(Tags(notes));
    DistinctCount(Tags(notes));
    assert (set t | t in Tags(notes)) == (set t | t in AllTags(notes));
  }

  /**
   * The counts of one listing: thoughts and notes are the exact type matches and together
   * never exceed the total; the tag count is the number of distinct tag values.
   */
  lemma StatisticsCounts(notes: seq<Note>)
    ensures var s := StatisticsOf(notes, Tags(notes));
      && s.total == |notes|
      && s.thoughts + s.notes <= s.total
      && s.tags == |set t | t in AllTags(notes)|
  {
    DisjointFilters(notes, OfType("thought"), OfType("note"));
    TagCount(notes);
  }
}

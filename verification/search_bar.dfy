/**
 * components/SearchBar.tsx: the search box keeps the text last searched and a history of at
 * most five queries, most recent first, each at most once.
 *
 * The component's state hooks become the fields of `SearchBox`; the `onSearch` callback is
 * recorded as the sequence of queries it was called with.
 */
module SearchBar {
  import opened Text
  import opened Lists

  const HistoryLimit: nat := 5

  /** `q => q !== searchQuery`. */
  function Others(q: string): string -> bool {
    (h: string) => h != q
  }

  /** `[searchQuery, ...searchHistory.filter(q => q !== searchQuery)].slice(0, 5)`. */
  function Remembered(history: seq<string>, q: string): seq<string> {
    var moved := [q] + Filter(history, Others(q));
    if |moved| <= HistoryLimit then moved else moved[..HistoryLimit]
  }

  /**
   * The new history starts with the query, holds it once, and continues with the newest of
   * the other entries in their old order, up to five entries in all; the oldest go first.
   */
  lemma RememberedFront(history: seq<string>, q: string)
    ensures var r := Remembered(history, q);
      && 1 <= |r| <= HistoryLimit
      && r[0] == q
      && (forall i | 1 <= i < |r| :: r[i] != q)
      && |r| - 1 <= |Filter(history, Others(q))|
      && r[1..] == Filter(history, Others(q))[..|r| - 1]
      && |r| == if |Filter(history, Others(q))| < HistoryLimit then 1 + |Filter(history, Others(q))| else HistoryLimit
  {
    var rest := Filter(history, Others(q));
    FilterKeeps(history, Others(q));
    var r := Remembered(history, q);
    forall i | 1 <= i < |r| ensures r[i] != q {
      assert r[i] == rest[i - 1];
      assert rest[i - 1] in rest;
    }
  }

  /** The entries that stay keep their relative order: they are a sub-list of the old history. */
  lemma RememberedKeepsOrder(history: seq<string>, q: string)
    ensures IsSubsequence(Remembered(history, q)[1..], history)
  {
    var rest := Filter(history, Others(q));
    RememberedFront(history, q);
    FilterKeeps(history, Others(q));
    PrefixSubsequence(rest, |Remembered(history, q)| - 1, history);
  }

  /** A history without repeats stays without repeats. */
  lemma RememberedDistinct(history: seq<string>, q: string)
    requires Distinct(history)
    ensures Distinct(Remembered(history, q))
  {
    var rest := Filter(history, Others(q));
    FilterDistinct(history, Others(q));
    FilterKeeps(history, Others(q));
    var moved := [q] + rest;
    forall i, j | 0 <= i < j < |moved| ensures moved[i] != moved[j] {
      assert moved[j] == rest[j - 1];
      assert rest[j - 1] in rest;
      if i > 0 {
        assert moved[i] == rest[i - 1];
      }
    }
  }

  /**
   * Searching again for an entry of a history without repeats moves it to the front: the
   * length and the entries stay the same.
   */
  lemma RememberedMovesToFront(history: seq<string>, q: string)
    requires Distinct(history) && |history| <= HistoryLimit && q in history
    ensures |Remembered(history, q)| == |history|
    ensures forall h :: h in Remembered(history, q) <==> h in history
  {
    FilterDropsOne(history, q);
    FilterKeeps(history, Others(q));
    var moved := [q] + Filter(history, Others(q));
    assert forall h :: h in moved <==> h == q || h in Filter(history, Others(q));
  }

  /** Filtering out a value that occurs once shortens the list by one. */
  lemma {:induction false} FilterDropsOne(xs: seq<string>, q: string)
    requires Distinct(xs) && q in xs
    ensures |Filter(xs, Others(q))| == |xs| - 1
  {
    var t := xs[1..];
    assert Distinct(t) by {
      forall i, j | 0 <= i < j < |t| ensures t[i] != t[j] {
        assert t[i] == xs[i + 1] && t[j] == xs[j + 1];
      }
    }
    if xs[0] == q {
      assert forall i | 0 <= i < |t| :: Others(q)(t[i]) by {
        forall i | 0 <= i < |t| ensures t[i] != q {
          assert t[i] == xs[i + 1];
        }
      }
      FilterAll(t, Others(q));
    } else {
      assert q in t;
      FilterDropsOne(t, q);
    }
  }

  /** A new query goes in front of the old history, which loses its oldest entry when full. */
  lemma RememberedNew(history: seq<string>, q: string)
    requires q !in history
    ensures Remembered(history, q) == if |history| < HistoryLimit then [q] + history else ([q] + history)[..HistoryLimit]
  {
    FilterAll(history, Others(q));
  }

  class SearchBox {
    /** The text of the box. */
    var query: string
    /** The history, most recent first. */
    var history: seq<string>
    /** The queries passed to `onSearch`, oldest first. */
    var searches: seq<string>

    ghost predicate Valid()
      reads this
    {
      |history| <= HistoryLimit && Distinct(history)
    }

    constructor ()
      ensures query == "" && history == [] && searches == []
      ensures Valid()
    {
      query := "";
      history := [];
      searches := [];
    }

    /** handleSearch: a blank query is ignored; any other is searched and remembered. */
    method HandleSearch(q: string)
      modifies this
      ensures old(Valid()) ==> Valid()
      ensures Trim(q) != "" ==> 1 <= |history| <= HistoryLimit && history[0] == q
      ensures Trim(q) == "" ==> query == old(query) && history == old(history) && searches == old(searches)
      ensures Trim(q) != "" ==> query == q && history == Remembered(old(history), q) && searches == old(searches) + [q]
    {
      if Trim(q) != "" {
        query := q;
        searches := searches + [q];
        RememberedFront(history, q);
        if Distinct(history) {
          RememberedDistinct(history, q);
        }
        history := Remembered(history, q);
      }
    }

    /** handleClear: empties the box and reports the empty search; the history stays. */
    method HandleClear()
      modifies this
      ensures query == "" && history == old(history) && searches == old(searches) + [""]
    {
      query := "";
      searches := searches + [""];
    }

    /** handleKeyPress: Enter searches for the text of the box. */
    method HandleKeyPress(key: string)
      modifies this
      ensures old(Valid()) ==> Valid()
      ensures key != "Enter" || Trim(old(query)) == "" ==> query == old(query) && history == old(history) && searches == old(searches)
      ensures key == "Enter" && Trim(old(query)) != "" ==>
        query == old(query) && history == Remembered(old(history), old(query)) && searches == old(searches) + [old(query)]
    {
      if key == "Enter" {
        HandleSearch(query);
      }
    }
  }
}

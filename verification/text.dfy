/** A conventional optional value, and the outcome of a JavaScript call that may throw. */
module Wrappers {

  datatype Option<+T> = None | Some(value: T)

  /** The result of a call that either returns a value or throws (a rejected promise). */
  datatype Outcome<+T> = Returned(value: T) | Threw
}

/**
 * The JavaScript string operations the content layer relies on, over `string` (= seq<char>):
 * `startsWith`, `endsWith`, `includes`, `indexOf`, `split` on one character, `join`,
 * `trim`, the quote-stripping `replace(/^"|"$/g, '')`, `replace(str, '')`, lower-casing
 * and the default `sort()` order.
 */
module Text {
  import opened Wrappers

  predicate IsPrefix(p: string, s: string) {
    |p| <= |s| && s[..|p|] == p
  }

  predicate IsSuffix(p: string, s: string) {
    |p| <= |s| && s[|s| - |p|..] == p
  }

  /** `p` occurs in `s` starting at index `i`. */
  predicate OccursAt(s: string, p: string, i: nat) {
    i + |p| <= |s| && s[i..i + |p|] == p
  }

  /** One of `pats` occurs in `s` starting at index `i`. */
  predicate OccursAny(s: string, pats: seq<string>, i: nat) {
    exists p | p in pats :: OccursAt(s, p, i)
  }

  /** JavaScript's `s.includes(p)`. */
  predicate Contains(s: string, p: string) {
    exists i | 0 <= i <= |s| :: OccursAt(s, p, i)
  }

  /**
   * The least index `i >= from` at which one of `pats` occurs: the position a lazy
   * `[\s\S]*?` followed by one of the alternatives `pats` stops at.
   */
  function FindFrom(s: string, pats: seq<string>, from: nat): (r: Option<nat>)
    decreases |s| + 1 - from
    ensures r.Some? ==> from <= r.value <= |s| && OccursAny(s, pats, r.value)
    ensures r.Some? ==> forall k: nat :: from <= k < r.value ==> !OccursAny(s, pats, k)
    ensures r.None? ==> forall k: nat :: from <= k ==> !OccursAny(s, pats, k)
  {
    if from > |s| then None
    else if OccursAny(s, pats, from) then Some(from)
    else FindFrom(s, pats, from + 1)
  }

  /** If a pattern occurs at `at` and nowhere in `[from, at)`, the search stops exactly at `at`. */
  lemma FindFromAt(s: string, pats: seq<string>, from: nat, at: nat)
    requires from <= at && OccursAny(s, pats, at)
    requires forall k: nat :: from <= k < at ==> !OccursAny(s, pats, k)
    ensures FindFrom(s, pats, from) == Some(at)
  {
  }

  /** JavaScript's `s.indexOf(p)`. */
  function IndexOf(s: string, p: string): (r: Option<nat>)
    ensures r.Some? ==> OccursAt(s, p, r.value)
    ensures r.Some? ==> forall k: nat :: k < r.value ==> !OccursAt(s, p, k)
    ensures r.None? <==> !Contains(s, p)
  {
    var r := FindFrom(s, [p], 0);
    assert forall k: nat :: OccursAny(s, [p], k) <==> OccursAt(s, p, k);
    r
  }

  /** `indexOf` finds `p` at `at` when it occurs there and nowhere before. */
  lemma IndexOfAt(s: string, p: string, at: nat)
    requires OccursAt(s, p, at)
    requires forall k: nat :: k < at ==> !OccursAt(s, p, k)
    ensures IndexOf(s, p) == Some(at)
  {
    assert OccursAny(s, [p], at);
    forall k: nat | k < at ensures !OccursAny(s, [p], k) {
      assert forall q | q in [p] :: q == p;
    }
    FindFromAt(s, [p], 0, at);
  }

  /** `p` does not occur at `i` when one of its characters differs from the text there. */
  lemma DiffersAt(s: string, p: string, i: nat, j: nat)
    requires j < |p| && i + j < |s| && s[i + j] != p[j]
    ensures !OccursAt(s, p, i)
  {
    if i + |p| <= |s| {
      assert s[i..i + |p|][j] != p[j];
    }
  }

  /** `s` does not start with `p` when one of the characters of `p` differs. */
  lemma PrefixDiffers(p: string, s: string, j: nat)
    requires j < |p| && j < |s| && s[j] != p[j]
    ensures !IsPrefix(p, s)
  {
    if |p| <= |s| {
      assert s[..|p|][j] != p[j];
    }
  }

  /** Text before the first occurrence of a non-empty `p` does not contain `p`. */
  lemma BeforeFirst(s: string, p: string, i: nat)
    requires i <= |s| && |p| > 0
    requires forall k: nat :: k < i ==> !OccursAt(s, p, k)
    ensures !Contains(s[..i], p)
  {
    forall k | 0 <= k <= i ensures !OccursAt(s[..i], p, k) {
      if OccursAt(s[..i], p, k) {
        assert s[k..k + |p|] == s[..i][k..k + |p|];
        assert OccursAt(s, p, k);
      }
    }
  }

  /** JavaScript's `s.replace(p, '')` with a string pattern: only the first occurrence goes. */
  function RemoveFirst(s: string, p: string): (r: string)
    ensures !Contains(s, p) ==> r == s
    ensures Contains(s, p) ==> |r| == |s| - |p|
    ensures Contains(s, p) ==> exists i: nat :: OccursAt(s, p, i) && r == s[..i] + s[i + |p|..]
  {
    match IndexOf(s, p)
    case None => s
    case Some(i) => s[..i] + s[i + |p|..]
  }

  /** `RemoveFirst(a + p, p)` gives `a` back when `p` does not occur earlier. */
  lemma RemoveFirstSuffix(a: string, p: string)
    requires |p| > 0
    requires forall k: nat :: k < |a| ==> !OccursAt(a + p, p, k)
    ensures RemoveFirst(a + p, p) == a
  {
    var s := a + p;
    assert OccursAt(s, p, |a|);
    IndexOfAt(s, p, |a|);
  }

  /** JavaScript's `s.split(sep)` with a one-character separator: never empty. */
  function Split(s: string, sep: char): (r: seq<string>)
    ensures |r| >= 1
  {
    if |s| == 0 then [""]
    else
      var rest := Split(s[1..], sep);
      if s[0] == sep then [""] + rest
      else [[s[0]] + rest[0]] + rest[1..]
  }

  /** No piece of a split holds the separator, and every character of a piece is from `s`. */
  lemma {:induction false} SplitPieces(s: string, sep: char)
    ensures forall piece | piece in Split(s, sep) :: sep !in piece
    ensures forall piece, c | piece in Split(s, sep) && c in piece :: c in s
  {
    if |s| > 0 {
      SplitPieces(s[1..], sep);
      var rest := Split(s[1..], sep);
      assert forall c | c in s[1..] :: c in s;
      if s[0] != sep {
        assert forall piece | piece in rest[1..] :: piece in rest;
      }
    }
  }

  /** JavaScript's `pieces.join(sep)`. */
  function Join(pieces: seq<string>, sep: char): string {
    if |pieces| == 0 then ""
    else if |pieces| == 1 then pieces[0]
    else pieces[0] + [sep] + Join(pieces[1..], sep)
  }

  /** Splitting then joining on the same separator gives the string back. */
  lemma {:induction false} JoinSplit(s: string, sep: char)
    ensures Join(Split(s, sep), sep) == s
  {
    if |s| > 0 {
      JoinSplit(s[1..], sep);
      var rest := Split(s[1..], sep);
      if s[0] == sep {
        assert Split(s, sep) == [""] + rest;
        assert ([""] + rest)[1..] == rest;
      } else {
        assert Split(s, sep) == [[s[0]] + rest[0]] + rest[1..];
        if |rest| == 1 {
          assert rest == [rest[0]];
        } else {
          assert ([[s[0]] + rest[0]] + rest[1..])[1..] == rest[1..];
          assert Join(rest, sep) == rest[0] + [sep] + Join(rest[1..], sep);
        }
      }
    }
  }

  /** Splitting a piece free of the separator, followed by the separator, starts a new piece. */
  lemma {:induction false} SplitPiece(a: string, sep: char, b: string)
    requires sep !in a
    ensures Split(a + [sep] + b, sep) == [a] + Split(b, sep)
  {
    if |a| == 0 {
      assert a + [sep] + b == [sep] + b;
      assert ([sep] + b)[1..] == b;
    } else {
      assert (a + [sep] + b)[1..] == a[1..] + [sep] + b;
      SplitPiece(a[1..], sep, b);
      assert [a[0]] + a[1..] == a;
    }
  }

  /** A string free of the separator splits into itself. */
  lemma {:induction false} SplitNoSeparator(a: string, sep: char)
    requires sep !in a
    ensures Split(a, sep) == [a]
  {
    if |a| > 0 {
      SplitNoSeparator(a[1..], sep);
      assert [a[0]] + a[1..] == a;
    }
  }

  /** Joining pieces free of the separator, then splitting, gives the pieces back. */
  lemma {:induction false} SplitJoin(pieces: seq<string>, sep: char)
    requires |pieces| >= 1
    requires forall piece | piece in pieces :: sep !in piece
    ensures Split(Join(pieces, sep), sep) == pieces
  {
    if |pieces| == 1 {
      SplitNoSeparator(pieces[0], sep);
    } else {
      SplitJoin(pieces[1..], sep);
      SplitPiece(pieces[0], sep, Join(pieces[1..], sep));
      assert [pieces[0]] + pieces[1..] == pieces;
    }
  }

  /** A separator in the middle splits the two sides apart. */
  lemma {:induction false} SplitAround(a: string, sep: char, b: string)
    ensures Split(a + [sep] + b, sep) == Split(a, sep) + Split(b, sep)
  {
    if |a| == 0 {
      assert a + [sep] + b == [sep] + b;
      SplitCons(sep, b, sep);
    } else {
      var c := a[0];
      var a' := a[1..];
      var t := a' + [sep] + b;
      ConsConcat(a, sep, b);
      SplitAround(a', sep, b);
      SplitCons(c, t, sep);
      SplitCons(c, a', sep);
      var r := Split(a', sep);
      var sb := Split(b, sep);
      if c != sep {
        ExtendFirstPiece(r, sb, c);
      } else {
        assert [""] + (r + sb) == ([""] + r) + sb;
      }
    }
  }

  /** A non-empty string is its first character followed by the rest. */
  lemma ConsConcat(a: string, sep: char, b: string)
    requires |a| > 0
    ensures a + [sep] + b == [a[0]] + (a[1..] + [sep] + b)
    ensures a == [a[0]] + a[1..]
  {
  }

  /** Extending the first piece of a split commutes with appending further pieces. */
  lemma ExtendFirstPiece(r: seq<string>, sb: seq<string>, c: char)
    requires |r| >= 1
    ensures [[c] + (r + sb)[0]] + (r + sb)[1..] == ([[c] + r[0]] + r[1..]) + sb
  {
    assert (r + sb)[0] == r[0] && (r + sb)[1..] == r[1..] + sb;
  }

  /** How a split begins: a separator closes an empty piece, any other character opens one. */
  lemma SplitCons(c: char, t: string, sep: char)
    ensures Split([c] + t, sep) ==
      if c == sep then [""] + Split(t, sep) else [[c] + Split(t, sep)[0]] + Split(t, sep)[1..]
  {
    assert ([c] + t)[0] == c && ([c] + t)[1..] == t;
  }

  /** The first piece of a split is the text before the first separator. */
  lemma {:induction false} SplitFirst(s: string, sep: char, i: nat)
    requires i <= |s| && sep !in s[..i] && (i == |s| || s[i] == sep)
    ensures Split(s, sep)[0] == s[..i]
    ensures i < |s| ==> Split(s, sep)[1..] == Split(s[i + 1..], sep)
  {
    if i == |s| {
      assert s[..i] == s;
      SplitNoSeparator(s, sep);
    } else {
      assert s == s[..i] + [sep] + s[i + 1..];
      SplitPiece(s[..i], sep, s[i + 1..]);
    }
  }

  /** The whitespace `String.prototype.trim` removes: ECMAScript WhiteSpace and LineTerminator. */
  predicate IsSpace(c: char) {
    c == '\t' || c == '\n' || c == '\U{000B}' || c == '\U{000C}' || c == '\r' || c == ' '
    || c == '\U{00A0}' || c == '\U{1680}' || ('\U{2000}' <= c <= '\U{200A}')
    || c == '\U{2028}' || c == '\U{2029}' || c == '\U{202F}' || c == '\U{205F}'
    || c == '\U{3000}' || c == '\U{FEFF}'
  }

  function TrimStart(s: string): string {
    if |s| > 0 && IsSpace(s[0]) then TrimStart(s[1..]) else s
  }

  function TrimEnd(s: string): string {
    if |s| > 0 && IsSpace(s[|s| - 1]) then TrimEnd(s[..|s| - 1]) else s
  }

  /** JavaScript's `s.trim()`. */
  function Trim(s: string): string {
    TrimEnd(TrimStart(s))
  }

  /** `TrimStart` removes a prefix made of whitespace and stops at a non-space. */
  lemma {:induction false} TrimStartSpaces(s: string)
    ensures IsSuffix(TrimStart(s), s)
    ensures |TrimStart(s)| > 0 ==> !IsSpace(TrimStart(s)[0])
    ensures forall k | 0 <= k < |s| - |TrimStart(s)| :: IsSpace(s[k])
  {
    if |s| > 0 && IsSpace(s[0]) {
      TrimStartSpaces(s[1..]);
    }
  }

  /** `TrimEnd` removes a suffix made of whitespace and stops at a non-space. */
  lemma {:induction false} TrimEndSpaces(s: string)
    ensures IsPrefix(TrimEnd(s), s)
    ensures |TrimEnd(s)| > 0 ==> !IsSpace(TrimEnd(s)[|TrimEnd(s)| - 1])
    ensures forall k | |TrimEnd(s)| <= k < |s| :: IsSpace(s[k])
  {
    if |s| > 0 && IsSpace(s[|s| - 1]) {
      TrimEndSpaces(s[..|s| - 1]);
    }
  }

  /**
   * The trim of `s` is the slice of `s` left once the whitespace at both ends is gone, and
   * it neither starts nor ends with whitespace.
   */
  lemma TrimIsSlice(s: string)
    ensures exists i, j | 0 <= i <= j <= |s| ::
      && Trim(s) == s[i..j]
      && (forall k | 0 <= k < i :: IsSpace(s[k]))
      && (forall k | j <= k < |s| :: IsSpace(s[k]))
    ensures |Trim(s)| > 0 ==> !IsSpace(Trim(s)[0]) && !IsSpace(Trim(s)[|Trim(s)| - 1])
  {
    var t := TrimStart(s);
    var i := |s| - |t|;
    TrimStartSpaces(s);
    TrimEndSpaces(t);
    var j := i + |Trim(s)|;
    assert Trim(s) == s[i..j];
    forall k | j <= k < |s| ensures IsSpace(s[k]) {
      assert s[k] == t[k - i];
    }
  }

  /** A string whose ends are not whitespace is its own trim. */
  lemma TrimUnspaced(s: string)
    requires |s| > 0 && !IsSpace(s[0]) && !IsSpace(s[|s| - 1])
    ensures Trim(s) == s
  {
  }

  /** Trimming a string made of spaces around an unspaced core yields the core. */
  lemma {:induction false} TrimSpaces(pre: string, core: string)
    requires forall k | 0 <= k < |pre| :: IsSpace(pre[k])
    requires |core| > 0 && !IsSpace(core[0]) && !IsSpace(core[|core| - 1])
    ensures Trim(pre + core) == core
  {
    if |pre| == 0 {
      assert pre + core == core;
      TrimUnspaced(core);
    } else {
      assert (pre + core)[1..] == pre[1..] + core;
      TrimSpaces(pre[1..], core);
    }
  }

  /** Every character of a trim comes from the trimmed string. */
  lemma TrimChars(s: string)
    ensures forall c | c in Trim(s) :: c in s
  {
    TrimIsSlice(s);
  }

  /** Wraps a value in double quotes, as the content files write it. */
  function Quote(v: string): string {
    "\"" + v + "\""
  }

  /**
   * `v.replace(/^"|"$/g, '')`: one leading and one trailing double quote are removed;
   * a lone `"` is consumed as the leading one.
   */
  function StripQuotes(s: string): string {
    var t := if |s| > 0 && s[0] == '"' then s[1..] else s;
    if |t| > 0 && t[|t| - 1] == '"' then t[..|t| - 1] else t
  }

  /** A value with no quote at either end is kept; otherwise at most two characters go. */
  lemma StripQuotesKeeps(s: string)
    ensures (|s| == 0 || (s[0] != '"' && s[|s| - 1] != '"')) ==> StripQuotes(s) == s
    ensures |s| - 2 <= |StripQuotes(s)| <= |s|
    ensures forall c | c in StripQuotes(s) :: c in s
  {
  }

  /** Stripping the quotes of a quoted value gives the value back, whatever it contains. */
  lemma StripQuoted(v: string)
    ensures StripQuotes(Quote(v)) == v
  {
    assert Quote(v)[1..] == v + "\"";
    assert (v + "\"")[..|v|] == v;
  }

  /** `s.replace(/[cs]/g, '')`: every character in `cs` is deleted. */
  function RemoveChars(s: string, cs: set<char>): string {
    if |s| == 0 then ""
    else (if s[0] in cs then "" else [s[0]]) + RemoveChars(s[1..], cs)
  }

  /** What remains are the characters of `s` outside `cs`; a string without them is kept. */
  lemma {:induction false} RemoveCharsKeeps(s: string, cs: set<char>)
    ensures forall c | c in RemoveChars(s, cs) :: c !in cs && c in s
    ensures (forall c | c in s :: c !in cs) ==> RemoveChars(s, cs) == s
  {
    if |s| > 0 {
      RemoveCharsKeeps(s[1..], cs);
      assert forall c | c in s[1..] :: c in s;
      if forall c | c in s :: c !in cs {
        assert [s[0]] + s[1..] == s;
      }
    }
  }

  /** `RemoveChars` distributes over concatenation. */
  lemma {:induction false} RemoveCharsAppend(a: string, b: string, cs: set<char>)
    ensures RemoveChars(a + b, cs) == RemoveChars(a, cs) + RemoveChars(b, cs)
  {
    if |a| > 0 {
      assert (a + b)[1..] == a[1..] + b;
      RemoveCharsAppend(a[1..], b, cs);
    } else {
      assert a + b == b;
    }
  }

  /** `s.toLowerCase()` with an abstract per-character case mapping. */
  function Lower(s: string, lower: char -> char): (r: string)
    ensures |r| == |s| && forall k | 0 <= k < |s| :: r[k] == lower(s[k])
  {
    if |s| == 0 then "" else [lower(s[0])] + Lower(s[1..], lower)
  }

  /** The order of the default `Array.prototype.sort` on strings, character by character. */
  predicate LexLess(a: string, b: string) {
    if |a| == 0 then |b| > 0
    else if |b| == 0 then false
    else a[0] < b[0] || (a[0] == b[0] && LexLess(a[1..], b[1..]))
  }

  lemma {:induction false} LexLessIrreflexive(a: string)
    ensures !LexLess(a, a)
  {
    if |a| > 0 {
      LexLessIrreflexive(a[1..]);
    }
  }

  lemma {:induction false} LexLessTransitive(a: string, b: string, c: string)
    requires LexLess(a, b) && LexLess(b, c)
    ensures LexLess(a, c)
  {
    if |a| > 0 && |b| > 0 && |c| > 0 && a[0] == b[0] && b[0] == c[0] {
      LexLessTransitive(a[1..], b[1..], c[1..]);
    }
  }

  lemma {:induction false} LexLessTotal(a: string, b: string)
    requires a != b
    ensures LexLess(a, b) || LexLess(b, a)
  {
    if |a| > 0 && |b| > 0 && a[0] == b[0] {
      assert a == [a[0]] + a[1..] && b == [b[0]] + b[1..];
      LexLessTotal(a[1..], b[1..]);
    }
  }

  lemma {:induction false} LexLessAsymmetric(a: string, b: string)
    requires LexLess(a, b)
    ensures !LexLess(b, a)
  {
    if |a| > 0 && |b| > 0 && a[0] == b[0] {
      LexLessAsymmetric(a[1..], b[1..]);
    }
  }
}

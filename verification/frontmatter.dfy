/**
 * The frontmatter parser shared by the note and article loaders: the `---` header match,
 * the `key: value` line rule, quote stripping, the `tags` list, `parseInt` for
 * `readingTime`, and the header-block removal of getNoteContent.
 *
 * The same header match and line rule appear six times in the repository (lib/notes.ts,
 * lib/notes-fs.ts, lib/articles.ts). The header match differs only in whether an optional
 * `\r` may precede the newlines of the two delimiters, which is the `Dialect` here; what
 * the copies do with the fields (the keys they recognise, `parseInt` for an article's
 * reading time) belongs to the records built from them.
 */
module Frontmatter {
  import opened Wrappers
  import opened Text

  /** `Lf`: `/^---\n([\s\S]*?)\n---/` (lib/notes.ts); `CrLf`: `/^---\r?\n([\s\S]*?)\r?\n---/`. */
  datatype Dialect = Lf | CrLf

  /** Length of the opening delimiter at the start of `content`, 0 when there is none. */
  function OpenLength(content: string, d: Dialect): nat {
    if d == CrLf && IsPrefix("---\r\n", content) then 5
    else if IsPrefix("---\n", content) then 4
    else 0
  }

  /** The alternatives that close the header. */
  function Closers(d: Dialect): seq<string> {
    if d == Lf then ["\n---"] else ["\n---", "\r\n---"]
  }

  /** `frontmatterMatch[1]`: the text between the opening delimiter and the first closer. */
  function MatchHeader(content: string, d: Dialect): Option<string> {
    var s := OpenLength(content, d);
    if s == 0 then None
    else
      match FindFrom(content, Closers(d), s)
      case None => None
      case Some(j) => Some(content[s..j])
  }

  /**
   * A header is found exactly when the file opens with the delimiter and a closer follows;
   * it then ends at the first closer, whatever follows the dashes.
   */
  lemma MatchHeaderFirstCloser(content: string, d: Dialect)
    ensures MatchHeader(content, d).Some? <==>
      OpenLength(content, d) > 0 && exists k: nat :: OpenLength(content, d) <= k && OccursAny(content, Closers(d), k)
    ensures MatchHeader(content, d).Some? ==>
      var s := OpenLength(content, d);
      var h := MatchHeader(content, d).value;
      && s + |h| <= |content|
      && content[s..s + |h|] == h
      && OccursAny(content, Closers(d), s + |h|)
      && forall k: nat :: s <= k < s + |h| ==> !OccursAny(content, Closers(d), k)
  {
    var s := OpenLength(content, d);
    if s > 0 {
      var j := FindFrom(content, Closers(d), s);
      if j.Some? {
        assert content[s..j.value] == MatchHeader(content, d).value;
      }
    }
  }

  /** A CRLF file never matches the plain-newline pattern of lib/notes.ts. */
  lemma LfRejectsCrLf(content: string)
    requires IsPrefix("---\r\n", content)
    ensures MatchHeader(content, Lf).None?
  {
    assert content[3] == "---\r\n"[3];
    PrefixDiffers("---\n", content, 3);
  }

  /** `"---\n---"` has no header: the closing `\n---` must come after the opening newline. */
  lemma EmptyDelimitersRejected(d: Dialect)
    ensures MatchHeader("---\n---", d).None?
  {
    var c := "---\n---";
    forall k: nat | 4 <= k ensures !OccursAny(c, Closers(d), k) {
      assert forall p | p in Closers(d) :: |p| >= 4;
    }
  }

  /** `value.trim().replace(/^"|"$/g, '')`: what a raw header value or tag is stored as. */
  function FieldValue(raw: string): string {
    StripQuotes(Trim(raw))
  }

  /** Every character of a stored value comes from the raw text. */
  lemma FieldValueChars(raw: string)
    ensures forall c | c in FieldValue(raw) :: c in raw
  {
    TrimChars(raw);
    StripQuotesKeeps(Trim(raw));
  }

  /** Where `line.split(': ')` ends the key: the first `": "`, unless it opens the line. */
  function KeyEnd(line: string): (r: Option<nat>)
    ensures r.Some? ==> 0 < r.value && OccursAt(line, ": ", r.value)
  {
    match IndexOf(line, ": ")
    case None => None
    case Some(i) => if i == 0 then None else Some(i)
  }

  /** `const [key, ...values] = line.split(': ')`, kept when `key` and `values` are non-empty. */
  function ParseLine(line: string): Option<(string, string)> {
    match KeyEnd(line)
    case None => None
    case Some(i) => Some((line[..i], FieldValue(line[i + 2..])))
  }

  /**
   * A line yields a field exactly when it holds `": "` not at its start; the key is the text
   * before the first `": "` and the value is everything after it, trimmed and unquoted.
   */
  lemma ParseLineSplitsAtFirst(line: string)
    ensures ParseLine(line).None? <==> !Contains(line, ": ") || IsPrefix(": ", line)
    ensures ParseLine(line).Some? ==>
      var key := ParseLine(line).value.0;
      && |key| > 0
      && IsPrefix(key + ": ", line)
      && !Contains(key, ": ")
      && ParseLine(line).value.1 == FieldValue(line[|key| + 2..])
  {
    var i := IndexOf(line, ": ");
    if i.Some? {
      if i.value == 0 {
        assert OccursAt(line, ": ", 0);
      } else {
        BeforeFirst(line, ": ", i.value);
        assert line[..i.value + 2] == line[..i.value] + ": ";
      }
    }
  }

  /** Trimming ignores whitespace appended at the end. */
  lemma {:induction false} TrimAppendSpace(s: string, c: char)
    requires IsSpace(c)
    ensures Trim(s + [c]) == Trim(s)
  {
    if |s| > 0 && IsSpace(s[0]) {
      assert (s + [c])[1..] == s[1..] + [c];
      assert TrimStart(s + [c]) == TrimStart(s[1..] + [c]);
      assert TrimStart(s) == TrimStart(s[1..]);
      TrimAppendSpace(s[1..], c);
    } else if |s| > 0 {
      assert (s + [c])[0] == s[0];
      assert TrimStart(s + [c]) == s + [c];
      assert (s + [c])[..|s|] == s;
      assert TrimEnd(s + [c]) == TrimEnd(s);
    } else {
      assert s + [c] == [c] && [c][1..] == "";
      assert TrimStart(s + [c]) == TrimStart("");
    }
  }

  /** Appending a character other than a space leaves the first `": "` where it was. */
  lemma ColonSpaceUnmoved(line: string, c: char)
    requires c != ' '
    ensures IndexOf(line + [c], ": ") == IndexOf(line, ": ")
  {
    var l := line + [c];
    forall k: nat ensures OccursAt(l, ": ", k) <==> OccursAt(line, ": ", k) {
      if k + 2 <= |line| {
        assert l[k..k + 2] == line[k..k + 2];
      } else if k + 2 == |l| {
        DiffersAt(l, ": ", k, 1);
      }
    }
    match IndexOf(line, ": ")
    case None =>
      assert !Contains(l, ": ");
    case Some(i) =>
      IndexOfAt(l, ": ", i);
  }

  /**
   * A header line keeps its `\r` when a CRLF file is split on `\n` alone; the line reads as
   * if the `\r` were not there, the value trim removing it.
   */
  lemma CarriageReturnIgnored(line: string)
    ensures ParseLine(line + "\r") == ParseLine(line)
  {
    var l := line + "\r";
    ColonSpaceUnmoved(line, '\r');
    match KeyEnd(line)
    case None =>
    case Some(i) =>
      assert l[..i] == line[..i];
      assert l[i + 2..] == line[i + 2..] + "\r";
      TrimAppendSpace(line[i + 2..], '\r');
  }

  /** A line written as `key: raw` with a colon-free key reads back as `(key, FieldValue(raw))`. */
  lemma ParseWrittenLine(key: string, raw: string)
    requires |key| > 0 && ':' !in key
    ensures ParseLine(key + ": " + raw) == Some((key, FieldValue(raw)))
  {
    var line := key + ": " + raw;
    forall k: nat | k < |key| ensures !OccursAt(line, ": ", k) {
      assert line[k] == key[k];
      DiffersAt(line, ": ", k, 0);
    }
    assert line[|key|..|key| + 2] == ": ";
    IndexOfAt(line, ": ", |key|);
    assert line[..|key|] == key;
    assert line[|key| + 2..] == raw;
  }

  /** The key a line sets, whether or not the record recognises it. */
  predicate SetsKey(line: string, k: string) {
    KeyEnd(line).Some? && line[..KeyEnd(line).value] == k
  }

  /** One `forEach` step: a recognised key overwrites its field. */
  function Assign(fields: map<string, string>, line: string, keys: set<string>): map<string, string> {
    match ParseLine(line)
    case None => fields
    case Some((k, v)) => if k in keys then fields[k := v] else fields
  }

  /** The fields the header lines set, in order, later lines overwriting earlier ones. */
  function FieldsOf(lines: seq<string>, keys: set<string>): (fields: map<string, string>)
    ensures fields.Keys <= keys
  {
    if lines == [] then map[]
    else Assign(FieldsOf(lines[..|lines| - 1], keys), lines[|lines| - 1], keys)
  }

  /** The index of the last line that sets `k`, if any. */
  function LastSetter(lines: seq<string>, k: string): (r: Option<nat>)
    ensures r.Some? ==>
      && r.value < |lines|
      && SetsKey(lines[r.value], k)
      && forall j | r.value < j < |lines| :: !SetsKey(lines[j], k)
    ensures r.None? ==> forall j | 0 <= j < |lines| :: !SetsKey(lines[j], k)
  {
    if lines == [] then None
    else if SetsKey(lines[|lines| - 1], k) then Some(|lines| - 1)
    else
      var r := LastSetter(lines[..|lines| - 1], k);
      assert forall j | 0 <= j < |lines| - 1 :: lines[..|lines| - 1][j] == lines[j];
      r
  }

  /**
   * Last line wins: a recognised key is set exactly when some line sets it, and its value
   * is the one of the last such line.
   */
  lemma {:induction false} LastLineWins(lines: seq<string>, keys: set<string>, k: string)
    ensures k in FieldsOf(lines, keys) <==> k in keys && LastSetter(lines, k).Some?
    ensures k in FieldsOf(lines, keys) ==>
      FieldsOf(lines, keys)[k] == ParseLine(lines[LastSetter(lines, k).value]).value.1
  {
    if lines != [] {
      var n := |lines| - 1;
      var init := lines[..n];
      LastLineWins(init, keys, k);
      if !SetsKey(lines[n], k) {
        var r := LastSetter(init, k);
        if r.Some? {
          assert init[r.value] == lines[r.value];
        }
      }
    }
  }

  /** The `forEach` over the header lines, updating the record field by field. */
  method ReadFields(header: string, keys: set<string>) returns (fields: map<string, string>)
    ensures fields == FieldsOf(Split(header, '\n'), keys)
  {
    var lines := Split(header, '\n');
    fields := map[];
    for i := 0 to |lines|
      invariant fields == FieldsOf(lines[..i], keys)
    {
      assert lines[..i + 1][..i] == lines[..i];
      var line := lines[i];
      match ParseLine(line)
      case None =>
      case Some((k, v)) =>
        if k in keys {
          fields := fields[k := v];
        }
    }
    assert lines[..|lines|] == lines;
  }

  const Brackets: set<char> := {'[', ']'}

  /**
   * `value.replace(/\[|\]/g, '').split(',').map(tag => tag.trim().replace(/^"|"$/g, ''))`:
   * one tag per comma-separated piece.
   */
  function ParseTags(v: string): (r: seq<string>)
    ensures |r| >= 1
  {
    var pieces := Split(RemoveChars(v, Brackets), ',');
    seq(|pieces|, i requires 0 <= i < |pieces| => FieldValue(pieces[i]))
  }

  /** There is one tag per comma-separated piece, and no tag holds a comma or a bracket. */
  lemma ParseTagsPieces(v: string)
    ensures |ParseTags(v)| == |Split(RemoveChars(v, Brackets), ',')|
    ensures forall t | t in ParseTags(v) :: ',' !in t && '[' !in t && ']' !in t
  {
    var s := RemoveChars(v, Brackets);
    var pieces := Split(s, ',');
    RemoveCharsKeeps(v, Brackets);
    SplitPieces(s, ',');
    forall i | 0 <= i < |pieces| ensures ',' !in FieldValue(pieces[i]) && '[' !in FieldValue(pieces[i]) && ']' !in FieldValue(pieces[i]) {
      FieldValueChars(pieces[i]);
      assert pieces[i] in pieces;
    }
  }

  /** `tags: []` yields one empty tag, not an empty list. */
  lemma EmptyBracketsGiveOneEmptyTag()
    ensures ParseTags("[]") == [""]
  {
    assert RemoveChars("[]", Brackets) == "";
  }

  /** The pieces of a written list: each tag quoted, all but the first after a space. */
  function TagPieces(tags: seq<string>): (pieces: seq<string>)
    ensures |pieces| == |tags|
  {
    seq(|tags|, i requires 0 <= i < |tags| => (if i == 0 then "" else " ") + Quote(tags[i]))
  }

  /** The list as the content files write it: `["a", "b"]`. */
  function WriteTags(tags: seq<string>): string {
    "[" + Join(TagPieces(tags), ',') + "]"
  }

  /** Every character of a join is the separator or comes from a piece. */
  lemma {:induction false} JoinChars(pieces: seq<string>, sep: char, c: char)
    requires c in Join(pieces, sep)
    ensures c == sep || exists p | p in pieces :: c in p
  {
    if |pieces| > 1 {
      if c !in pieces[0] && c != sep {
        JoinChars(pieces[1..], sep, c);
      }
    }
  }

  /** Deleting the brackets of a written list leaves the comma-joined pieces. */
  lemma WrittenTagsUnbracketed(tags: seq<string>)
    requires forall t | t in tags :: ',' !in t && '[' !in t && ']' !in t
    ensures RemoveChars(WriteTags(tags), Brackets) == Join(TagPieces(tags), ',')
    ensures forall p | p in TagPieces(tags) :: ',' !in p
  {
    var pieces := TagPieces(tags);
    var joined := Join(pieces, ',');
    forall i | 0 <= i < |tags| ensures ',' !in pieces[i] && '[' !in pieces[i] && ']' !in pieces[i] {
      assert tags[i] in tags;
    }
    forall c | c in joined ensures c !in Brackets {
      JoinChars(pieces, ',', c);
    }
    RemoveCharsAppend("[" + joined, "]", Brackets);
    RemoveCharsAppend("[", joined, Brackets);
    RemoveCharsKeeps(joined, Brackets);
  }

  /** Each written piece reads back as its tag. */
  lemma TagPieceValue(tags: seq<string>, i: nat)
    requires i < |tags|
    ensures FieldValue(TagPieces(tags)[i]) == tags[i]
  {
    var pre := if i == 0 then "" else " ";
    assert TagPieces(tags)[i] == pre + Quote(tags[i]);
    TrimSpaces(pre, Quote(tags[i]));
    StripQuoted(tags[i]);
  }

  /** A non-empty list of tags free of `,`, `[` and `]` is read back unchanged. */
  lemma ReadWrittenTags(tags: seq<string>)
    requires |tags| >= 1
    requires forall t | t in tags :: ',' !in t && '[' !in t && ']' !in t
    ensures ParseTags(WriteTags(tags)) == tags
  {
    WrittenTagsUnbracketed(tags);
    SplitJoin(TagPieces(tags), ',');
    forall i | 0 <= i < |tags| ensures ParseTags(WriteTags(tags))[i] == tags[i] {
      TagPieceValue(tags, i);
    }
  }

  /** The result of `parseInt`: a number or NaN. */
  datatype Number = NaN | Int(value: int)

  predicate IsDigit(c: char, radix: nat) {
    if radix == 16 then ('0' <= c <= '9') || ('a' <= c <= 'f') || ('A' <= c <= 'F')
    else '0' <= c <= '9'
  }

  function DigitValue(c: char): nat {
    if '0' <= c <= '9' then c as nat - '0' as nat
    else if 'a' <= c <= 'f' then c as nat - 'a' as nat + 10
    else if 'A' <= c <= 'F' then c as nat - 'A' as nat + 10
    else 0
  }

  /** The longest prefix of `s` made of digits of the radix. */
  function LeadingDigits(s: string, radix: nat): string {
    if |s| > 0 && IsDigit(s[0], radix) then [s[0]] + LeadingDigits(s[1..], radix) else ""
  }

  /** `LeadingDigits` is the longest all-digit prefix. */
  lemma {:induction false} LeadingDigitsLongest(s: string, radix: nat)
    ensures IsPrefix(LeadingDigits(s, radix), s)
    ensures forall k | 0 <= k < |LeadingDigits(s, radix)| :: IsDigit(LeadingDigits(s, radix)[k], radix)
    ensures |LeadingDigits(s, radix)| < |s| ==> !IsDigit(s[|LeadingDigits(s, radix)|], radix)
  {
    if |s| > 0 && IsDigit(s[0], radix) {
      LeadingDigitsLongest(s[1..], radix);
    }
  }

  /** The value of a digit string, most significant digit first. */
  function DigitsValue(ds: string, radix: nat): nat {
    if |ds| == 0 then 0 else DigitsValue(ds[..|ds| - 1], radix) * radix + DigitValue(ds[|ds| - 1])
  }

  /**
   * `parseInt(s)` with no radix: leading whitespace is skipped, one sign is read, a `0x` or
   * `0X` prefix switches to base 16, then the longest run of digits is read; no digits is NaN.
   */
  function ParseInt(s: string): Number {
    var t := TrimStart(s);
    var negative := |t| > 0 && t[0] == '-';
    var u := if |t| > 0 && (t[0] == '-' || t[0] == '+') then t[1..] else t;
    var hex := IsPrefix("0x", u) || IsPrefix("0X", u);
    var radix := if hex then 16 else 10;
    var ds := LeadingDigits(if hex then u[2..] else u, radix);
    if |ds| == 0 then NaN
    else
      var v: int := DigitsValue(ds, radix);
      Int(if negative then -v else v)
  }

  /** The decimal digits of `n`, as `String(n)` writes them. */
  function Decimal(n: nat): string {
    var d := ['0' + (n % 10) as char];
    if n < 10 then d else Decimal(n / 10) + d
  }

  /** `Decimal` writes only digits, at least one, and no leading zero. */
  lemma {:induction false} DecimalDigits(n: nat)
    ensures |Decimal(n)| > 0
    ensures forall k | 0 <= k < |Decimal(n)| :: '0' <= Decimal(n)[k] <= '9'
    ensures n > 0 ==> Decimal(n)[0] != '0'
  {
    if n >= 10 {
      DecimalDigits(n / 10);
    }
  }

  /** Reading the written digits gives the number back. */
  lemma {:induction false} DecimalValue(n: nat)
    ensures DigitsValue(Decimal(n), 10) == n
  {
    var r := Decimal(n);
    if n >= 10 {
      DecimalValue(n / 10);
      DecimalDigits(n / 10);
      assert r[..|r| - 1] == Decimal(n / 10);
    }
  }

  lemma {:induction false} LeadingDigitsOf(ds: string, suffix: string, radix: nat)
    requires forall k | 0 <= k < |ds| :: IsDigit(ds[k], radix)
    requires |suffix| == 0 || !IsDigit(suffix[0], radix)
    ensures LeadingDigits(ds + suffix, radix) == ds
  {
    if |ds| > 0 {
      assert (ds + suffix)[1..] == ds[1..] + suffix;
      LeadingDigitsOf(ds[1..], suffix, radix);
    } else {
      assert ds + suffix == suffix;
    }
  }

  /**
   * `parseInt` reads back a written number followed by any text that does not continue
   * it: `"5 min"` gives 5. A `0` directly followed by `x` would be read as a hex prefix.
   */
  lemma ParseWrittenInt(n: nat, suffix: string)
    requires |suffix| == 0 || !('0' <= suffix[0] <= '9')
    requires n == 0 && |suffix| > 0 ==> suffix[0] != 'x' && suffix[0] != 'X'
    ensures ParseInt(Decimal(n) + suffix) == Int(n)
  {
    var s := Decimal(n) + suffix;
    DecimalDigits(n);
    assert s[0] == Decimal(n)[0];
    assert TrimStart(s) == s;
    if n > 0 {
      PrefixDiffers("0x", s, 0);
      PrefixDiffers("0X", s, 0);
    } else if |suffix| > 0 {
      assert Decimal(n) == "0";
      assert s[1] == suffix[0];
      PrefixDiffers("0x", s, 1);
      PrefixDiffers("0X", s, 1);
    } else {
      assert Decimal(n) == "0";
      assert |s| == 1;
    }
    LeadingDigitsOf(Decimal(n), suffix, 10);
    DecimalValue(n);
  }

  /** Without a decimal digit anywhere, `parseInt` gives NaN. */
  lemma ParseIntNeedsDigit(s: string)
    requires forall k | 0 <= k < |s| :: !('0' <= s[k] <= '9')
    ensures ParseInt(s) == NaN
  {
    var t := TrimStart(s);
    TrimStartSpaces(s);
    assert forall k | 0 <= k < |t| :: t[k] == s[|s| - |t| + k];
    var u := if |t| > 0 && (t[0] == '-' || t[0] == '+') then t[1..] else t;
    if |u| > 0 {
      PrefixDiffers("0x", u, 0);
      PrefixDiffers("0X", u, 0);
      assert !IsDigit(u[0], 10);
    }
  }

  /** A value that does not start with a digit, sign or whitespace is NaN. */
  lemma NotANumber(s: string)
    requires |s| > 0 && !IsSpace(s[0]) && s[0] != '-' && s[0] != '+' && !('0' <= s[0] <= '9')
    ensures ParseInt(s) == NaN
  {
    PrefixDiffers("0x", s, 0);
    PrefixDiffers("0X", s, 0);
  }

  /** getNoteContent's `content.replace(/^---\n[\s\S]*?\n---\n/, '')`. */
  function StripHeaderBlock(content: string): string {
    if !IsPrefix("---\n", content) then content
    else
      match FindFrom(content, ["\n---\n"], 4)
      case None => content
      case Some(j) => content[j + 5..]
  }

  /**
   * The first header block closed by a dash line that ends in a newline is removed;
   * without one, nothing changes.
   */
  lemma StripHeaderBlockFirst(content: string)
    ensures StripHeaderBlock(content) == content || exists j: nat ::
      && 4 <= j
      && IsPrefix("---\n", content)
      && OccursAt(content, "\n---\n", j)
      && (forall k: nat :: 4 <= k < j ==> !OccursAt(content, "\n---\n", k))
      && StripHeaderBlock(content) == content[j + 5..]
    ensures StripHeaderBlock(content) == content ==>
      !IsPrefix("---\n", content) || forall k: nat :: 4 <= k ==> !OccursAt(content, "\n---\n", k)
  {
    assert forall k: nat :: OccursAny(content, ["\n---\n"], k) <==> OccursAt(content, "\n---\n", k);
  }

  /** A header whose closing dashes are not followed by a newline is left in place. */
  lemma UnterminatedBlockKept()
    ensures StripHeaderBlock("---\ntitle: x\n---") == "---\ntitle: x\n---"
  {
    var c := "---\ntitle: x\n---";
    assert c[4..12] == "title: x";
    forall k: nat | 4 <= k ensures !OccursAny(c, ["\n---\n"], k) {
      if k < 12 {
        assert c[k] == c[4..12][k - 4];
        DiffersAt(c, "\n---\n", k, 0);
      }
    }
  }

  // Writing a file. The format as documented for content files: an opening `---` line,
  // one `key: value` line per field, a closing `---` line, then the body.

  /** The header lines for `pairs` of key and raw value, in order. */
  function WriteLines(pairs: seq<(string, string)>): (lines: seq<string>)
    ensures |lines| == |pairs|
  {
    if pairs == [] then []
    else
      var last := pairs[|pairs| - 1];
      WriteLines(pairs[..|pairs| - 1]) + [last.0 + ": " + last.1]
  }

  function WriteFile(pairs: seq<(string, string)>, body: string): string {
    "---\n" + Join(WriteLines(pairs), '\n') + "\n---\n" + body
  }

  /** A recognised key and a raw value that fit on one header line. */
  predicate WritablePair(p: (string, string), keys: set<string>) {
    && p.0 in keys && |p.0| > 0 && ':' !in p.0 && '\n' !in p.0 && p.0[0] != '-'
    && '\n' !in p.1 && (|p.1| > 0 ==> p.1[|p.1| - 1] != '\r')
  }

  /** What reading stores for written pairs: each value trimmed and unquoted, the last pair winning. */
  function Stored(pairs: seq<(string, string)>): map<string, string> {
    if pairs == [] then map[]
    else
      var last := pairs[|pairs| - 1];
      Stored(pairs[..|pairs| - 1])[last.0 := FieldValue(last.1)]
  }

  /** A key written once, or always with the same value, is stored with that value. */
  lemma {:induction false} StoredHas(pairs: seq<(string, string)>, k: string, v: string)
    requires (k, v) in pairs
    requires forall p | p in pairs && p.0 == k :: p.1 == v
    ensures k in Stored(pairs) && Stored(pairs)[k] == FieldValue(v)
  {
    var init := pairs[..|pairs| - 1];
    var last := pairs[|pairs| - 1];
    if last.0 != k {
      assert pairs == init + [last];
      assert forall p | p in init :: p in pairs;
      StoredHas(init, k, v);
    }
  }

  /** A key never written is not stored. */
  lemma {:induction false} StoredLacks(pairs: seq<(string, string)>, k: string)
    requires forall p | p in pairs :: p.0 != k
    ensures k !in Stored(pairs)
  {
    if pairs != [] {
      var init := pairs[..|pairs| - 1];
      assert forall p | p in init :: p in pairs;
      StoredLacks(init, k);
      assert pairs[|pairs| - 1] in pairs;
    }
  }

  /** A field as the partial record holds it: unset when no line assigned it. */
  function Get(fields: map<string, string>, k: string): Option<string> {
    if k in fields then Some(fields[k]) else None
  }

  /** The truthiness test of a validity check: set, and not the empty string. */
  predicate Filled(fields: map<string, string>, k: string) {
    k in fields && fields[k] != ""
  }

  /** The stored value of a key written at most with one value, or never. */
  lemma StoredGet(pairs: seq<(string, string)>, k: string, v: Option<string>)
    requires v.Some? ==> (k, v.value) in pairs
    requires forall p | p in pairs && p.0 == k :: v == Some(p.1)
    ensures Get(Stored(pairs), k) == if v.Some? then Some(FieldValue(v.value)) else None
  {
    if v.Some? {
      StoredHas(pairs, k, v.value);
    } else {
      StoredLacks(pairs, k);
    }
  }

  /** Reading the written lines stores every written field, and nothing else. */
  lemma {:induction false} ReadWrittenLines(pairs: seq<(string, string)>, keys: set<string>)
    requires forall p | p in pairs :: WritablePair(p, keys)
    ensures FieldsOf(WriteLines(pairs), keys) == Stored(pairs)
  {
    if pairs != [] {
      var init := pairs[..|pairs| - 1];
      var last := pairs[|pairs| - 1];
      assert forall p | p in init :: p in pairs;
      ReadWrittenLines(init, keys);
      var lines := WriteLines(pairs);
      assert lines[..|lines| - 1] == WriteLines(init);
      assert last in pairs;
      ParseWrittenLine(last.0, last.1);
    }
  }

  /** Every written line is a non-empty `key: value` line that cannot be taken for a closer. */
  lemma {:induction false} WriteLinesShape(pairs: seq<(string, string)>, keys: set<string>)
    requires forall p | p in pairs :: WritablePair(p, keys)
    ensures forall l | l in WriteLines(pairs) :: |l| > 0 && '\n' !in l && l[0] != '-' && l[|l| - 1] != '\r'
  {
    if pairs != [] {
      var init := pairs[..|pairs| - 1];
      var last := pairs[|pairs| - 1];
      assert forall p | p in init :: p in pairs;
      WriteLinesShape(init, keys);
      assert last in pairs;
      var l := last.0 + ": " + last.1;
      assert l[0] == last.0[0];
      assert l[|l| - 1] == if |last.1| > 0 then last.1[|last.1| - 1] else ' ';
    }
  }

  /** The header as written: every newline is followed by a key, so no closer hides inside. */
  predicate SafeHeader(h: string) {
    && (forall i | 0 <= i < |h| && h[i] == '\n' :: i + 1 < |h| && h[i + 1] != '-' && h[i + 1] != '\n')
    && (|h| > 0 ==> h[|h| - 1] != '\r')
  }

  /** Joining written lines gives a safe header that starts with the first line. */
  lemma {:induction false} JoinedLinesSafe(lines: seq<string>)
    requires forall l | l in lines :: |l| > 0 && '\n' !in l && l[0] != '-' && l[|l| - 1] != '\r'
    ensures SafeHeader(Join(lines, '\n'))
    ensures |lines| > 0 ==> |Join(lines, '\n')| > 0 && Join(lines, '\n')[0] == lines[0][0]
  {
    if |lines| == 1 {
      assert lines[0] in lines;
    } else if |lines| > 1 {
      var rest := Join(lines[1..], '\n');
      assert forall l | l in lines[1..] :: l in lines;
      JoinedLinesSafe(lines[1..]);
      var h := Join(lines, '\n');
      var l := lines[0];
      assert l in lines;
      assert h == l + "\n" + rest;
      assert forall i | 0 <= i < |l| :: h[i] == l[i] && h[i] != '\n';
      forall i | |l| < i < |h| ensures h[i] == rest[i - |l| - 1] {
      }
      assert h[|l| + 1] == rest[0] == lines[1][0];
    }
  }

  /** Inside a safe header no closer of either dialect, nor the `\n---\n` block end, starts. */
  lemma NoCloserInside(c: string, h: string, k: nat)
    requires SafeHeader(h)
    requires |c| >= |h| + 9 && c[4 + |h|] == '\n'
    requires forall i | 0 <= i < |h| :: c[4 + i] == h[i]
    requires 4 <= k < 4 + |h|
    ensures !OccursAt(c, "\n---", k) && !OccursAt(c, "\n---\n", k) && !OccursAt(c, "\r\n---", k)
  {
    if c[k] != '\n' {
      DiffersAt(c, "\n---", k, 0);
      DiffersAt(c, "\n---\n", k, 0);
    } else {
      assert h[k - 4] == '\n';
      assert c[k + 1] == h[k - 3];
      DiffersAt(c, "\n---", k, 1);
      DiffersAt(c, "\n---\n", k, 1);
    }
    if c[k] != '\r' {
      DiffersAt(c, "\r\n---", k, 0);
    } else if c[k + 1] != '\n' {
      DiffersAt(c, "\r\n---", k, 1);
    } else {
      assert h[k - 4] == '\r';
      assert k + 1 < 4 + |h|;
      assert c[k + 1] == h[k - 3];
      assert c[k + 2] == h[k - 2];
      DiffersAt(c, "\r\n---", k, 2);
    }
  }

  /** A written file opens with `---\n` and its header closes at the written dash line. */
  lemma MatchWrittenHeader(h: string, body: string, d: Dialect)
    requires SafeHeader(h)
    ensures MatchHeader("---\n" + h + "\n---\n" + body, d) == Some(h)
  {
    var c := "---\n" + h + "\n---\n" + body;
    var e := 4 + |h|;
    assert c[..4] == "---\n";
    PrefixDiffers("---\r\n", c, 3);
    assert forall i | 0 <= i < |h| :: c[4 + i] == h[i];
    assert c[e..e + 4] == "\n---";
    forall k: nat | 4 <= k < e ensures !OccursAny(c, Closers(d), k) {
      NoCloserInside(c, h, k);
    }
    assert "\n---" in Closers(d);
    FindFromAt(c, Closers(d), 4, e);
    assert c[4..e] == h;
  }

  /** getNoteContent's block removal on a written file leaves exactly the body. */
  lemma StripWrittenHeader(h: string, body: string)
    requires SafeHeader(h)
    ensures StripHeaderBlock("---\n" + h + "\n---\n" + body) == body
  {
    var c := "---\n" + h + "\n---\n" + body;
    var e := 4 + |h|;
    assert c[..4] == "---\n";
    assert forall i | 0 <= i < |h| :: c[4 + i] == h[i];
    assert c[e..e + 5] == "\n---\n";
    forall k: nat | 4 <= k < e ensures !OccursAny(c, ["\n---\n"], k) {
      NoCloserInside(c, h, k);
    }
    assert "\n---\n" in ["\n---\n"];
    FindFromAt(c, ["\n---\n"], 4, e);
    assert c[e + 5..] == body;
  }

  /**
   * Writing fields and reading them back: the header is found in either dialect, every
   * written field reads back as its trimmed, unquoted value, no other field appears, and
   * getNoteContent's block removal leaves exactly the body.
   */
  lemma ReadWrittenFile(pairs: seq<(string, string)>, body: string, keys: set<string>, d: Dialect)
    requires forall p | p in pairs :: WritablePair(p, keys)
    ensures MatchHeader(WriteFile(pairs, body), d).Some?
    ensures FieldsOf(Split(MatchHeader(WriteFile(pairs, body), d).value, '\n'), keys) == Stored(pairs)
    ensures StripHeaderBlock(WriteFile(pairs, body)) == body
  {
    var lines := WriteLines(pairs);
    var h := Join(lines, '\n');
    WriteLinesShape(pairs, keys);
    JoinedLinesSafe(lines);
    MatchWrittenHeader(h, body, d);
    StripWrittenHeader(h, body);
    ReadWrittenLines(pairs, keys);
    if |lines| == 0 {
      assert Split(h, '\n') == [""];
      assert FieldsOf([""], keys) == map[];
    } else {
      SplitJoin(lines, '\n');
    }
  }

  // Values that read back as themselves.

  /**
   * A value that fits on one header line and that trimming and unquoting leave alone: no
   * newline, and neither whitespace nor a double quote at either end.
   */
  predicate PlainValue(v: string) {
    && '\n' !in v
    && (|v| > 0 ==> !IsSpace(v[0]) && !IsSpace(v[|v| - 1]) && v[0] != '"' && v[|v| - 1] != '"')
  }

  /** A plain value is stored as itself. */
  lemma PlainValueReads(v: string)
    requires PlainValue(v)
    ensures FieldValue(v) == v
  {
    if |v| > 0 {
      TrimUnspaced(v);
    }
    StripQuotesKeeps(v);
  }

  /** A tag that can stand in a written `["a", "b"]` list. */
  predicate PlainTag(t: string) {
    ',' !in t && '[' !in t && ']' !in t && '\n' !in t
  }

  function OptionalPair(k: string, v: Option<string>): seq<(string, string)> {
    if v.Some? then [(k, v.value)] else []
  }

  /** A written tag list is one line that starts and ends with a bracket. */
  lemma WrittenTagsPlain(tags: seq<string>)
    requires forall t | t in tags :: PlainTag(t)
    ensures PlainValue(WriteTags(tags))
  {
    var w := WriteTags(tags);
    var pieces := TagPieces(tags);
    forall c | c in Join(pieces, ',') ensures c != '\n' {
      JoinChars(pieces, ',', c);
      if c != ',' {
        var p :| p in pieces && c in p;
        var i :| 0 <= i < |pieces| && pieces[i] == p;
        assert tags[i] in tags;
      }
    }
    assert w[0] == '[' && w[|w| - 1] == ']';
  }

  /** Header lines that can be written and that read back as themselves. */
  predicate PlainPairs(ps: seq<(string, string)>, keys: set<string>) {
    forall i | 0 <= i < |ps| :: WritablePair(ps[i], keys) && PlainValue(ps[i].1)
  }

  lemma PlainPairsAppend(a: seq<(string, string)>, b: seq<(string, string)>, keys: set<string>)
    requires PlainPairs(a, keys) && PlainPairs(b, keys)
    ensures PlainPairs(a + b, keys)
  {
    assert forall i | |a| <= i < |a + b| :: (a + b)[i] == b[i - |a|];
  }

  /** A line for a recognised key with a plain value, or no line. */
  lemma OptionalPairPlain(k: string, v: Option<string>, keys: set<string>)
    requires k in keys && |k| > 0 && ':' !in k && '\n' !in k && k[0] != '-'
    requires v.Some? ==> PlainValue(v.value)
    ensures PlainPairs(OptionalPair(k, v), keys)
  {
  }

  // The same file saved with CRLF line ends: `---\r\n`, the lines separated by `\r\n`, then
  // `\r\n---\r\n` and the body.

  /** The header lines as `\n` splits a CRLF header: each but the last keeps its `\r`. */
  function WithCarriageReturns(lines: seq<string>): (r: seq<string>)
    ensures |r| == |lines|
  {
    if |lines| <= 1 then lines else [lines[0] + "\r"] + WithCarriageReturns(lines[1..])
  }

  function WriteCrLfFile(pairs: seq<(string, string)>, body: string): string {
    "---\r\n" + Join(WithCarriageReturns(WriteLines(pairs)), '\n') + "\r\n---\r\n" + body
  }

  /** Each line with its `\r` reads as the line without it. */
  lemma {:induction false} CarriageReturnsRead(lines: seq<string>)
    ensures forall i | 0 <= i < |lines| :: ParseLine(WithCarriageReturns(lines)[i]) == ParseLine(lines[i])
  {
    if |lines| > 1 {
      var r := WithCarriageReturns(lines);
      var tail := lines[1..];
      CarriageReturnsRead(tail);
      CarriageReturnIgnored(lines[0]);
      forall i | 1 <= i < |lines| ensures ParseLine(r[i]) == ParseLine(lines[i]) {
        assert r[i] == WithCarriageReturns(tail)[i - 1];
        assert lines[i] == tail[i - 1];
      }
    }
  }

  /** The `\r` keeps a line non-empty, free of newlines and starting with its key. */
  lemma {:induction false} CarriageReturnsShape(lines: seq<string>)
    requires forall l | l in lines :: |l| > 0 && '\n' !in l && l[0] != '-'
    ensures forall l | l in WithCarriageReturns(lines) :: |l| > 0 && '\n' !in l && l[0] != '-'
  {
    if |lines| > 1 {
      assert forall l | l in lines[1..] :: l in lines;
      CarriageReturnsShape(lines[1..]);
      assert lines[0] in lines;
      assert (lines[0] + "\r")[0] == lines[0][0];
    }
  }

  /** Lines that parse alike, one for one, set the same fields. */
  lemma {:induction false} FieldsOfParsedAlike(a: seq<string>, b: seq<string>, keys: set<string>)
    requires |a| == |b|
    requires forall i | 0 <= i < |a| :: ParseLine(a[i]) == ParseLine(b[i])
    ensures FieldsOf(a, keys) == FieldsOf(b, keys)
  {
    if |a| > 0 {
      var n := |a|;
      assert forall i | 0 <= i < n - 1 :: a[..n - 1][i] == a[i] && b[..n - 1][i] == b[i];
      FieldsOfParsedAlike(a[..n - 1], b[..n - 1], keys);
      assert ParseLine(a[n - 1]) == ParseLine(b[n - 1]);
    }
  }

  /** No line of the header starts with a dash. */
  predicate DashFree(h: string) {
    forall i | 0 <= i < |h| - 1 && h[i] == '\n' :: h[i + 1] != '-'
  }

  /** Joining lines that do not start with a dash gives a dash-free header. */
  lemma {:induction false} JoinedLinesDashFree(lines: seq<string>)
    requires forall l | l in lines :: |l| > 0 && '\n' !in l && l[0] != '-'
    ensures DashFree(Join(lines, '\n'))
    ensures |lines| > 0 ==> |Join(lines, '\n')| > 0 && Join(lines, '\n')[0] == lines[0][0]
  {
    if |lines| == 1 {
      assert lines[0] in lines;
    } else if |lines| > 1 {
      var rest := Join(lines[1..], '\n');
      assert forall l | l in lines[1..] :: l in lines;
      JoinedLinesDashFree(lines[1..]);
      var h := Join(lines, '\n');
      var l := lines[0];
      assert l in lines;
      assert h == l + "\n" + rest;
      assert forall i | 0 <= i < |l| :: h[i] == l[i] && h[i] != '\n';
      forall i | |l| < i < |h| ensures h[i] == rest[i - |l| - 1] {
      }
      assert h[|l| + 1] == rest[0] == lines[1][0];
    }
  }

  /** Inside a dash-free header opened by `---\r\n` and closed by `\r`, no closer starts. */
  lemma NoCrLfCloserInside(c: string, h: string, k: nat)
    requires DashFree(h)
    requires |c| >= |h| + 8 && c[5 + |h|] == '\r'
    requires forall i | 0 <= i < |h| :: c[5 + i] == h[i]
    requires 5 <= k < 5 + |h|
    ensures !OccursAt(c, "\n---", k) && !OccursAt(c, "\r\n---", k)
  {
    var e := 5 + |h|;
    if c[k] != '\n' {
      DiffersAt(c, "\n---", k, 0);
    } else {
      assert h[k - 5] == '\n';
      if k + 1 < e {
        assert c[k + 1] == h[k - 4];
      }
      DiffersAt(c, "\n---", k, 1);
    }
    if c[k] != '\r' {
      DiffersAt(c, "\r\n---", k, 0);
    } else if c[k + 1] != '\n' {
      DiffersAt(c, "\r\n---", k, 1);
    } else {
      assert k + 1 < e;
      assert h[k - 4] == '\n';
      if k + 2 < e {
        assert c[k + 2] == h[k - 3];
      }
      DiffersAt(c, "\r\n---", k, 2);
    }
  }

  /**
   * A CRLF file: the lib/notes-fs.ts and lib/articles.ts pattern finds the header up to the
   * closing `\r\n---`, the lib/notes.ts pattern finds none.
   */
  lemma MatchCrLfWrittenHeader(h: string, body: string)
    requires DashFree(h)
    ensures MatchHeader("---\r\n" + h + "\r\n---\r\n" + body, CrLf) == Some(h)
    ensures MatchHeader("---\r\n" + h + "\r\n---\r\n" + body, Lf) == None
  {
    var c := "---\r\n" + h + "\r\n---\r\n" + body;
    var e := 5 + |h|;
    assert c[..5] == "---\r\n";
    LfRejectsCrLf(c);
    assert forall i | 0 <= i < |h| :: c[5 + i] == h[i];
    assert c[e..e + 5] == "\r\n---";
    forall k: nat | 5 <= k < e ensures !OccursAny(c, Closers(CrLf), k) {
      NoCrLfCloserInside(c, h, k);
    }
    assert OccursAt(c, "\r\n---", e);
    FindFromAt(c, Closers(CrLf), 5, e);
    assert c[5..e] == h;
  }

  /**
   * Writing fields with CRLF line ends and reading them back: the CRLF-tolerant pattern finds
   * the header, every written field reads back as its trimmed, unquoted value although each
   * line but the last keeps its `\r`, and no other field appears; the plain-newline pattern
   * finds no header at all.
   */
  lemma ReadCrLfWrittenFile(pairs: seq<(string, string)>, body: string, keys: set<string>)
    requires forall p | p in pairs :: WritablePair(p, keys)
    ensures MatchHeader(WriteCrLfFile(pairs, body), CrLf).Some?
    ensures FieldsOf(Split(MatchHeader(WriteCrLfFile(pairs, body), CrLf).value, '\n'), keys) == Stored(pairs)
    ensures MatchHeader(WriteCrLfFile(pairs, body), Lf).None?
  {
    var lines := WriteLines(pairs);
    var crLines := WithCarriageReturns(lines);
    var h := Join(crLines, '\n');
    WriteLinesShape(pairs, keys);
    CarriageReturnsShape(lines);
    JoinedLinesDashFree(crLines);
    MatchCrLfWrittenHeader(h, body);
    ReadWrittenLines(pairs, keys);
    if |lines| == 0 {
      assert Split(h, '\n') == [""];
      assert FieldsOf([""], keys) == map[];
    } else {
      SplitJoin(crLines, '\n');
      CarriageReturnsRead(lines);
      FieldsOfParsedAlike(crLines, lines, keys);
    }
  }
}

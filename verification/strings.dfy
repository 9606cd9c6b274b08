/** The Python `str` operations the connectors rely on, as pure functions over
    `seq<char>`: whitespace stripping, single-character splitting, joining,
    prefix search, first-occurrence replacement, non-overlapping counting,
    decimal rendering and UTF-8 encoding. */
module Strings {
  import opened Wrappers

  /** Python `str.isspace` for a single character. */
  predicate IsSpace(c: char) {
    var n := c as int;
    || n == 0x20 || 0x09 <= n <= 0x0D || 0x1C <= n <= 0x1F
    || n == 0x85 || n == 0xA0 || n == 0x1680 || 0x2000 <= n <= 0x200A
    || n == 0x2028 || n == 0x2029 || n == 0x202F || n == 0x205F || n == 0x3000
  }

  predicate IsDigit(c: char) { '0' <= c <= '9' }

  predicate AllDigits(s: string) {
    forall i :: 0 <= i < |s| ==> IsDigit(s[i])
  }

  predicate EndsWith(s: string, suffix: string) {
    |suffix| <= |s| && s[|s| - |suffix|..] == suffix
  }

  // ---------------------------------------------------------------------------
  // strip

  /** The number of whitespace characters `str.lstrip()` removes. */
  function LeadingSpace(s: string): (k: nat)
    ensures k <= |s|
    ensures forall i :: 0 <= i < k ==> IsSpace(s[i])
    ensures k < |s| ==> !IsSpace(s[k])
  {
    if |s| > 0 && IsSpace(s[0]) then
      var k := LeadingSpace(s[1..]);
      assert forall i :: 1 <= i < 1 + k ==> s[i] == s[1..][i - 1];
      1 + k
    else 0
  }

  /** The number of whitespace characters `str.rstrip()` removes. */
  function TrailingSpace(s: string): (k: nat)
    ensures k <= |s|
    ensures forall i :: |s| - k <= i < |s| ==> IsSpace(s[i])
    ensures k < |s| ==> !IsSpace(s[|s| - k - 1])
  {
    if |s| > 0 && IsSpace(s[|s| - 1]) then
      var init := s[..|s| - 1];
      var k := TrailingSpace(init);
      assert forall i :: |s| - 1 - k <= i < |s| - 1 ==> s[i] == init[i];
      1 + k
    else 0
  }

  /** Python `str.strip()`: the longest infix with no whitespace at either end,
      obtained by removing only whitespace. */
  function Strip(s: string): (r: string)
    ensures var k := LeadingSpace(s);
              && k + |r| <= |s| && r == s[k..k + |r|]
              && (forall i :: 0 <= i < k ==> IsSpace(s[i]))
              && (forall i :: k + |r| <= i < |s| ==> IsSpace(s[i]))
    ensures r == [] || (!IsSpace(r[0]) && !IsSpace(r[|r| - 1]))
  {
    var a := LeadingSpace(s);
    var b := TrailingSpace(s[a..]);
    StripTail(s, a, b);
    StripEnds(s, a, b);
    s[a..|s| - b]
  }

  lemma StripTail(s: string, a: nat, b: nat)
    requires a <= |s| && b == TrailingSpace(s[a..])
    ensures forall i :: |s| - b <= i < |s| ==> IsSpace(s[i])
  {
    var t := s[a..];
    forall i | |s| - b <= i < |s| ensures IsSpace(s[i]) {
      assert s[i] == t[i - a];
    }
  }

  lemma StripEnds(s: string, a: nat, b: nat)
    requires a == LeadingSpace(s) && b == TrailingSpace(s[a..])
    ensures var r := s[a..|s| - b]; r == [] || (!IsSpace(r[0]) && !IsSpace(r[|r| - 1]))
  {
    var t := s[a..];
    var r := s[a..|s| - b];
    if r != [] {
      assert r[0] == s[a];
      assert r[|r| - 1] == t[|t| - b - 1];
    }
  }

  /** Stripping removes exactly the whitespace around a text that neither starts
      nor ends with whitespace. */
  lemma StripFramed(before: string, x: string, after: string)
    requires forall i :: 0 <= i < |before| ==> IsSpace(before[i])
    requires forall i :: 0 <= i < |after| ==> IsSpace(after[i])
    requires |x| > 0 && !IsSpace(x[0]) && !IsSpace(x[|x| - 1])
    ensures Strip(before + x + after) == x
  {
    var s := before + x + after;
    var r := Strip(s);
    var k := LeadingSpace(s);
    assert s[|before|] == x[0];
    assert s[|before| + |x| - 1] == x[|x| - 1];
    assert forall i :: 0 <= i < |before| ==> s[i] == before[i];
    assert forall i :: |before| + |x| <= i < |s| ==> s[i] == after[i - |before| - |x|];
    assert k == |before|;
    assert |r| == |x|;
    assert s[|before|..|before| + |x|] == x;
  }

  lemma StripIdempotent(s: string)
    ensures Strip(Strip(s)) == Strip(s)
  {
    var r := Strip(s);
    assert LeadingSpace(r) == 0;
    assert TrailingSpace(r) == 0;
  }

  /** Stripping the template's layout: indentation around a head and an optional
      condition goes, the break before a present condition stays. */
  lemma StripLayout(lead: string, head: string, f: string)
    requires forall i :: 0 <= i < |lead| ==> IsSpace(lead[i])
    requires |head| > 0 && !IsSpace(head[0]) && !IsSpace(head[|head| - 1])
    requires f != "" ==> !IsSpace(f[0]) && !IsSpace(f[|f| - 1])
    ensures Strip(lead + head + lead + f + lead) == head + (if f == "" then "" else lead + f)
  {
    if f == "" {
      StripLayoutEmpty(lead, head);
    } else {
      StripLayoutFilter(lead, head, f);
    }
  }

  lemma StripLayoutEmpty(lead: string, head: string)
    requires forall i :: 0 <= i < |lead| ==> IsSpace(lead[i])
    requires |head| > 0 && !IsSpace(head[0]) && !IsSpace(head[|head| - 1])
    ensures Strip(lead + head + lead + "" + lead) == head
  {
    var both := lead + lead;
    assert forall i :: 0 <= i < |both| ==> IsSpace(both[i]);
    assert lead + head + lead + "" + lead == lead + head + both;
    StripFramed(lead, head, both);
  }

  lemma StripLayoutFilter(lead: string, head: string, f: string)
    requires forall i :: 0 <= i < |lead| ==> IsSpace(lead[i])
    requires |head| > 0 && !IsSpace(head[0]) && !IsSpace(head[|head| - 1])
    requires f != "" && !IsSpace(f[0]) && !IsSpace(f[|f| - 1])
    ensures Strip(lead + head + lead + f + lead) == head + lead + f
  {
    var body := head + lead + f;
    assert body[0] == head[0];
    assert body[|body| - 1] == f[|f| - 1];
    assert lead + head + lead + f + lead == lead + body + lead;
    StripFramed(lead, body, lead);
  }

  // ---------------------------------------------------------------------------
  // join and split

  /** Python `sep.join(parts)`. */
  function Join(parts: seq<string>, sep: string): string {
    if |parts| == 0 then ""
    else if |parts| == 1 then parts[0]
    else parts[0] + sep + Join(parts[1..], sep)
  }

  function Concat(parts: seq<string>): string {
    if |parts| == 0 then "" else parts[0] + Concat(parts[1..])
  }

  /** Number of occurrences of a character. */
  function Occurrences(s: string, c: char): nat {
    if |s| == 0 then 0 else (if s[0] == c then 1 else 0) + Occurrences(s[1..], c)
  }

  /** Python `s.split(sep)` for a one-character separator: never empty, no piece
      contains the separator, one piece more than separators, and joining the
      pieces back with the separator gives `s` again. */
  function Split(s: string, sep: char): (parts: seq<string>)
    ensures |parts| == Occurrences(s, sep) + 1
    ensures forall i :: 0 <= i < |parts| ==> sep !in parts[i]
    ensures Join(parts, [sep]) == s
  {
    if |s| == 0 then [""]
    else
      var rest := Split(s[1..], sep);
      if s[0] == sep then
        assert s == [sep] + s[1..];
        [""] + rest
      else
        var parts := [[s[0]] + rest[0]] + rest[1..];
        assert s == [s[0]] + s[1..];
        assert |rest| > 1 ==> Join(rest, [sep]) == rest[0] + [sep] + Join(rest[1..], [sep]);
        assert parts[1..] == rest[1..];
        parts
  }

  lemma JoinAppend(parts: seq<string>, last: string, sep: string)
    requires |parts| > 0
    ensures Join(parts + [last], sep) == Join(parts, sep) + sep + last
  {
    if |parts| == 1 {
      assert parts + [last] == [parts[0], last];
    } else {
      assert (parts + [last])[1..] == parts[1..] + [last];
      JoinAppend(parts[1..], last, sep);
    }
  }

  lemma {:induction false} JoinConcat(a: seq<string>, b: seq<string>, sep: string)
    requires |a| > 0 && |b| > 0
    ensures Join(a + b, sep) == Join(a, sep) + sep + Join(b, sep)
  {
    if |a| == 1 {
      assert (a + b)[1..] == b;
    } else {
      assert (a + b)[1..] == a[1..] + b;
      JoinConcat(a[1..], b, sep);
    }
  }

  lemma {:induction false} SplitSeparated(a: string, sep: char, b: string)
    requires sep !in a
    ensures Split(a + [sep] + b, sep) == [a] + Split(b, sep)
  {
    var s := a + [sep] + b;
    if |a| == 0 {
      assert s == [sep] + b;
      assert s[1..] == b;
    } else {
      assert s[0] == a[0] && s[1..] == a[1..] + [sep] + b;
      SplitSeparated(a[1..], sep, b);
      var rest := Split(s[1..], sep);
      assert rest[0] == a[1..] && rest[1..] == Split(b, sep);
      assert [a[0]] + a[1..] == a;
    }
  }

  lemma SplitWithoutSeparator(a: string, sep: char)
    requires sep !in a
    ensures Split(a, sep) == [a]
  {
    if |a| > 0 {
      SplitWithoutSeparator(a[1..], sep);
      assert [a[0]] + a[1..] == a;
    }
  }

  /** Splitting a join on a separator no piece contains recovers the pieces. */
  lemma {:induction false} SplitJoin(parts: seq<string>, sep: char)
    requires |parts| > 0
    requires forall i :: 0 <= i < |parts| ==> sep !in parts[i]
    ensures Split(Join(parts, [sep]), sep) == parts
  {
    if |parts| == 1 {
      SplitWithoutSeparator(parts[0], sep);
    } else {
      SplitJoin(parts[1..], sep);
      SplitSeparated(parts[0], sep, Join(parts[1..], [sep]));
      assert [parts[0]] + parts[1..] == parts;
    }
  }

  // ---------------------------------------------------------------------------
  // search

  /** `p` occurs in `s` at offset `j`. */
  predicate OccursAt(s: string, p: string, j: int) {
    0 <= j && j + |p| <= |s| && s[j..j + |p|] == p
  }

  /** Python `s.find(p)`: the first offset at which `p` occurs. */
  function Find(s: string, p: string): (r: Option<nat>)
    ensures r.Some? ==> OccursAt(s, p, r.value)
    ensures r.Some? ==> forall j :: 0 <= j < r.value ==> !OccursAt(s, p, j)
    ensures r.None? ==> forall j :: !OccursAt(s, p, j)
  {
    if |s| < |p| then None
    else if p <= s then Some(0)
    else
      OccursShift(s, p);
      match Find(s[1..], p)
      case None => None
      case Some(i) => Some(i + 1)
  }

  /** An occurrence after the first character is one in the rest of the string. */
  lemma OccursShift(s: string, p: string)
    requires |s| > 0
    ensures forall j {:trigger OccursAt(s, p, j)} :: j > 0 ==> (OccursAt(s, p, j) <==> OccursAt(s[1..], p, j - 1))
  {
    forall j | j > 0 ensures OccursAt(s, p, j) <==> OccursAt(s[1..], p, j - 1) {
      if j + |p| <= |s| {
        assert forall i {:trigger s[i]} :: j <= i < j + |p| ==> s[i] == s[1..][i - 1];
        assert s[j..j + |p|] == s[1..][j - 1..j - 1 + |p|];
      }
    }
  }

  /** Python `p in s`. */
  predicate Contains(s: string, p: string) {
    Find(s, p).Some?
  }

  /** A string containing `p` contains its first character. */
  lemma ContainsHead(s: string, p: string)
    ensures Contains(s, p) && |p| > 0 ==> p[0] in s
  {
    if Contains(s, p) && |p| > 0 {
      var i := Find(s, p).value;
      assert s[i..i + |p|][0] == s[i];
    }
  }

  /** Python `s.replace(pat, repl, 1)`: the first occurrence of `pat`, if any, is
      replaced by `repl`; everything else is kept. */
  function ReplaceFirst(s: string, pat: string, repl: string): (r: string)
    ensures !Contains(s, pat) ==> r == s
    ensures Contains(s, pat) ==>
              exists i :: (&& OccursAt(s, pat, i)
                           && (forall j :: 0 <= j < i ==> !OccursAt(s, pat, j))
                           && r == s[..i] + repl + s[i + |pat|..])
  {
    match Find(s, pat)
    case None => s
    case Some(i) => s[..i] + repl + s[i + |pat|..]
  }

  /** Replacing a whole string by another gives the other. */
  lemma ReplaceWhole(s: string, repl: string)
    ensures ReplaceFirst(s, s, repl) == repl
  {
    assert Find(s, s) == Some(0);
    assert s[..0] + repl + s[|s|..] == repl;
  }

  /** Python `s.count(p)` for a non-empty `p`: occurrences found scanning left to
      right, each match consuming its characters. */
  function CountOccurrences(s: string, p: string): nat
    requires |p| > 0
    decreases |s|
  {
    if |s| < |p| then 0
    else if p <= s then 1 + CountOccurrences(s[|p|..], p)
    else CountOccurrences(s[1..], p)
  }

  lemma CountWithoutOccurrence(s: string, p: string)
    requires |p| > 0
    requires forall j :: !OccursAt(s, p, j)
    ensures CountOccurrences(s, p) == 0
  {
    if |s| >= |p| {
      assert !OccursAt(s, p, 0);
      assert forall j :: OccursAt(s[1..], p, j) ==> OccursAt(s, p, j + 1) by {
        forall j | OccursAt(s[1..], p, j) ensures OccursAt(s, p, j + 1) {
          assert s[1..][j..j + |p|] == s[j + 1..j + 1 + |p|];
        }
      }
      CountWithoutOccurrence(s[1..], p);
    }
  }

  // ---------------------------------------------------------------------------
  // decimal numbers

  function DigitValue(c: char): nat
    requires IsDigit(c)
  {
    (c as int) - ('0' as int)
  }

  function DigitChar(d: nat): (c: char)
    requires d < 10
    ensures IsDigit(c) && DigitValue(c) == d
  {
    (('0' as int) + d) as char
  }

  /** Python `int(s)` for a string of ASCII digits. */
  function ParseDigits(s: string): nat
    requires AllDigits(s)
  {
    if |s| == 0 then 0 else 10 * ParseDigits(s[..|s| - 1]) + DigitValue(s[|s| - 1])
  }

  /** Python `str(n)` for a natural number: decimal digits, no leading zero,
      which parse back to `n`. */
  function NatToString(n: nat): (r: string)
    ensures |r| > 0 && AllDigits(r)
    ensures ParseDigits(r) == n
    ensures |r| > 1 ==> r[0] != '0'
  {
    if n < 10 then [DigitChar(n)]
    else
      var r := NatToString(n / 10) + [DigitChar(n % 10)];
      assert r[..|r| - 1] == NatToString(n / 10);
      r
  }

  /** Python `str(i)` for an integer. */
  function IntToString(i: int): string {
    if i < 0 then "-" + NatToString(-i) else NatToString(i)
  }

  // ---------------------------------------------------------------------------
  // UTF-8

  type Byte = b: int | 0 <= b < 256

  /** Number of bytes UTF-8 needs for one scalar value. */
  function Utf8Width(c: char): nat {
    var n := c as int;
    if n < 0x80 then 1 else if n < 0x800 then 2 else if n < 0x10000 then 3 else 4
  }

  function Utf8Length(s: string): nat {
    if |s| == 0 then 0 else Utf8Width(s[0]) + Utf8Length(s[1..])
  }

  /** The UTF-8 encoding of one scalar value (section 3 of RFC 3629). */
  function EncodeChar(c: char): (r: seq<Byte>)
    ensures |r| == Utf8Width(c)
    ensures (c as int < 0x80) <==> (|r| == 1 && r[0] == c as int)
  {
    var n := c as int;
    if n < 0x80 then [n]
    else if n < 0x800 then [0xC0 + n / 64, 0x80 + n % 64]
    else if n < 0x10000 then [0xE0 + n / 4096, 0x80 + (n / 64) % 64, 0x80 + n % 64]
    else [0xF0 + n / 262144, 0x80 + (n / 4096) % 64, 0x80 + (n / 64) % 64, 0x80 + n % 64]
  }

  /** Python `s.encode("utf-8")`. */
  function Utf8Encode(s: string): (r: seq<Byte>)
    ensures |r| == Utf8Length(s)
  {
    if |s| == 0 then [] else EncodeChar(s[0]) + Utf8Encode(s[1..])
  }

  lemma {:induction false} Utf8LengthConcat(a: string, b: string)
    ensures Utf8Length(a + b) == Utf8Length(a) + Utf8Length(b)
  {
    if |a| > 0 {
      assert (a + b)[0] == a[0];
      assert (a + b)[1..] == a[1..] + b;
      Utf8LengthConcat(a[1..], b);
    } else {
      assert a + b == b;
    }
  }

  /** A string needs between one and four bytes per character, and exactly one
      per character precisely when it is all ASCII. */
  lemma {:induction false} Utf8LengthBounds(s: string)
    ensures |s| <= Utf8Length(s) <= 4 * |s|
    ensures Utf8Length(s) == |s| <==> forall i :: 0 <= i < |s| ==> s[i] as int < 0x80
  {
    if |s| > 0 {
      Utf8LengthBounds(s[1..]);
      assert forall i :: 1 <= i < |s| ==> s[i] == s[1..][i - 1];
    }
  }
}

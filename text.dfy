// The pieces of Rust's `str` API the modelled code relies on: whitespace
// trimming, `split`, `split_once`, `split_whitespace`, `lines`, `contains`,
// `join`, unsigned and signed integer parsing (`str::parse`) and the decimal
// `to_string` of an unsigned integer.

module Text {
  import opened Wrappers

  /// Rust's `char::is_whitespace`: the Unicode White_Space property.
  predicate IsWhitespace(c: char)
  {
    ('\t' <= c <= '\r') || c == ' ' || c == '\U{85}' || c == '\U{A0}' || c == '\U{1680}'
    || ('\U{2000}' <= c <= '\U{200A}') || c == '\U{2028}' || c == '\U{2029}'
    || c == '\U{202F}' || c == '\U{205F}' || c == '\U{3000}'
  }

  /// `str::trim_start`.
  function TrimStart(s: string): (r: string)
    ensures |r| <= |s| && r == s[|s| - |r|..]
    ensures r == [] || !IsWhitespace(r[0])
    ensures forall k :: 0 <= k < |s| - |r| ==> IsWhitespace(s[k])
  {
    if s != [] && IsWhitespace(s[0]) then TrimStart(s[1..]) else s
  }

  /// `str::trim_end`.
  function TrimEnd(s: string): (r: string)
    ensures |r| <= |s| && r == s[..|r|]
    ensures r == [] || !IsWhitespace(r[|r| - 1])
    ensures forall k :: |r| <= k < |s| ==> IsWhitespace(s[k])
  {
    if s != [] && IsWhitespace(s[|s| - 1]) then TrimEnd(s[..|s| - 1]) else s
  }

  /// `str::trim`: strips whitespace at both ends and nothing else.
  function Trim(s: string): (r: string)
    ensures |r| <= |s|
    ensures r == [] || (!IsWhitespace(r[0]) && !IsWhitespace(r[|r| - 1]))
    ensures (forall k :: 0 <= k < |s| ==> !IsWhitespace(s[k])) ==> r == s
  {
    TrimEnd(TrimStart(s))
  }

  /// ASCII lower case, as `eq_ignore_ascii_case` compares: `A`-`Z` become
  /// `a`-`z`, every other character stays.
  function LowerAscii(s: string): (r: string)
    ensures |r| == |s|
    ensures forall k :: 0 <= k < |s| ==> r[k] == if 'A' <= s[k] <= 'Z' then (s[k] as int + 32) as char else s[k]
  {
    if s == [] then []
    else [if 'A' <= s[0] <= 'Z' then (s[0] as int + 32) as char else s[0]] + LowerAscii(s[1..])
  }

  predicate IsPrefix(p: string, s: string)
  {
    |p| <= |s| && s[..|p|] == p
  }

  predicate IsSuffix(p: string, s: string)
  {
    |p| <= |s| && s[|s| - |p|..] == p
  }

  /// `str::contains` with a string pattern.
  predicate Contains(s: string, sub: string)
    decreases |s|
  {
    IsPrefix(sub, s) || (s != [] && Contains(s[1..], sub))
  }

  /// Position of the first occurrence of `c`.
  function IndexOf(s: string, c: char): (r: Option<nat>)
    ensures r.None? <==> c !in s
    ensures r.Some? ==> r.value < |s| && s[r.value] == c && c !in s[..r.value]
  {
    if s == [] then None
    else if s[0] == c then Some(0)
    else match IndexOf(s[1..], c)
      case None => None
      case Some(i) => assert s[1..][..i] == s[1..i + 1]; Some(i + 1)
  }

  /// `str::split_once` with a character pattern: split at the FIRST `c`.
  function SplitOnce(s: string, c: char): (r: Option<(string, string)>)
    ensures r.None? <==> c !in s
    ensures r.Some? ==> s == r.value.0 + [c] + r.value.1 && c !in r.value.0
  {
    match IndexOf(s, c)
    case None => None
    case Some(i) => assert s == s[..i] + [c] + s[i + 1..]; Some((s[..i], s[i + 1..]))
  }

  /// What comes before the first `c`, with or without it, begins `s`.
  lemma SplitOncePrefix(s: string, c: char)
    ensures SplitOnce(s, c).Some? ==>
      IsPrefix(SplitOnce(s, c).value.0, s) && IsPrefix(SplitOnce(s, c).value.0 + [c], s)
  {
    if SplitOnce(s, c).Some? {
      var (a, b) := SplitOnce(s, c).value;
      assert s == (a + [c]) + b;
      assert s[..|a| + 1] == a + [c];
      assert s[..|a|] == a;
    }
  }

  lemma PrefixTransitive(a: string, b: string, s: string)
    requires IsPrefix(a, b) && IsPrefix(b, s)
    ensures IsPrefix(a, s)
  {
    assert s[..|a|] == s[..|b|][..|a|];
  }

  /// `parts.join(sep)`.
  function Join(parts: seq<string>, sep: string): string
  {
    if |parts| == 0 then []
    else if |parts| == 1 then parts[0]
    else parts[0] + sep + Join(parts[1..], sep)
  }

  /// `str::split` with a character pattern: always at least one piece, and
  /// joining the pieces with `c` gives back the input.
  function Split(s: string, c: char): (r: seq<string>)
    ensures |r| >= 1
    ensures forall i :: 0 <= i < |r| ==> c !in r[i]
    ensures Join(r, [c]) == s
    decreases |s|
  {
    match IndexOf(s, c)
    case None => [s]
    case Some(i) =>
      var rest := Split(s[i + 1..], c);
      assert s == s[..i] + [c] + s[i + 1..];
      [s[..i]] + rest
  }

  /// Length of the longest prefix of `s` that holds no whitespace.
  function WordLength(s: string): (n: nat)
    ensures n <= |s| && (n == |s| || IsWhitespace(s[n]))
    ensures forall k :: 0 <= k < n ==> !IsWhitespace(s[k])
  {
    if s == [] || IsWhitespace(s[0]) then 0 else 1 + WordLength(s[1..])
  }

  /// A word: non-empty, with no whitespace in it.
  predicate IsWord(w: string)
  {
    w != [] && forall k :: 0 <= k < |w| ==> !IsWhitespace(w[k])
  }

  /// `str::split_whitespace`: the maximal runs of non-whitespace, in order.
  function SplitWhitespace(s: string): (r: seq<string>)
    ensures forall i :: 0 <= i < |r| ==> IsWord(r[i])
    decreases |s|
  {
    var t := TrimStart(s);
    if t == [] then []
    else
      assert !IsWhitespace(t[0]);
      FirstWord(t);
      var n := WordLength(t);
      var rest := SplitWhitespace(t[n..]);
      ConsWords(t[..n], rest);
      [t[..n]] + rest
  }

  lemma ConsWords(w: string, ws: seq<string>)
    requires IsWord(w) && forall i :: 0 <= i < |ws| ==> IsWord(ws[i])
    ensures forall i :: 0 <= i < |[w] + ws| ==> IsWord(([w] + ws)[i])
  {
    forall i | 0 <= i < |[w] + ws| ensures IsWord(([w] + ws)[i]) {
      if i > 0 { assert ([w] + ws)[i] == ws[i - 1]; }
    }
  }

  lemma FirstWord(t: string)
    requires t != [] && !IsWhitespace(t[0])
    ensures 0 < WordLength(t) <= |t| && IsWord(t[..WordLength(t)])
  {
    var n := WordLength(t);
    forall k | 0 <= k < n ensures !IsWhitespace(t[..n][k]) {
      assert t[..n][k] == t[k];
    }
  }

  /// Removes one trailing carriage return.
  function StripCarriageReturn(line: string): string
  {
    if |line| > 0 && line[|line| - 1] == '\r' then line[..|line| - 1] else line
  }

  /// `str::lines`: lines end at `\n`; a `\r` right before that `\n` is
  /// removed; a final line terminator does not start an extra empty line.
  function Lines(s: string): (r: seq<string>)
    ensures s == [] <==> r == []
    ensures forall i :: 0 <= i < |r| ==> '\n' !in r[i]
    decreases |s|
  {
    if s == [] then []
    else match IndexOf(s, '\n')
      case None => [s]
      case Some(i) => [StripCarriageReturn(s[..i])] + Lines(s[i + 1..])
  }

  predicate IsDigit(c: char)
  {
    '0' <= c <= '9'
  }

  function DigitChar(d: nat): (c: char)
    requires d < 10
    ensures IsDigit(c) && c as int - '0' as int == d
  {
    ('0' as int + d) as char
  }

  /// The decimal `to_string` of an unsigned integer: no sign, no leading zero.
  function Decimal(n: nat): (r: string)
    ensures r != [] && r[0] != '+' && forall k :: 0 <= k < |r| ==> IsDigit(r[k])
    ensures |r| > 1 ==> r[0] != '0'
  {
    if n < 10 then [DigitChar(n)] else Decimal(n / 10) + [DigitChar(n % 10)]
  }

  /// Value of a string of decimal digits, most significant first.
  function DigitsValue(ds: string): nat
    requires forall k :: 0 <= k < |ds| ==> IsDigit(ds[k])
  {
    if ds == [] then 0 else DigitsValue(ds[..|ds| - 1]) * 10 + DigitValue(ds[|ds| - 1])
  }

  function DigitValue(c: char): (d: nat)
    requires IsDigit(c)
    ensures d < 10 && DigitChar(d) == c
  {
    c as int - '0' as int
  }

  predicate AllDigits(s: string)
  {
    forall k :: 0 <= k < |s| ==> IsDigit(s[k])
  }

  /// `str::parse` for an unsigned integer type whose values are below `bound`:
  /// an optional `+`, then one or more ASCII digits, nothing else, and a value
  /// that fits the type.
  function ParseUnsigned(s: string, bound: nat): (r: Option<nat>)
    ensures r.Some? ==> r.value < bound
    ensures r.Some? ==> s != [] && (IsDigit(s[0]) || s[0] == '+')
  {
    var digits := if |s| > 0 && s[0] == '+' then s[1..] else s;
    if digits == [] || !AllDigits(digits) then None
    else
      var v := DigitsValue(digits);
      if v < bound then Some(v) else None
  }

  const U16_BOUND: nat := 0x1_0000
  const U64_BOUND: nat := 0x1_0000_0000_0000_0000
  const I64_BOUND: nat := 0x8000_0000_0000_0000

  /// `s.parse::<u16>()`.
  function ParseU16(s: string): (r: Option<nat>)
    ensures r.Some? ==> r.value < U16_BOUND
  {
    ParseUnsigned(s, U16_BOUND)
  }

  /// `s.parse::<usize>()` on a 64-bit target.
  function ParseUsize(s: string): (r: Option<nat>)
    ensures r.Some? ==> r.value < U64_BOUND
  {
    ParseUnsigned(s, U64_BOUND)
  }

  /// `s.parse::<i64>()`: an optional sign, then digits, within the i64 range.
  function ParseI64(s: string): (r: Option<int>)
    ensures r.Some? ==> -(I64_BOUND as int) <= r.value < I64_BOUND
  {
    if |s| > 0 && s[0] == '-' then
      var digits := s[1..];
      if digits == [] || !AllDigits(digits) || DigitsValue(digits) > I64_BOUND then None
      else
        var v: int := -(DigitsValue(digits) as int);
        Some(v)
    else match ParseUnsigned(s, I64_BOUND)
      case None => None
      case Some(v) => Some(v)
  }

  lemma {:induction false} DecimalValue(n: nat)
    ensures DigitsValue(Decimal(n)) == n
  {
    if n >= 10 {
      var d := Decimal(n / 10);
      DecimalValue(n / 10);
      assert (d + [DigitChar(n % 10)])[..|d|] == d;
    }
  }

  /// Parsing the decimal text of any value that fits gives the value back.
  lemma ParseDecimal(n: nat, bound: nat)
    requires n < bound
    ensures ParseUnsigned(Decimal(n), bound) == Some(n)
  {
    DecimalValue(n);
  }

  /// Splitting at the first `c` finds the `c` placed after a `c`-free prefix.
  lemma SplitOnceAt(a: string, c: char, b: string)
    requires c !in a
    ensures SplitOnce(a + [c] + b, c) == Some((a, b))
  {
    var s := a + [c] + b;
    var idx := IndexOf(s, c);
    assert s[|a|] == c && s[..|a|] == a;
    assert idx == Some(|a|);
    assert s[..|a|] == a && s[|a| + 1..] == b;
  }
}

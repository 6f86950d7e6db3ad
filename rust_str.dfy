/**
 * The parts of Rust's standard string and integer handling that the parsers
 * of this program rely on: `char::is_whitespace`, `trim`, `split`,
 * `strip_prefix`/`strip_suffix`, UTF-8 byte lengths, the `FromStr`
 * implementations of the integer types, their decimal `Display`, and the
 * syntax accepted by `f32::from_str`.
 */
module RustStr {
  import opened Wrappers

  type U8 = n: nat | n < 0x100
  type U16 = n: nat | n < 0x1_0000
  type U32 = n: nat | n < 0x1_0000_0000
  type I32 = n: int | -0x8000_0000 <= n < 0x8000_0000

  const U8_MAX: nat := 0xFF
  const U16_MAX: nat := 0xFFFF
  const I32_MIN: int := -0x8000_0000
  const I32_MAX: int := 0x7FFF_FFFF

  // ---------------------------------------------------------------- whitespace

  /** `char::is_whitespace`: the Unicode White_Space property. */
  predicate IsWhitespace(c: char) {
    || ('\t' <= c <= '\r')
    || c == ' ' || c == '\U{0085}' || c == '\U{00A0}' || c == '\U{1680}'
    || ('\U{2000}' <= c <= '\U{200A}')
    || c == '\U{2028}' || c == '\U{2029}' || c == '\U{202F}' || c == '\U{205F}' || c == '\U{3000}'
  }

  /** `str::trim_start`: drops the longest whitespace prefix (TrimStartDrops). */
  function TrimStart(s: string): (r: string)
    ensures |r| <= |s|
    ensures r == [] || !IsWhitespace(r[0])
  {
    if |s| > 0 && IsWhitespace(s[0]) then TrimStart(s[1..]) else s
  }

  /** `str::trim_end`: drops the longest whitespace suffix (TrimEndDrops). */
  function TrimEnd(s: string): (r: string)
    ensures |r| <= |s|
    ensures r == [] || (!IsWhitespace(r[|r| - 1]) && r[0] == s[0])
  {
    if |s| > 0 && IsWhitespace(s[|s| - 1]) then TrimEnd(s[..|s| - 1]) else s
  }

  /** `str::trim`. */
  function Trim(s: string): (r: string)
    ensures r == [] || (!IsWhitespace(r[0]) && !IsWhitespace(r[|r| - 1]))
  {
    TrimEnd(TrimStart(s))
  }

  /** TrimStart keeps a suffix and drops only whitespace before it. */
  lemma {:induction false} TrimStartDrops(s: string)
    ensures TrimStart(s) == s[|s| - |TrimStart(s)|..]
    ensures forall i :: 0 <= i < |s| - |TrimStart(s)| ==> IsWhitespace(s[i])
  {
    if |s| > 0 && IsWhitespace(s[0]) {
      TrimStartDrops(s[1..]);
      assert forall i :: 1 <= i < |s| ==> s[1..][i - 1] == s[i];
    }
  }

  /** TrimEnd keeps a prefix and drops only whitespace after it. */
  lemma {:induction false} TrimEndDrops(s: string)
    ensures TrimEnd(s) == s[..|TrimEnd(s)|]
    ensures forall i :: |TrimEnd(s)| <= i < |s| ==> IsWhitespace(s[i])
  {
    if |s| > 0 && IsWhitespace(s[|s| - 1]) {
      TrimEndDrops(s[..|s| - 1]);
    }
  }

  /** Trimming only removes chars, so a char absent from `s` is absent from its trim. */
  lemma TrimKeepsOut(s: string, c: char)
    requires c !in s
    ensures c !in Trim(s)
  {
    TrimStartDrops(s);
    TrimEndDrops(TrimStart(s));
  }

  /** A string with neither leading nor trailing whitespace is its own trim. */
  lemma TrimUnpadded(s: string)
    requires s == [] || (!IsWhitespace(s[0]) && !IsWhitespace(s[|s| - 1]))
    ensures Trim(s) == s && TrimStart(s) == s && TrimEnd(s) == s
  {
  }

  predicate AllWhitespace(s: string) {
    forall i :: 0 <= i < |s| ==> IsWhitespace(s[i])
  }

  /** Trimming removes exactly the whitespace padding around a non-blank core. */
  lemma TrimPadded(pre: string, core: string, post: string)
    requires AllWhitespace(pre) && AllWhitespace(post)
    requires core != [] && !IsWhitespace(core[0]) && !IsWhitespace(core[|core| - 1])
    ensures Trim(pre + core + post) == core
  {
    assert pre + core + post == pre + (core + post);
    TrimStartPadded(pre, core + post);
    TrimEndPadded(core, post);
  }

  lemma {:induction false} TrimStartPadded(pre: string, rest: string)
    requires AllWhitespace(pre) && rest != [] && !IsWhitespace(rest[0])
    ensures TrimStart(pre + rest) == rest
  {
    if pre == [] {
      assert pre + rest == rest;
    } else {
      assert (pre + rest)[1..] == pre[1..] + rest;
      TrimStartPadded(pre[1..], rest);
    }
  }

  lemma {:induction false} TrimEndPadded(core: string, post: string)
    requires AllWhitespace(post) && core != [] && !IsWhitespace(core[|core| - 1])
    ensures TrimEnd(core + post) == core
  {
    if post == [] {
      assert core + post == core;
    } else {
      var last := |post| - 1;
      assert (core + post)[..|core + post| - 1] == core + post[..last];
      TrimEndPadded(core, post[..last]);
    }
  }

  // ---------------------------------------------------------------- prefixes

  /** `str::strip_prefix` with a string pattern. */
  function StripPrefix(s: string, p: string): (r: Option<string>)
    ensures r.Some? <==> p <= s
    ensures r.Some? ==> s == p + r.value
  {
    if p <= s then Some(s[|p|..]) else None
  }

  /** Stripping a prefix from a concatenation leaves the rest. */
  lemma StripPrefixConcat(p: string, t: string)
    ensures StripPrefix(p + t, p) == Some(t)
  {
    assert (p + t)[..|p|] == p && (p + t)[|p|..] == t;
  }

  /** `str::strip_suffix` with a char pattern. */
  function StripSuffix(s: string, c: char): (r: Option<string>)
    ensures r.Some? <==> (|s| > 0 && s[|s| - 1] == c)
    ensures r.Some? ==> s == r.value + [c]
  {
    if |s| > 0 && s[|s| - 1] == c then Some(s[..|s| - 1]) else None
  }

  /** `str::split` with a char separator: the pieces between separators, always at least one. */
  function Split(s: string, sep: char): (r: seq<string>)
    ensures |r| >= 1
  {
    if |s| == 0 then [""]
    else
      var rest := Split(s[1..], sep);
      if s[0] == sep then [""] + rest else [[s[0]] + rest[0]] + rest[1..]
  }

  /** No piece holds the separator, and joining the pieces with it gives the input back. */
  lemma {:induction false} SplitJoin(s: string, sep: char)
    ensures forall i :: 0 <= i < |Split(s, sep)| ==> sep !in Split(s, sep)[i]
    ensures Join(Split(s, sep), sep) == s
  {
    if |s| > 0 {
      SplitJoin(s[1..], sep);
      var rest := Split(s[1..], sep);
      if s[0] == sep {
        assert Join([""] + rest, sep) == [sep] + Join(rest, sep);
      } else {
        var r := [[s[0]] + rest[0]] + rest[1..];
        assert sep !in r[0];
        assert Join(r, sep) == [s[0]] + Join(rest, sep) by {
          if |rest| > 1 {
            assert r[1..] == rest[1..];
          }
        }
      }
    }
  }

  /** Splitting the pieces' join gives the pieces back, when no piece holds the separator. */
  lemma {:induction false} JoinSplit(pieces: seq<string>, sep: char)
    requires |pieces| >= 1
    requires forall i :: 0 <= i < |pieces| ==> sep !in pieces[i]
    ensures Split(Join(pieces, sep), sep) == pieces
  {
    if |pieces| == 1 {
      SplitNoSep(pieces[0], sep);
    } else {
      JoinSplit(pieces[1..], sep);
      SplitCons(pieces[0], Join(pieces[1..], sep), sep);
    }
  }

  lemma {:induction false} SplitNoSep(a: string, sep: char)
    requires sep !in a
    ensures Split(a, sep) == [a]
  {
    if |a| > 0 {
      SplitNoSep(a[1..], sep);
      assert [a[0]] + a[1..] == a;
    }
  }

  lemma {:induction false} SplitCons(a: string, b: string, sep: char)
    requires sep !in a
    ensures Split(a + [sep] + b, sep) == [a] + Split(b, sep)
  {
    if |a| == 0 {
      assert a + [sep] + b == [sep] + b;
      assert ([sep] + b)[1..] == b;
    } else {
      assert (a + [sep] + b)[1..] == a[1..] + [sep] + b;
      SplitCons(a[1..], b, sep);
      assert [a[0]] + a[1..] == a;
    }
  }

  /** The inverse of Split: the pieces put back together, separated by `sep`. */
  function Join(pieces: seq<string>, sep: char): string
    requires |pieces| >= 1
  {
    if |pieces| == 1 then pieces[0] else pieces[0] + [sep] + Join(pieces[1..], sep)
  }

  // ---------------------------------------------------------------- UTF-8

  /** The number of bytes UTF-8 uses for `c` (what Rust's `char::len_utf8` returns). */
  function Utf8Len(c: char): (n: nat)
    ensures 1 <= n <= 4
    ensures n == 1 <==> c as int < 0x80
  {
    if c as int < 0x80 then 1 else if c as int < 0x800 then 2 else if c as int < 0x1_0000 then 3 else 4
  }

  /** `str::len`: the UTF-8 length of a string in bytes. */
  function ByteLen(s: string): (n: nat)
    ensures n >= |s|
  {
    if s == [] then 0 else ByteLen(s[..|s| - 1]) + Utf8Len(s[|s| - 1])
  }

  predicate IsAscii(s: string) {
    forall i :: 0 <= i < |s| ==> s[i] as int < 0x80
  }

  /** On ASCII text, byte offsets and char indices coincide. */
  lemma {:induction false} AsciiByteLen(s: string)
    requires IsAscii(s)
    ensures ByteLen(s) == |s|
  {
    if s != [] {
      AsciiByteLen(s[..|s| - 1]);
    }
  }

  /** A string is one byte long exactly when it is a single ASCII char. */
  lemma ByteLenOne(s: string)
    ensures ByteLen(s) == 1 <==> (|s| == 1 && s[0] as int < 0x80)
  {
    if |s| >= 2 {
      assert ByteLen(s) >= |s|;
    } else if |s| == 1 {
      assert s[..0] == [];
    }
  }

  // ---------------------------------------------------------------- integers

  predicate IsDigit(c: char) { '0' <= c <= '9' }

  predicate AllDigits(s: string) { forall i :: 0 <= i < |s| ==> IsDigit(s[i]) }

  /** The value of a string of decimal digits (leading zeros allowed). */
  function DigitsValue(s: string): nat
    requires AllDigits(s)
  {
    if s == [] then 0 else DigitsValue(s[..|s| - 1]) * 10 + (s[|s| - 1] as int - '0' as int)
  }

  /**
   * `from_str` of an unsigned integer type whose largest value is `max`:
   * an optional `+`, then at least one decimal digit, and a value no
   * larger than `max`. No whitespace and no `-` are accepted.
   */
  function ParseUnsigned(s: string, max: nat): (r: Option<nat>)
    ensures r.Some? ==> r.value <= max
    ensures r.Some? ==> |s| > 0 && (IsDigit(s[0]) || s[0] == '+')
    ensures r.Some? ==> IsDigit(s[|s| - 1])
  {
    var digits := if |s| > 0 && s[0] == '+' then s[1..] else s;
    if |digits| > 0 && AllDigits(digits) && DigitsValue(digits) <= max then
      Some(DigitsValue(digits))
    else
      None
  }

  /** `i32::from_str`: an optional `+` or `-`, then at least one digit, within the i32 range. */
  function ParseI32(s: string): (r: Option<int>)
    ensures r.Some? ==> I32_MIN <= r.value <= I32_MAX
  {
    var negative := |s| > 0 && s[0] == '-';
    var digits := if |s| > 0 && (s[0] == '+' || s[0] == '-') then s[1..] else s;
    if |digits| > 0 && AllDigits(digits) then
      var d: int := DigitsValue(digits);
      var v := if negative then -d else d;
      if I32_MIN <= v <= I32_MAX then Some(v) else None
    else
      None
  }

  /** The decimal `Display` of a natural number: no sign, no leading zeros. */
  function Decimal(n: nat): (s: string)
    ensures |s| > 0 && AllDigits(s)
    ensures s[0] != '0' || n == 0
  {
    if n < 10 then ['0' + n as char] else Decimal(n / 10) + ['0' + (n % 10) as char]
  }

  /** The decimal `Display` of a signed integer. */
  function SignedDecimal(n: int): (s: string)
    ensures |s| > 0
  {
    if n < 0 then "-" + Decimal(-n) else Decimal(n)
  }

  lemma {:induction false} DecimalValue(n: nat)
    ensures DigitsValue(Decimal(n)) == n
  {
    if n >= 10 {
      DecimalValue(n / 10);
      var s := Decimal(n);
      assert s[..|s| - 1] == Decimal(n / 10);
    }
  }

  /** Parsing the decimal form of an in-range value gives the value back. */
  lemma ParseUnsignedDecimal(n: nat, max: nat)
    requires n <= max
    ensures ParseUnsigned(Decimal(n), max) == Some(n)
  {
    DecimalValue(n);
  }

  lemma ParseI32Decimal(n: int)
    requires I32_MIN <= n <= I32_MAX
    ensures ParseI32(SignedDecimal(n)) == Some(n)
  {
    var s := SignedDecimal(n);
    if n < 0 {
      var d := Decimal(-n);
      DecimalValue(-n);
      assert s == "-" + d && s[1..] == d;
      assert DigitsValue(d) == -n;
    } else {
      DecimalValue(n);
      assert s == Decimal(n) && IsDigit(s[0]);
    }
  }

  // ---------------------------------------------------------------- floats

  function LowerAscii(c: char): char {
    if 'A' <= c <= 'Z' then c - 'A' + 'a' else c
  }

  predicate EqualsIgnoreAsciiCase(s: string, word: string) {
    |s| == |word| && forall i :: 0 <= i < |s| ==> LowerAscii(s[i]) == LowerAscii(word[i])
  }

  /** The index of the first `c` in `s`, if any. */
  function IndexOf(s: string, c: char): (r: Option<nat>)
    ensures r.None? <==> c !in s
    ensures r.Some? ==> r.value < |s| && s[r.value] == c && c !in s[..r.value]
  {
    if s == [] then None
    else if s[0] == c then Some(0)
    else
      match IndexOf(s[1..], c)
      case None => None
      case Some(i) => assert s[..i + 1] == [s[0]] + s[1..][..i]; Some(i + 1)
  }

  /** Digit+ | Digit+ '.' Digit* | Digit* '.' Digit+ */
  predicate IsMantissa(m: string) {
    match IndexOf(m, '.')
    case None => |m| > 0 && AllDigits(m)
    case Some(j) => AllDigits(m[..j]) && AllDigits(m[j + 1..]) && |m| > 1
  }

  /** Sign? Digit+ */
  predicate IsExponentDigits(x: string) {
    var digits := if |x| > 0 && (x[0] == '+' || x[0] == '-') then x[1..] else x;
    |digits| > 0 && AllDigits(digits)
  }

  /** Number ::= Mantissa Exp?, Exp ::= ('e' | 'E') Sign? Digit+ */
  predicate IsDecimalNumber(b: string) {
    match IndexOf(LowerAsciiString(b), 'e')
    case None => IsMantissa(b)
    case Some(i) => IsMantissa(b[..i]) && IsExponentDigits(b[i + 1..])
  }

  function LowerAsciiString(s: string): (r: string)
    ensures |r| == |s| && forall i :: 0 <= i < |s| ==> r[i] == LowerAscii(s[i])
  {
    seq(|s|, i requires 0 <= i < |s| => LowerAscii(s[i]))
  }

  /**
   * The strings `f32::from_str` accepts: an optional sign, then "inf",
   * "infinity" or "nan" in any case, or a decimal number with an optional
   * exponent. No whitespace is accepted. The value is not modelled.
   */
  predicate IsFloatLiteral(s: string) {
    var body := if |s| > 0 && (s[0] == '+' || s[0] == '-') then s[1..] else s;
    || EqualsIgnoreAsciiCase(body, "inf")
    || EqualsIgnoreAsciiCase(body, "infinity")
    || EqualsIgnoreAsciiCase(body, "nan")
    || IsDecimalNumber(body)
  }
}

/**
 The string primitives the three handlers rely on: ASCII character classes,
 `toLowerCase().includes(...)`, `substring(0, n)`, `Number.prototype.toString`,
 `String.prototype.padStart` and the global `parseInt` with no radix.
 Strings are sequences of characters.
 */
module Text {
  import opened Options

  predicate IsDigit(c: char) {
    '0' <= c <= '9'
  }

  /** The class `[a-zA-Z0-9]` of the route patterns and of the short-code alphabet. */
  predicate IsAlnum(c: char) {
    'A' <= c <= 'Z' || 'a' <= c <= 'z' || IsDigit(c)
  }

  predicate AllDigits(s: string) {
    forall k :: 0 <= k < |s| ==> IsDigit(s[k])
  }

  /** ASCII lower-casing. For the only needle this model searches for
      ("micromessenger") it agrees with the full Unicode `toLowerCase`: the
      non-ASCII characters whose lower case contains an ASCII letter are the
      Kelvin sign (to 'k') and U+0130 (to "i" followed by U+0307), and neither
      can complete an occurrence of that needle. */
  function LowerChar(c: char): (d: char)
    ensures 'A' <= c <= 'Z' ==> 'a' <= d <= 'z' && d as int - c as int == 32
    ensures !('A' <= c <= 'Z') ==> d == c
  {
    if 'A' <= c <= 'Z' then (c as int + 32) as char else c
  }

  function Lower(s: string): (t: string)
    ensures |t| == |s|
    ensures forall k :: 0 <= k < |s| ==> t[k] == LowerChar(s[k])
  {
    seq(|s|, k requires 0 <= k < |s| => LowerChar(s[k]))
  }

  /** `needle` occurs in `hay` starting at index `i`. */
  predicate OccursAt(hay: string, needle: string, i: nat) {
    i + |needle| <= |hay| && hay[i..i + |needle|] == needle
  }

  /** `hay.includes(needle)` restricted to the positions at or after `from`. */
  function ContainsFrom(hay: string, needle: string, from: nat): (r: bool)
    ensures r <==> exists i: nat :: from <= i && OccursAt(hay, needle, i)
    decreases |hay| - from
  {
    if from + |needle| > |hay| then
      assert forall i: nat :: from <= i ==> !OccursAt(hay, needle, i);
      false
    else if OccursAt(hay, needle, from) then true
    else ContainsFrom(hay, needle, from + 1)
  }

  function Contains(hay: string, needle: string): (r: bool)
    ensures r <==> exists i: nat :: OccursAt(hay, needle, i)
  {
    ContainsFrom(hay, needle, 0)
  }

  /** `s.substring(0, n)`: the first `n` characters, or all of `s` when it is shorter. */
  function Truncate(s: string, n: nat): (t: string)
    ensures |t| <= n && |t| <= |s|
    ensures |s| <= n ==> t == s
    ensures |s| > n ==> |t| == n
    ensures t == s[..|t|]
  {
    if |s| <= n then s else s[..n]
  }

  /** `c` does not occur in `s`. */
  predicate Lacks(s: string, c: char) {
    forall k :: 0 <= k < |s| ==> s[k] != c
  }

  /** `s.split(sep)`, built from the end: a final `sep` opens a new empty
      piece, any other character extends the last piece. */
  function Split(s: string, sep: char): (parts: seq<string>)
    ensures |parts| >= 1
    ensures forall i :: 0 <= i < |parts| ==> Lacks(parts[i], sep)
  {
    if |s| == 0 then [""]
    else
      var init := Split(s[..|s| - 1], sep);
      if s[|s| - 1] == sep then init + [""]
      else init[..|init| - 1] + [init[|init| - 1] + [s[|s| - 1]]]
  }

  /** `parts.join(sep)` */
  function Join(parts: seq<string>, sep: char): string
    requires |parts| >= 1
  {
    if |parts| == 1 then parts[0] else Join(parts[..|parts| - 1], sep) + [sep] + parts[|parts| - 1]
  }

  /** Extending the last piece extends the joined text by the same amount. */
  lemma JoinExtendsLastPiece(parts: seq<string>, c: char, sep: char)
    requires |parts| >= 1
    ensures Join(parts[..|parts| - 1] + [parts[|parts| - 1] + [c]], sep) == Join(parts, sep) + [c]
  {
    var n := |parts|;
    var q := parts[..n - 1] + [parts[n - 1] + [c]];
    if n > 1 {
      assert q[..n - 1] == parts[..n - 1];
    }
  }

  /** A trailing empty piece adds one separator to the joined text. */
  lemma JoinAppendsEmptyPiece(parts: seq<string>, sep: char)
    requires |parts| >= 1
    ensures Join(parts + [""], sep) == Join(parts, sep) + [sep]
  {
    assert (parts + [""])[..|parts|] == parts;
  }

  /** Whether `c` opens a new piece or extends the last one, the joined text
      grows by `c`. */
  lemma JoinAfterCharacter(init: seq<string>, c: char, sep: char)
    requires |init| >= 1
    ensures var next := if c == sep then init + [""] else init[..|init| - 1] + [init[|init| - 1] + [c]];
            Join(next, sep) == Join(init, sep) + [c]
  {
    if c == sep {
      JoinAppendsEmptyPiece(init, sep);
    } else {
      JoinExtendsLastPiece(init, c, sep);
    }
  }

  /** Splitting loses nothing: joining the pieces with the separator gives
      back the text. */
  lemma {:induction false} JoinSplit(s: string, sep: char)
    ensures Join(Split(s, sep), sep) == s
    decreases |s|
  {
    if |s| > 0 {
      var p, c := s[..|s| - 1], s[|s| - 1];
      var init := Split(p, sep);
      JoinSplit(p, sep);
      SplitLastCharacter(s, sep);
      JoinAfterCharacter(init, c, sep);
      assert p + [c] == s;
    }
  }

  /** One step of `Split`: the last character either opens a new piece or
      extends the last one. */
  lemma SplitLastCharacter(s: string, sep: char)
    requires |s| > 0
    ensures var init := Split(s[..|s| - 1], sep);
            Split(s, sep) == if s[|s| - 1] == sep then init + [""]
                             else init[..|init| - 1] + [init[|init| - 1] + [s[|s| - 1]]]
  {
  }

  /** Appending text free of `sep` only extends the last piece. */
  lemma {:induction false} SplitExtendsLastPiece(p: string, t: string, sep: char)
    requires forall k :: 0 <= k < |t| ==> t[k] != sep
    ensures var parts := Split(p, sep);
            Split(p + t, sep) == parts[..|parts| - 1] + [parts[|parts| - 1] + t]
    decreases |t|
  {
    if |t| == 0 {
      SplitExtendsByNothing(p, sep);
    } else {
      var t', c := t[..|t| - 1], t[|t| - 1];
      SplitExtendsLastPiece(p, t', sep);
      ExtendByCharacter(p, t', c, sep, Split(p, sep));
      assert t' + [c] == t;
    }
  }

  /** The base case of `SplitExtendsLastPiece`. */
  lemma SplitExtendsByNothing(p: string, sep: char)
    ensures var parts := Split(p, sep);
            Split(p + "", sep) == parts[..|parts| - 1] + [parts[|parts| - 1] + ""]
  {
    var parts := Split(p, sep);
    assert p + "" == p;
    assert parts[|parts| - 1] + "" == parts[|parts| - 1];
    assert parts[..|parts| - 1] + [parts[|parts| - 1]] == parts;
  }

  /** One inductive step of `SplitExtendsLastPiece`: a character other than
      `sep` goes onto the last piece. */
  lemma ExtendByCharacter(p: string, u: string, c: char, sep: char, parts: seq<string>)
    requires c != sep && |parts| >= 1
    requires Split(p + u, sep) == parts[..|parts| - 1] + [parts[|parts| - 1] + u]
    ensures Split(p + (u + [c]), sep) == parts[..|parts| - 1] + [parts[|parts| - 1] + (u + [c])]
  {
    var init := Split(p + u, sep);
    var x := p + (u + [c]);
    assert x[..|x| - 1] == p + u && x[|x| - 1] == c;
    SplitLastCharacter(x, sep);
    assert Split(x, sep) == init[..|init| - 1] + [init[|init| - 1] + [c]];
    ExtendLastPieceTwice(parts, u, c);
  }

  /** Extending the last piece by `u` and then by `c` extends it by `u + [c]`. */
  lemma ExtendLastPieceTwice(parts: seq<string>, u: string, c: char)
    requires |parts| >= 1
    ensures var q := parts[..|parts| - 1] + [parts[|parts| - 1] + u];
            q[..|q| - 1] + [q[|q| - 1] + [c]] == parts[..|parts| - 1] + [parts[|parts| - 1] + (u + [c])]
  {
    var q := parts[..|parts| - 1] + [parts[|parts| - 1] + u];
    assert q[..|q| - 1] == parts[..|parts| - 1];
    assert parts[|parts| - 1] + u + [c] == parts[|parts| - 1] + (u + [c]);
  }

  /** Text without the separator is a single piece. */
  lemma SplitWithoutSeparator(t: string, sep: char)
    requires forall k :: 0 <= k < |t| ==> t[k] != sep
    ensures Split(t, sep) == [t]
  {
    SplitExtendsLastPiece("", t, sep);
    assert "" + t == t;
    assert Split("", sep) == [""];
  }

  // ---------------------------------------------------------------------
  // Decimal numerals
  // ---------------------------------------------------------------------

  function DigitChar(d: nat): (c: char)
    requires d < 10
    ensures IsDigit(c)
  {
    ('0' as int + d) as char
  }

  function DigitValue(c: char): (d: nat)
    requires IsDigit(c)
    ensures d < 10 && DigitChar(d) == c
  {
    c as int - '0' as int
  }

  /** The value of a string of decimal digits, most significant first. */
  function DecimalValue(s: string): nat
    requires AllDigits(s)
  {
    if |s| == 0 then 0 else DecimalValue(s[..|s| - 1]) * 10 + DigitValue(s[|s| - 1])
  }

  /** `n.toString()` for a non-negative integer. */
  function DecimalString(n: nat): (s: string)
    ensures |s| >= 1 && AllDigits(s)
    ensures |s| > 1 ==> s[0] != '0'
  {
    if n < 10 then [DigitChar(n)] else DecimalString(n / 10) + [DigitChar(n % 10)]
  }

  /** `k.toString()` for any integer: a minus sign, then the magnitude. */
  function IntString(k: int): string {
    if k < 0 then "-" + DecimalString(-k) else DecimalString(k)
  }

  function Repeat(c: char, n: nat): (s: string)
    ensures |s| == n && forall k :: 0 <= k < n ==> s[k] == c
  {
    seq(n, _ => c)
  }

  /** `s.padStart(width, fill)`: `fill` is prepended until `s` is `width` long;
      a longer `s` is returned whole, never cut. */
  function PadStart(s: string, width: nat, fill: char): (t: string)
    ensures |t| == if |s| >= width then |s| else width
    ensures t == Repeat(fill, |t| - |s|) + s
  {
    if |s| >= width then
      assert Repeat(fill, 0) + s == s;
      s
    else Repeat(fill, width - |s|) + s
  }

  lemma {:induction false} DecimalValueOfDecimalString(n: nat)
    ensures DecimalValue(DecimalString(n)) == n
    decreases n
  {
    if n >= 10 {
      var s := DecimalString(n);
      DecimalValueOfDecimalString(n / 10);
      assert s[..|s| - 1] == DecimalString(n / 10);
    }
  }

  /** Leading zeros do not change the value of a numeral. */
  lemma {:induction false} DecimalValueIgnoresLeadingZeros(z: nat, s: string)
    requires AllDigits(s)
    ensures AllDigits(Repeat('0', z) + s)
    ensures DecimalValue(Repeat('0', z) + s) == DecimalValue(s)
    decreases |s|, z
  {
    var t := Repeat('0', z) + s;
    if |s| == 0 {
      assert t == Repeat('0', z);
      if z > 0 {
        assert t[..|t| - 1] == Repeat('0', z - 1) + s;
        DecimalValueIgnoresLeadingZeros(z - 1, s);
      }
    } else {
      var s' := s[..|s| - 1];
      assert t[..|t| - 1] == Repeat('0', z) + s';
      DecimalValueIgnoresLeadingZeros(z, s');
    }
  }

  // ---------------------------------------------------------------------
  // parseInt(string) with no radix argument
  // ---------------------------------------------------------------------

  /** StrWhiteSpaceChar of ECMAScript: the WhiteSpace and LineTerminator code
      points, with every member of the Unicode category Zs written out. */
  predicate IsJsWhitespace(c: char) {
    || c == '\U{0009}' || c == '\U{000B}' || c == '\U{000C}' || c == '\U{FEFF}'
    || c == '\U{000A}' || c == '\U{000D}' || c == '\U{2028}' || c == '\U{2029}'
    || c == '\U{0020}' || c == '\U{00A0}' || c == '\U{1680}'
    || ('\U{2000}' <= c <= '\U{200A}') || c == '\U{202F}' || c == '\U{205F}' || c == '\U{3000}'
  }

  function TrimStart(s: string): (t: string)
    ensures |t| <= |s| && t == s[|s| - |t|..]
    ensures |t| == 0 || !IsJsWhitespace(t[0])
    ensures forall k :: 0 <= k < |s| - |t| ==> IsJsWhitespace(s[k])
  {
    if |s| > 0 && IsJsWhitespace(s[0]) then TrimStart(s[1..]) else s
  }

  /** The longest prefix of `s` whose characters all satisfy `IsDigit`. */
  function DigitPrefix(s: string): (d: string)
    ensures |d| <= |s| && d == s[..|d|] && AllDigits(d)
    ensures |d| == |s| || !IsDigit(s[|d|])
  {
    if |s| > 0 && IsDigit(s[0]) then [s[0]] + DigitPrefix(s[1..]) else []
  }

  predicate IsHexDigit(c: char) {
    IsDigit(c) || 'a' <= c <= 'f' || 'A' <= c <= 'F'
  }

  function HexDigitValue(c: char): nat
    requires IsHexDigit(c)
  {
    if IsDigit(c) then DigitValue(c)
    else if 'a' <= c <= 'f' then c as int - 'a' as int + 10
    else c as int - 'A' as int + 10
  }

  function HexPrefix(s: string): (d: string)
    ensures |d| <= |s| && d == s[..|d|]
    ensures forall k :: 0 <= k < |d| ==> IsHexDigit(d[k])
  {
    if |s| > 0 && IsHexDigit(s[0]) then [s[0]] + HexPrefix(s[1..]) else []
  }

  function HexValue(s: string): nat
    requires forall k :: 0 <= k < |s| ==> IsHexDigit(s[k])
  {
    if |s| == 0 then 0 else HexValue(s[..|s| - 1]) * 16 + HexDigitValue(s[|s| - 1])
  }

  /** The magnitude read after the sign: a "0x"/"0X" prefix switches to base
      16; no digit at all gives `None` (the source's NaN). Either way the
      text starts with a decimal digit. */
  function ParseMagnitude(u: string): (r: Option<nat>)
    ensures r.Some? ==> |u| > 0 && IsDigit(u[0])
  {
    if |u| >= 2 && u[0] == '0' && (u[1] == 'x' || u[1] == 'X') then
      var h := HexPrefix(u[2..]);
      if |h| == 0 then None else Some(HexValue(h))
    else
      var d := DigitPrefix(u);
      if |d| == 0 then None else Some(DecimalValue(d))
  }

  /** The number read from text that starts after the white space: an
      optional sign, then the magnitude. */
  function ParseSigned(t: string): (r: Option<int>)
    ensures r.Some? ==> exists k :: 0 <= k < |t| && IsDigit(t[k])
    ensures r.Some? && r.value < 0 ==> |t| > 0 && t[0] == '-'
  {
    var negative := |t| > 0 && t[0] == '-';
    var u := if |t| > 0 && (t[0] == '-' || t[0] == '+') then t[1..] else t;
    match ParseMagnitude(u)
    case None => None
    case Some(m) =>
      assert u[0] == t[|t| - |u|];
      Some(if negative then -(m as int) else m)
  }

  /** `parseInt(s)`: skip leading white space, read an optional sign, then the
      longest run of digits; trailing garbage is ignored. `None` is NaN. */
  function ParseInt(s: string): (r: Option<int>)
    // text without any digit is NaN
    ensures r.Some? ==> exists k :: 0 <= k < |s| && IsDigit(s[k])
    // a negative result needs a '-' in the text
    ensures r.Some? && r.value < 0 ==> exists k :: 0 <= k < |s| && s[k] == '-'
    // a plain numeral reads as its decimal value
    ensures |s| > 0 && AllDigits(s) ==> r == Some(DecimalValue(s) as int)
  {
    ParseIntOfNumeral(s);
    TrimmedWitnesses(s);
    ParseSigned(TrimStart(s))
  }

  /** A digit or sign found after the white space is a character of the text. */
  lemma {:induction false} TrimmedWitnesses(s: string)
    ensures var r := ParseSigned(TrimStart(s));
            (r.Some? ==> exists k :: 0 <= k < |s| && IsDigit(s[k]))
            && (r.Some? && r.value < 0 ==> exists k :: 0 <= k < |s| && s[k] == '-')
  {
    var t := TrimStart(s);
    var r := ParseSigned(t);
    if r.Some? {
      var k :| 0 <= k < |t| && IsDigit(t[k]);
      assert s[|s| - |t| + k] == t[k];
      if r.value < 0 {
        assert s[|s| - |t|] == t[0];
      }
    }
  }

  /** A plain numeral has no white space or sign to skip. */
  lemma ParseIntOfNumeral(s: string)
    ensures |s| > 0 && AllDigits(s) ==> TrimStart(s) == s && ParseSigned(s) == Some(DecimalValue(s) as int)
  {
    if |s| > 0 && AllDigits(s) {
      TrimStartOfDigits(s);
      ParseMagnitudeOfDigits(s);
    }
  }

  /** Leading white space is skipped. */
  lemma {:induction false} TrimStartSkipsWhitespace(w: string, s: string)
    requires forall k :: 0 <= k < |w| ==> IsJsWhitespace(w[k])
    ensures TrimStart(w + s) == TrimStart(s)
    decreases |w|
  {
    if |w| == 0 {
      assert w + s == s;
    } else {
      assert (w + s)[0] == w[0];
      assert (w + s)[1..] == w[1..] + s;
      assert TrimStart(w + s) == TrimStart(w[1..] + s);
      TrimStartSkipsWhitespace(w[1..], s);
    }
  }

  /** `parseInt` ignores leading white space. */
  lemma ParseIntSkipsWhitespace(w: string, s: string)
    requires forall k :: 0 <= k < |w| ==> IsJsWhitespace(w[k])
    ensures ParseInt(w + s) == ParseInt(s)
  {
    TrimStartSkipsWhitespace(w, s);
  }

  lemma TrimStartOfNonSpace(x: string)
    requires |x| > 0 && !IsJsWhitespace(x[0])
    ensures TrimStart(x) == x
  {
  }

  /** The digit run stops at the first non-digit. */
  lemma {:induction false} DigitPrefixOfLeadingDigits(d: string, rest: string)
    requires AllDigits(d)
    requires |rest| == 0 || !IsDigit(rest[0])
    ensures DigitPrefix(d + rest) == d
    decreases |d|
  {
    if |d| == 0 {
      assert d + rest == rest;
    } else {
      DigitPrefixOfLeadingDigits(d[1..], rest);
      assert (d + rest)[1..] == d[1..] + rest;
      assert [d[0]] + d[1..] == d;
    }
  }

  /** The hexadecimal digit run stops at the first non-hexadecimal digit. */
  lemma {:induction false} HexPrefixOfLeadingDigits(h: string, rest: string)
    requires forall k :: 0 <= k < |h| ==> IsHexDigit(h[k])
    requires |rest| == 0 || !IsHexDigit(rest[0])
    ensures HexPrefix(h + rest) == h
    decreases |h|
  {
    if |h| == 0 {
      assert h + rest == rest;
    } else {
      HexPrefixOfLeadingDigits(h[1..], rest);
      assert (h + rest)[1..] == h[1..] + rest;
      assert [h[0]] + h[1..] == h;
    }
  }

  /** Decimal digits up to the first non-digit form the magnitude, unless a
      lone "0" is followed by an 'x'. */
  lemma {:induction false} ParseMagnitudeOfLeadingDigits(d: string, rest: string)
    requires |d| > 0 && AllDigits(d)
    requires |rest| == 0 || !IsDigit(rest[0])
    requires !(d == "0" && |rest| > 0 && (rest[0] == 'x' || rest[0] == 'X'))
    ensures ParseMagnitude(d + rest) == Some(DecimalValue(d))
  {
    var u := d + rest;
    assert u[0] == d[0];
    if |d| > 1 {
      assert u[1] == d[1];
    } else if |rest| > 0 {
      assert u[1] == rest[0];
    }
    DigitPrefixOfLeadingDigits(d, rest);
  }

  /** Hexadecimal digits after "0x", up to the first non-hexadecimal
      character, form the magnitude. */
  lemma {:induction false} ParseMagnitudeOfHex(h: string, rest: string)
    requires |h| > 0 && forall k :: 0 <= k < |h| ==> IsHexDigit(h[k])
    requires |rest| == 0 || !IsHexDigit(rest[0])
    ensures ParseMagnitude("0x" + h + rest) == Some(HexValue(h))
  {
    var v := h + rest;
    assert "0x" + h + rest == "0x" + v;
    var u := "0x" + v;
    assert |"0x"| == 2;
    assert u[2..] == v;
    HexPrefixOfLeadingDigits(h, rest);
  }

  /** A leading '-' negates the magnitude; without a sign it is read as is. */
  lemma {:induction false} ParseSignedOfMagnitude(negative: bool, u: string, m: nat)
    requires ParseMagnitude(u) == Some(m)
    ensures ParseSigned((if negative then "-" else "") + u) == Some(if negative then -(m as int) else m)
  {
    var t := (if negative then "-" else "") + u;
    if negative {
      assert t[1..] == u;
    } else {
      assert t == u;
    }
  }

  /** Text that starts with a sign or a digit has no white space to skip. */
  lemma {:induction false} ParseIntOfSigned(negative: bool, u: string)
    requires |u| > 0 && IsDigit(u[0])
    ensures ParseInt((if negative then "-" else "") + u) == ParseSigned((if negative then "-" else "") + u)
  {
    var t := (if negative then "-" else "") + u;
    assert t[0] == if negative then '-' else u[0];
    TrimStartOfNonSpace(t);
  }

  /** `parseInt` reads the leading integer: an optional '-', then decimal
      digits up to the first non-digit, whatever follows. A lone "0" before
      an 'x' is the start of a hexadecimal prefix instead. */
  lemma {:induction false} ParseIntOfLeadingInteger(negative: bool, d: string, rest: string)
    requires |d| > 0 && AllDigits(d)
    requires |rest| == 0 || !IsDigit(rest[0])
    requires !(d == "0" && |rest| > 0 && (rest[0] == 'x' || rest[0] == 'X'))
    ensures ParseInt((if negative then "-" else "") + d + rest)
            == Some(if negative then -(DecimalValue(d) as int) else DecimalValue(d) as int)
  {
    var sign := if negative then "-" else "";
    var u := d + rest;
    var m := DecimalValue(d);
    assert sign + d + rest == sign + u;
    ParseMagnitudeOfLeadingDigits(d, rest);
    ParseSignedOfMagnitude(negative, u, m);
    ParseIntOfSigned(negative, u);
    assert ParseInt(sign + u) == Some(if negative then -(m as int) else m);
  }

  /** After "0x", `parseInt` reads hexadecimal digits up to the first
      non-hexadecimal character. */
  lemma {:induction false} ParseIntOfHex(h: string, rest: string)
    requires |h| > 0 && forall k :: 0 <= k < |h| ==> IsHexDigit(h[k])
    requires |rest| == 0 || !IsHexDigit(rest[0])
    ensures ParseInt("0x" + h + rest) == Some(HexValue(h) as int)
  {
    var u := "0x" + h + rest;
    ParseMagnitudeOfHex(h, rest);
    ParseSignedOfMagnitude(false, u, HexValue(h));
    ParseIntOfSigned(false, u);
    assert (if false then "-" else "") + u == u;
  }

  /** Without a '-' in the text the result is never negative. */
  lemma ParseIntWithoutMinus(s: string)
    requires forall k :: 0 <= k < |s| ==> s[k] != '-'
    ensures ParseInt(s).Some? ==> ParseInt(s).value >= 0
  {
    var t := TrimStart(s);
    assert |t| > 0 ==> t[0] == s[|s| - |t|];
  }

  /** `parseInt` reads back a non-negative number written with `toString` and
      left-padded with zeros. */
  lemma ParseIntOfPaddedDecimal(n: nat, width: nat)
    ensures ParseInt(PadStart(DecimalString(n), width, '0')) == Some(n)
  {
    var d := DecimalString(n);
    var p := PadStart(d, width, '0');
    DecimalValueIgnoresLeadingZeros(|p| - |d|, d);
    DecimalValueOfDecimalString(n);
    ParseIntOfDigits(p);
  }

  lemma ParseIntOfDigits(p: string)
    requires |p| > 0 && AllDigits(p)
    ensures ParseInt(p) == Some(DecimalValue(p) as int)
  {
    TrimStartOfDigits(p);
    assert !(p[0] == '-' || p[0] == '+');
    ParseMagnitudeOfDigits(p);
  }

  lemma ParseMagnitudeOfDigits(p: string)
    requires |p| > 0 && AllDigits(p)
    ensures ParseMagnitude(p) == Some(DecimalValue(p))
  {
    assert |p| >= 2 ==> IsDigit(p[1]);
    DigitPrefixOfDigits(p);
  }

  lemma TrimStartOfDigits(p: string)
    requires |p| > 0 && IsDigit(p[0])
    ensures TrimStart(p) == p
  {
    assert !IsJsWhitespace(p[0]);
  }

  lemma {:induction false} DigitPrefixOfDigits(p: string)
    requires AllDigits(p)
    ensures DigitPrefix(p) == p
    decreases |p|
  {
    if |p| > 0 {
      DigitPrefixOfDigits(p[1..]);
      assert [p[0]] + p[1..] == p;
    }
  }

}

/** Colour arithmetic of the simulator: `lightenColor` and `darkenColor` read a
    `#RRGGBB` string with `parseInt(…, 16)`, shift each 8-bit channel by an
    integer amount, clamp it to [0, 255] and write the result back with the
    `(0x1000000 + v).toString(16).slice(1)` trick.

    The JavaScript pieces are modelled as the language defines them:
    `String.prototype.replace` with a string pattern replaces only the first
    occurrence; `parseInt` with radix 16 skips leading white space, accepts a
    sign and a `0x`/`0X` prefix and reads the longest run of hex digits, giving
    NaN when there is none; the shift and mask operators first apply ToInt32,
    which maps NaN to 0. */
module Colour {
  import opened Wrappers

  /** A colour as three integer channels, red, green and blue. */
  datatype Rgb = Rgb(r: int, g: int, b: int)

  predicate IsChannel(v: int) { 0 <= v <= 255 }

  predicate IsByteRgb(c: Rgb) { IsChannel(c.r) && IsChannel(c.g) && IsChannel(c.b) }

  /* ---------------------------------------------------------------------- */
  /* Hex digits                                                              */
  /* ---------------------------------------------------------------------- */

  predicate IsHexDigit(c: char) {
    '0' <= c <= '9' || 'a' <= c <= 'f' || 'A' <= c <= 'F'
  }

  predicate IsLowerHexDigit(c: char) {
    '0' <= c <= '9' || 'a' <= c <= 'f'
  }

  predicate AllHex(s: string) {
    forall i :: 0 <= i < |s| ==> IsHexDigit(s[i])
  }

  predicate AllLowerHex(s: string) {
    forall i :: 0 <= i < |s| ==> IsLowerHexDigit(s[i])
  }

  /** The value of one hex digit, either case. */
  function DigitValue(c: char): (v: nat)
    requires IsHexDigit(c)
    ensures v < 16
  {
    if '0' <= c <= '9' then c as int - '0' as int
    else if 'a' <= c <= 'f' then c as int - 'a' as int + 10
    else c as int - 'A' as int + 10
  }

  /** The digit `toString(16)` writes for a value below 16: always lower case. */
  function LowerDigit(d: nat): (c: char)
    requires d < 16
    ensures IsLowerHexDigit(c) && DigitValue(c) == d
  {
    if d < 10 then ('0' as int + d) as char else ('a' as int + d - 10) as char
  }

  function Pow16(k: nat): (p: nat)
    ensures p >= 1
  {
    if k == 0 then 1 else 16 * Pow16(k - 1)
  }

  /** The value of a run of hex digits, most significant first. */
  function HexValue(s: string): (v: nat)
    requires AllHex(s)
    ensures v < Pow16(|s|)
  {
    if |s| == 0 then 0 else HexValue(s[..|s| - 1]) * 16 + DigitValue(s[|s| - 1])
  }

  /* ---------------------------------------------------------------------- */
  /* Number.prototype.toString(16) and the fixed-width digits it yields      */
  /* ---------------------------------------------------------------------- */

  /** `n.toString(16)` for a non-negative integer: lower case, most significant
      digit first, no leading zeros. */
  function ToHex(n: nat): (s: string)
    ensures |s| >= 1 && AllLowerHex(s)
  {
    if n < 16 then [LowerDigit(n)] else ToHex(n / 16) + [LowerDigit(n % 16)]
  }

  /** Reading `n.toString(16)` back gives `n`, and above one digit it has no
      leading zero. */
  lemma {:induction false} ToHexRoundTrip(n: nat)
    ensures AllHex(ToHex(n)) && HexValue(ToHex(n)) == n
    ensures n >= 16 ==> ToHex(n)[0] != '0'
  {
    var s := ToHex(n);
    assert AllHex(s) by {
      forall i | 0 <= i < |s| ensures IsHexDigit(s[i]) { assert IsLowerHexDigit(s[i]); }
    }
    if n >= 16 {
      ToHexRoundTrip(n / 16);
      assert s[..|s| - 1] == ToHex(n / 16);
      if n / 16 < 16 {
        assert ToHex(n / 16) == [LowerDigit(n / 16)];
      }
    }
  }

  /** The lowest `k` hex digits of `v`, lower case, zero padded. */
  function Digits(v: nat, k: nat): (s: string)
    ensures |s| == k && AllLowerHex(s)
  {
    if k == 0 then [] else Digits(v / 16, k - 1) + [LowerDigit(v % 16)]
  }

  /** Reading back `k` zero-padded digits gives the value, when it fits. */
  lemma {:induction false} DigitsRoundTrip(v: nat, k: nat)
    requires v < Pow16(k)
    ensures AllHex(Digits(v, k)) && HexValue(Digits(v, k)) == v
  {
    var s := Digits(v, k);
    assert AllHex(s) by {
      forall i | 0 <= i < |s| ensures IsHexDigit(s[i]) {
        assert IsLowerHexDigit(s[i]);
      }
    }
    if k > 0 {
      DigitsRoundTrip(v / 16, k - 1);
      assert s[..|s| - 1] == Digits(v / 16, k - 1);
    }
  }

  /** The `0x1000000 + v` trick: adding `16^k` puts a `1` in front of exactly
      `k` zero-padded digits of `v`, so `.slice(1)` leaves those digits. */
  lemma {:induction false} ToHexOfLeadingOne(v: nat, k: nat)
    requires v < Pow16(k)
    ensures ToHex(Pow16(k) + v) == ['1'] + Digits(v, k)
  {
    if k > 0 {
      var n := Pow16(k) + v;
      var p := Pow16(k - 1);
      assert n == 16 * p + v;
      assert n / 16 == p + v / 16 && n % 16 == v % 16;
      ToHexOfLeadingOne(v / 16, k - 1);
    }
  }

  /* ---------------------------------------------------------------------- */
  /* parseInt(s, 16)                                                        */
  /* ---------------------------------------------------------------------- */

  /** `s.replace("#", "")`: a string pattern replaces its first occurrence only. */
  function RemoveFirstHash(s: string): (r: string)
    ensures '#' !in s ==> r == s
    ensures forall i {:trigger s[..i]} :: 0 <= i < |s| && s[i] == '#' && '#' !in s[..i] ==>
              r == s[..i] + s[i + 1..]
  {
    if |s| == 0 then s
    else if s[0] == '#' then s[1..]
    else
      var t := RemoveFirstHash(s[1..]);
      // A `#` at `i > 0` is the first one of `s[1..]` at `i - 1`.
      assert forall i :: 0 <= i < |s| && s[i] == '#' && '#' !in s[..i] ==>
               [s[0]] + t == s[..i] + s[i + 1..] by {
        forall i | 0 <= i < |s| && s[i] == '#' && '#' !in s[..i]
          ensures [s[0]] + t == s[..i] + s[i + 1..]
        {
          assert s[1..][i - 1] == '#';
          assert s[1..][..i - 1] == s[1..i];
          assert s[1..][i..] == s[i + 1..];
          assert s[..i] == [s[0]] + s[1..i];
        }
      }
      [s[0]] + t
  }

  /** The white space and line terminators `parseInt` skips (the ECMAScript
      StrWhiteSpaceChar set, with the Unicode space separators). */
  predicate IsJsWhiteSpace(c: char) {
    var k := c as int;
    k == 0x09 || k == 0x0A || k == 0x0B || k == 0x0C || k == 0x0D || k == 0x20
    || k == 0xA0 || k == 0x1680 || (0x2000 <= k <= 0x200A) || k == 0x2028
    || k == 0x2029 || k == 0x202F || k == 0x205F || k == 0x3000 || k == 0xFEFF
  }

  function TrimStart(s: string): (r: string)
    ensures |r| <= |s| && r == s[|s| - |r|..]
    ensures |r| > 0 ==> !IsJsWhiteSpace(r[0])
  {
    if |s| > 0 && IsJsWhiteSpace(s[0]) then TrimStart(s[1..]) else s
  }

  /** The longest prefix of `s` made of hex digits. */
  function HexPrefix(s: string): (d: string)
    ensures d <= s && AllHex(d)
    ensures |d| < |s| ==> !IsHexDigit(s[|d|])
  {
    if |s| > 0 && IsHexDigit(s[0]) then [s[0]] + HexPrefix(s[1..]) else []
  }

  /** `parseInt(s, 16)`; `None` stands for NaN. Integer results only: the
      value is exact, where JavaScript rounds runs longer than 13 digits. */
  function ParseInt16(s: string): (r: Option<int>)
    ensures r.None? <==> HexPrefix(UnPrefixed(s)) == []
  {
    var d := HexPrefix(UnPrefixed(s));
    var v: int := if |d| == 0 then 0 else HexValue(d);
    if |d| == 0 then None
    else if IsNegative(s) then Some(-v)
    else Some(v)
  }

  /** The sign `parseInt` reads after the white space. */
  predicate IsNegative(s: string) {
    var t := TrimStart(s);
    |t| > 0 && t[0] == '-'
  }

  /** What `parseInt` scans for digits: the string after white space, sign and
      a `0x` / `0X` prefix. */
  function UnPrefixed(s: string): string {
    var t := TrimStart(s);
    var u := if |t| > 0 && (t[0] == '-' || t[0] == '+') then t[1..] else t;
    if |u| >= 2 && u[0] == '0' && (u[1] == 'x' || u[1] == 'X') then u[2..] else u
  }

  /** A string of hex digits alone is read as exactly its value. */
  lemma ParseAllHex(s: string)
    requires |s| > 0 && AllHex(s)
    ensures ParseInt16(s) == Some(HexValue(s))
  {
    assert !IsJsWhiteSpace(s[0]);
    assert TrimStart(s) == s;
    assert |s| >= 2 ==> s[1] != 'x' && s[1] != 'X';
    assert UnPrefixed(s) == s;
    HexPrefixOfAllHex(s);
  }

  /** The general reading of `parseInt(s, 16)`: white space, an optional
      sign, an optional `0x` / `0X`, a run of hex digits, then anything that
      does not continue the run. A bare `0` directly followed by `x` would
      itself be read as the prefix, so that one split is excluded. */
  lemma ParseInt16Value(w: string, sign: string, prefix: string, d: string, rest: string)
    requires forall k :: 0 <= k < |w| ==> IsJsWhiteSpace(w[k])
    requires sign == "" || sign == "+" || sign == "-"
    requires prefix == "" || prefix == "0x" || prefix == "0X"
    requires |d| > 0 && AllHex(d)
    requires |rest| == 0 || !IsHexDigit(rest[0])
    requires prefix == "" && d == "0" && |rest| > 0 ==> rest[0] != 'x' && rest[0] != 'X'
    ensures ParseInt16(w + sign + prefix + d + rest)
            == Some(if sign == "-" then -(HexValue(d) as int) else HexValue(d))
  {
    var s := w + sign + prefix + d + rest;
    var u := prefix + d + rest;
    assert IsHexDigit(u[0]) by {
      if prefix == "" { assert u[0] == d[0]; } else { assert u[0] == '0'; }
    }
    Regroup(w, sign, prefix, d, rest);
    SignedStart(w, sign, u);
    UnPrefixedPart(prefix, d, rest);
    HexPrefixStops(d, rest);
    ReadDigits(s, d);
  }

  /** Once the digit run is known, the value follows, negated after a `-`. */
  lemma ReadDigits(s: string, d: string)
    requires |d| > 0 && HexPrefix(UnPrefixed(s)) == d
    ensures ParseInt16(s).Some?
    ensures ParseInt16(s).value == if IsNegative(s) then -(HexValue(d) as int) else HexValue(d)
  {
  }

  lemma Regroup(w: string, sign: string, prefix: string, d: string, rest: string)
    ensures w + sign + prefix + d + rest == w + (sign + (prefix + d + rest))
  {
  }

  /** After the white space, `parseInt` sees the sign and then `u`. */
  lemma SignedStart(w: string, sign: string, u: string)
    requires forall k :: 0 <= k < |w| ==> IsJsWhiteSpace(w[k])
    requires sign == "" || sign == "+" || sign == "-"
    requires |u| > 0 && IsHexDigit(u[0])
    ensures IsNegative(w + (sign + u)) <==> sign == "-"
    ensures UnPrefixed(w + (sign + u)) == UnPrefixed(u)
  {
    var t := sign + u;
    HexDigitIsNotWhiteSpace(u[0]);
    assert t[0] == '-' <==> sign == "-";
    assert t[0] == '+' <==> sign == "+";
    assert !IsJsWhiteSpace(t[0]);
    TrimStartOfWhiteSpace(w, t);
    UnsignedUnPrefixed(u);
    AfterTrim(w + t, t);
    assert (if t[0] == '-' || t[0] == '+' then t[1..] else t) == u;
  }

  /** What `IsNegative` and `UnPrefixed` see once the white space is gone. */
  lemma AfterTrim(s: string, t: string)
    requires TrimStart(s) == t
    ensures IsNegative(s) <==> |t| > 0 && t[0] == '-'
    ensures UnPrefixed(s)
            == var v := if |t| > 0 && (t[0] == '-' || t[0] == '+') then t[1..] else t;
               if |v| >= 2 && v[0] == '0' && (v[1] == 'x' || v[1] == 'X') then v[2..] else v
  {
  }

  /** The optional `0x` is dropped in front of the digit run. */
  lemma UnPrefixedPart(prefix: string, d: string, rest: string)
    requires prefix == "" || prefix == "0x" || prefix == "0X"
    requires |d| > 0 && AllHex(d)
    requires prefix == "" && d == "0" && |rest| > 0 ==> rest[0] != 'x' && rest[0] != 'X'
    ensures UnPrefixed(prefix + d + rest) == d + rest
  {
    var u := prefix + d + rest;
    if prefix == "" {
      assert u == d + rest;
      HexDigitIsNotWhiteSpace(d[0]);
      UnsignedUnPrefixed(u);
      if |u| >= 2 && u[0] == '0' {
        if |d| == 1 {
          assert d == "0";
        } else {
          assert u[1] == d[1];
        }
      }
    } else {
      assert u[0] == '0' && (u[1] == 'x' || u[1] == 'X');
      UnsignedUnPrefixed(u);
      assert u[2..] == d + rest;
    }
  }

  /** Without leading white space or a sign, only a `0x` / `0X` is skipped. */
  lemma UnsignedUnPrefixed(u: string)
    requires |u| > 0 && !IsJsWhiteSpace(u[0]) && u[0] != '-' && u[0] != '+'
    ensures UnPrefixed(u)
            == if |u| >= 2 && u[0] == '0' && (u[1] == 'x' || u[1] == 'X') then u[2..] else u
  {
    TrimStartOfWhiteSpace([], u);
    assert [] + u == u;
  }

  lemma HexDigitIsNotWhiteSpace(c: char)
    requires IsHexDigit(c)
    ensures !IsJsWhiteSpace(c) && c != '-' && c != '+'
  {
  }

  lemma {:induction false} TrimStartOfWhiteSpace(w: string, t: string)
    requires forall k :: 0 <= k < |w| ==> IsJsWhiteSpace(w[k])
    requires |t| > 0 && !IsJsWhiteSpace(t[0])
    ensures TrimStart(w + t) == t
  {
    if |w| > 0 {
      assert (w + t)[1..] == w[1..] + t;
      TrimStartOfWhiteSpace(w[1..], t);
    } else {
      assert w + t == t;
    }
  }

  lemma {:induction false} HexPrefixStops(d: string, rest: string)
    requires AllHex(d)
    requires |rest| == 0 || !IsHexDigit(rest[0])
    ensures HexPrefix(d + rest) == d
  {
    if |d| > 0 {
      assert (d + rest)[1..] == d[1..] + rest;
      HexPrefixStops(d[1..], rest);
    } else {
      assert d + rest == rest;
    }
  }

  lemma {:induction false} HexPrefixOfAllHex(s: string)
    requires AllHex(s)
    ensures HexPrefix(s) == s
  {
    if |s| > 0 {
      HexPrefixOfAllHex(s[1..]);
    }
  }

  /* ---------------------------------------------------------------------- */
  /* ToInt32 and the channel shifts                                          */
  /* ---------------------------------------------------------------------- */

  /** ECMAScript ToInt32 on an integer: wrap modulo 2^32 into the signed range. */
  function ToInt32(v: int): (r: int)
    ensures -0x8000_0000 <= r < 0x8000_0000
    ensures (v - r) % 0x1_0000_0000 == 0
  {
    var m := v % 0x1_0000_0000;
    if m >= 0x8000_0000 then m - 0x1_0000_0000 else m
  }

  /** The channels `lightenColor` and `darkenColor` take from a colour string:
      `num >> 16`, `num >> 8 & 0x00FF` and `num & 0x0000FF` where `num` is
      `parseInt(color.replace("#", ""), 16)`. Arithmetic shift is floor
      division, and masking with 0xFF is the remainder mod 256. */
  function Decode(color: string): (c: Rgb)
    ensures -0x8000 <= c.r < 0x8000 && IsChannel(c.g) && IsChannel(c.b)
  {
    var i := match ParseInt16(RemoveFirstHash(color))
      case None => 0
      case Some(v) => ToInt32(v);
    Rgb(i / 0x10000, (i / 0x100) % 0x100, i % 0x100)
  }

  /** A colour as the palette writes it: `#` and six hex digits of either case. */
  predicate IsHexColour(s: string) {
    |s| == 7 && s[0] == '#' && AllHex(s[1..])
  }

  /** What the colour functions return: `#` and six lower-case hex digits. */
  predicate IsLowerHexColour(s: string) {
    |s| == 7 && s[0] == '#' && AllLowerHex(s[1..])
  }

  /** HexValue of a concatenation: the left part is shifted by the right's width. */
  lemma {:induction false} HexValueAppend(a: string, b: string)
    requires AllHex(a) && AllHex(b)
    ensures AllHex(a + b)
    ensures HexValue(a + b) == HexValue(a) * Pow16(|b|) + HexValue(b)
  {
    assert AllHex(a + b) by {
      forall i | 0 <= i < |a + b| ensures IsHexDigit((a + b)[i]) {
        if i < |a| { assert (a + b)[i] == a[i]; } else { assert (a + b)[i] == b[i - |a|]; }
      }
    }
    if |b| == 0 {
      assert a + b == a;
    } else {
      var b', c := b[..|b| - 1], b[|b| - 1];
      assert (a + b)[..|a + b| - 1] == a + b';
      assert (a + b)[|a + b| - 1] == c;
      HexValueAppend(a, b');
      var x, y, p := HexValue(a), HexValue(b'), Pow16(|b'|);
      assert HexValue(a + b) == HexValue(a + b') * 16 + DigitValue(c);
      assert HexValue(b) == y * 16 + DigitValue(c);
      assert Pow16(|b|) == 16 * p;
      ShiftByDigit(x, p, y);
    }
  }

  lemma ShiftByDigit(x: int, p: int, y: int)
    ensures (x * p + y) * 16 == x * (16 * p) + y * 16
  {
  }

  /** The channels of a well-formed `#RRGGBB` string read digit pair by
      digit pair: the reference the shift-based `Decode` is checked against. */
  function HexChannels(s: string): (c: Rgb)
    requires IsHexColour(s)
    ensures IsByteRgb(c)
  {
    HexColourPairs(s);
    var r, g, b := HexValue(s[1..3]), HexValue(s[3..5]), HexValue(s[5..7]);
    assert Pow16(2) == 0x100 by { assert Pow16(1) == 16; }
    Rgb(r, g, b)
  }

  lemma HexColourPairs(s: string)
    requires IsHexColour(s)
    ensures AllHex(s[1..3]) && AllHex(s[3..5]) && AllHex(s[5..7])
  {
    var t := s[1..];
    forall i | 0 <= i < 2
      ensures IsHexDigit(s[1..3][i]) && IsHexDigit(s[3..5][i]) && IsHexDigit(s[5..7][i])
    {
      assert s[1..3][i] == t[i] && s[3..5][i] == t[i + 2] && s[5..7][i] == t[i + 4];
    }
  }

  /** A well-formed `#RRGGBB` string decodes to its three two-digit channels. */
  lemma DecodeHexColour(s: string)
    requires IsHexColour(s)
    ensures Decode(s) == HexChannels(s)
  {
    var t := s[1..];
    assert RemoveFirstHash(s) == t;
    var rr, gg, bb := s[1..3], s[3..5], s[5..7];
    assert t == rr + gg + bb;
    HexColourPairs(s);
    HexValueOfSix(rr, gg, bb);
    var v := HexValue(t);
    assert v == HexValue(rr) * 0x10000 + HexValue(gg) * 0x100 + HexValue(bb);
    DecodeOfValue(s, t);
    ChannelsOfPacked(v, HexValue(rr), HexValue(gg), HexValue(bb));
  }

  lemma HexValueOfSix(rr: string, gg: string, bb: string)
    requires |rr| == 2 && |gg| == 2 && |bb| == 2
    requires AllHex(rr) && AllHex(gg) && AllHex(bb)
    ensures AllHex(rr + gg + bb)
    ensures HexValue(rr + gg + bb) == HexValue(rr) * 0x10000 + HexValue(gg) * 0x100 + HexValue(bb)
  {
    assert Pow16(2) == 0x100 by { assert Pow16(1) == 16; }
    HexValueAppend(rr, gg);
    var rg := HexValue(rr + gg);
    assert rg == HexValue(rr) * 0x100 + HexValue(gg);
    HexValueAppend(rr + gg, bb);
    assert HexValue(rr + gg + bb) == rg * 0x100 + HexValue(bb);
  }

  /** A string whose `#`-less remainder is a run of hex digits worth less than
      2^24 decodes to that value's three bytes. */
  lemma DecodeOfValue(s: string, t: string)
    requires RemoveFirstHash(s) == t && |t| > 0 && AllHex(t) && HexValue(t) < 0x1000000
    ensures var v := HexValue(t);
      Decode(s) == Rgb(v / 0x10000, (v / 0x100) % 0x100, v % 0x100)
  {
    ParseAllHex(t);
    var v := HexValue(t);
    assert ToInt32(v) == v;
  }

  /** The three shifts undo the packing `r * 0x10000 + g * 0x100 + b`. */
  lemma ChannelsOfPacked(v: int, r: int, g: int, b: int)
    requires IsChannel(r) && IsChannel(g) && IsChannel(b)
    requires v == r * 0x10000 + g * 0x100 + b
    ensures Rgb(v / 0x10000, (v / 0x100) % 0x100, v % 0x100) == Rgb(r, g, b)
  {
    assert v / 0x100 == r * 0x100 + g;
  }

  /* ---------------------------------------------------------------------- */
  /* Encoding and the two colour operations                                  */
  /* ---------------------------------------------------------------------- */

  /** `"#" + (0x1000000 + r * 0x10000 + g * 0x100 + b).toString(16).slice(1)`:
      exactly six lower-case digits, and reading them back gives the channels. */
  function Encode(c: Rgb): (s: string)
    requires IsByteRgb(c)
    ensures IsLowerHexColour(s)
    ensures Decode(s) == c
  {
    var v := c.r * 0x10000 + c.g * 0x100 + c.b;
    assert Pow16(6) == 0x1000000 by {
      assert Pow16(2) == 0x100 && Pow16(4) == 0x10000;
    }
    ToHexOfLeadingOne(v, 6);
    var s := "#" + ToHex(0x1000000 + v)[1..];
    assert s == "#" + Digits(v, 6);
    DecodeEncoded(c, s, v);
    s
  }

  lemma DecodeEncoded(c: Rgb, s: string, v: int)
    requires IsByteRgb(c) && v == c.r * 0x10000 + c.g * 0x100 + c.b
    requires 0 <= v < Pow16(6) && Pow16(6) == 0x1000000
    requires s == "#" + Digits(v, 6)
    ensures Decode(s) == c
  {
    var t := Digits(v, 6);
    assert '#' !in t by {
      forall i | 0 <= i < |t| ensures t[i] != '#' { assert IsLowerHexDigit(t[i]); }
    }
    assert s[0] == '#' && s[1..] == t;
    assert RemoveFirstHash(s) == t;
    DigitsRoundTrip(v, 6);
    DecodeOfValue(s, t);
    ChannelsOfPacked(v, c.r, c.g, c.b);
  }

  /** The clamp every channel goes through, written the usual way. */
  function Clamp(v: int): (r: int)
    ensures IsChannel(r)
    ensures IsChannel(v) ==> r == v
    ensures v < 0 ==> r == 0
    ensures v > 255 ==> r == 255
  {
    if v < 0 then 0 else if v > 255 then 255 else v
  }

  /** The clamp as `lightenColor` writes it: `R < 255 ? R < 1 ? 0 : R : 255`. */
  function LightenClamp(v: int): (r: int)
    ensures r == Clamp(v)
  {
    if v < 255 then (if v < 1 then 0 else v) else 255
  }

  /** The clamp as `darkenColor` writes it: `R > 255 ? 255 : R < 0 ? 0 : R`. */
  function DarkenClamp(v: int): (r: int)
    ensures r == Clamp(v)
  {
    if v > 255 then 255 else if v < 0 then 0 else v
  }

  /** Every channel of the input shifted by `amt` and clamped. */
  function Shifted(c: Rgb, amt: int): (d: Rgb)
    ensures IsByteRgb(d)
  {
    Rgb(Clamp(c.r + amt), Clamp(c.g + amt), Clamp(c.b + amt))
  }

  /** `lightenColor(color, percent)` with `amt = Math.round(2.55 * percent)`
      given directly. */
  function Lighten(color: string, amt: int): (s: string)
    ensures IsLowerHexColour(s)
    ensures Decode(s) == Shifted(Decode(color), amt)
  {
    var c := Decode(color);
    Encode(Rgb(LightenClamp(c.r + amt), LightenClamp(c.g + amt), LightenClamp(c.b + amt)))
  }

  /** `darkenColor(color, percent)` with `amt = Math.round(2.55 * percent)`
      given directly. */
  function Darken(color: string, amt: int): (s: string)
    ensures IsLowerHexColour(s)
    ensures Decode(s) == Shifted(Decode(color), -amt)
  {
    var c := Decode(color);
    Encode(Rgb(DarkenClamp(c.r - amt), DarkenClamp(c.g - amt), DarkenClamp(c.b - amt)))
  }

  /** Darkening is lightening by the opposite amount. */
  lemma DarkenIsNegativeLighten(color: string, amt: int)
    ensures Darken(color, amt) == Lighten(color, -amt)
  {
  }

  /** On a palette colour `#RRGGBB` each channel of the result is that
      channel's two-digit value shifted by `amt` and clamped. */
  lemma LightenHexColour(color: string, amt: int)
    requires IsHexColour(color)
    ensures Decode(Lighten(color, amt)) == Shifted(HexChannels(color), amt)
  {
    DecodeHexColour(color);
  }

  /** Lightening a `#RRGGBB` colour (upper or lower case, as in the stone
      table) and darkening it back by the same amount restores its channels
      when no channel was clamped on the way up. */
  lemma LightenThenDarken(color: string, amt: int)
    requires IsHexColour(color) && amt >= 0
    requires var c := Decode(color); c.r + amt <= 255 && c.g + amt <= 255 && c.b + amt <= 255
    ensures Decode(Darken(Lighten(color, amt), amt)) == Decode(color)
  {
    DecodeHexColour(color);
  }

  /** The printed colour, read pair by pair as a `#RRGGBB` string, carries the
      shifted channels: the output is a valid input again. */
  lemma LightenPrintsHexChannels(color: string, amt: int)
    ensures IsHexColour(Lighten(color, amt))
    ensures HexChannels(Lighten(color, amt)) == Shifted(Decode(color), amt)
  {
    var s := Lighten(color, amt);
    LowerIsHexColour(s);
    DecodeHexColour(s);
  }

  lemma LowerIsHexColour(s: string)
    requires IsLowerHexColour(s)
    ensures IsHexColour(s)
  {
    var t := s[1..];
    forall i | 0 <= i < |t| ensures IsHexDigit(t[i]) { assert IsLowerHexDigit(t[i]); }
  }
}

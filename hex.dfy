/** hexToRGBA of the network view and the parseInt(s, 16) it relies on.
    A colour component is what the template literal prints: a number, NaN,
    or undefined when the hex string has neither 3 nor 6 digits. */
module HexColors {
  import opened Text

  datatype Component = Undefined | NaN | Num(n: int)

  /** How a component reads inside the template literal. */
  function ComponentText(c: Component): string {
    match c
    case Undefined => "undefined"
    case NaN => "NaN"
    case Num(n) => NumberString(n)
  }

  predicate IsHexDigit(c: char) {
    ('0' <= c <= '9') || ('a' <= c <= 'f') || ('A' <= c <= 'F')
  }

  /** The value of a hex digit (0 for any other character, which the
      parser never reads). */
  function HexValue(c: char): (v: nat)
    ensures v < 16
  {
    if '0' <= c <= '9' then c as int - '0' as int
    else if 'a' <= c <= 'f' then c as int - 'a' as int + 10
    else if 'A' <= c <= 'F' then c as int - 'A' as int + 10
    else 0
  }

  predicate AllHex(s: string) {
    forall i :: 0 <= i < |s| ==> IsHexDigit(s[i])
  }

  /** The value of a run of hex digits, most significant first. */
  function HexDigitsValue(s: string): nat
  {
    if s == [] then 0 else HexDigitsValue(s[..|s| - 1]) * 16 + HexValue(s[|s| - 1])
  }

  /** The length of the longest prefix of hex digits. */
  function HexRun(s: string): (k: nat)
    ensures k <= |s|
  {
    if s == [] || !IsHexDigit(s[0]) then 0 else 1 + HexRun(s[1..])
  }

  /** The run is all hex digits and stops at the first other character. */
  lemma {:induction false} HexRunDigits(s: string)
    ensures AllHex(s[..HexRun(s)])
    ensures HexRun(s) < |s| ==> !IsHexDigit(s[HexRun(s)])
  {
    if s != [] && IsHexDigit(s[0]) {
      HexRunDigits(s[1..]);
      var k := HexRun(s);
      assert forall i :: 1 <= i < k ==> s[..k][i] == s[1..][..k - 1][i - 1];
    }
  }

  /** s without one leading sign character. */
  function Unsigned(s: string): (r: string)
    ensures |r| <= |s|
  {
    if |s| > 0 && (s[0] == '-' || s[0] == '+') then s[1..] else s
  }

  /** s without one leading "0x" or "0X". */
  function Unprefixed(s: string): (r: string)
    ensures |r| <= |s|
  {
    if |s| >= 2 && s[0] == '0' && (s[1] == 'x' || s[1] == 'X') then s[2..] else s
  }

  /** The value of the longest leading run of hex digits; NaN without one. */
  function ReadHex(s: string): (r: Component)
    ensures r == NaN || (r.Num? && r.n >= 0)
  {
    var k := HexRun(s);
    if k == 0 then NaN else Num(HexDigitsValue(s[..k]))
  }

  function Negate(c: Component): Component {
    if c.Num? then Num(-c.n) else c
  }

  /** parseInt(s, 16) as ECMAScript defines it: skip leading white space,
      take an optional sign, drop an optional "0x"/"0X", then read the
      longest run of hex digits; no digits gives NaN. (-0 prints as 0.) */
  function ParseInt16(s: string): (r: Component)
    ensures r != Undefined
    ensures TrimStart(s) == [] ==> r == NaN
  {
    var s1 := TrimStart(s);
    var c := ReadHex(Unprefixed(Unsigned(s1)));
    if |s1| > 0 && s1[0] == '-' then Negate(c) else c
  }

  /** hex without one leading '#'. */
  function StripHash(hex: string): (s: string)
    ensures |s| <= |hex|
  {
    if |hex| > 0 && hex[0] == '#' then hex[1..] else hex
  }

  /** The two-character string of a repeated digit (c.repeat(2)). */
  function Doubled(c: char): (s: string)
    ensures |s| == 2 && s[0] == c && s[1] == c
  {
    [c, c]
  }

  /** The three two-digit strings lines 52-59 hand to parseInt: each digit
      doubled for 3 digits, the digit pairs for 6. */
  function Pairs(h: string): (p: (string, string, string))
    requires |h| == 3 || |h| == 6
    ensures |p.0| == 2 && |p.1| == 2 && |p.2| == 2
  {
    if |h| == 3 then (Doubled(h[0]), Doubled(h[1]), Doubled(h[2]))
    else (h[0..2], h[2..4], h[4..6])
  }

  /** The three components lines 50-60 compute: the parsed pairs for 3 or 6
      digits, and all undefined for any other length. */
  function Components(hex: string): (rgb: (Component, Component, Component))
    ensures (rgb.0 == Undefined || rgb.1 == Undefined || rgb.2 == Undefined) <==>
            |StripHash(hex)| != 3 && |StripHash(hex)| != 6
    ensures rgb.0 == Undefined <==> rgb.1 == Undefined
    ensures rgb.1 == Undefined <==> rgb.2 == Undefined
  {
    var h := StripHash(hex);
    if |h| == 3 || |h| == 6 then
      var p := Pairs(h);
      (ParseInt16(p.0), ParseInt16(p.1), ParseInt16(p.2))
    else (Undefined, Undefined, Undefined)
  }

  /** r opens with "rgba(" and closes with the alpha and ")". */
  predicate RgbaFrame(r: string, alpha: string) {
    |r| >= 6 + |alpha| && r[..5] == "rgba(" && r[|r| - |alpha| - 1..] == alpha + ")"
  }

  /** The template literal of line 61. */
  function RgbaText(rgb: (Component, Component, Component), alpha: string): (r: string)
    ensures RgbaFrame(r, alpha)
  {
    var pre := "rgba(" + ComponentText(rgb.0) + ", " + ComponentText(rgb.1) + ", " + ComponentText(rgb.2) + ", ";
    assert |pre| >= 5 && pre[..5] == "rgba(" by {
      Opens("rgba(", ComponentText(rgb.0) + ", " + ComponentText(rgb.1) + ", " + ComponentText(rgb.2) + ", ");
    }
    Framed(pre, alpha, ")");
    pre + alpha + ")"
  }

  /** hexToRGBA (lines 49-62); alpha is given as the text it prints as. The
      text opens with "rgba(" and closes with the alpha and ")". */
  function HexToRGBA(hex: string, alpha: string): (r: string)
    ensures RgbaFrame(r, alpha)
  {
    RgbaText(Components(hex), alpha)
  }

  /** A text that starts with a keeps starting with it. */
  lemma Opens(a: string, b: string)
    ensures (a + b)[..|a|] == a
  {
  }

  /** The head and the tail of a three-part text. */
  lemma Framed(a: string, b: string, c: string)
    ensures (a + b + c)[..|a|] == a && (a + b + c)[|a| + |b|..] == c
  {
    assert (a + b + c)[..|a|] == a;
    assert (a + b + c)[|a| + |b|..] == c;
  }

  // ------------------------------------------------------------- encoding

  /** The lower-case hex digit of v. */
  function HexDigit(v: nat): (c: char)
    requires v < 16
    ensures IsHexDigit(c) && HexValue(c) == v
  {
    if v < 10 then ('0' as int + v) as char else ('a' as int + v - 10) as char
  }

  /** The two-digit hex form of a byte. */
  function Hex2(v: nat): (s: string)
    requires v < 256
    ensures |s| == 2 && AllHex(s)
  {
    [HexDigit(v / 16), HexDigit(v % 16)]
  }

  /** Two hex digits parse as their value, in 0..255. */
  lemma ParsePair(s: string)
    requires |s| == 2 && IsHexDigit(s[0]) && IsHexDigit(s[1])
    ensures ParseInt16(s) == Num(HexValue(s[0]) * 16 + HexValue(s[1]))
    ensures 0 <= HexValue(s[0]) * 16 + HexValue(s[1]) <= 255
  {
    assert TrimStart(s) == s by {
      assert !IsSpace(s[0]);
    }
    assert Unsigned(s) == s;
    assert Unprefixed(s) == s;
    assert HexRun(s) == 2 by {
      assert s[1..][1..] == [];
      assert HexRun(s[1..]) == 1;
    }
    assert s[..2] == s;
    assert HexDigitsValue(s[..1]) == HexValue(s[0]) by {
      assert s[..1][..0] == [];
    }
    assert s[..|s| - 1] == s[..1];
  }

  /** At most two characters are worth at most 255. */
  lemma RunValueBound(s: string, k: nat)
    requires k <= |s| <= 2
    ensures HexDigitsValue(s[..k]) <= 255
    ensures k <= 1 ==> HexDigitsValue(s[..k]) <= 15
  {
    if k == 1 {
      assert s[..1][..0] == [];
    } else if k == 2 {
      var t := s[..2];
      assert t[..1] == s[..1] && s[..1][..0] == [];
      assert HexDigitsValue(s[..1]) <= 15;
    }
  }

  /** Any two characters parse as NaN or as a number in -15..255: "-f" is
      the most negative, "ff" the largest. */
  lemma ParsePairBounds(s: string)
    requires |s| == 2
    ensures ParseInt16(s) == NaN || -15 <= ParseInt16(s).n <= 255
  {
    var s1 := TrimStart(s);
    var s3 := Unprefixed(Unsigned(s1));
    var k := HexRun(s3);
    RunValueBound(s3, k);
    if |s1| > 0 && s1[0] == '-' {
      assert |s3| <= 1;
    }
  }

  /** The two-digit form of a byte parses back to the byte. */
  lemma Hex2RoundTrip(v: nat)
    requires v < 256
    ensures ParseInt16(Hex2(v)) == Num(v)
  {
    var hi, lo := v / 16, v % 16;
    assert hi * 16 + lo == v;
    var s := Hex2(v);
    assert s[0] == HexDigit(hi) && s[1] == HexDigit(lo);
    ParsePair(s);
  }

  /** A leading '#' is dropped. */
  lemma StripHashOf(h: string)
    ensures StripHash("#" + h) == h
  {
    assert ("#" + h)[1..] == h;
  }

  /** "#rrggbb" written from three bytes parses back to the three bytes. */
  lemma RgbaComponents(r: nat, g: nat, b: nat)
    requires r < 256 && g < 256 && b < 256
    ensures Components("#" + Hex2(r) + Hex2(g) + Hex2(b)) == (Num(r), Num(g), Num(b))
  {
    var x, y, z := Hex2(r), Hex2(g), Hex2(b);
    var h := x + y + z;
    assert "#" + x + y + z == "#" + h;
    StripHashOf(h);
    assert Pairs(h) == (x, y, z) by {
      assert h[0..2] == x && h[2..4] == y && h[4..6] == z;
    }
    Hex2RoundTrip(r);
    Hex2RoundTrip(g);
    Hex2RoundTrip(b);
  }

  /** The round trip: a colour written as "#rrggbb" reads back as its three
      bytes in decimal. */
  lemma RgbaRoundTrip(r: nat, g: nat, b: nat, alpha: string)
    requires r < 256 && g < 256 && b < 256
    ensures HexToRGBA("#" + Hex2(r) + Hex2(g) + Hex2(b), alpha) ==
            "rgba(" + Dec(r) + ", " + Dec(g) + ", " + Dec(b) + ", " + alpha + ")"
  {
    RgbaComponents(r, g, b);
    NumbersText("#" + Hex2(r) + Hex2(g) + Hex2(b), alpha, r, g, b);
  }

  /** Three numeric components print as their decimal texts. */
  lemma NumbersText(hex: string, alpha: string, r: nat, g: nat, b: nat)
    requires Components(hex) == (Num(r), Num(g), Num(b))
    ensures HexToRGBA(hex, alpha) == "rgba(" + Dec(r) + ", " + Dec(g) + ", " + Dec(b) + ", " + alpha + ")"
  {
    var rgb := Components(hex);
    assert ComponentText(rgb.0) == Dec(r);
    assert ComponentText(rgb.1) == Dec(g);
    assert ComponentText(rgb.2) == Dec(b);
  }

  /** The long form "#rrggbb", in either case: each component is the value
      of its two digits, the first one counting sixteen. */
  lemma LongForm(r1: char, r0: char, g1: char, g0: char, b1: char, b0: char)
    requires IsHexDigit(r1) && IsHexDigit(r0) && IsHexDigit(g1)
    requires IsHexDigit(g0) && IsHexDigit(b1) && IsHexDigit(b0)
    ensures Components("#" + [r1, r0, g1, g0, b1, b0]) ==
            (Num(16 * HexValue(r1) + HexValue(r0)),
             Num(16 * HexValue(g1) + HexValue(g0)),
             Num(16 * HexValue(b1) + HexValue(b0)))
  {
    var h := [r1, r0, g1, g0, b1, b0];
    StripHashOf(h);
    assert h[0..2] == [r1, r0] && h[2..4] == [g1, g0] && h[4..6] == [b1, b0];
    assert Pairs(h) == ([r1, r0], [g1, g0], [b1, b0]);
    assert Components("#" + h) == (ParseInt16([r1, r0]), ParseInt16([g1, g0]), ParseInt16([b1, b0]));
    ParseDigits(r1, r0);
    ParseDigits(g1, g0);
    ParseDigits(b1, b0);
  }

  /** Two hex digits, the first counting sixteen. */
  lemma ParseDigits(hi: char, lo: char)
    requires IsHexDigit(hi) && IsHexDigit(lo)
    ensures ParseInt16([hi, lo]) == Num(16 * HexValue(hi) + HexValue(lo))
  {
    var p := [hi, lo];
    assert p[0] == hi && p[1] == lo;
    ParsePair(p);
  }

  /** A doubled hex digit parses as 17 times the digit. */
  lemma ParseDoubled(c: char)
    requires IsHexDigit(c)
    ensures ParseInt16(Doubled(c)) == Num(17 * HexValue(c))
  {
    ParsePair(Doubled(c));
  }

  /** The short form "#rgb" doubles each digit: a component is 17 times its
      digit. */
  lemma ShortForm(x: char, y: char, z: char)
    requires IsHexDigit(x) && IsHexDigit(y) && IsHexDigit(z)
    ensures Components("#" + [x, y, z]) == (Num(17 * HexValue(x)), Num(17 * HexValue(y)), Num(17 * HexValue(z)))
  {
    StripHashOf([x, y, z]);
    assert Pairs([x, y, z]) == (Doubled(x), Doubled(y), Doubled(z));
    ParseDoubled(x);
    ParseDoubled(y);
    ParseDoubled(z);
  }

  /** Any length other than 3 or 6 (after the '#') prints three undefined
      components: neither branch of lines 51-59 assigns them. */
  lemma OtherLengths(hex: string, alpha: string)
    requires |StripHash(hex)| != 3 && |StripHash(hex)| != 6
    ensures HexToRGBA(hex, alpha) ==
            "rgba(" + "undefined" + ", " + "undefined" + ", " + "undefined" + ", " + alpha + ")"
  {
    assert Components(hex) == (Undefined, Undefined, Undefined);
  }

  /** A well formed colour of 3 or 6 hex digits, with or without '#', has
      every component a number in 0..255. */
  lemma ValidHexInRange(hex: string)
    requires var h := StripHash(hex); (|h| == 3 || |h| == 6) && AllHex(h)
    ensures var rgb := Components(hex);
            InByte(rgb.0) && InByte(rgb.1) && InByte(rgb.2)
  {
    var h := StripHash(hex);
    assert IsHexDigit(h[0]) && IsHexDigit(h[1]) && IsHexDigit(h[2]);
    if |h| == 3 {
      assert Pairs(h) == (Doubled(h[0]), Doubled(h[1]), Doubled(h[2]));
      PairInByte(Doubled(h[0]));
      PairInByte(Doubled(h[1]));
      PairInByte(Doubled(h[2]));
    } else {
      var x, y, z := h[0..2], h[2..4], h[4..6];
      assert Pairs(h) == (x, y, z);
      assert IsHexDigit(h[3]) && IsHexDigit(h[4]) && IsHexDigit(h[5]);
      PairInByte(x);
      PairInByte(y);
      PairInByte(z);
    }
  }

  /** Two hex digits parse to a byte. */
  lemma PairInByte(p: string)
    requires |p| == 2 && IsHexDigit(p[0]) && IsHexDigit(p[1])
    ensures InByte(ParseInt16(p))
  {
    ParsePair(p);
  }

  predicate InByte(c: Component) {
    c.Num? && 0 <= c.n <= 255
  }
}

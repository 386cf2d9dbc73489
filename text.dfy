/** String helpers shared by the model: JavaScript's whitespace set, trim,
    includes/indexOf, split and join, decimal rendering of numbers, the ASCII
    part of toLowerCase and String.prototype.replace with a one-character
    pattern (which replaces the first occurrence only). */
module Text {

  // ---------------------------------------------------------------- digits

  predicate IsDigit(c: char) { '0' <= c <= '9' }

  function Digit(d: nat): (c: char)
    requires d < 10
    ensures IsDigit(c)
  {
    ('0' as int + d) as char
  }

  function DigitValue(c: char): (d: nat)
    requires IsDigit(c)
    ensures d < 10 && Digit(d) == c
  {
    c as int - '0' as int
  }

  /** The decimal rendering of a natural number, as JavaScript's String(n)
      produces it for integers below 1e21 (no leading zeros). */
  function Dec(n: nat): (s: string)
    ensures |s| >= 1
    ensures forall i :: 0 <= i < |s| ==> IsDigit(s[i])
    ensures n >= 10 <==> |s| >= 2
    decreases n
  {
    if n < 10 then [Digit(n)] else Dec(n / 10) + [Digit(n % 10)]
  }

  /** Reads a string of decimal digits back into the number it denotes. */
  function ParseDec(s: string): nat
    requires forall i :: 0 <= i < |s| ==> IsDigit(s[i])
  {
    if s == [] then 0 else 10 * ParseDec(s[..|s| - 1]) + DigitValue(s[|s| - 1])
  }

  /** Dec and ParseDec are inverse: the rendering loses no information. */
  lemma {:induction false} DecRoundTrip(n: nat)
    ensures ParseDec(Dec(n)) == n
    decreases n
  {
    if n >= 10 {
      var s := Dec(n);
      assert s[..|s| - 1] == Dec(n / 10);
      DecRoundTrip(n / 10);
    }
  }

  /** Distinct numbers have distinct decimal renderings. */
  lemma DecInjective(m: nat, n: nat)
    requires m != n
    ensures Dec(m) != Dec(n)
  {
    DecRoundTrip(m);
    DecRoundTrip(n);
  }

  /** JavaScript's String(x) for an integer-valued number: a minus sign and
      the decimal digits of the magnitude. */
  function NumberString(n: int): (s: string)
    ensures n >= 0 ==> s == Dec(n)
    ensures n < 0 ==> s == "-" + Dec(-n)
  {
    if n < 0 then "-" + Dec(-n) else Dec(n)
  }

  // ------------------------------------------------------------ whitespace

  /** The characters JavaScript's trim() and parseInt() skip: WhiteSpace and
      LineTerminator of ECMAScript, the space separators (category Zs) spelled
      out. */
  predicate IsSpace(c: char) {
    c == '\t' || c == '\n' || c == '\U{000B}' || c == '\U{000C}' || c == '\r' ||
    c == ' ' || c == '\U{00A0}' || c == '\U{1680}' || ('\U{2000}' <= c <= '\U{200A}') ||
    c == '\U{2028}' || c == '\U{2029}' || c == '\U{202F}' || c == '\U{205F}' ||
    c == '\U{3000}' || c == '\U{FEFF}'
  }

  predicate AllSpace(s: string) { forall i :: 0 <= i < |s| ==> IsSpace(s[i]) }

  function TrimStart(s: string): (r: string)
    ensures |r| <= |s|
    ensures r == [] || !IsSpace(r[0])
  {
    if s != [] && IsSpace(s[0]) then TrimStart(s[1..]) else s
  }

  function TrimEnd(s: string): (r: string)
    ensures |r| <= |s|
    ensures r == [] || !IsSpace(r[|r| - 1])
  {
    if s != [] && IsSpace(s[|s| - 1]) then TrimEnd(s[..|s| - 1]) else s
  }

  /** Trimming the start leaves a suffix. */
  lemma {:induction false} TrimStartSuffix(s: string)
    ensures TrimStart(s) == s[|s| - |TrimStart(s)|..]
  {
    if s != [] && IsSpace(s[0]) {
      TrimStartSuffix(s[1..]);
    }
  }

  /** Trimming the end leaves a prefix. */
  lemma {:induction false} TrimEndPrefix(s: string)
    ensures TrimEnd(s) == s[..|TrimEnd(s)|]
  {
    if s != [] && IsSpace(s[|s| - 1]) {
      TrimEndPrefix(s[..|s| - 1]);
    }
  }

  /** Neither end of s is white space. */
  predicate Trimmed(s: string) {
    s == [] || (!IsSpace(s[0]) && !IsSpace(s[|s| - 1]))
  }

  /** String.prototype.trim. */
  function Trim(s: string): (r: string)
    ensures |r| <= |s| && Trimmed(r)
  {
    var t := TrimStart(s);
    TrimEndPrefix(t);
    TrimEnd(t)
  }

  lemma {:induction false} TrimStartSkipsSpace(w: string, s: string)
    requires AllSpace(w)
    ensures TrimStart(w + s) == TrimStart(s)
  {
    if w != [] {
      assert (w + s)[0] == w[0] && IsSpace(w[0]);
      assert (w + s)[1..] == w[1..] + s;
      TrimStartSkipsSpace(w[1..], s);
    } else {
      assert w + s == s;
    }
  }

  lemma {:induction false} TrimEndSkipsSpace(s: string, w: string)
    requires AllSpace(w)
    ensures TrimEnd(s + w) == TrimEnd(s)
  {
    if w != [] {
      assert (s + w)[|s + w| - 1] == w[|w| - 1] && IsSpace(w[|w| - 1]);
      assert (s + w)[..|s + w| - 1] == s + w[..|w| - 1];
      TrimEndSkipsSpace(s, w[..|w| - 1]);
    } else {
      assert s + w == s;
    }
  }

  /** Trimming from the front of s + w, where w is blank, either eats all of
      s and w or stops inside s. */
  lemma {:induction false} TrimStartAppend(s: string, w: string)
    requires AllSpace(w)
    ensures AllSpace(s) ==> TrimStart(s + w) == []
    ensures !AllSpace(s) ==> TrimStart(s + w) == TrimStart(s) + w
  {
    if s == [] {
      assert s + w == w;
      TrimStartSkipsSpace(w, []);
      assert w + [] == w;
    } else {
      assert (s + w)[0] == s[0];
      assert (s + w)[1..] == s[1..] + w;
      if IsSpace(s[0]) {
        TrimStartAppend(s[1..], w);
        assert AllSpace(s[1..]) ==> AllSpace(s) by {
          if AllSpace(s[1..]) {
            forall i | 1 <= i < |s| ensures IsSpace(s[i]) { assert s[i] == s[1..][i - 1]; }
          }
        }
      }
    }
  }

  /** Blank text around s does not change s's trimmed form. */
  lemma TrimIgnoresSpace(w1: string, s: string, w2: string)
    requires AllSpace(w1) && AllSpace(w2)
    ensures Trim(w1 + s + w2) == Trim(s)
  {
    assert w1 + s + w2 == w1 + (s + w2);
    TrimStartSkipsSpace(w1, s + w2);
    TrimStartAppend(s, w2);
    if AllSpace(s) {
      TrimStartAppend(s, []);
      assert s + [] == s;
    } else {
      TrimEndSkipsSpace(TrimStart(s), w2);
    }
  }

  // ---------------------------------------------------- includes / indexOf

  /** p occurs in s at position i. */
  predicate MatchAt(s: string, p: string, i: int) {
    0 <= i && i + |p| <= |s| && s[i..i + |p|] == p
  }

  /** String.prototype.includes. */
  predicate Contains(s: string, p: string) {
    exists i :: 0 <= i <= |s| - |p| && MatchAt(s, p, i)
  }

  lemma ContainsAt(s: string, p: string, i: int)
    requires MatchAt(s, p, i)
    ensures Contains(s, p)
  {
  }

  /** Searches for p in s from position i on. */
  function FindFrom(s: string, p: string, i: nat): (r: int)
    requires i <= |s| + 1
    ensures r == -1 || (i <= r && MatchAt(s, p, r))
    ensures forall k :: i <= k && (r == -1 || k < r) ==> !MatchAt(s, p, k)
    decreases |s| + 1 - i
  {
    if i + |p| > |s| then -1
    else if s[i..i + |p|] == p then i
    else FindFrom(s, p, i + 1)
  }

  /** String.prototype.indexOf: the first position of p in s, or -1. */
  function IndexOf(s: string, p: string): (r: int)
    ensures r == -1 <==> !Contains(s, p)
    ensures r != -1 ==> MatchAt(s, p, r) && forall k :: 0 <= k < r ==> !MatchAt(s, p, k)
  {
    var r := FindFrom(s, p, 0);
    if r == -1 then
      assert forall k :: 0 <= k <= |s| - |p| ==> !MatchAt(s, p, k);
      r
    else
      ContainsAt(s, p, r);
      r
  }

  /** Each character inside an occurrence of p is a character of p. */
  lemma MatchCovers(s: string, p: string, i: int, k: int)
    requires MatchAt(s, p, i) && i <= k < i + |p|
    ensures s[k] in p
  {
    assert s[k] == s[i..i + |p|][k - i];
  }

  /** A piece of s without the character c cannot hold a match that crosses
      c; so a pattern without c that occurs in a + [c] + b occurs in a or b. */
  lemma ContainsAcross(a: string, c: char, b: string, p: string)
    requires c !in p
    requires Contains(a + [c] + b, p)
    ensures Contains(a, p) || Contains(b, p)
  {
    var s := a + [c] + b;
    var i :| 0 <= i <= |s| - |p| && MatchAt(s, p, i);
    if i + |p| <= |a| {
      assert a[i..i + |p|] == s[i..i + |p|];
      assert MatchAt(a, p, i);
    } else if i > |a| {
      assert b[i - |a| - 1..i - |a| - 1 + |p|] == s[i..i + |p|];
      assert MatchAt(b, p, i - |a| - 1);
    } else {
      MatchCovers(s, p, i, |a|);
      assert false;
    }
  }

  lemma ContainsSlice(s: string, lo: nat, hi: nat, p: string)
    requires lo <= hi <= |s|
    requires Contains(s[lo..hi], p)
    ensures Contains(s, p)
  {
    var t := s[lo..hi];
    var i :| 0 <= i <= |t| - |p| && MatchAt(t, p, i);
    assert t[i..i + |p|] == p;
    forall k | 0 <= k < |p| ensures s[lo + i..lo + i + |p|][k] == p[k] {
      assert t[i..i + |p|][k] == t[i + k] == s[lo + i + k];
    }
    assert MatchAt(s, p, lo + i);
  }

  /** When x ends with a character that p lacks and p does not occur in x,
      no occurrence of p in x + y starts inside x. */
  lemma NoMatchBeforeEnd(x: string, y: string, p: string)
    requires x != [] && x[|x| - 1] !in p
    requires !Contains(x, p)
    ensures forall i :: 0 <= i < |x| ==> !MatchAt(x + y, p, i)
  {
    forall i | 0 <= i < |x|
      ensures !MatchAt(x + y, p, i)
    {
      if i + |p| <= |x| {
        assert (x + y)[i..i + |p|] == x[i..i + |p|];
        assert !MatchAt(x, p, i);
      } else if i + |p| <= |x + y| {
        assert (x + y)[i..i + |p|][|x| - 1 - i] == x[|x| - 1];
      }
    }
  }

  // --------------------------------------------------------- split / join

  /** String.prototype.split with a non-empty separator: the pieces between
      successive non-overlapping occurrences, scanning left to right. */
  function Split(s: string, sep: string): (parts: seq<string>)
    requires |sep| > 0
    ensures |parts| >= 1
    ensures IndexOf(s, sep) == -1 ==> parts == [s]
    ensures IndexOf(s, sep) != -1 ==> |parts| >= 2
    decreases |s|
  {
    var i := IndexOf(s, sep);
    if i == -1 then [s] else [s[..i]] + Split(s[i + |sep|..], sep)
  }

  /** Array.prototype.join. */
  function Join(parts: seq<string>, sep: string): string
  {
    if parts == [] then []
    else if |parts| == 1 then parts[0]
    else parts[0] + sep + Join(parts[1..], sep)
  }

  lemma JoinCons(x: string, tail: seq<string>, sep: string)
    requires |tail| >= 1
    ensures Join([x] + tail, sep) == x + sep + Join(tail, sep)
  {
    assert ([x] + tail)[1..] == tail;
  }

  /** Joining two non-empty lists of pieces is joining each and putting
      one separator between. */
  lemma {:induction false} JoinAppend(a: seq<string>, b: seq<string>, sep: string)
    requires |a| >= 1 && |b| >= 1
    ensures Join(a + b, sep) == Join(a, sep) + sep + Join(b, sep)
  {
    if |a| == 1 {
      JoinCons(a[0], b, sep);
      assert a + b == [a[0]] + b;
    } else {
      JoinAppend(a[1..], b, sep);
      assert a + b == [a[0]] + (a[1..] + b);
      JoinCons(a[0], a[1..] + b, sep);
      JoinCons(a[0], a[1..], sep);
      assert a == [a[0]] + a[1..];
    }
  }

  /** Splitting and joining with the same separator gives the text back. */
  lemma {:induction false} SplitJoin(s: string, sep: string)
    requires |sep| > 0
    ensures Join(Split(s, sep), sep) == s
    decreases |s|
  {
    var i := IndexOf(s, sep);
    if i != -1 {
      SplitJoin(s[i + |sep|..], sep);
      SplitJoinFirst(s, sep, i);
    } else {
      assert Split(s, sep) == [s];
    }
  }

  /** The step of SplitJoin: when the text after the first separator
      round-trips, so does the whole text. */
  lemma SplitJoinFirst(s: string, sep: string, i: int)
    requires |sep| > 0 && i == IndexOf(s, sep) && i != -1
    requires Join(Split(s[i + |sep|..], sep), sep) == s[i + |sep|..]
    ensures Join(Split(s, sep), sep) == s
  {
    var head, rest := s[..i], s[i + |sep|..];
    var tail := Split(rest, sep);
    SplitFirst(s, sep);
    JoinCons(head, tail, sep);
    AroundMatch(s, sep, i);
  }

  /** Split at a first separator at i: the piece before it, then the split
      of the rest. */
  lemma SplitFirst(s: string, sep: string)
    requires |sep| > 0 && Contains(s, sep)
    ensures var i := IndexOf(s, sep);
            0 <= i && i + |sep| <= |s| && Split(s, sep) == [s[..i]] + Split(s[i + |sep|..], sep)
  {
  }

  /** Text with p at i is the text before p, p, and the text after. */
  lemma AroundMatch(s: string, p: string, i: int)
    requires MatchAt(s, p, i)
    ensures s == s[..i] + p + s[i + |p|..]
  {
    assert s == s[..i] + s[i..i + |p|] + s[i + |p|..];
  }

  /** The piece of s before the first occurrence of sep comes first. */
  lemma SplitAtFirst(x: string, sep: string, y: string)
    requires |sep| > 0
    requires forall i :: 0 <= i < |x| ==> !MatchAt(x + sep + y, sep, i)
    ensures Split(x + sep + y, sep) == [x] + Split(y, sep)
  {
    var s := x + sep + y;
    assert MatchAt(s, sep, |x|);
    var i := IndexOf(s, sep);
    assert i == |x|;
    assert s[..i] == x;
    assert s[i + |sep|..] == y;
  }

  /** Every piece produced by Split lies inside the text, so a pattern that
      is not in the text is in none of the pieces. */
  lemma {:induction false} SplitPiecesAvoid(s: string, sep: string, p: string)
    requires |sep| > 0
    requires !Contains(s, p)
    ensures forall k :: 0 <= k < |Split(s, sep)| ==> !Contains(Split(s, sep)[k], p)
    decreases |s|
  {
    var i := IndexOf(s, sep);
    if i != -1 {
      var rest := s[i + |sep|..];
      assert rest == s[i + |sep|..|s|];
      if Contains(rest, p) { ContainsSlice(s, i + |sep|, |s|, p); }
      if Contains(s[..i], p) { ContainsSlice(s, 0, i, p); }
      SplitPiecesAvoid(rest, sep, p);
    }
  }

  /** Joining pieces that avoid p with a one-character separator that p
      lacks gives text that avoids p. */
  lemma {:induction false} JoinAvoids(parts: seq<string>, c: char, p: string)
    requires |p| > 0 && c !in p
    requires forall k :: 0 <= k < |parts| ==> !Contains(parts[k], p)
    ensures !Contains(Join(parts, [c]), p)
  {
    if |parts| > 1 {
      JoinAvoids(parts[1..], c, p);
      if Contains(Join(parts, [c]), p) {
        ContainsAcross(parts[0], c, Join(parts[1..], [c]), p);
      }
    }
  }

  // ------------------------------------------------------ case / replace

  /** The ASCII part of String.prototype.toLowerCase. */
  function LowerAscii(c: char): char {
    if 'A' <= c <= 'Z' then (c as int + 32) as char else c
  }

  /** Lower-casing creates no space. */
  lemma LowerKeepsNoSpace(s: string)
    ensures ' ' !in s ==> ' ' !in ToLower(s)
  {
    if ' ' in ToLower(s) {
      var k :| 0 <= k < |s| && ToLower(s)[k] == ' ';
      assert s[k] == ' ';
    }
  }

  function ToLower(s: string): (r: string)
    ensures |r| == |s|
    ensures forall i :: 0 <= i < |s| ==> r[i] == LowerAscii(s[i])
  {
    seq(|s|, i requires 0 <= i < |s| => LowerAscii(s[i]))
  }

  /** Lower-casing works character by character, so it distributes over
      concatenation. */
  lemma ToLowerAppend(a: string, b: string)
    ensures ToLower(a + b) == ToLower(a) + ToLower(b)
  {
    var s, l := a + b, ToLower(a + b);
    var la, lb := ToLower(a), ToLower(b);
    forall k | 0 <= k < |s|
      ensures l[k] == (la + lb)[k]
    {
      if k < |a| {
        assert s[k] == a[k] && (la + lb)[k] == la[k];
      } else {
        assert s[k] == b[k - |a|] && (la + lb)[k] == lb[k - |a|];
      }
    }
  }

  /** String.prototype.replace with a one-character string pattern: only the
      first occurrence is replaced. */
  function ReplaceFirst(s: string, from: char, to: char): (r: string)
    ensures |r| == |s|
    ensures from !in s ==> r == s
    ensures from in s ==> to in r
  {
    if s == [] then []
    else if s[0] == from then [to] + s[1..]
    else [s[0]] + ReplaceFirst(s[1..], from, to)
  }

  /** The result of ReplaceFirst when the first occurrence of `from` is at i:
      that one character becomes `to`, everything else is kept. */
  lemma {:induction false} ReplaceFirstAt(s: string, from: char, to: char, i: nat)
    requires i < |s| && s[i] == from && from !in s[..i]
    ensures ReplaceFirst(s, from, to) == s[..i] + [to] + s[i + 1..]
  {
    if i > 0 {
      assert s[0] in s[..i];
      assert s[1..][..i - 1] == s[1..i];
      assert from !in s[1..][..i - 1];
      ReplaceFirstAt(s[1..], from, to, i - 1);
    }
  }
}

/** The handful of Python 2 string operations the script relies on, over
    `string == seq<char>`: `p in s`, `s.startswith(p)`, `s.find(p)`,
    `s[a:b]`, `''.join(xs)` and `int(s)`. */
module PyStr {
  import opened Wrappers

  /** `p` occurs in `s` starting at position `j`. */
  predicate OccursAt(s: string, p: string, j: int) {
    0 <= j && j + |p| <= |s| && s[j..j + |p|] == p
  }

  /** `s.startswith(p)`. */
  predicate StartsWith(s: string, p: string) {
    OccursAt(s, p, 0)
  }

  /** `s.find(p)`: the first position where `p` occurs, or -1. */
  function Find(s: string, p: string): (r: int)
    ensures r == -1 || OccursAt(s, p, r)
    ensures forall j :: 0 <= j && (r == -1 || j < r) ==> !OccursAt(s, p, j)
    decreases |s|
  {
    if |s| < |p| then -1
    else if s[..|p|] == p then 0
    else
      assert !OccursAt(s, p, 0);
      var r := Find(s[1..], p);
      ShiftOccurrences(s, p);
      if r == -1 then -1 else r + 1
  }

  /** An occurrence in `s[1..]` is an occurrence in `s` one place later. */
  lemma ShiftOccurrences(s: string, p: string)
    requires |s| > 0
    ensures forall j :: 0 <= j ==> (OccursAt(s[1..], p, j) <==> OccursAt(s, p, j + 1))
    ensures forall j :: 1 <= j ==> (OccursAt(s, p, j) <==> OccursAt(s[1..], p, j - 1))
  {
    forall j | 0 <= j
      ensures OccursAt(s[1..], p, j) <==> OccursAt(s, p, j + 1)
    {
      if 0 <= j && j + |p| <= |s| - 1 {
        assert s[1..][j..j + |p|] == s[j + 1..j + 1 + |p|];
      }
    }
  }

  /** `p in s`. */
  predicate Contains(s: string, p: string) {
    Find(s, p) >= 0
  }

  /** Once an occurrence is known to be the leftmost one, `find` returns it. */
  lemma FindLeftmost(s: string, p: string, j: int)
    requires OccursAt(s, p, j)
    requires forall i :: 0 <= i < j ==> !OccursAt(s, p, i)
    ensures Find(s, p) == j
  {
  }

  /** `''.join(xss)`: the pieces laid end to end. */
  function Join<T>(xss: seq<seq<T>>): seq<T> {
    if |xss| == 0 then [] else xss[0] + Join(xss[1..])
  }

  lemma {:induction false} JoinAppend<T>(a: seq<seq<T>>, b: seq<seq<T>>)
    ensures Join(a + b) == Join(a) + Join(b)
    decreases |a|
  {
    if |a| == 0 {
      assert a + b == b;
    } else {
      assert (a + b)[1..] == a[1..] + b;
      JoinAppend(a[1..], b);
    }
  }

  /** The first line containing `p`, as the loop
      `for l in lines: if p in l: break` finds it. */
  function FirstContaining(lines: seq<string>, p: string): (r: Option<nat>)
    ensures r.Some? ==> r.value < |lines| && Contains(lines[r.value], p)
    ensures forall j :: 0 <= j < |lines| && (r.None? || j < r.value) ==> !Contains(lines[j], p)
    decreases |lines|
  {
    if |lines| == 0 then None
    else if Contains(lines[0], p) then Some(0)
    else
      match FirstContaining(lines[1..], p)
      case None => None
      case Some(k) => Some(k + 1)
  }

  /** Python's reading of a slice bound against a sequence of length `len`:
      a negative bound counts from the end, and both are clamped. */
  function SliceBound(len: nat, x: int): (r: nat)
    ensures r <= len
    ensures 0 <= x <= len ==> r == x
    ensures x < 0 && 0 <= len + x ==> r == len + x
    ensures x > len ==> r == len
    ensures len + x < 0 ==> r == 0
  {
    if x < 0 then (if len + x < 0 then 0 else len + x)
    else if x > len then len
    else x
  }

  /** `s[a:b]` with Python's slice rules. */
  function Slice(s: string, a: int, b: int): (r: string)
    ensures 0 <= a <= b <= |s| ==> r == s[a..b]
    ensures 0 <= a <= |s| + b && -|s| <= b < 0 ==> r == s[a..|s| + b]
    ensures |r| <= |s|
  {
    var lo := SliceBound(|s|, a);
    var hi := SliceBound(|s|, b);
    if lo < hi then s[lo..hi] else []
  }

  /** The characters C's `isspace` accepts. */
  predicate IsSpace(c: char) {
    c == ' ' || c == '\t' || c == '\n' || c == '\r' || c == '\U{B}' || c == '\U{C}'
  }

  predicate IsDigit(c: char) {
    '0' <= c <= '9'
  }

  predicate AllSpace(s: string) {
    forall k :: 0 <= k < |s| ==> IsSpace(s[k])
  }

  predicate AllDigits(s: string) {
    forall k :: 0 <= k < |s| ==> IsDigit(s[k])
  }

  /** `s` with its leading whitespace removed. */
  function TrimLeft(s: string): (r: string)
    decreases |s|
  {
    if |s| > 0 && IsSpace(s[0]) then TrimLeft(s[1..]) else s
  }

  /** `s` with its trailing whitespace removed. */
  function TrimRight(s: string): (r: string)
    decreases |s|
  {
    if |s| > 0 && IsSpace(s[|s| - 1]) then TrimRight(s[..|s| - 1]) else s
  }

  /** The value of a string of decimal digits, most significant first. */
  function DigitsValue(s: string): nat
    requires AllDigits(s)
    decreases |s|
  {
    if |s| == 0 then 0
    else 10 * DigitsValue(s[..|s| - 1]) + (s[|s| - 1] as int - '0' as int)
  }

  /** Python 2's `int(s)` on a `str`, with `None` for the `ValueError`.
      Leading whitespace, an optional sign, whitespace again (the sign and
      the digits are read by two C routines that each skip it), one or more
      decimal digits, and trailing whitespace; nothing else. */
  function ParseInt(s: string): (r: Option<int>)
    ensures (forall k :: 0 <= k < |s| ==> !IsDigit(s[k])) ==> r.None?
  {
    var t := TrimRight(TrimLeft(s));
    var r := ReadTrimmed(t);
    assert r.Some? ==> t[|t| - 1] in s by {
      if r.Some? {
        TrimKeepsChars(s, |t| - 1);
      }
    }
    r
  }

  /** `int()` once the whitespace around the text is gone. */
  function ReadTrimmed(t: string): (r: Option<int>)
    ensures r.Some? ==> |t| > 0 && IsDigit(t[|t| - 1])
  {
    if |t| > 0 && (t[0] == '-' || t[0] == '+') then
      var u := TrimLeft(t[1..]);
      if |u| > 0 && AllDigits(u) then
        TrimLeftSuffix(t[1..]);
        assert u[|u| - 1] == t[|t| - 1];
        Some(if t[0] == '-' then -(DigitsValue(u) as int) else DigitsValue(u))
      else None
    else if |t| > 0 && AllDigits(t) then Some(DigitsValue(t) as int)
    else None
  }

  lemma {:induction false} TrimLeftSuffix(s: string)
    ensures |TrimLeft(s)| <= |s| && TrimLeft(s) == s[|s| - |TrimLeft(s)|..]
    decreases |s|
  {
    if |s| > 0 && IsSpace(s[0]) {
      TrimLeftSuffix(s[1..]);
      assert s[1..][|s| - 1 - |TrimLeft(s)|..] == s[|s| - |TrimLeft(s)|..];
    }
  }

  lemma {:induction false} TrimRightPrefix(s: string)
    ensures |TrimRight(s)| <= |s| && TrimRight(s) == s[..|TrimRight(s)|]
    decreases |s|
  {
    if |s| > 0 && IsSpace(s[|s| - 1]) {
      TrimRightPrefix(s[..|s| - 1]);
    }
  }

  /** Every character left after trimming is a character of `s`. */
  lemma TrimKeepsChars(s: string, k: int)
    requires 0 <= k < |TrimRight(TrimLeft(s))|
    ensures TrimRight(TrimLeft(s))[k] in s
  {
    var l := TrimLeft(s);
    TrimLeftSuffix(s);
    TrimRightPrefix(l);
    assert TrimRight(l)[k] == l[k] == s[|s| - |l| + k];
  }

  /** Decimal notation of `n`, as `str(n)` writes it. */
  function Decimal(n: nat): (r: string)
    ensures |r| > 0 && AllDigits(r)
    decreases n
  {
    if n < 10 then [('0' as int + n) as char]
    else Decimal(n / 10) + [('0' as int + n % 10) as char]
  }

  lemma {:induction false} DecimalValue(n: nat)
    ensures DigitsValue(Decimal(n)) == n
    decreases n
  {
    var d := Decimal(n);
    if n >= 10 {
      assert d[..|d| - 1] == Decimal(n / 10);
      DecimalValue(n / 10);
    }
  }

  lemma {:induction false} TrimLeftSpaces(w: string, s: string)
    requires AllSpace(w)
    requires |s| > 0 && !IsSpace(s[0])
    ensures TrimLeft(w + s) == s
    decreases |w|
  {
    if |w| == 0 {
      assert w + s == s;
    } else {
      assert (w + s)[1..] == w[1..] + s;
      TrimLeftSpaces(w[1..], s);
    }
  }

  lemma {:induction false} TrimRightSpaces(s: string, w: string)
    requires AllSpace(w)
    requires |s| > 0 && !IsSpace(s[|s| - 1])
    ensures TrimRight(s + w) == s
    decreases |w|
  {
    if |w| == 0 {
      assert s + w == s;
    } else {
      assert (s + w)[..|s + w| - 1] == s + w[..|w| - 1];
      TrimRightSpaces(s, w[..|w| - 1]);
    }
  }

  /** The layout of a text `int()` accepts: whitespace, an optional sign,
      whitespace again once there is a sign, one or more digits, and
      whitespace. */
  datatype Numeral = Numeral(lead: string, sign: string, gap: string, digits: string, trail: string)

  predicate WellFormed(m: Numeral) {
    && AllSpace(m.lead) && AllSpace(m.gap) && AllSpace(m.trail)
    && (m.sign == "" || m.sign == "-" || m.sign == "+")
    && (m.sign == "" ==> m.gap == "")
    && |m.digits| > 0 && AllDigits(m.digits)
  }

  function Text(m: Numeral): string {
    m.lead + (m.sign + (m.gap + (m.digits + m.trail)))
  }

  /** The number a numeral denotes: its digits, negated after a minus. */
  function Value(m: Numeral): int
    requires AllDigits(m.digits)
  {
    if m.sign == "-" then -(DigitsValue(m.digits) as int) else DigitsValue(m.digits)
  }

  /** `int()` accepts exactly the numerals, and gives back what they
      denote. */
  lemma ParseIntCharacterization(s: string, v: int)
    ensures ParseInt(s) == Some(v) <==> exists m :: WellFormed(m) && Text(m) == s && Value(m) == v
  {
    if ParseInt(s) == Some(v) {
      var m := NumeralOf(s);
      assert WellFormed(m) && Text(m) == s && Value(m) == v;
    }
    if exists m :: WellFormed(m) && Text(m) == s && Value(m) == v {
      var m :| WellFormed(m) && Text(m) == s && Value(m) == v;
      ParseNumeral(m);
    }
  }

  /** Every numeral is read as the number it denotes. */
  lemma ParseNumeral(m: Numeral)
    requires WellFormed(m)
    ensures ParseInt(Text(m)) == Some(Value(m))
  {
    var core := m.sign + (m.gap + m.digits);
    assert Text(m) == m.lead + (core + m.trail);
    assert TrimRight(TrimLeft(Text(m))) == core by {
      NumeralTrims(m, core);
    }
    if m.sign == "" {
      assert core == m.digits;
      UnsignedValue(Text(m), core);
    } else {
      assert core[1..] == m.gap + m.digits;
      TrimLeftSpaces(m.gap, m.digits);
      SignedValue(Text(m), core, m.digits);
    }
  }

  /** Trimming a numeral leaves its sign, gap and digits. */
  lemma NumeralTrims(m: Numeral, core: string)
    requires WellFormed(m) && core == m.sign + (m.gap + m.digits)
    ensures TrimRight(TrimLeft(m.lead + (core + m.trail))) == core
  {
    assert core[|core| - 1] == m.digits[|m.digits| - 1];
    if m.sign == "" {
      assert core[0] == m.digits[0];
    }
    TrimLeftSpaces(m.lead, core + m.trail);
    TrimRightSpaces(core, m.trail);
  }

  /** `int()` on text that trims to digits alone. */
  lemma UnsignedValue(s: string, t: string)
    requires TrimRight(TrimLeft(s)) == t
    requires |t| > 0 && AllDigits(t)
    ensures ParseInt(s) == Some(DigitsValue(t) as int)
  {
    assert IsDigit(t[0]);
  }

  /** `int()` on text that trims to a sign and, after whitespace, digits. */
  lemma SignedValue(s: string, t: string, u: string)
    requires TrimRight(TrimLeft(s)) == t
    requires |t| > 0 && (t[0] == '-' || t[0] == '+') && TrimLeft(t[1..]) == u
    requires |u| > 0 && AllDigits(u)
    ensures ParseInt(s) == Some(if t[0] == '-' then -(DigitsValue(u) as int) else DigitsValue(u))
  {
  }

  /** The numeral `int()` has read in `s`: the whitespace trimmed off
      either end, the sign, the whitespace after it, and the digits. */
  function NumeralOf(s: string): (m: Numeral)
    requires ParseInt(s).Some?
    ensures WellFormed(m) && Text(m) == s && Value(m) == ParseInt(s).value
  {
    var t := TrimRight(TrimLeft(s));
    ParseIntTrimmed(s);
    if |t| > 0 && (t[0] == '-' || t[0] == '+') then
      SignedNumeral(s);
      SignedParts(s)
    else
      UnsignedNumeral(s);
      UnsignedParts(s)
  }

  /** A signed text `int()` accepts is the numeral `SignedParts` cuts. */
  lemma SignedNumeral(s: string)
    requires var t := TrimRight(TrimLeft(s)); ReadTrimmed(t).Some? && |t| > 0 && (t[0] == '-' || t[0] == '+')
    ensures var m := SignedParts(s);
      WellFormed(m) && Text(m) == s && Value(m) == ReadTrimmed(TrimRight(TrimLeft(s))).value
  {
    SignedAccepted(TrimRight(TrimLeft(s)));
    SignedShape(s);
  }

  /** An unsigned text `int()` accepts is the numeral `UnsignedParts` cuts. */
  lemma UnsignedNumeral(s: string)
    requires var t := TrimRight(TrimLeft(s)); ReadTrimmed(t).Some? && !(|t| > 0 && (t[0] == '-' || t[0] == '+'))
    ensures var m := UnsignedParts(s);
      WellFormed(m) && Text(m) == s && Value(m) == ReadTrimmed(TrimRight(TrimLeft(s))).value
  {
    UnsignedAccepted(TrimRight(TrimLeft(s)));
    UnsignedShape(s);
  }

  /** `int()` reads the text left once whitespace is trimmed off both ends. */
  lemma ParseIntTrimmed(s: string)
    ensures ParseInt(s) == ReadTrimmed(TrimRight(TrimLeft(s)))
  {
  }

  /** The whitespace trimmed off the front of `s`, and off the back of the
      rest. */
  lemma TrimLayout(s: string)
    ensures var l := TrimLeft(s); var t := TrimRight(l);
      && |l| <= |s| && |t| <= |l|
      && s == s[..|s| - |l|] + (t + l[|t|..])
      && AllSpace(s[..|s| - |l|]) && AllSpace(l[|t|..])
  {
    TrimLeftSplit(s);
    TrimRightSplit(TrimLeft(s));
  }

  /** `s` cut at the ends of the whitespace `int()` skips, with no sign. */
  function UnsignedParts(s: string): Numeral {
    var l := TrimLeft(s);
    var t := TrimRight(l);
    TrimLeftSuffix(s);
    TrimRightPrefix(l);
    Numeral(s[..|s| - |l|], "", "", t, l[|t|..])
  }

  /** `s` cut at the ends of the whitespace `int()` skips, at the sign and
      after the whitespace that follows it. */
  function SignedParts(s: string): Numeral
    requires |TrimRight(TrimLeft(s))| > 0
  {
    var l := TrimLeft(s);
    var t := TrimRight(l);
    TrimLeftSuffix(s);
    TrimRightPrefix(l);
    var u := TrimLeft(t[1..]);
    TrimLeftSuffix(t[1..]);
    Numeral(s[..|s| - |l|], [t[0]], t[1..][..|t| - 1 - |u|], u, l[|t|..])
  }

  /** Text that trims to digits alone is the numeral `UnsignedParts` cuts. */
  lemma UnsignedShape(s: string)
    requires var t := TrimRight(TrimLeft(s)); |t| > 0 && AllDigits(t)
    ensures var m := UnsignedParts(s);
      WellFormed(m) && Text(m) == s && Value(m) == DigitsValue(TrimRight(TrimLeft(s))) as int
  {
    var l := TrimLeft(s);
    var t := TrimRight(l);
    TrimLayout(s);
    UnsignedLayout(s, s[..|s| - |l|], t, l[|t|..]);
  }

  /** Text that trims to a sign, whitespace and digits is the numeral
      `SignedParts` cuts. */
  lemma SignedShape(s: string)
    requires var t := TrimRight(TrimLeft(s)); |t| > 0 && (t[0] == '-' || t[0] == '+')
    requires var t := TrimRight(TrimLeft(s)); var u := TrimLeft(t[1..]); |u| > 0 && AllDigits(u)
    ensures var t := TrimRight(TrimLeft(s)); var u := TrimLeft(t[1..]); var m := SignedParts(s);
      && WellFormed(m) && Text(m) == s
      && Value(m) == if t[0] == '-' then -(DigitsValue(u) as int) else DigitsValue(u)
  {
    var l := TrimLeft(s);
    var t := TrimRight(l);
    var u := TrimLeft(t[1..]);
    TrimLayout(s);
    TrimLeftSplit(t[1..]);
    SignedLayout(s, s[..|s| - |l|], t, t[1..][..|t| - 1 - |u|], u, l[|t|..]);
  }

  /** What `int()` demands of a trimmed text without a sign. */
  lemma UnsignedAccepted(t: string)
    requires ReadTrimmed(t).Some? && !(|t| > 0 && (t[0] == '-' || t[0] == '+'))
    ensures |t| > 0 && AllDigits(t) && ReadTrimmed(t) == Some(DigitsValue(t) as int)
  {
  }

  /** What `int()` demands of a trimmed text with a sign. */
  lemma SignedAccepted(t: string)
    requires ReadTrimmed(t).Some? && |t| > 0 && (t[0] == '-' || t[0] == '+')
    ensures var u := TrimLeft(t[1..]);
      && |u| > 0 && AllDigits(u)
      && ReadTrimmed(t) == Some(if t[0] == '-' then -(DigitsValue(u) as int) else DigitsValue(u))
  {
  }

  lemma UnsignedLayout(s: string, lead: string, t: string, trail: string)
    requires s == lead + (t + trail) && AllSpace(lead) && AllSpace(trail)
    requires |t| > 0 && AllDigits(t)
    ensures var m := Numeral(lead, "", "", t, trail);
      WellFormed(m) && Text(m) == s && Value(m) == DigitsValue(t) as int
  {
    assert "" + ("" + (t + trail)) == t + trail;
  }

  lemma SignedLayout(s: string, lead: string, t: string, gap: string, u: string, trail: string)
    requires s == lead + (t + trail) && AllSpace(lead) && AllSpace(trail)
    requires |t| > 0 && (t[0] == '-' || t[0] == '+')
    requires t[1..] == gap + u && AllSpace(gap)
    requires |u| > 0 && AllDigits(u)
    ensures var m := Numeral(lead, [t[0]], gap, u, trail);
      && WellFormed(m) && Text(m) == s
      && Value(m) == if t[0] == '-' then -(DigitsValue(u) as int) else DigitsValue(u)
  {
    SignedText(s, lead, t, gap, u, trail);
    assert [t[0]] == "-" <==> t[0] == '-';
    assert [t[0]] == "-" || [t[0]] == "+";
  }

  /** A signed text is its sign followed by the gap and the digits. */
  lemma SignedText(s: string, lead: string, t: string, gap: string, u: string, trail: string)
    requires s == lead + (t + trail)
    requires |t| > 0 && t[1..] == gap + u
    ensures lead + ([t[0]] + (gap + (u + trail))) == s
  {
    var sign := [t[0]];
    assert t == sign + t[1..];
    Associative(sign, gap + u, trail);
    Associative(gap, u, trail);
  }

  lemma Associative(a: string, b: string, c: string)
    ensures (a + b) + c == a + (b + c)
  {
  }

  /** `s` is the whitespace `TrimLeft` drops followed by what it keeps. */
  lemma TrimLeftSplit(s: string)
    ensures |TrimLeft(s)| <= |s|
    ensures s == s[..|s| - |TrimLeft(s)|] + TrimLeft(s)
    ensures AllSpace(s[..|s| - |TrimLeft(s)|])
  {
    TrimLeftSuffix(s);
    TrimLeftDrops(s);
    var k := |s| - |TrimLeft(s)|;
    assert s == s[..k] + s[k..];
  }

  lemma {:induction false} TrimLeftDrops(s: string)
    ensures |TrimLeft(s)| <= |s|
    ensures forall i :: 0 <= i < |s| - |TrimLeft(s)| ==> IsSpace(s[i])
    decreases |s|
  {
    if |s| > 0 && IsSpace(s[0]) {
      TrimLeftDrops(s[1..]);
      forall i | 1 <= i < |s| - |TrimLeft(s)|
        ensures IsSpace(s[i])
      {
        assert s[i] == s[1..][i - 1];
      }
    }
  }

  /** `s` is what `TrimRight` keeps followed by the whitespace it drops. */
  lemma TrimRightSplit(s: string)
    ensures |TrimRight(s)| <= |s|
    ensures s == TrimRight(s) + s[|TrimRight(s)|..]
    ensures AllSpace(s[|TrimRight(s)|..])
  {
    TrimRightPrefix(s);
    TrimRightDrops(s);
    var k := |TrimRight(s)|;
    assert s == s[..k] + s[k..];
  }

  lemma {:induction false} TrimRightDrops(s: string)
    ensures |TrimRight(s)| <= |s|
    ensures forall i :: |TrimRight(s)| <= i < |s| ==> IsSpace(s[i])
    decreases |s|
  {
    if |s| > 0 && IsSpace(s[|s| - 1]) {
      var init := s[..|s| - 1];
      TrimRightDrops(init);
      forall i | |TrimRight(s)| <= i < |s| - 1
        ensures IsSpace(s[i])
      {
        assert s[i] == init[i];
      }
    }
  }

  /** `int()` reads back what `str()` wrote for a natural number, whatever
      whitespace pads it. */
  lemma ParseIntDecimal(lead: string, n: nat, trail: string)
    requires AllSpace(lead) && AllSpace(trail)
    ensures ParseInt(lead + Decimal(n) + trail) == Some(n)
  {
    var m := Numeral(lead, "", "", Decimal(n), trail);
    assert Text(m) == lead + Decimal(n) + trail;
    ParseNumeral(m);
    DecimalValue(n);
  }

  /** A minus sign, with whitespace after it if any, negates the value. */
  lemma ParseIntNegative(lead: string, gap: string, n: nat)
    requires AllSpace(lead) && AllSpace(gap)
    ensures ParseInt(lead + "-" + gap + Decimal(n)) == Some(-(n as int))
  {
    var m := Numeral(lead, "-", gap, Decimal(n), "");
    assert Text(m) == lead + "-" + gap + Decimal(n);
    ParseNumeral(m);
    DecimalValue(n);
  }
}

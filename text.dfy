/** The Java string operations the manager and `Sort` rely on, over ASCII:
    case folding, `equalsIgnoreCase`, `compareToIgnoreCase`, `contains`,
    `Integer.toString` and `String.hashCode` (with its 32-bit wrap-around). */
module Text {

  // ---------------------------------------------------------------------------
  // Case folding
  // ---------------------------------------------------------------------------

  predicate IsUpper(c: char) { 'A' <= c <= 'Z' }

  /** `Character.toLowerCase` restricted to ASCII letters: other characters are kept. */
  function Lower(c: char): (r: char)
    ensures !IsUpper(r)
    ensures !IsUpper(c) ==> r == c
    ensures IsUpper(c) ==> r as int == c as int + 32
  {
    if IsUpper(c) then (c as int + 32) as char else c
  }

  /** `String.toLowerCase`: every character folded, the length kept. */
  function LowerStr(s: string): (r: string)
    ensures |r| == |s| && forall i | 0 <= i < |s| :: r[i] == Lower(s[i])
  {
    if s == [] then [] else [Lower(s[0])] + LowerStr(s[1..])
  }

  lemma LowerStrIdempotent(s: string)
    ensures LowerStr(LowerStr(s)) == LowerStr(s)
  {
  }

  /** `equalsIgnoreCase`: same length and the same characters after folding. */
  predicate EqualsIgnoreCase(a: string, b: string) {
    LowerStr(a) == LowerStr(b)
  }

  lemma EqualsIgnoreCaseIff(a: string, b: string)
    ensures EqualsIgnoreCase(a, b) <==> |a| == |b| && forall i | 0 <= i < |a| :: Lower(a[i]) == Lower(b[i])
  {
    if |a| == |b| && forall i | 0 <= i < |a| :: Lower(a[i]) == Lower(b[i]) {
      assert forall i | 0 <= i < |a| :: LowerStr(a)[i] == LowerStr(b)[i];
    }
  }

  // ---------------------------------------------------------------------------
  // compareToIgnoreCase
  // ---------------------------------------------------------------------------

  /** `compareToIgnoreCase`: the difference of the first pair of folded characters
      that differ, or the difference of the lengths when one string is a folded
      prefix of the other. */
  function CompareIgnoreCase(a: string, b: string): (r: int)
  {
    if a == [] || b == [] then |a| - |b|
    else if Lower(a[0]) != Lower(b[0]) then Lower(a[0]) as int - Lower(b[0]) as int
    else CompareIgnoreCase(a[1..], b[1..])
  }

  lemma {:induction false} CompareAntisymmetric(a: string, b: string)
    ensures CompareIgnoreCase(a, b) == -CompareIgnoreCase(b, a)
  {
    if a != [] && b != [] && Lower(a[0]) == Lower(b[0]) {
      CompareAntisymmetric(a[1..], b[1..]);
    }
  }

  /** The comparison is zero exactly on strings equal ignoring case. */
  lemma {:induction false} CompareZeroIff(a: string, b: string)
    ensures CompareIgnoreCase(a, b) == 0 <==> EqualsIgnoreCase(a, b)
  {
    if a != [] && b != [] {
      CompareZeroIff(a[1..], b[1..]);
      assert LowerStr(a) == [Lower(a[0])] + LowerStr(a[1..]);
      assert LowerStr(b) == [Lower(b[0])] + LowerStr(b[1..]);
      if LowerStr(a) == LowerStr(b) {
        assert LowerStr(a)[0] == LowerStr(b)[0];
        assert LowerStr(a[1..]) == LowerStr(a)[1..];
        assert LowerStr(b[1..]) == LowerStr(b)[1..];
      }
    }
  }

  /** "not after" is a total preorder: what the name sort needs of its comparator. */
  predicate NameLe(a: string, b: string) { CompareIgnoreCase(a, b) <= 0 }

  lemma NameLeTotal(a: string, b: string)
    ensures NameLe(a, b) || NameLe(b, a)
  {
    CompareAntisymmetric(a, b);
  }

  lemma {:induction false} NameLeTransitive(a: string, b: string, c: string)
    requires NameLe(a, b) && NameLe(b, c)
    ensures NameLe(a, c)
  {
    if a != [] && b != [] && c != [] && Lower(a[0]) == Lower(b[0]) == Lower(c[0]) {
      NameLeTransitive(a[1..], b[1..], c[1..]);
    }
  }

  // ---------------------------------------------------------------------------
  // contains
  // ---------------------------------------------------------------------------

  /** `t` occurs in `s` starting at position `i`. */
  predicate OccursAt(s: string, t: string, i: int) {
    0 <= i && i + |t| <= |s| && s[i..i + |t|] == t
  }

  /** `s.contains(t)`: `t` occurs in `s` at some position (the empty string occurs everywhere). */
  function Contains(s: string, t: string): (r: bool)
    ensures r <==> exists i :: OccursAt(s, t, i)
    decreases |s|
  {
    if |t| > |s| then false
    else if s[..|t|] == t then assert OccursAt(s, t, 0); true
    else
      var r := Contains(s[1..], t);
      assert r <==> exists i :: OccursAt(s, t, i) by {
        if r {
          var j :| OccursAt(s[1..], t, j);
          assert s[j + 1..j + 1 + |t|] == s[1..][j..j + |t|];
          assert OccursAt(s, t, j + 1);
        }
        if exists i :: OccursAt(s, t, i) {
          var i :| OccursAt(s, t, i);
          assert s[0..|t|] == s[..|t|];
          assert s[1..][i - 1..i - 1 + |t|] == s[i..i + |t|];
          assert OccursAt(s[1..], t, i - 1);
        }
      }
      r
  }

  // ---------------------------------------------------------------------------
  // Integer.toString
  // ---------------------------------------------------------------------------

  predicate IsDigit(c: char) { '0' <= c <= '9' }

  function DigitChar(d: nat): (c: char)
    requires d < 10
    ensures IsDigit(c)
  {
    ('0' as int + d) as char
  }

  /** Decimal digits of a natural number, most significant first, no leading zeros. */
  function Digits(n: nat): (r: string)
    ensures |r| > 0
  {
    if n < 10 then [DigitChar(n)] else Digits(n / 10) + [DigitChar(n % 10)]
  }

  /** Every character `Digits` writes is a decimal digit. */
  lemma {:induction false} DigitsAreDigits(n: nat)
    ensures forall i | 0 <= i < |Digits(n)| :: IsDigit(Digits(n)[i])
  {
    if n >= 10 {
      DigitsAreDigits(n / 10);
      assert Digits(n) == Digits(n / 10) + [DigitChar(n % 10)];
    }
  }

  /** `Integer.toString(n)` (and the `"" + n` of string concatenation). */
  function IntToString(n: int): (r: string)
    ensures |r| > 0
  {
    if n < 0 then "-" + Digits(-n) else Digits(n)
  }

  /** `IntToString` writes a dash only in front, and only for a negative number. */
  lemma IntToStringDashes(n: int)
    ensures forall i | 0 <= i < |IntToString(n)| :: IntToString(n)[i] != '-' <==> (i > 0 || n >= 0)
  {
    DigitsAreDigits(if n < 0 then -n else n);
  }

  /** Value of a string of decimal digits. */
  function DigitsValue(s: string): int {
    if s == [] then 0
    else 10 * DigitsValue(s[..|s| - 1]) + (s[|s| - 1] as int - '0' as int)
  }

  lemma {:induction false} DigitsRoundTrip(n: nat)
    ensures DigitsValue(Digits(n)) == n
  {
    if n >= 10 {
      DigitsRoundTrip(n / 10);
      var s := Digits(n);
      assert s[..|s| - 1] == Digits(n / 10);
    }
  }

  /** Reads back what `IntToString` writes: an optional leading dash, then digits. */
  function ParseInt(s: string): (n: int)
    requires |s| > 0
  {
    if s[0] == '-' then 0 - DigitsValue(s[1..]) else DigitsValue(s)
  }

  lemma IntToStringRoundTrip(n: int)
    ensures ParseInt(IntToString(n)) == n
  {
    if n < 0 {
      DigitsRoundTrip(-n);
      assert IntToString(n)[1..] == Digits(-n);
    } else {
      DigitsRoundTrip(n);
      DigitsAreDigits(n);
    }
  }

  lemma IntToStringInjective(m: int, n: int)
    requires IntToString(m) == IntToString(n)
    ensures m == n
  {
    IntToStringRoundTrip(m);
    IntToStringRoundTrip(n);
  }

  // ---------------------------------------------------------------------------
  // String.hashCode
  // ---------------------------------------------------------------------------

  const TwoTo32: int := 0x1_0000_0000
  const TwoTo31: int := 0x8000_0000

  /** The Java int a mathematical integer wraps to. */
  function WrapInt(x: int): (r: int)
    ensures -TwoTo31 <= r < TwoTo31
    ensures (r - x) % TwoTo32 == 0
  {
    (x + TwoTo31) % TwoTo32 - TwoTo31
  }

  /** The UTF-16 code units a Java string holds for one character: the character
      itself below U+10000, otherwise a high and a low surrogate. */
  function Utf16(c: char): (u: seq<int>)
    ensures |u| == 1 <==> c as int < 0x1_0000
    ensures |u| == 1 ==> u[0] == c as int
    ensures |u| != 1 ==>
      && |u| == 2 && 0xD800 <= u[0] < 0xDC00 <= u[1] < 0xE000
      && 0x1_0000 + (u[0] - 0xD800) * 0x400 + (u[1] - 0xDC00) == c as int
  {
    var n := c as int;
    if n < 0x1_0000 then [n] else [0xD800 + (n - 0x1_0000) / 0x400, 0xDC00 + (n - 0x1_0000) % 0x400]
  }

  /** `String.hashCode`: h = 31 * h + u over the UTF-16 code units, in 32-bit arithmetic. */
  function JavaHashCode(s: string): (h: int)
    ensures -TwoTo31 <= h < TwoTo31
  {
    if s == [] then 0
    else
      var u := Utf16(s[|s| - 1]);
      var h1 := WrapInt(31 * JavaHashCode(s[..|s| - 1]) + u[0]);
      if |u| == 1 then h1 else WrapInt(31 * h1 + u[1])
  }

  /** One more character is one step of the hash loop on a known prefix hash, or two
      steps, high surrogate first, for a character above U+FFFF. */
  lemma HashCodeStep(s: string, c: char, h: int)
    requires JavaHashCode(s) == h
    ensures c as int < 0x1_0000 ==> JavaHashCode(s + [c]) == WrapInt(31 * h + c as int)
    ensures c as int >= 0x1_0000 ==>
      var n := c as int - 0x1_0000;
      JavaHashCode(s + [c]) == WrapInt(31 * WrapInt(31 * h + 0xD800 + n / 0x400) + 0xDC00 + n % 0x400)
  {
    assert (s + [c])[..|s|] == s;
  }

  /** The step for a character below U+10000, a single code unit. */
  lemma HashCodeUnitStep(s: string, c: char, h: int)
    requires JavaHashCode(s) == h && c as int < 0x1_0000
    ensures JavaHashCode(s + [c]) == WrapInt(31 * h + c as int)
  {
    HashCodeStep(s, c, h);
  }

  /** A character above U+FFFF hashes as its two surrogates: "\U{1F600}" is 1772899. */
  lemma HashCodeOfSupplementary()
    ensures JavaHashCode("\U{1F600}") == 31 * 0xD83D + 0xDE00
  {
    HashCodeStep("", '\U{1F600}', 0);
    assert "" + ['\U{1F600}'] == "\U{1F600}";
  }

  lemma HashCodeOfPrefix3()
    ensures JavaHashCode("pol") == 111181
  {
    var s: string := "";
    HashCodeUnitStep(s, 'p', 0);
    s := s + ['p'];
    HashCodeUnitStep(s, 'o', 112);
    s := s + ['o'];
    HashCodeUnitStep(s, 'l', 3583);
    s := s + ['l'];
    assert s == "pol";
  }

  lemma HashCodeOfPrefix6()
    ensures JavaHashCode("polyge") == -982654550
  {
    HashCodeOfPrefix3();
    var s: string := "pol";
    HashCodeUnitStep(s, 'y', 111181);
    s := s + ['y'];
    HashCodeUnitStep(s, 'g', 3446732);
    s := s + ['g'];
    HashCodeUnitStep(s, 'e', 106848795);
    s := s + ['e'];
    assert s == "polyge";
  }

  lemma HashCodeOfPrefix9()
    ensures JavaHashCode("polygenel") == 235499435
  {
    HashCodeOfPrefix6();
    var s: string := "polyge";
    HashCodeUnitStep(s, 'n', -982654550);
    s := s + ['n'];
    HashCodeUnitStep(s, 'e', -397519868);
    s := s + ['e'];
    HashCodeUnitStep(s, 'l', 561786081);
    s := s + ['l'];
    assert s == "polygenel";
  }

  lemma HashCodeOfPrefix12()
    ensures JavaHashCode("polygenelubr") == 2082189306
  {
    HashCodeOfPrefix9();
    var s: string := "polygenel";
    HashCodeUnitStep(s, 'u', 235499435);
    s := s + ['u'];
    HashCodeUnitStep(s, 'b', -1289451990);
    s := s + ['b'];
    HashCodeUnitStep(s, 'r', -1318305928);
    s := s + ['r'];
    assert s == "polygenelubr";
  }

  lemma HashCodeOfPrefix15()
    ensures JavaHashCode("polygenelubrica") == -1710937011
  {
    HashCodeOfPrefix12();
    var s: string := "polygenelubr";
    HashCodeUnitStep(s, 'i', 2082189306);
    s := s + ['i'];
    HashCodeUnitStep(s, 'c', 123359151);
    s := s + ['c'];
    HashCodeUnitStep(s, 'a', -470833516);
    s := s + ['a'];
    assert s == "polygenelubrica";
  }

  /** A name whose hash code is Integer.MIN_VALUE. */
  lemma HashCodeReachesMinValue()
    ensures JavaHashCode("polygenelubricants") == -TwoTo31
  {
    HashCodeOfPrefix15();
    var s: string := "polygenelubrica";
    HashCodeUnitStep(s, 'n', -1710937011);
    s := s + ['n'];
    HashCodeUnitStep(s, 't', -1499439679);
    s := s + ['t'];
    HashCodeUnitStep(s, 's', 762010323);
    s := s + ['s'];
    assert s == "polygenelubricants";
  }
}

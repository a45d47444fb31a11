/** The string operations the admin page relies on: String() of an integer,
    padStart, toLowerCase and includes, over strings as sequences of characters. */
module Text {

  predicate IsDigit(c: char) { '0' <= c <= '9' }

  predicate AllDigits(s: string) { forall i | 0 <= i < |s| :: IsDigit(s[i]) }

  function DigitChar(d: nat): (c: char)
    requires d < 10
    ensures IsDigit(c) && c as int - '0' as int == d
  {
    ('0' as int + d) as char
  }

  lemma DigitsHaveNoDash(s: string)
    requires AllDigits(s)
    ensures '-' !in s
  {
    assert forall i | 0 <= i < |s| :: s[i] != '-';
  }

  /** The value of a string of decimal digits (empty string: 0). */
  function DigitsValue(s: string): nat
    requires AllDigits(s)
  {
    if s == [] then 0 else DigitsValue(s[..|s| - 1]) * 10 + (s[|s| - 1] as int - '0' as int)
  }

  /** String(n) for a non-negative integer: its decimal digits, without leading zeros. */
  function NatString(n: nat): (s: string)
    ensures 1 <= |s| && AllDigits(s)
    ensures n < 10 ==> |s| == 1
    ensures n < 100 ==> |s| <= 2
    ensures n > 0 ==> s[0] != '0'
  {
    if n < 10 then [DigitChar(n)] else NatString(n / 10) + [DigitChar(n % 10)]
  }

  /** Reading the decimal rendering back gives the number. */
  lemma {:induction false} NatStringRoundTrip(n: nat)
    ensures DigitsValue(NatString(n)) == n
  {
    if n >= 10 {
      NatStringRoundTrip(n / 10);
      var s := NatString(n);
      assert s[..|s| - 1] == NatString(n / 10);
    }
  }

  /** A leading zero does not change the value of a digit string. */
  lemma {:induction false} LeadingZero(s: string)
    requires AllDigits(s)
    ensures AllDigits("0" + s) && DigitsValue("0" + s) == DigitsValue(s)
  {
    if s != [] {
      LeadingZero(s[..|s| - 1]);
      assert ("0" + s)[..|s|] == "0" + s[..|s| - 1];
    }
  }

  /** String(n) for any integer: a minus sign in front of the digits of a negative number. */
  function IntString(n: int): (s: string)
    ensures |s| > 0 && (s[0] == '-' <==> n < 0)
    ensures s[0] == '0' <==> n == 0
    ensures n == 0 ==> s == "0"
    ensures n > 0 ==> AllDigits(s)
    ensures n < 0 ==> |s| > 1 && AllDigits(s[1..]) && s[1] != '0'
  {
    if n < 0 then
      var s := "-" + NatString(-n);
      assert s[1..] == NatString(-n);
      s
    else NatString(n)
  }

  /** A non-empty run of digits, optionally preceded by a minus sign. */
  predicate IsIntText(s: string)
  {
    if |s| > 0 && s[0] == '-' then |s| > 1 && AllDigits(s[1..]) else |s| > 0 && AllDigits(s)
  }

  /** Reads back what IntString writes. */
  function ParseInt(s: string): int
    requires IsIntText(s)
  {
    if s[0] == '-' then -(DigitsValue(s[1..]) as int) else DigitsValue(s)
  }

  lemma IntStringRoundTrip(n: int)
    ensures IsIntText(IntString(n)) && ParseInt(IntString(n)) == n
  {
    if n < 0 {
      NatStringRoundTrip(-n);
      assert IntString(n)[1..] == NatString(-n);
    } else {
      NatStringRoundTrip(n);
    }
  }

  /** s.padStart(width, fill) for a one-character fill: fill characters in front up to width. */
  function PadStart(s: string, width: nat, fill: char): (r: string)
    ensures |r| == if |s| < width then width else |s|
    ensures forall i | 0 <= i < |s| :: r[|r| - |s| + i] == s[i]
    ensures forall i | 0 <= i < |r| - |s| :: r[i] == fill
  {
    if |s| >= width then s else seq(width - |s|, _ => fill) + s
  }

  /** String(n).padStart(2, '0') for n < 100: exactly two digits that read back as n. */
  function PadTwo(n: nat): (r: string)
    requires n < 100
    ensures |r| == 2 && AllDigits(r) && DigitsValue(r) == n
  {
    var s := NatString(n);
    NatStringRoundTrip(n);
    var r := PadStart(s, 2, '0');
    if |s| < 2 then
      assert r == "0" + s;
      LeadingZero(s);
      r
    else
      assert r == s;
      r
  }

  /** toLowerCase on one character, for the ASCII letters. */
  function LowerChar(c: char): (r: char)
    ensures !('A' <= r <= 'Z')
    ensures 'A' <= c <= 'Z' ==> 'a' <= r <= 'z' && r as int - 'a' as int == c as int - 'A' as int
    ensures !('A' <= c <= 'Z') ==> r == c
  {
    if 'A' <= c <= 'Z' then (c as int - 'A' as int + 'a' as int) as char else c
  }

  /** s.toLowerCase(), for the ASCII letters. */
  function Lower(s: string): (r: string)
    ensures |r| == |s|
    ensures forall i | 0 <= i < |s| :: r[i] == LowerChar(s[i]) && !('A' <= r[i] <= 'Z')
  {
    seq(|s|, i requires 0 <= i < |s| => LowerChar(s[i]))
  }

  /** Lowering twice is lowering once. */
  lemma LowerIdempotent(s: string)
    ensures Lower(Lower(s)) == Lower(s)
  {
  }

  predicate OccursAt(s: string, sub: string, i: nat)
  {
    i + |sub| <= |s| && s[i..i + |sub|] == sub
  }

  /** s.includes(sub): sub appears at some position of s. */
  function Includes(s: string, sub: string): (r: bool)
    ensures r <==> exists i: nat :: OccursAt(s, sub, i)
  {
    if |sub| > |s| then false
    else if s[..|sub|] == sub then (assert OccursAt(s, sub, 0); true)
    else
      var rest := Includes(s[1..], sub);
      assert forall i: nat :: OccursAt(s[1..], sub, i) <==> OccursAt(s, sub, i + 1);
      assert !OccursAt(s, sub, 0);
      assert forall i: nat :: OccursAt(s, sub, i) && i > 0 ==> OccursAt(s[1..], sub, i - 1);
      rest
  }

  /** If a + [c] + x == b + [c] + y and neither x nor y contains c, the split is the same:
      the last c separates the same prefix and the same suffix. */
  lemma SplitAtLastSeparator(a: string, x: string, b: string, y: string, c: char)
    requires c !in x && c !in y
    requires a + [c] + x == b + [c] + y
    ensures a == b && x == y
  {
    var s := a + [c] + x;
    assert s[|a|] == c && s[|b|] == c;
    assert |x| == |y| by {
      if |x| < |y| {
        assert false;
      } else if |y| < |x| {
        assert false;
      }
    }
    assert x == s[|s| - |x|..] == y;
    assert a == s[..|a|] == b;
  }

  /** Joining a string and three c-free parts with c can be undone: equal joins have equal parts. */
  lemma SplitFourParts(n1: string, y1: string, m1: string, t1: string,
                       n2: string, y2: string, m2: string, t2: string, c: char)
    requires c !in y1 && c !in m1 && c !in t1 && c !in y2 && c !in m2 && c !in t2
    requires n1 + [c] + (y1 + [c] + m1 + [c] + t1) == n2 + [c] + (y2 + [c] + m2 + [c] + t2)
    ensures n1 == n2 && y1 == y2 && m1 == m2 && t1 == t2
  {
    assert n1 + [c] + (y1 + [c] + m1 + [c] + t1) == (n1 + [c] + y1 + [c] + m1) + [c] + t1;
    assert n2 + [c] + (y2 + [c] + m2 + [c] + t2) == (n2 + [c] + y2 + [c] + m2) + [c] + t2;
    SplitAtLastSeparator(n1 + [c] + y1 + [c] + m1, t1, n2 + [c] + y2 + [c] + m2, t2, c);
    SplitAtLastSeparator(n1 + [c] + y1, m1, n2 + [c] + y2, m2, c);
    SplitAtLastSeparator(n1, y1, n2, y2, c);
  }
}

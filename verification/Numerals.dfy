/** Positional numerals: what the digit loops of kernel/lib/string.c mean. */
module Numerals {
  import opened Words

  /** How a digit value becomes a character. `Negative` is what C's remainder gives
      for a negative number in a base other than ten: '0' minus the digit. */
  datatype Kind = Lower | Upper | Negative

  predicate Base(base: nat) {
    2 <= base <= 36
  }

  function Digit(d: nat, kind: Kind): char
    requires d < 36
  {
    match kind
    case Lower => if d > 9 then ((d - 10) + 97) as char else (d + 48) as char
    case Upper => if d > 9 then ((d - 10) + 65) as char else (d + 48) as char
    case Negative => (48 - d) as char
  }

  /** The value of a digit character, or 36. */
  function Value(c: char): (v: nat)
    ensures v <= 36
  {
    if '0' <= c <= '9' then c as nat - 48
    else if 'a' <= c <= 'z' then c as nat - 97 + 10
    else if 'A' <= c <= 'Z' then c as nat - 65 + 10
    else 36
  }

  /** C's `/` and `%` on unsigned numbers. */
  function Quot(n: nat, base: nat): nat
    requires base > 0
  {
    DivNat(n, base);
    n / base
  }

  function Rem(n: nat, base: nat): nat
    requires base > 0
  {
    n % base
  }

  /** The digits of n, least significant first; none for 0. */
  function Reversed(n: nat, base: nat, kind: Kind): seq<char>
    requires Base(base)
  {
    if n == 0 then [] else
    DivIdentity(n, base);
    [Digit(Rem(n, base), kind)] + Reversed(Quot(n, base), base, kind)
  }

  function Reverse<T>(s: seq<T>): (r: seq<T>)
    ensures |r| == |s|
  {
    if s == [] then [] else Reverse(s[1..]) + [s[0]]
  }

  /** The numeral of n, most significant digit first; "0" for 0. */
  function Numeral(n: nat, base: nat, kind: Kind): seq<char>
    requires Base(base)
  {
    if n == 0 then ['0'] else Reverse(Reversed(n, base, kind))
  }

  /** Reading a numeral from left to right. */
  function Parse(s: seq<char>, base: nat): nat {
    if s == [] then 0 else Parse(s[..|s| - 1], base) * base + Value(s[|s| - 1])
  }

  predicate IsNumeral(s: seq<char>, base: nat) {
    forall i :: 0 <= i < |s| ==> Value(s[i]) < base
  }

  lemma DigitValue(d: nat, kind: Kind)
    requires d < 36 && kind != Negative
    ensures Value(Digit(d, kind)) == d
  {}

  lemma {:induction false} ReverseAt<T>(s: seq<T>, k: nat)
    requires k < |s|
    ensures Reverse(s)[k] == s[|s| - 1 - k]
  {
    if k < |s| - 1 {
      ReverseAt(s[1..], k);
    }
  }

  lemma NumeralStep(n: nat, base: nat, kind: Kind)
    requires Base(base) && n > 0
    ensures Numeral(n, base, kind) ==
            (if Quot(n, base) == 0 then [] else Numeral(Quot(n, base), base, kind)) + [Digit(Rem(n, base), kind)]
  {
    hide Quot, Rem;
    var s := Reversed(n, base, kind);
    assert s[1..] == Reversed(Quot(n, base), base, kind);
  }

  lemma NumeralOfZero(base: nat, kind: Kind)
    requires Base(base)
    ensures Numeral(0, base, kind) == ['0']
  {}

  lemma ParseLast(front: seq<char>, c: char, base: nat)
    ensures Parse(front + [c], base) == Parse(front, base) * base + Value(c)
  {
    assert (front + [c])[..|front|] == front;
  }

  lemma LeadingDigit(d: nat, kind: Kind)
    requires 0 < d < 36 && kind != Negative
    ensures Digit(d, kind) != '0'
  {}

  lemma ZeroRoundTrip(base: nat, kind: Kind)
    requires Base(base)
    ensures var s := Numeral(0, base, kind);
            s != [] && Parse(s, base) == 0 && IsNumeral(s, base)
  {
    ParseEmpty(base);
    hide Parse;
    ParseLast([], '0', base);
    assert [] + ['0'] == ['0'];
  }

  /** Parsing the numeral of n gives back n; the numeral consists of digits of the
      base and has no leading zero unless n is 0. */
  lemma {:induction false} RoundTrip(n: nat, base: nat, kind: Kind)
    requires Base(base) && kind != Negative
    ensures var s := Numeral(n, base, kind);
            s != [] && Parse(s, base) == n && IsNumeral(s, base) && (n > 0 ==> s[0] != '0')
  {
    if n == 0 {
      ZeroRoundTrip(base, kind);
    } else {
      var q, r := Quot(n, base), Rem(n, base);
      NumeralStep(n, base, kind);
      DigitValue(r, kind);
      DivIdentity(n, base);
      hide Quot, Rem, Numeral, Digit, Value, Parse, IsNumeral;
      if q > 0 {
        RoundTrip(q, base, kind);
        Extended(Numeral(q, base, kind), Digit(r, kind), base, n, q, r);
      } else {
        LeadingDigit(r, kind);
        ParseEmpty(base);
        Extended([], Digit(r, kind), base, n, q, r);
      }
    }
  }

  lemma DivIdentity(n: nat, base: nat)
    requires Base(base) && n > 0
    ensures n == Quot(n, base) * base + Rem(n, base) && Quot(n, base) < n && Rem(n, base) < base
  {
    DivNat(n, base);
  }

  lemma Extended(front: seq<char>, c: char, base: nat, n: nat, q: nat, r: nat)
    requires Parse(front, base) == q && IsNumeral(front, base) && Value(c) == r < base && n == q * base + r
    ensures Parse(front + [c], base) == n && IsNumeral(front + [c], base)
  {
    ParseLast(front, c, base);
  }

  lemma ParseEmpty(base: nat)
    ensures Parse([], base) == 0
  {}

  /** A digit string without leading zero is the numeral of its value: the numeral
      is the only answer that parses back. Letters are lower-case or upper-case. */
  lemma {:induction false} NumeralUnique(s: seq<char>, base: nat, kind: Kind)
    requires Base(base) && kind != Negative && s != [] && IsNumeral(s, base)
    requires forall i :: 0 <= i < |s| ==> s[i] == Digit(Value(s[i]), kind)
    requires s[0] == '0' ==> |s| == 1
    ensures s == Numeral(Parse(s, base), base, kind)
  {
    var n := |s| - 1;
    var front, last := s[..n], s[n];
    assert s == front + [last];
    if front == [] {
      OneDigit(last, base, kind);
    } else {
      NumeralUnique(front, base, kind);
      AnotherDigit(front, last, base, kind);
    }
  }

  // ---- what the text looks like ----

  predicate LowerDigit(c: char) {
    '0' <= c <= '9' || 'a' <= c <= 'z'
  }

  predicate UpperDigit(c: char) {
    '0' <= c <= '9' || 'A' <= c <= 'Z'
  }

  /** s reads as n in the base, without a leading zero. */
  ghost predicate ReadsAs(s: seq<char>, n: nat, base: nat) {
    s != [] && Parse(s, base) == n && IsNumeral(s, base) && (s[0] == '0' ==> |s| == 1)
  }

  /** n in the base, with the digits 0 to 9 and then a to z. */
  ghost predicate LowerText(s: seq<char>, n: nat, base: nat) {
    ReadsAs(s, n, base) && forall i :: 0 <= i < |s| ==> LowerDigit(s[i])
  }

  /** n in the base, with the digits 0 to 9 and then A to Z. */
  ghost predicate UpperText(s: seq<char>, n: nat, base: nat) {
    ReadsAs(s, n, base) && forall i :: 0 <= i < |s| ==> UpperDigit(s[i])
  }

  /** The numerals are exactly the texts with small letters and with capitals. */
  lemma NumeralText(s: seq<char>, n: nat, base: nat)
    requires Base(base)
    ensures LowerText(s, n, base) <==> s == Numeral(n, base, Lower)
    ensures UpperText(s, n, base) <==> s == Numeral(n, base, Upper)
  {
    NumeralReads(n, base, Lower);
    NumeralReads(n, base, Upper);
    NumeralLetters(n, base);
    hide Numeral, Parse;
    if LowerText(s, n, base) {
      NumeralUnique(s, base, Lower);
    }
    if UpperText(s, n, base) {
      NumeralUnique(s, base, Upper);
    }
  }

  lemma NumeralReads(n: nat, base: nat, kind: Kind)
    requires Base(base) && kind != Negative
    ensures ReadsAs(Numeral(n, base, kind), n, base)
  {
    RoundTrip(n, base, kind);
    hide Parse;
  }

  lemma {:induction false} NumeralLetters(n: nat, base: nat)
    requires Base(base)
    ensures forall i :: 0 <= i < |Numeral(n, base, Lower)| ==> LowerDigit(Numeral(n, base, Lower)[i])
    ensures forall i :: 0 <= i < |Numeral(n, base, Upper)| ==> UpperDigit(Numeral(n, base, Upper)[i])
  {
    if n > 0 {
      NumeralStep(n, base, Lower);
      NumeralStep(n, base, Upper);
      DivIdentity(n, base);
      assert LowerDigit(Digit(Rem(n, base), Lower)) && UpperDigit(Digit(Rem(n, base), Upper));
      hide Numeral, Quot, Rem, Digit;
      if Quot(n, base) > 0 {
        NumeralLetters(Quot(n, base), base);
      }
    }
  }

  /** What a negative number becomes in a base other than ten: each digit d of its magnitude is
      the character d places below '0'. */
  lemma {:induction false} NegativeNumeral(n: nat, base: nat)
    requires Base(base) && n > 0
    ensures |Numeral(n, base, Negative)| == |Numeral(n, base, Lower)|
    ensures forall i :: 0 <= i < |Numeral(n, base, Lower)| ==>
              Numeral(n, base, Negative)[i] as int == 48 - Value(Numeral(n, base, Lower)[i])
  {
    NumeralStep(n, base, Lower);
    NumeralStep(n, base, Negative);
    DivIdentity(n, base);
    DigitValue(Rem(n, base), Lower);
    assert Digit(Rem(n, base), Negative) as int == 48 - Rem(n, base);
    hide Numeral, Quot, Rem, Digit, Value;
    if Quot(n, base) > 0 {
      NegativeNumeral(Quot(n, base), base);
    }
  }

  lemma OneDigit(c: char, base: nat, kind: Kind)
    requires Base(base) && kind != Negative && Value(c) < base && c == Digit(Value(c), kind)
    ensures [c] == Numeral(Parse([c], base), base, kind)
  {
    ParseEmpty(base);
    ParseLast([], c, base);
    assert [] + [c] == [c];
    hide Parse;
    if Value(c) > 0 {
      NumeralStep(Value(c), base, kind);
      Small(Value(c), base);
    }
  }

  lemma AnotherDigit(front: seq<char>, c: char, base: nat, kind: Kind)
    requires Base(base) && Value(c) < base && c == Digit(Value(c), kind)
    requires front != [] && front[0] != '0' && front == Numeral(Parse(front, base), base, kind)
    ensures front + [c] == Numeral(Parse(front + [c], base), base, kind)
  {
    Positive(front, base, kind);
    ParseLast(front, c, base);
    var q := Parse(front, base);
    DivMod(q, base, Value(c));
    hide Parse, Numeral, Value, Digit;
    NumeralStep(Parse(front + [c], base), base, kind);
  }

  lemma Small(d: nat, base: nat)
    requires d < base
    ensures Quot(d, base) == 0 && Rem(d, base) == d
  {
    DivUnique(d, base, 0, d);
  }

  lemma DivMod(q: nat, base: nat, r: nat)
    requires r < base && q > 0
    ensures Quot(q * base + r, base) == q && Rem(q * base + r, base) == r && q * base + r > 0
  {
    DivUnique(q * base + r, base, q, r);
    MulMono(1, q, base);
  }

  /** A nonempty numeral without leading zero has a positive value. */
  lemma Positive(s: seq<char>, base: nat, kind: Kind)
    requires Base(base) && s != [] && s == Numeral(Parse(s, base), base, kind) && s[0] != '0'
    ensures Parse(s, base) > 0
  {}

  function Power(base: nat, k: nat): nat {
    if k == 0 then 1 else base * Power(base, k - 1)
  }

  /** A number below base^k has at most k digits. */
  lemma {:induction false} NumeralLength(n: nat, base: nat, kind: Kind, k: nat)
    requires Base(base) && n < Power(base, k) && 0 < k
    ensures |Numeral(n, base, kind)| <= k
  {
    if n > 0 {
      NumeralStep(n, base, kind);
      hide Numeral, Quot, Rem;
      if Quot(n, base) > 0 {
        Shorter(n, base, k);
        NumeralLength(Quot(n, base), base, kind, k - 1);
      }
    }
  }

  lemma Shorter(n: nat, base: nat, k: nat)
    requires Base(base) && n > 0 && Quot(n, base) > 0 && n < Power(base, k) && 0 < k
    ensures Quot(n, base) < Power(base, k - 1) && 1 < k && Quot(n, base) < n
  {
    var p, q := Power(base, k - 1), Quot(n, base);
    DivIdentity(n, base);
    hide Quot, Rem;
    MulMono(1, q, base);
    if p <= q {
      MulMono(p, q, base);
    }
  }
}

/** kernel/lib/string.c: reverse, itoa, ulltoa and vsprintf on character buffers. */
module Strings {
  import opened Words
  import opened Numerals

  const INT_MIN: int := -0x8000_0000
  const INT_MAX: int := 0x7FFF_FFFF

  /** C's truncating `/` and `%`. */
  function CDiv(n: int, base: nat): int
    requires base > 0
  {
    if n >= 0 then Quot(n, base) else 0 - Quot(-n, base)
  }

  function CMod(n: int, base: nat): int
    requires base > 0
  {
    if n >= 0 then Rem(n, base) else 0 - Rem(-n, base)
  }

  function Abs(n: int): nat {
    if n < 0 then -n else n
  }

  /** The characters that itoa stores for a number, without the NUL. */
  function SignedNumeral(num: int, base: nat): seq<char>
    requires Base(base)
  {
    if num >= 0 then Numeral(num, base, Lower)
    else if base == 10 then ['-'] + Numeral(-num, base, Lower)
    else Numeral(-num, base, Negative)
  }

  function ParseSigned(s: seq<char>): int {
    if s != [] && s[0] == '-' then 0 - Parse(s[1..], 10) else Parse(s, 10)
  }

  /** Parsing what itoa(num, 10) stores gives back num; no leading zero unless num is 0. */
  lemma SignedRoundTrip(num: int)
    ensures var s := SignedNumeral(num, 10);
            ParseSigned(s) == num && s != [] && (s[0] == '0' <==> num == 0)
            && (num < 0 ==> s[0] == '-' && |s| > 1 && s[1] != '0')
  {
    RoundTrip(Abs(num), 10, Lower);
    hide Numeral, Parse;
    var s := SignedNumeral(num, 10);
    if num < 0 {
      assert s[1..] == Numeral(-num, 10, Lower);
    } else {
      assert Value(s[0]) < 10;
      if num == 0 {
        NumeralOfZero(10, Lower);
      }
    }
  }

  /** The text of an integer in the base: small letters; a minus sign in base ten; and in the
      other bases the digits of a negative number count downwards from '0'. */
  ghost predicate SignedText(s: seq<char>, num: int, base: nat) {
    if num >= 0 then LowerText(s, num, base)
    else if base == 10 then s != [] && s[0] == '-' && LowerText(s[1..], -num, 10)
    else exists t :: LowerText(t, -num, base) && BelowZero(s, t)
  }

  predicate BelowZero(s: seq<char>, t: seq<char>) {
    |s| == |t| && forall i :: 0 <= i < |s| ==> s[i] as int == 48 - Value(t[i])
  }

  lemma SignedNumeralText(num: int, base: nat)
    requires Base(base)
    ensures SignedText(SignedNumeral(num, base), num, base)
  {
    hide Numeral, LowerText, Value;
    NumeralText(Numeral(Abs(num), base, Lower), Abs(num), base);
    if num < 0 && base == 10 {
      assert SignedNumeral(num, base)[1..] == Numeral(-num, 10, Lower);
    } else if num < 0 {
      NegativeNumeral(-num, base);
      assert BelowZero(SignedNumeral(num, base), Numeral(-num, base, Lower));
    }
  }

  /** The front of a filled buffer is the text. */
  lemma FilledFront(before: seq<char>, after: seq<char>, s: seq<char>)
    requires Filled(before, after, s)
    ensures after[..|s|] == s
  {}

  /** A 32-bit number has at most ten decimal digits and a sign, a 64-bit number at
      most sixteen hexadecimal digits: the scratch arrays of vsprintf are large enough. */
  lemma ScratchSizes()
    ensures forall num: int :: INT_MIN < num <= INT_MAX ==> |SignedNumeral(num, 10)| + 1 <= 12
    ensures forall n: nat, kind :: n < 0x1_0000_0000_0000_0000 ==> |Numeral(n, 16, kind)| + 1 <= 17
  {
    forall num: int | INT_MIN < num <= INT_MAX ensures |SignedNumeral(num, 10)| + 1 <= 12 {
      PowerValues();
      NumeralLength(Abs(num), 10, Lower, 10);
    }
    forall n: nat, kind | n < 0x1_0000_0000_0000_0000 ensures |Numeral(n, 16, kind)| + 1 <= 17 {
      PowerValues();
      NumeralLength(n, 16, kind, 16);
    }
  }

  lemma PowerValues()
    ensures Power(10, 10) == 10_000_000_000 && Power(16, 16) == 0x1_0000_0000_0000_0000
  {
    assert Power(10, 4) == 10_000 && Power(16, 4) == 0x1_0000;
    assert Power(10, 7) == 10_000_000 && Power(16, 7) == 0x1000_0000;
    assert Power(16, 10) == 0x100_0000_0000 && Power(16, 13) == 0x10_0000_0000_0000;
  }

  /** reverse: the first `len` characters, in place. */
  method ReverseInPlace(str: array<char>, len: nat)
    requires len <= str.Length
    modifies str
    ensures str[..len] == Reverse(old(str[..len])) && str[len..] == old(str[len..])
  {
    var start: int := 0;
    var end: int := len - 1;
    while start < end
      invariant 0 <= start && end == len - 1 - start && start <= end + 1
      invariant forall k :: 0 <= k < start ==> str[k] == old(str[len - 1 - k]) && str[len - 1 - k] == old(str[k])
      invariant forall k :: start <= k <= end ==> str[k] == old(str[k])
      invariant str[len..] == old(str[len..])
    {
      var temp := str[start];
      str[start] := str[end];
      str[end] := temp;
      start := start + 1;
      end := end - 1;
    }
    assert forall k :: 0 <= k < len ==> str[k] == old(str[len - 1 - k]);
    ghost var was, now := old(str[..len]), str[..len];
    forall k: nat | k < len ensures now[k] == Reverse(was)[k] {
      ReverseAt(was, k);
      assert now[k] == str[k] && was[len - 1 - k] == old(str[len - 1 - k]);
    }
    assert now == Reverse(was);
  }

  /** A numeral and its NUL fill the front of a buffer and leave the rest alone. */
  ghost predicate Filled(before: seq<char>, after: seq<char>, s: seq<char>) {
    |s| < |before| == |after| && after == s + ['\0'] + before[|s| + 1..]
  }

  /** ulltoa. */
  method Ulltoa(num0: nat, str: array<char>, base: nat) returns (i: nat)
    requires Base(base) && |Numeral(num0, base, Lower)| < str.Length
    modifies str
    ensures i == |Numeral(num0, base, Lower)|
    ensures Filled(old(str[..]), str[..], Numeral(num0, base, Lower))
    ensures LowerText(str[..i], num0, base)
  {
    i := 0;
    NumeralText(Numeral(num0, base, Lower), num0, base);
    hide LowerText;
    if num0 == 0 {
      str[0] := '0';
      str[1] := '\0';
      assert str[..1] == Numeral(0, base, Lower);
      return 1;
    }
    var num: nat := num0;
    ghost var was := str[..];
    ghost var all := Reversed(num0, base, Lower);
    NumeralIsReverse(num0, base, Lower);
    EmptyDigits(base, Lower);
    hide Reversed, Numeral, Reverse, RemChar, Digit, Quot, Rem;
    while num != 0
      invariant i <= |all| && str[..i] + Reversed(num, base, Lower) == all && str[i..] == was[i..]
      decreases num
    {
      UnsignedStep(str[..i], num, base);
      PutChar(str, i, RemChar(Rem(num, base)), was);
      i := i + 1;
      num := Quot(num, base);
    }
    Finish(str, i, was, all);
    FilledFront(was, str[..], Numeral(num0, base, Lower));
  }

  lemma NumeralIsReverse(n: nat, base: nat, kind: Kind)
    requires Base(base) && n > 0
    ensures Numeral(n, base, kind) == Reverse(Reversed(n, base, kind))
  {}

  /** `str[i] = 0; reverse(str, i);` */
  method Finish(str: array<char>, i: nat, ghost was: seq<char>, ghost s: seq<char>)
    requires i == |s| < str.Length == |was| && str[..i] == s && str[i..] == was[i..]
    modifies str
    ensures Filled(was, str[..], Reverse(s))
  {
    PutChar(str, i, '\0', was);
    ghost var before := str[..];
    FirstPart(before, s, '\0', was);
    ReverseInPlace(str, i);
    hide Reverse;
    JoinFilled(before, str[..], was, Reverse(s));
  }

  lemma FirstPart(b: seq<char>, s: seq<char>, c: char, was: seq<char>)
    requires |s| < |b| == |was| && b[..|s| + 1] == s + [c] && b[|s| + 1..] == was[|s| + 1..]
    ensures b[..|s|] == s && b[|s|..] == [c] + was[|s| + 1..]
  {
    assert b[..|s|] == b[..|s| + 1][..|s|];
  }

  lemma JoinFilled(before: seq<char>, after: seq<char>, was: seq<char>, r: seq<char>)
    requires |r| < |after| == |before| == |was| && after[..|r|] == r && after[|r|..] == before[|r|..]
    requires before[|r|..] == ['\0'] + was[|r| + 1..]
    ensures Filled(was, after, r)
  {
    assert after == after[..|r|] + after[|r|..];
  }

  /** itoa. For base ten the negation excludes the least 32-bit number. */
  method Itoa(num0: int, str: array<char>, base: nat) returns (i: nat)
    requires INT_MIN <= num0 <= INT_MAX && Base(base) && (base == 10 ==> INT_MIN < num0)
    requires |SignedNumeral(num0, base)| < str.Length
    modifies str
    ensures i == |SignedNumeral(num0, base)|
    ensures Filled(old(str[..]), str[..], SignedNumeral(num0, base))
    ensures SignedText(str[..i], num0, base)
  {
    i := 0;
    SignedNumeralText(num0, base);
    hide LowerText, SignedText;
    if num0 == 0 {
      str[0] := '0';
      str[1] := '\0';
      assert str[..1] == SignedNumeral(0, base);
      return 1;
    }
    var num := num0;
    var isNegative := false;
    if num < 0 && base == 10 {
      isNegative := true;
      num := -num;
    }
    ghost var was := str[..];
    ghost var all := Reversed(Abs(num), base, if num < 0 then Negative else Lower);
    NumeralIsReverse(Abs(num0), base, if num < 0 then Negative else Lower);
    SignedIs(num0, base, all);
    hide Reversed, Numeral, SignedNumeral, Reverse;
    i := SignedDigits(num, str, base);
    if isNegative {
      PutChar(str, i, '-', was);
      i := i + 1;
      ReverseAppend(all, '-');
      Finish(str, i, was, all + ['-']);
    } else {
      Finish(str, i, was, all);
    }
    FilledFront(was, str[..], SignedNumeral(num0, base));
  }

  /** The digit loop of itoa. */
  method SignedDigits(num0: int, str: array<char>, base: nat) returns (i: nat)
    requires Base(base) && |Reversed(Abs(num0), base, if num0 < 0 then Negative else Lower)| < str.Length
    modifies str
    ensures var all := Reversed(Abs(num0), base, if num0 < 0 then Negative else Lower);
            i == |all| && str[..i] == all && str[i..] == old(str[i..])
  {
    var num := num0;
    i := 0;
    ghost var was := str[..];
    ghost var kind := if num < 0 then Negative else Lower;
    ghost var all := Reversed(Abs(num0), base, kind);
    hide Reversed, CMod, CDiv, RemChar, Quot, Rem;
    EmptyDigits(base, kind);
    while num != 0
      invariant i <= |all| && (num < 0 ==> kind == Negative) && (num > 0 ==> kind == Lower)
      invariant str[..i] + Reversed(Abs(num), base, kind) == all && str[i..] == was[i..]
      decreases Abs(num)
    {
      SignedStep(num, base, kind);
      DigitStep(str[..i], Abs(num), base, kind);
      PutChar(str, i, RemChar(CMod(num, base)), was);
      i := i + 1;
      num := CDiv(num, base);
    }
  }

  /** `(rem > 9) ? (rem - 10) + 'a' : rem + '0'` */
  function RemChar(rem: int): char
    requires -36 < rem < 36
  {
    if rem > 9 then ((rem - 10) + 'a' as int) as char else (rem + '0' as int) as char
  }

  lemma EmptyDigits(base: nat, kind: Kind)
    requires Base(base)
    ensures Reversed(0, base, kind) == []
  {}

  lemma SignedIs(num: int, base: nat, all: seq<char>)
    requires Base(base) && num != 0
    requires all == Reversed(Abs(num), base, if num < 0 && base != 10 then Negative else Lower)
    ensures SignedNumeral(num, base) == (if num < 0 && base == 10 then ['-'] else []) + Reverse(all)
  {
    hide Reversed;
  }

  /** One round of itoa's loop on the magnitude: truncation keeps the sign. */
  lemma SignedStep(num: int, base: nat, kind: Kind)
    requires Base(base) && num != 0 && kind == if num < 0 then Negative else Lower
    ensures -36 < CMod(num, base) < 36 && RemChar(CMod(num, base)) == Digit(Rem(Abs(num), base), kind)
    ensures var next := CDiv(num, base);
            Abs(next) == Quot(Abs(num), base) && Abs(next) < Abs(num)
            && (num < 0 ==> next <= 0) && (num > 0 ==> next >= 0)
  {
    DivIdentity(Abs(num), base);
    Truncated(num, base);
    var d := Rem(Abs(num), base);
    RemCharDigit(d, kind);
    hide CMod, CDiv, RemChar, Digit, Abs;
    SignedQuotient(num, base);
  }

  lemma Truncated(num: int, base: nat)
    requires base > 0
    ensures CMod(num, base) == if num < 0 then 0 - Rem(Abs(num), base) else Rem(Abs(num), base)
    ensures CDiv(num, base) == if num < 0 then 0 - Quot(Abs(num), base) else Quot(Abs(num), base)
  {}

  lemma SignedQuotient(num: int, base: nat)
    requires Base(base) && num != 0
    ensures var next := CDiv(num, base);
            Abs(next) == Quot(Abs(num), base) && (num < 0 ==> next <= 0) && (num > 0 ==> next >= 0)
  {
    Truncated(num, base);
    var q := Quot(Abs(num), base);
    hide CDiv;
    assert q >= 0;
  }

  lemma RemCharDigit(d: nat, kind: Kind)
    requires d < 36 && kind != Upper
    ensures RemChar(if kind == Negative then 0 - d else d) == Digit(d, kind)
  {}

  /** One round of a digit loop moves the lowest digit to the buffer. */
  lemma DigitStep(done: seq<char>, n: nat, base: nat, kind: Kind)
    requires Base(base) && n > 0
    ensures done + Reversed(n, base, kind) == done + [Digit(Rem(n, base), kind)] + Reversed(Quot(n, base), base, kind)
  {}

  /** One round of ulltoa's loop. */
  lemma UnsignedStep(done: seq<char>, n: nat, base: nat)
    requires Base(base) && n > 0
    ensures Rem(n, base) < 36 && Quot(n, base) < n
    ensures done + Reversed(n, base, Lower) == done + [RemChar(Rem(n, base))] + Reversed(Quot(n, base), base, Lower)
  {
    DivIdentity(n, base);
    RemCharDigit(Rem(n, base), Lower);
    DigitStep(done, n, base, Lower);
  }

  /** `str[i] = c` behind the characters stored so far. */
  method PutChar(str: array<char>, i: nat, c: char, ghost was: seq<char>)
    requires i < str.Length == |was| && str[i..] == was[i..]
    modifies str
    ensures str[..i + 1] == old(str[..i]) + [c] && str[i + 1..] == was[i + 1..]
  {
    ghost var rest := str[i + 1..];
    str[i] := c;
    assert rest == was[i..][1..];
  }

  lemma {:induction false} ReverseAppend(s: seq<char>, c: char)
    ensures Reverse(s + [c]) == [c] + Reverse(s)
  {
    if s == [] {
      assert [] + [c] == [c];
    } else {
      ReverseAppend(s[1..], c);
      assert (s + [c])[1..] == s[1..] + [c];
    }
  }
}

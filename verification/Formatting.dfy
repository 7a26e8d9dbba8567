/** kernel/lib/string.c: vsprintf, proved to write a recursive rendering of its format. */
module Formatting {
  import opened Numerals
  import opened Strings

  const WORD_LIMIT: nat := 0x1_0000_0000_0000_0000

  /** One variadic argument. Strings carry their terminating NUL; `NullStr` is a null pointer. */
  datatype Arg = Char(code: int) | Str(text: seq<char>) | NullStr | Int(num: int) | Long(word: nat)

  /** A NUL-terminated string whose first NUL is at `n`. */
  ghost predicate EndsAt(s: seq<char>, n: nat) {
    n < |s| && s[n] == '\0' && forall i: nat :: i < n ==> s[i] != '\0'
  }

  /** The next argument suits the conversion `spec`: its C type, and the range of that type. */
  ghost predicate Suits(spec: char, args: seq<Arg>) {
    match spec
    case 'c' => args != [] && args[0].Char?
    case 's' => args != [] && (args[0].NullStr? || (args[0].Str? && args[0].text != []
                      && EndsAt(args[0].text, |args[0].text| - 1)))
    case 'd' => args != [] && args[0].Int? && INT_MIN < args[0].num <= INT_MAX
    case 'x' => args != [] && args[0].Long? && args[0].word < WORD_LIMIT
    case 'X' => args != [] && args[0].Long? && args[0].word < WORD_LIMIT
    case _ => true
  }

  predicate TakesArgument(spec: char) {
    spec == 'c' || spec == 's' || spec == 'd' || spec == 'x' || spec == 'X'
  }

  function After(spec: char, args: seq<Arg>): seq<Arg> {
    if TakesArgument(spec) && args != [] then args[1..] else args
  }

  /** What one conversion stands for. An unknown conversion stands for its own letter,
      so "%%" stands for "%". */
  ghost function Field(spec: char, args: seq<Arg>): seq<char>
    requires Suits(spec, args)
  {
    match spec
    case 'c' => [(args[0].code % 256) as char]
    case 's' => if args[0].NullStr? then "(null)" else args[0].text[..|args[0].text| - 1]
    case 'd' => SignedNumeral(args[0].num, 10)
    case 'x' => Numeral(args[0].word, 16, Lower)
    case 'X' => Numeral(args[0].word, 16, Upper)
    case _ => [spec]
  }

  /** The arguments suit the format, and no lone `%` ends it. */
  ghost predicate Matches(format: seq<char>, args: seq<Arg>) {
    if format == [] then true
    else if format[0] != '%' then Matches(format[1..], args)
    else |format| > 1 && Suits(format[1], args) && Matches(format[2..], After(format[1], args))
  }

  /** The meaning of a format. */
  ghost function Render(format: seq<char>, args: seq<Arg>): seq<char>
    requires Matches(format, args)
  {
    if format == [] then []
    else if format[0] != '%' then [format[0]] + Render(format[1..], args)
    else Field(format[1], args) + Render(format[2..], After(format[1], args))
  }

  /** The buffer holds `done`, whose rest is still to come, in front of untouched characters. */
  ghost predicate Pending(f: seq<char>, args: seq<Arg>, b: seq<char>, written: nat, was: seq<char>, all: seq<char>) {
    Matches(f, args) && |all| < |b| == |was| && written <= |b|
    && b[..written] + Render(f, args) == all && b[written..] == was[written..]
  }

  /** `part` has been stored behind the first `from` characters. */
  ghost predicate Stored(prior: seq<char>, later: seq<char>, from: nat, to: nat, part: seq<char>, was: seq<char>) {
    to == from + |part| <= |later| == |prior| == |was|
    && later[..to] == prior[..from] + part && later[to..] == was[to..]
  }

  lemma StoredStep(prior: seq<char>, mid: seq<char>, later: seq<char>, from: nat, to: nat, part: seq<char>, c: char,
                   was: seq<char>)
    requires Stored(prior, mid, from, to, part, was) && Stored(mid, later, to, to + 1, [c], was)
    ensures Stored(prior, later, from, to + 1, part + [c], was)
  {}

  lemma StoredPart(prior: seq<char>, later: seq<char>, from: nat, to: nat, part: seq<char>, was: seq<char>)
    requires Stored(prior, later, from, to, part, was)
    ensures from <= to <= |later| && later[from..to] == part
  {
    assert later[from..to] == later[..to][from..];
  }

  lemma NothingStored(b: seq<char>, from: nat, was: seq<char>)
    requires from <= |b| == |was| && b[from..] == was[from..]
    ensures Stored(b, b, from, from, [], was)
  {}

  method Put(buffer: array<char>, at: nat, c: char, ghost was: seq<char>) returns (next: nat)
    requires at < buffer.Length == |was| && buffer[at..] == was[at..]
    modifies buffer
    ensures Stored(old(buffer[..]), buffer[..], at, next, [c], was)
  {
    ghost var before := buffer[..];
    assert before[..at] == buffer[..at];
    PutChar(buffer, at, c, was);
    next := at + 1;
    assert buffer[..][..next] == buffer[..next] && buffer[..][next..] == buffer[next..];
  }

  /** `while (*arg) *str++ = *arg++;` */
  method PutString(buffer: array<char>, at: nat, arg: seq<char>, ghost n: nat, ghost was: seq<char>)
    returns (next: nat)
    requires EndsAt(arg, n) && at + n < buffer.Length == |was| && buffer[at..] == was[at..]
    modifies buffer
    ensures Stored(old(buffer[..]), buffer[..], at, next, arg[..n], was)
  {
    next := at;
    var j := 0;
    ghost var before := buffer[..];
    NothingStored(before, at, was);
    while arg[j] != '\0'
      invariant j <= n && next == at + j && Stored(before, buffer[..], at, next, arg[..j], was)
      decreases n - j
    {
      ghost var mid := buffer[..];
      assert buffer[next..] == mid[next..];
      var to := Put(buffer, next, arg[j], was);
      StoredStep(before, mid, buffer[..], at, next, arg[..j], arg[j], was);
      next := to;
      j := j + 1;
      assert arg[..j] == arg[..j - 1] + [arg[j - 1]];
    }
  }

  /** The 'd' case: itoa into a 12-character array, copied up to its NUL. */
  method PutInt(buffer: array<char>, at: nat, num: int, ghost was: seq<char>) returns (next: nat)
    requires INT_MIN < num <= INT_MAX
    requires at + |SignedNumeral(num, 10)| < buffer.Length == |was| && buffer[at..] == was[at..]
    modifies buffer
    ensures Stored(old(buffer[..]), buffer[..], at, next, SignedNumeral(num, 10), was)
  {
    ghost var before := buffer[..];
    var numStr := new char[12];
    ScratchSizes();
    NumeralHasNoNul(num);
    hide SignedNumeral;
    var len := Itoa(num, numStr, 10);
    assert numStr[..][..len] == SignedNumeral(num, 10) && buffer[..] == before;
    next := PutString(buffer, at, numStr[..], len, was);
  }

  lemma NumeralHasNoNul(num: int)
    ensures forall i: nat :: i < |SignedNumeral(num, 10)| ==> SignedNumeral(num, 10)[i] != '\0'
  {
    RoundTrip(Abs(num), 10, Lower);
    hide Numeral;
    assert Value('\0') == 36;
  }

  /** The digit loop of the 'x' and 'X' cases. */
  method HexDigits(num0: nat, isUpper: bool, numStr: array<char>) returns (len: nat)
    requires 0 < num0 < WORD_LIMIT && numStr.Length == 17
    modifies numStr
    ensures len <= 17 && numStr[..len] == Reversed(num0, 16, if isUpper then Upper else Lower)
  {
    ghost var kind := if isUpper then Upper else Lower;
    ghost var all := Reversed(num0, 16, kind);
    ScratchSizes();
    NumeralIsReverse(num0, 16, kind);
    EmptyDigits(16, kind);
    hide Reversed, Numeral, Reverse;
    ghost var was := numStr[..];
    var num: nat := num0;
    len := 0;
    while num != 0
      invariant len <= |all| && numStr[..len] + Reversed(num, 16, kind) == all && numStr[len..] == was[len..]
      decreases num
    {
      var rem := num % 16;
      HexStep(numStr[..len], num, kind);
      PutChar(numStr, len, HexChar(rem, isUpper), was);
      len := len + 1;
      num := num / 16;
    }
  }

  function HexChar(rem: nat, isUpper: bool): char
    requires rem < 16
  {
    if rem < 10 then (rem + '0' as int) as char
    else ((if isUpper then 'A' as int else 'a' as int) + (rem - 10)) as char
  }

  lemma HexStep(done: seq<char>, n: nat, kind: Kind)
    requires n > 0 && kind != Negative
    ensures n / 16 < n && HexChar(n % 16, kind == Upper) == Digit(n % 16, kind)
    ensures done + Reversed(n, 16, kind) == done + [HexChar(n % 16, kind == Upper)] + Reversed(n / 16, 16, kind)
  {
    DigitStep(done, n, 16, kind);
    assert HexChar(n % 16, kind == Upper) == Digit(n % 16, kind);
    hide Reversed, HexChar, Digit;
  }

  /** The 'x' and 'X' cases: the digits are stored last first. */
  method PutHex(buffer: array<char>, at: nat, num: nat, isUpper: bool, ghost was: seq<char>) returns (next: nat)
    requires num < WORD_LIMIT
    requires at + |Numeral(num, 16, if isUpper then Upper else Lower)| < buffer.Length == |was|
    requires buffer[at..] == was[at..]
    modifies buffer
    ensures Stored(old(buffer[..]), buffer[..], at, next, Numeral(num, 16, if isUpper then Upper else Lower), was)
    ensures at <= next <= buffer.Length
    ensures isUpper ==> UpperText(buffer[at..next], num, 16)
    ensures !isUpper ==> LowerText(buffer[at..next], num, 16)
  {
    ghost var kind := if isUpper then Upper else Lower;
    ghost var before, text := buffer[..], Numeral(num, 16, kind);
    NumeralText(text, num, 16);
    hide LowerText, UpperText, Stored, Numeral, Reversed, Reverse;
    if num == 0 {
      NumeralOfZero(16, kind);
      next := Put(buffer, at, '0', was);
    } else {
      NumeralIsReverse(num, 16, kind);
      var numStr := new char[17];
      var len := HexDigits(num, isUpper, numStr);
      assert buffer[..] == before && buffer[at..] == before[at..];
      next := PutBackwards(buffer, at, numStr, len, was);
    }
    StoredPart(before, buffer[..], at, next, text, was);
    assert buffer[..][at..next] == buffer[at..next];
  }

  /** `for (int j = len - 1; j >= 0; j--) *str++ = num_str[j];` */
  method PutBackwards(buffer: array<char>, at: nat, numStr: array<char>, len: nat, ghost was: seq<char>)
    returns (next: nat)
    requires buffer != numStr && len <= numStr.Length
    requires at + len < buffer.Length == |was| && buffer[at..] == was[at..]
    modifies buffer
    ensures Stored(old(buffer[..]), buffer[..], at, next, Reverse(numStr[..len]), was)
  {
    ghost var before, digits := buffer[..], numStr[..len];
    NothingStored(before, at, was);
    next := at;
    var j: int := len - 1;
    hide Reverse, Stored;
    while j >= 0
      invariant -1 <= j < len && next == at + len - 1 - j
      invariant Stored(before, buffer[..], at, next, Reverse(digits)[..len - 1 - j], was)
      decreases j
    {
      ghost var mid := buffer[..];
      RestKept(before, mid, at, next, Reverse(digits)[..len - 1 - j], was);
      assert buffer[next..] == mid[next..];
      var to := Put(buffer, next, numStr[j], was);
      StoredNext(mid, buffer[..], next, to, numStr[j], was);
      StoredStep(before, mid, buffer[..], at, next, Reverse(digits)[..len - 1 - j], numStr[j], was);
      ReverseGrows(digits, len - 1 - j);
      next := to;
      j := j - 1;
    }
    assert Reverse(digits)[..len] == Reverse(digits);
  }

  lemma RestKept(prior: seq<char>, later: seq<char>, from: nat, to: nat, part: seq<char>, was: seq<char>)
    requires Stored(prior, later, from, to, part, was)
    ensures to == from + |part| <= |later| == |was| && later[to..] == was[to..]
  {}

  lemma StoredNext(prior: seq<char>, later: seq<char>, from: nat, to: nat, c: char, was: seq<char>)
    requires Stored(prior, later, from, to, [c], was)
    ensures to == from + 1
  {}

  lemma ReverseGrows(s: seq<char>, n: nat)
    requires n < |s|
    ensures Reverse(s)[..n + 1] == Reverse(s)[..n] + [s[|s| - 1 - n]]
  {
    ReverseAt(s, n);
    hide Reverse;
    PrefixGrows(Reverse(s), n);
  }

  lemma PrefixGrows(r: seq<char>, n: nat)
    requires n < |r|
    ensures r[..n + 1] == r[..n] + [r[n]]
  {}

  /** The switch of vsprintf. */
  method PutField(buffer: array<char>, at: nat, spec: char, args: seq<Arg>, ghost was: seq<char>) returns (next: nat)
    requires Suits(spec, args) && at + |Field(spec, args)| < buffer.Length == |was| && buffer[at..] == was[at..]
    modifies buffer
    ensures Stored(old(buffer[..]), buffer[..], at, next, Field(spec, args), was)
  {
    hide Numeral, SignedNumeral, Stored;
    match spec
    case 'c' =>
      next := Put(buffer, at, (args[0].code % 256) as char, was);
    case 's' =>
      if args[0].NullStr? {
        assert ("(null)" + ['\0'])[..6] == "(null)";
        next := PutString(buffer, at, "(null)" + ['\0'], 6, was);
      } else {
        next := PutString(buffer, at, args[0].text, |args[0].text| - 1, was);
      }
    case 'd' =>
      next := PutInt(buffer, at, args[0].num, was);
    case 'x' =>
      next := PutHex(buffer, at, args[0].word, false, was);
    case 'X' =>
      next := PutHex(buffer, at, args[0].word, true, was);
    case _ =>
      next := Put(buffer, at, spec, was);
  }

  lemma SplitField(f: seq<char>, args: seq<Arg>, b: seq<char>, written: nat, was: seq<char>, all: seq<char>)
    requires Pending(f, args, b, written, was, all) && f != [] && f[0] == '%'
    ensures |f| > 1 && Suits(f[1], args) && Matches(f[2..], After(f[1], args))
    ensures var part := Field(f[1], args);
            written + |part| < |b| && b[..written] + part + Render(f[2..], After(f[1], args)) == all
  {
    hide Field, Suits, After;
  }

  lemma SplitLiteral(f: seq<char>, args: seq<Arg>, b: seq<char>, written: nat, was: seq<char>, all: seq<char>)
    requires Pending(f, args, b, written, was, all) && f != [] && f[0] != '%'
    ensures Matches(f[1..], args) && written + 1 < |b| && b[..written] + [f[0]] + Render(f[1..], args) == all
  {
    hide Field, Suits, After;
  }

  lemma Continue(f: seq<char>, args: seq<Arg>, prior: seq<char>, later: seq<char>, from: nat, to: nat,
                 part: seq<char>, was: seq<char>, all: seq<char>)
    requires Stored(prior, later, from, to, part, was) && Matches(f, args) && |all| < |later|
    requires prior[..from] + part + Render(f, args) == all
    ensures Pending(f, args, later, to, was, all)
  {
    hide Matches, Render;
  }

  lemma AtStart(format: seq<char>, args: seq<Arg>, was: seq<char>)
    requires Matches(format, args) && |Render(format, args)| < |was|
    ensures Pending(format[0..], args, was, 0, was, Render(format, args))
  {
    assert format[0..] == format;
    assert was[..0] + Render(format, args) == Render(format, args);
  }

  lemma AtEnd(args: seq<Arg>, b: seq<char>, written: nat, was: seq<char>, all: seq<char>)
    requires Pending([], args, b, written, was, all)
    ensures written == |all| && b[..written] == all && b[written..] == was[written..]
  {}

  /** `*str = 0;` */
  method Terminate(buffer: array<char>, written: nat, ghost was: seq<char>, ghost all: seq<char>)
    requires written == |all| < buffer.Length == |was|
    requires buffer[..written] == all && buffer[written..] == was[written..]
    modifies buffer
    ensures Filled(was, buffer[..], all)
  {
    PutChar(buffer, written, '\0', was);
    assert buffer[..] == buffer[..written + 1] + buffer[written + 1..];
  }

  /** vsprintf: the buffer holds the rendering and a NUL, the characters behind it are
      left alone, and the answer is the length of the rendering. */
  method Vsprintf(buffer: array<char>, format: seq<char>, args0: seq<Arg>, ghost n: nat) returns (written: nat)
    requires EndsAt(format, n) && Matches(format[..n], args0)
    requires |Render(format[..n], args0)| < buffer.Length
    modifies buffer
    ensures written == |Render(format[..n], args0)|
    ensures Filled(old(buffer[..]), buffer[..], Render(format[..n], args0))
  {
    written := 0;
    ghost var was, all, text := buffer[..], Render(format[..n], args0), format[..n];
    var args := args0;
    var i := 0;
    AtStart(text, args, was);
    hide Matches, Render, Suits, Field, After, Filled;
    while format[i] != '\0'
      invariant i <= n && Pending(text[i..], args, buffer[..], written, was, all)
      decreases n - i
    {
      ghost var rest := text[i..];
      ghost var before := buffer[..];
      assert buffer[written..] == before[written..];
      if format[i] == '%' {
        SplitField(rest, args, before, written, was, all);
        i := i + 1;
        var at := written;
        written := PutField(buffer, written, format[i], args, was);
        assert rest[2..] == text[i + 1..];
        Continue(rest[2..], After(format[i], args), before, buffer[..], at, written, Field(format[i], args), was, all);
        args := After(format[i], args);
      } else {
        SplitLiteral(rest, args, before, written, was, all);
        var at := written;
        written := Put(buffer, written, format[i], was);
        assert rest[1..] == text[i + 1..];
        Continue(rest[1..], args, before, buffer[..], at, written, [format[i]], was, all);
      }
      i := i + 1;
    }
    assert text[i..] == [];
    AtEnd(args, buffer[..], written, was, all);
    assert buffer[..][..written] == buffer[..written] && buffer[..][written..] == buffer[written..];
    Terminate(buffer, written, was, all);
  }

  /** How many arguments a format takes. */
  function Takes(f: seq<char>): nat {
    if |f| < 2 then 0
    else if f[0] != '%' then Takes(f[1..])
    else (if TakesArgument(f[1]) then 1 else 0) + Takes(f[2..])
  }

  /** Formatting in one call is formatting the parts one after the other. */
  lemma {:induction false} RenderConcat(f: seq<char>, g: seq<char>, a: seq<Arg>, b: seq<Arg>)
    requires Matches(f, a) && |a| == Takes(f) && Matches(g, b)
    ensures Matches(f + g, a + b) && Render(f + g, a + b) == Render(f, a) + Render(g, b)
    decreases |f|
  {
    if f == [] {
      assert f + g == g && a + b == b;
    } else if f[0] != '%' {
      assert (f + g)[1..] == f[1..] + g;
      RenderConcat(f[1..], g, a, b);
    } else {
      assert (f + g)[2..] == f[2..] + g;
      FieldOfFirst(f[1], a, b);
      hide Field, Suits;
      RenderConcat(f[2..], g, After(f[1], a), b);
    }
  }

  lemma FieldOfFirst(spec: char, a: seq<Arg>, b: seq<Arg>)
    requires Suits(spec, a)
    ensures Suits(spec, a + b) && Field(spec, a + b) == Field(spec, a) && After(spec, a + b) == After(spec, a) + b
  {
    hide Numeral, SignedNumeral;
    if TakesArgument(spec) {
      assert (a + b)[0] == a[0] && (a + b)[1..] == a[1..] + b;
    }
  }

  lemma OneConversion(spec: char, args: seq<Arg>)
    requires Suits(spec, args)
    ensures Matches(['%', spec], args) && Render(['%', spec], args) == Field(spec, args)
  {
    hide Field;
    assert ['%', spec][2..] == [];
    assert Render([], After(spec, args)) == [];
  }

  /** The text that each conversion stands for, without reference to how it is produced. */
  ghost predicate TextOf(spec: char, arg: Arg, t: seq<char>) {
    match spec
    case 'c' => arg.Char? && t == [(arg.code % 256) as char]
    case 's' => if arg.NullStr? then t == ['(', 'n', 'u', 'l', 'l', ')'] else arg.Str? && arg.text == t + ['\0']
    case 'd' => arg.Int? && SignedText(t, arg.num, 10)
    case 'x' => arg.Long? && LowerText(t, arg.word, 16)
    case 'X' => arg.Long? && UpperText(t, arg.word, 16)
    case _ => false
  }

  /** Each of the five conversions writes the text of its argument and takes just that
      argument; every other character behind a '%' writes itself and takes none. */
  lemma Conversions(spec: char, arg: Arg, rest: seq<char>, args: seq<Arg>)
    requires Matches(rest, args)
    ensures spec in ['c', 's', 'd', 'x', 'X'] && Suits(spec, [arg]) ==>
              Matches(['%', spec] + rest, [arg] + args)
              && exists t :: TextOf(spec, arg, t)
                             && Render(['%', spec] + rest, [arg] + args) == t + Render(rest, args)
    ensures spec !in ['c', 's', 'd', 'x', 'X'] ==>
              Matches(['%', spec] + rest, args)
              && Render(['%', spec] + rest, args) == [spec] + Render(rest, args)
  {
    var f := ['%', spec] + rest;
    assert f[0] == '%' && f[1] == spec && f[2..] == rest;
    if spec in ['c', 's', 'd', 'x', 'X'] && Suits(spec, [arg]) {
      assert ([arg] + args)[0] == arg && ([arg] + args)[1..] == args;
      FieldText(spec, arg, args);
      hide Field, TextOf, Matches, Render;
      RenderField(f, [arg] + args);
    } else if spec !in ['c', 's', 'd', 'x', 'X'] {
      hide Matches, Render;
      RenderField(f, args);
    }
  }

  lemma RenderField(f: seq<char>, args: seq<Arg>)
    requires |f| > 1 && f[0] == '%' && Suits(f[1], args) && Matches(f[2..], After(f[1], args))
    ensures Matches(f, args) && Render(f, args) == Field(f[1], args) + Render(f[2..], After(f[1], args))
  {
    hide Field, Suits, After;
  }

  lemma FieldText(spec: char, arg: Arg, args: seq<Arg>)
    requires spec in ['c', 's', 'd', 'x', 'X'] && Suits(spec, [arg])
    ensures Suits(spec, [arg] + args) && TextOf(spec, arg, Field(spec, [arg] + args))
    ensures After(spec, [arg] + args) == args
  {
    assert ([arg] + args)[0] == arg && ([arg] + args)[1..] == args;
    hide Numeral, SignedNumeral, LowerText, UpperText, SignedText;
    match spec
    case 'd' => SignedNumeralText(arg.num, 10);
    case 'x' => NumeralText(Numeral(arg.word, 16, Lower), arg.word, 16);
    case 'X' => NumeralText(Numeral(arg.word, 16, Upper), arg.word, 16);
    case _ =>
  }

  /** What "%d", "%x" and "%X" write reads back as the number they were given, "%x" with small
      letters and "%X" with capitals, and "%x" writes what ulltoa writes in base 16. */
  lemma NumbersReadBack(num: int, word: nat)
    requires -0x7FFF_FFFF <= num <= 0x7FFF_FFFF && word < 0x1_0000_0000_0000_0000
    ensures Matches("%d", [Int(num)]) && ParseSigned(Render("%d", [Int(num)])) == num
    ensures Matches("%x", [Long(word)]) && Render("%x", [Long(word)]) == Numeral(word, 16, Lower)
    ensures LowerText(Render("%x", [Long(word)]), word, 16)
    ensures Matches("%X", [Long(word)]) && UpperText(Render("%X", [Long(word)]), word, 16)
  {
    hide Numeral, LowerText, UpperText, Matches, Render, SignedNumeral;
    SignedRoundTrip(num);
    NumeralText(Numeral(word, 16, Lower), word, 16);
    NumeralText(Numeral(word, 16, Upper), word, 16);
    OneConversion('d', [Int(num)]);
    OneConversion('x', [Long(word)]);
    OneConversion('X', [Long(word)]);
    assert ['%', 'd'] == "%d" && ['%', 'x'] == "%x" && ['%', 'X'] == "%X";
  }
}

/** `printf` of the kernel's C library: a format interpreter over a terminal. */
module Printf {
  import opened Bits
  import opened Hardware
  import opened Terminal

  const INT_MAX := 0x7FFF_FFFF
  const PERCENT: Byte := 37
  const MINUS: Byte := 45
  const ZERO: Byte := 48

  /** What a variadic argument slot holds: 32 bits, or a string. */
  datatype Arg = Num(w: Word) | Str(s: seq<Byte>)

  // ----- numbers as text -----

  function DigitChar(d: nat): Byte
    requires d < 16
  {
    if d < 10 then ZERO + d else 87 + d
  }

  function DigitValue(c: Byte): nat {
    if ZERO <= c < ZERO + 10 then c - ZERO else if 97 <= c < 103 then c - 87 else 0
  }

  predicate Base(b: nat) { b == 10 || b == 16 }

  /** The digits of n, highest first; none for 0. */
  function Text(b: nat, n: nat): seq<Byte>
    requires Base(b)
    decreases n, b
  {
    if n == 0 then [] else Text(b, n / b) + [DigitChar(n % b)]
  }

  /** The number a digit string stands for. */
  function Value(b: nat, s: seq<Byte>): nat {
    if s == [] then 0 else Value(b, s[..|s| - 1]) * b + DigitValue(s[|s| - 1])
  }

  lemma {:induction false} ValueOfText(b: nat, n: nat)
    requires Base(b)
    ensures Value(b, Text(b, n)) == n
    ensures n > 0 ==> Text(b, n) != [] && Text(b, n)[0] != ZERO
    decreases n
  {
    if n > 0 {
      ValueOfText(b, n / b);
      DigitParts(b, n);
      ValueMore(b, Text(b, n / b), n % b);
      if n / b > 0 {
        assert Text(b, n)[0] == Text(b, n / b)[0];
      }
    }
  }

  lemma DigitParts(b: nat, n: nat)
    requires Base(b)
    ensures n / b * b + n % b == n && n % b < 16 && (n > 0 && n / b == 0 ==> n % b > 0)
  {
    if b == 10 {
      assert n == n / 10 * 10 + n % 10;
    } else {
      assert n == n / 16 * 16 + n % 16;
    }
  }

  lemma ValueMore(b: nat, s: seq<Byte>, d: nat)
    requires d < 16
    ensures Value(b, s + [DigitChar(d)]) == Value(b, s) * b + d
  {
    assert (s + [DigitChar(d)])[..|s|] == s;
  }

  function Pow(b: nat, k: nat): (r: nat)
    ensures b > 0 ==> r > 0
  {
    if k == 0 then 1 else b * Pow(b, k - 1)
  }

  lemma {:induction false} TextLength(b: nat, n: nat, k: nat)
    requires Base(b) && n < Pow(b, k)
    ensures |Text(b, n)| <= k
    decreases n
  {
    if n > 0 {
      assert k > 0;
      if b == 10 {
        assert n / 10 < Pow(10, k - 1);
      } else {
        assert n / 16 < Pow(16, k - 1);
      }
      TextLength(b, n / b, k - 1);
    }
  }

  function Natural(b: nat, n: nat): seq<Byte>
    requires Base(b)
  {
    if n == 0 then [ZERO] else Text(b, n)
  }

  /** Two's complement. */
  function Signed(w: Word): int { if w < 0x8000_0000 then w else w - 0x1_0000_0000 }

  function Decimal(w: Word): seq<Byte> {
    if Signed(w) < 0 then [MINUS] + Natural(10, -Signed(w)) else Natural(10, w)
  }

  function Hex(w: Word): seq<Byte> { HEX_PREFIX + Natural(16, w) }

  function Parse(b: nat, s: seq<Byte>): int {
    if s != [] && s[0] == MINUS then -(Value(b, s[1..]) as int) else Value(b, s)
  }

  /** The text of a natural number gives the number back and has no leading zero. */
  lemma NaturalRoundTrip(b: nat, n: nat)
    requires Base(b)
    ensures Natural(b, n) != [] && Value(b, Natural(b, n)) == n
    ensures |Natural(b, n)| > 1 ==> Natural(b, n)[0] != ZERO
    ensures Natural(b, n)[0] != MINUS
  {
    ValueOfText(b, n);
    if n == 0 {
      assert Value(b, [ZERO]) == Value(b, []) * b + DigitValue(ZERO);
    } else {
      FirstIsDigit(b, n);
    }
  }

  lemma {:induction false} FirstIsDigit(b: nat, n: nat)
    requires Base(b) && n > 0
    ensures Text(b, n) != [] && Text(b, n)[0] != MINUS
    decreases n
  {
    if n / b > 0 {
      FirstIsDigit(b, n / b);
    }
  }

  /** %d, %u and %x give back all 2^32 values. */
  lemma NumbersRoundTrip(w: Word)
    ensures Parse(10, Decimal(w)) == Signed(w)
    ensures Parse(10, Natural(10, w)) == w
    ensures Parse(16, Hex(w)[2..]) == w
    ensures |Natural(10, w)| <= 10 && |Natural(16, w)| <= 8
  {
    NaturalRoundTrip(10, w);
    DecimalReads(w);
    HexReads(w);
    WordDigits(w);
    ZeroFits(w);
  }

  lemma DecimalReads(w: Word)
    ensures Parse(10, Decimal(w)) == Signed(w)
  {
    var n: nat := if Signed(w) < 0 then -Signed(w) else w;
    ParseNatural(10, n);
  }

  lemma ParseNatural(b: nat, n: nat)
    requires Base(b)
    ensures Parse(b, Natural(b, n)) == n && Parse(b, [MINUS] + Natural(b, n)) == -(n as int)
  {
    NaturalRoundTrip(b, n);
    assert ([MINUS] + Natural(b, n))[1..] == Natural(b, n);
  }

  lemma HexReads(w: Word)
    ensures Parse(16, Hex(w)[2..]) == w
  {
    NaturalRoundTrip(16, w);
    assert Hex(w)[2..] == Natural(16, w);
  }

  lemma ZeroFits(w: Word)
    requires |Text(10, w)| <= 10 && |Text(16, w)| <= 8
    ensures |Natural(10, w)| <= 10 && |Natural(16, w)| <= 8
  {
  }

  lemma WordDigits(w: Word)
    ensures |Text(10, w)| <= 10 && |Text(16, w)| <= 8
  {
    assert Pow(10, 5) == 100000 && Pow(16, 4) == 0x1_0000;
    assert Pow(10, 10) == 100_0000_0000;
    assert Pow(16, 8) == 0x1_0000_0000;
    TextLength(10, w, 10);
    TextLength(16, w, 8);
  }

  // ----- what a format means -----

  const C: Byte := 99
  const S: Byte := 115
  const D: Byte := 100
  const U: Byte := 117
  const X: Byte := 120

  /** A conversion letter together with an argument of its kind. */
  predicate Accepts(letter: Byte, arg: Arg) {
    if letter == S then arg.Str? else arg.Num? && (letter == C || letter == D || letter == U || letter == X)
  }

  predicate IsConversion(letter: Byte) { letter == C || letter == S || letter == D || letter == U || letter == X }

  /** The text of one conversion. */
  function Converted(letter: Byte, arg: Arg): seq<Byte>
    requires Accepts(letter, arg)
  {
    if letter == S then arg.s
    else if letter == C then [arg.w % 256]
    else if letter == D then Decimal(arg.w)
    else if letter == U then Natural(10, arg.w)
    else Hex(arg.w)
  }

  /** The rest of a format starts with a conversion. */
  predicate AtConversion(f: seq<Byte>) {
    |f| > 1 && f[0] == PERCENT && IsConversion(f[1])
  }

  /** Every conversion that is reached finds an argument of its kind. */
  predicate Matching(f: seq<Byte>, args: seq<Arg>) {
    if f == [] then true
    else if AtConversion(f) then args != [] && Accepts(f[1], args[0]) && Matching(f[2..], args[1..])
    else if f[0] != PERCENT then Matching(f[1..], args)
    else if |f| > 1 && f[1] == PERCENT then Matching(f[2..], args)
    else true
  }

  /** The rendering, character by character. A percent sign that starts neither a conversion nor
      "%%" prints the rest of the format as it stands and ends it. */
  function Render(f: seq<Byte>, args: seq<Arg>): seq<Byte>
    requires Matching(f, args)
  {
    if f == [] then []
    else if AtConversion(f) then Converted(f[1], args[0]) + Render(f[2..], args[1..])
    else if f[0] != PERCENT then [f[0]] + Render(f[1..], args)
    else if |f| > 1 && f[1] == PERCENT then [PERCENT] + Render(f[2..], args)
    else f
  }

  // ----- formats in bytes -----

  /** "%c" prints the low byte of its argument, and "%s" the string. */
  lemma CharacterAndString(w: Word, s: seq<Byte>)
    ensures Render([37, 99], [Num(w)]) == [w % 256]
    ensures Render([37, 115], [Str(s)]) == s
  {
    RenderOne(99, Num(w));
    RenderOne(115, Str(s));
  }

  lemma RenderOne(letter: Byte, arg: Arg)
    requires Accepts(letter, arg)
    ensures Matching([37, letter], [arg]) && Render([37, letter], [arg]) == Converted(letter, arg)
  {
    var f := [37, letter];
    assert f[2..] == [] && [arg][1..] == [];
    assert Render(f[2..], [arg][1..]) == [];
  }

  /** "%d", "%u" and "%x" print texts that read back as the argument, for all 2^32 of them: signed, unsigned,
      and behind "0x" in base 16. */
  lemma NumbersReadBack(w: Word)
    ensures Parse(10, Render([37, 100], [Num(w)])) == if w < 0x8000_0000 then w else w - 0x1_0000_0000
    ensures Parse(10, Render([37, 117], [Num(w)])) == w
    ensures var x := Render([37, 120], [Num(w)]);
            |x| > 2 && x[..2] == [48, 120] && Parse(16, x[2..]) == w
  {
    RenderOne(100, Num(w));
    RenderOne(117, Num(w));
    RenderOne(120, Num(w));
    NumbersRoundTrip(w);
    NaturalRoundTrip(16, w);
    HexParts(w, Natural(16, w));
  }

  lemma HexParts(w: Word, t: seq<Byte>)
    requires t == Natural(16, w) && t != []
    ensures Hex(w) == [48, 120] + t && Hex(w)[..2] == [48, 120] && Hex(w)[2..] == t
  {
  }

  /** The digits of these texts one by one, counted from the right: 48 to 57 for 0 to 9, 97 to 102 for 10 to 15,
      and no more digits than needed. */
  lemma NumbersDigits(w: Word, k: nat)
    ensures var u := Render([37, 117], [Num(w)]);
            && 0 < |u| && w < Pow(10, |u|) && (|u| > 1 ==> w >= Pow(10, |u| - 1))
            && (k < |u| ==> u[|u| - 1 - k] == 48 + w / Pow(10, k) % 10)
    ensures var x := Render([37, 120], [Num(w)]);
            && 2 < |x| && x[0] == 48 && x[1] == 120 && w < Pow(16, |x| - 2) && (|x| > 3 ==> w >= Pow(16, |x| - 3))
            && (k < |x| - 2 ==>
                  var d := w / Pow(16, k) % 16;
                  x[|x| - 1 - k] == if d < 10 then 48 + d else 97 + (d - 10))
  {
    UnsignedDigits(w, k);
    HexDigits(w, k);
  }

  lemma UnsignedDigits(w: Word, k: nat)
    ensures var u := Render([37, 117], [Num(w)]);
            && 0 < |u| && w < Pow(10, |u|) && (|u| > 1 ==> w >= Pow(10, |u| - 1))
            && (k < |u| ==> u[|u| - 1 - k] == 48 + w / Pow(10, k) % 10)
  {
    RenderOne(117, Num(w));
    NaturalDigits(10, w, k);
  }

  lemma HexDigits(w: Word, k: nat)
    ensures var x := Render([37, 120], [Num(w)]);
            && 2 < |x| && x[0] == 48 && x[1] == 120 && w < Pow(16, |x| - 2) && (|x| > 3 ==> w >= Pow(16, |x| - 3))
            && (k < |x| - 2 ==>
                  var d := w / Pow(16, k) % 16;
                  x[|x| - 1 - k] == if d < 10 then 48 + d else 97 + (d - 10))
  {
    RenderOne(120, Num(w));
    NaturalDigits(16, w, k);
    HexEnd(w, Natural(16, w), k);
  }

  lemma HexEnd(w: Word, t: seq<Byte>, k: nat)
    requires t == Natural(16, w) && t != []
    ensures |Hex(w)| == 2 + |t| && Hex(w)[0] == 48 && Hex(w)[1] == 120
    ensures k < |t| ==> Hex(w)[2 + |t| - 1 - k] == t[|t| - 1 - k]
  {
  }

  /** "%d" prints what "%u" prints, behind a minus sign for the negative half. */
  lemma SignedAsUnsigned(w: Word)
    ensures w < 0x8000_0000 ==> Render([37, 100], [Num(w)]) == Render([37, 117], [Num(w)])
    ensures w >= 0x8000_0000 ==>
              Render([37, 100], [Num(w)]) == [45] + Render([37, 117], [Num(0x1_0000_0000 - w)])
  {
    RenderOne(100, Num(w));
    RenderOne(117, Num(w));
    if w >= 0x8000_0000 {
      RenderOne(117, Num(0x1_0000_0000 - w));
    }
  }

  lemma NaturalDigits(b: nat, n: nat, k: nat)
    requires Base(b)
    ensures var t := Natural(b, n);
            && t != [] && n < Pow(b, |t|) && (|t| > 1 ==> n >= Pow(b, |t| - 1))
            && (k < |t| ==> t[|t| - 1 - k] == DigitChar(DigitOf(b, n, k)))
  {
    if n == 0 {
      ZeroDigit(b, n);
    } else {
      TextDigits(b, n, k);
    }
  }

  lemma TextDigits(b: nat, n: nat, k: nat)
    requires Base(b) && n > 0
    ensures HasDigits(b, n, |Text(b, n)|)
    ensures k < |Text(b, n)| ==> Text(b, n)[|Text(b, n)| - 1 - k] == DigitChar(DigitOf(b, n, k))
  {
    TextSize(b, n);
    if k < |Text(b, n)| {
      TextDigit(b, n, k);
    }
  }

  lemma ZeroDigit(b: nat, n: nat)
    requires Base(b) && n == 0
    ensures Natural(b, n) == [DigitChar(DigitOf(b, n, 0))] && n < Pow(b, 1)
  {
    DigitNext(b, n, 0);
  }

  lemma {:induction false} TextSize(b: nat, n: nat)
    requires Base(b) && n > 0
    ensures HasDigits(b, n, |Text(b, n)|)
    decreases n
  {
    assert |Text(b, n)| == |Text(b, n / b)| + 1;
    if n / b > 0 {
      TextSize(b, n / b);
      PowStep(b, n, |Text(b, n / b)|);
    } else {
      OneDigit(b, n);
    }
  }

  predicate HasDigits(b: nat, n: nat, k: nat) { k > 0 && Pow(b, k - 1) <= n < Pow(b, k) }

  lemma OneDigit(b: nat, n: nat)
    requires Base(b) && n > 0 && n / b == 0
    ensures HasDigits(b, n, 1)
  {
    assert Pow(b, 0) == 1 && Pow(b, 1) == b * Pow(b, 0);
  }

  /** Digit k of n, counted from the right. */
  function DigitOf(b: nat, n: nat, k: nat): nat
    requires Base(b)
  {
    n / Pow(b, k) % b
  }

  lemma {:induction false} TextDigit(b: nat, n: nat, k: nat)
    requires Base(b) && n > 0 && k < |Text(b, n)|
    ensures Text(b, n)[|Text(b, n)| - 1 - k] == DigitChar(DigitOf(b, n, k))
    decreases n
  {
    DigitNext(b, n, k);
    if k > 0 {
      var t' := Text(b, n / b);
      assert Text(b, n) == t' + [DigitChar(n % b)] && |t'| == |Text(b, n)| - 1;
      TextDigit(b, n / b, k - 1);
    }
  }

  lemma DigitNext(b: nat, n: nat, k: nat)
    requires Base(b)
    ensures DigitOf(b, n, 0) == n % b
    ensures k > 0 ==> DigitOf(b, n, k) == DigitOf(b, n / b, k - 1)
  {
    assert Pow(b, 0) == 1;
    if k > 0 {
      DivTwice(n, b, Pow(b, k - 1));
    }
  }

  lemma PowStep(b: nat, n: nat, k: nat)
    requires Base(b) && HasDigits(b, n / b, k)
    ensures HasDigits(b, n, k + 1)
  {
    var q, lo, hi := n / b, Pow(b, k - 1), Pow(b, k);
    assert hi == b * lo && Pow(b, k + 1) == b * hi;
    if b == 10 {
      assert 10 * q <= n < 10 * q + 10;
    } else {
      assert 16 * q <= n < 16 * q + 16;
    }
  }

  lemma DivTwice(n: nat, b: nat, p: nat)
    requires b > 0 && p > 0
    ensures b * p > 0 && n / b / p == n / (b * p)
  {
    var q, s, r := n / b / p, n / b % p, n % b;
    QuotientParts(b, p, q, s, r, n / b, n);
    DivModUnique(n, b * p, q, b * s + r);
  }

  lemma QuotientParts(b: nat, p: nat, q: nat, s: nat, r: nat, m: nat, n: nat)
    requires m == q * p + s && n == b * m + r && s < p && r < b
    ensures b * p > 0 && n == q * (b * p) + (b * s + r) && b * s + r < b * p
  {
    assert b * (q * p) == q * (b * p);
    assert b * (s + 1) <= b * p;
  }

  /** How a format is put together: a character other than a percent sign prints itself, "%%" one percent sign,
      a conversion what it prints alone; a percent sign before any other character prints itself and all that
      follows. */
  lemma RenderFirst(f: seq<Byte>, args: seq<Arg>)
    requires f != [] && Matching(f, args)
    ensures f[0] != 37 ==> Matching(f[1..], args) && Render(f, args) == [f[0]] + Render(f[1..], args)
    ensures f[0] == 37 && |f| > 1 && f[1] == 37 ==>
              Matching(f[2..], args) && Render(f, args) == [37] + Render(f[2..], args)
    ensures f[0] == 37 && |f| > 1 && f[1] in [99, 115, 100, 117, 120] ==>
              && args != [] && Accepts(f[1], args[0]) && Matching([37, f[1]], [args[0]])
              && Matching(f[2..], args[1..])
              && Render(f, args) == Render([37, f[1]], [args[0]]) + Render(f[2..], args[1..])
    ensures f[0] == 37 && (|f| == 1 || f[1] !in [37, 99, 115, 100, 117, 120]) ==> Render(f, args) == f
  {
    if AtConversion(f) {
      RenderOne(f[1], args[0]);
    }
  }

  /** How a call ends: with a return value, or with `written` leaving the range of an int. */
  datatype Outcome = Returned(n: int) | Overflowed

  /** The characters of a conversion that `printf` counts without checking them against INT_MAX: a
      whole "0", "0x0" or "-2147483648", and the prefix "0x". */
  function Unchecked(letter: Byte, arg: Arg): nat
    requires Accepts(letter, arg)
  {
    if letter == D && arg.w == 0x8000_0000 then 11
    else if (letter == D || letter == U) && arg.w == 0 then 1
    else if letter == X then if arg.w == 0 then 3 else 2
    else 0
  }

  /** The outcome when `written` characters have been counted before the format f. */
  function Ending(f: seq<Byte>, args: seq<Arg>, written: nat): Outcome
    requires Matching(f, args)
    decreases |f|
  {
    if written > INT_MAX then Overflowed
    else if f == [] then Returned(written)
    else if AtConversion(f) then
      var n := |Converted(f[1], args[0])|;
      if written + n - Unchecked(f[1], args[0]) > INT_MAX then Returned(-1)
      else Ending(f[2..], args[1..], written + n)
    else if f[0] != PERCENT then
      if written + 1 > INT_MAX then Returned(-1) else Ending(f[1..], args, written + 1)
    else if |f| > 1 && f[1] == PERCENT then
      if written + 1 > INT_MAX then Returned(-1) else Ending(f[2..], args, written + 1)
    else if written + |f| > INT_MAX then Returned(-1)
    else Returned(written + |f|)
  }

  /** `printf` returns the length of the rendering exactly when that fits an int. */
  lemma {:induction false} EndingFits(f: seq<Byte>, args: seq<Arg>, written: nat)
    requires Matching(f, args)
    ensures written + |Render(f, args)| <= 2147483647 ==>
              Ending(f, args, written) == Returned(written + |Render(f, args)|)
    ensures written + |Render(f, args)| > 2147483647 ==>
              Ending(f, args, written) == Returned(-1) || Ending(f, args, written) == Overflowed
    decreases |f|
  {
    if f == [] || written > INT_MAX {
    } else if AtConversion(f) {
      EndingFits(f[2..], args[1..], written + |Converted(f[1], args[0])|);
    } else if f[0] != PERCENT {
      EndingFits(f[1..], args, written + 1);
    } else if |f| > 1 && f[1] == PERCENT {
      EndingFits(f[2..], args, written + 1);
    }
  }

  // ----- when the counter overflows -----

  /** What is left of a format after its first character, "%%", conversion or verbatim rest. */
  function NextFormat(f: seq<Byte>): seq<Byte>
    requires f != []
  {
    if AtConversion(f) then f[2..]
    else if f[0] != PERCENT then f[1..]
    else if |f| > 1 && f[1] == PERCENT then f[2..]
    else []
  }

  function NextArgs(f: seq<Byte>, args: seq<Arg>): seq<Arg>
    requires Matching(f, args)
  {
    if AtConversion(f) then args[1..] else args
  }

  /** Reading the format leads to the rest g with the arguments `left`. */
  ghost predicate Reached(f: seq<Byte>, args: seq<Arg>, g: seq<Byte>, left: seq<Arg>)
    requires Matching(f, args)
    decreases |f|
  {
    (g == f && left == args)
    || (f != [] && Matching(NextFormat(f), NextArgs(f, args)) && Reached(NextFormat(f), NextArgs(f, args), g, left))
  }

  /** With so many characters before it, a conversion passes its check and still does not fit. */
  predicate Slips(letter: Byte, arg: Arg, before: int)
    requires Accepts(letter, arg)
  {
    var n := |Converted(letter, arg)|;
    before <= INT_MAX && before + n - Unchecked(letter, arg) <= INT_MAX < before + n
  }

  /** What slips, in numbers: "-2147483648", "0" and "0x0", which are not checked at all, and behind "%x" what
      fits but for the "0x". */
  lemma SlipsNumbers(letter: Byte, arg: Arg, before: nat)
    requires Accepts(letter, arg)
    ensures Matching([37, letter], [arg])
    ensures var n := |Render([37, letter], [arg])|;
            Slips(letter, arg, before) <==>
            && before <= 2147483647 < before + n
            && ((letter in [100, 117, 120] && arg.w == 0) || (letter == 100 && arg.w == 0x8000_0000)
                || (letter == 120 && before + n - 2 <= 2147483647))
  {
    RenderOne(letter, arg);
    UncheckedBound(letter, arg);
    if letter == 100 && arg.w == 0x8000_0000 {
      IntMinText();
    }
  }

  /** The conversion that the rest g starts with slips. */
  ghost predicate SlipsAt(f: seq<Byte>, args: seq<Arg>, written: nat, g: seq<Byte>, left: seq<Arg>)
    requires Matching(f, args)
  {
    && Reached(f, args, g, left) && Matching(g, left) && AtConversion(g)
    && Slips(g[1], left[0], written + |Render(f, args)| - |Render(g, left)|)
  }

  ghost predicate SomeSlips(f: seq<Byte>, args: seq<Arg>, written: nat)
    requires Matching(f, args)
  {
    exists g, left :: SlipsAt(f, args, written, g, left)
  }

  /** `written` overflows if and only if a conversion is reached that passes its check, though its
      text and the rendering of all that precedes it are more than INT_MAX characters. */
  lemma {:induction false} OverflowsExactly(f: seq<Byte>, args: seq<Arg>, written: nat)
    requires Matching(f, args) && written <= INT_MAX
    ensures Ending(f, args, written) == Overflowed <==> SomeSlips(f, args, written)
    decreases |f|
  {
    if f != [] {
      FirstPiece(f, args, written);
      var next, rest := NextFormat(f), NextArgs(f, args);
      var total := written + |Render(f, args)| - |Render(next, rest)|;
      if total <= INT_MAX {
        OverflowsExactly(next, rest, total);
        SlipsLater(f, args, written, total);
      } else {
        NoneSlipsLater(f, args, written);
      }
    }
  }

  /** One step of reading the format, and what it does to the counter. */
  lemma FirstPiece(f: seq<Byte>, args: seq<Arg>, written: nat)
    requires f != [] && Matching(f, args) && written <= INT_MAX
    ensures Matching(NextFormat(f), NextArgs(f, args))
    ensures var total := written + |Render(f, args)| - |Render(NextFormat(f), NextArgs(f, args))|;
            && total >= written
            && (AtConversion(f) ==> total == written + |Converted(f[1], args[0])|)
            && Ending(f, args, written) ==
               (if total - (if AtConversion(f) then Unchecked(f[1], args[0]) else 0) > INT_MAX then Returned(-1)
                else Ending(NextFormat(f), NextArgs(f, args), total))
  {
    if AtConversion(f) {
      FirstConversion(f, args, written);
      UncheckedBound(f[1], args[0]);
    } else if f[0] != PERCENT || (|f| > 1 && f[1] == PERCENT) {
      FirstLiteral(f, args, if f[0] == PERCENT then 1 else 0, written);
    } else {
      LastPiece(f, args, written);
    }
  }

  lemma LastPiece(f: seq<Byte>, args: seq<Arg>, written: nat)
    requires f != [] && Matching(f, args) && written <= INT_MAX && !AtConversion(f)
    requires f[0] == PERCENT && !(|f| > 1 && f[1] == PERCENT)
    ensures NextFormat(f) == [] && NextArgs(f, args) == args && Matching([], args) && Render([], args) == [] &&
            Render(f, args) == f
    ensures Ending(f, args, written) == if written + |f| > INT_MAX then Returned(-1) else Returned(written + |f|)
    ensures written + |f| <= INT_MAX ==> Ending([], args, written + |f|) == Returned(written + |f|)
  {
  }

  /** While the first piece fits, what slips is behind it. */
  lemma SlipsLater(f: seq<Byte>, args: seq<Arg>, written: nat, total: nat)
    requires f != [] && Matching(f, args) && Matching(NextFormat(f), NextArgs(f, args))
    requires total == written + |Render(f, args)| - |Render(NextFormat(f), NextArgs(f, args))| <= INT_MAX
    requires AtConversion(f) ==> total == written + |Converted(f[1], args[0])|
    ensures SomeSlips(f, args, written) <==> SomeSlips(NextFormat(f), NextArgs(f, args), total)
  {
    forall g, left
      ensures SlipsAt(f, args, written, g, left) <==> SlipsAt(NextFormat(f), NextArgs(f, args), total, g, left)
    {
    }
  }

  /** When it does not fit, it slips itself or nothing does. */
  lemma NoneSlipsLater(f: seq<Byte>, args: seq<Arg>, written: nat)
    requires f != [] && Matching(f, args) && Matching(NextFormat(f), NextArgs(f, args)) && written <= INT_MAX
    requires written + |Render(f, args)| - |Render(NextFormat(f), NextArgs(f, args))| > INT_MAX
    ensures SomeSlips(f, args, written) <==> AtConversion(f) && Slips(f[1], args[0], written)
  {
    if AtConversion(f) && Slips(f[1], args[0], written) {
      assert SlipsAt(f, args, written, f, args);
    }
    forall g, left
      ensures SlipsAt(f, args, written, g, left) <==>
              g == f && left == args && AtConversion(f) && Slips(f[1], args[0], written)
    {
      if Reached(NextFormat(f), NextArgs(f, args), g, left) && Matching(g, left) {
        ReachedShorter(NextFormat(f), NextArgs(f, args), g, left);
      }
    }
  }

  lemma {:induction false} ReachedShorter(f: seq<Byte>, args: seq<Arg>, g: seq<Byte>, left: seq<Arg>)
    requires Matching(f, args) && Reached(f, args, g, left) && Matching(g, left)
    ensures |Render(g, left)| <= |Render(f, args)| && |g| <= |f|
    decreases |f|
  {
    if f != [] && !(g == f && left == args) {
      FirstPiece(f, args, 0);
      ReachedShorter(NextFormat(f), NextArgs(f, args), g, left);
    }
  }

  /** The format "%s...%s%d" for the strings and a zero, and its arguments. */
  function StringsFormat(ss: seq<seq<Byte>>): seq<Byte> {
    if ss == [] then [PERCENT, D] else [PERCENT, S] + StringsFormat(ss[1..])
  }

  function StringsArgs(ss: seq<seq<Byte>>): seq<Arg> {
    if ss == [] then [Num(0)] else [Str(ss[0])] + StringsArgs(ss[1..])
  }

  function TotalLength(ss: seq<seq<Byte>>): nat {
    if ss == [] then 0 else |ss[0]| + TotalLength(ss[1..])
  }

  /** Strings that fill the counter exactly, followed by the unchecked "0", overflow it. */
  lemma {:induction false} StringsOverflow(ss: seq<seq<Byte>>, written: nat)
    requires written + TotalLength(ss) == INT_MAX
    ensures Matching(StringsFormat(ss), StringsArgs(ss))
    ensures Ending(StringsFormat(ss), StringsArgs(ss), written) == Overflowed
  {
    var f, args := StringsFormat(ss), StringsArgs(ss);
    if ss == [] {
      assert f[2..] == [] && args[1..] == [];
    } else {
      StringsOverflow(ss[1..], written + |ss[0]|);
      assert f[2..] == StringsFormat(ss[1..]) && args[1..] == StringsArgs(ss[1..]);
    }
  }

  function Copies(s: seq<Byte>, n: nat): seq<seq<Byte>>
    decreases n, s
  {
    if n == 0 then [] else [s] + Copies(s, n - 1)
  }

  lemma {:induction false} CopiesLength(s: seq<Byte>, n: nat)
    ensures |Copies(s, n)| == n && TotalLength(Copies(s, n)) == n * |s|
    decreases n
  {
    if n > 0 {
      CopiesLength(s, n - 1);
      assert Copies(s, n)[1..] == Copies(s, n - 1);
    }
  }

  /** An input that the kernel can hold: 2047 times the same string of 1 MiB, the string without its
      first character, and a zero. The overflow check has a hole there: `written` overflows where -1
      was due. */
  lemma UncheckedZeroOverflows(s: seq<Byte>, n: nat)
    requires |s| == 0x10_0000 && n == 2047
    ensures var ss := [s[1..]] + Copies(s, n);
            && |StringsFormat(ss)| == 4098 && |StringsArgs(ss)| == 2049
            && Matching(StringsFormat(ss), StringsArgs(ss))
            && Ending(StringsFormat(ss), StringsArgs(ss), 0) == Overflowed
  {
    var ss := [s[1..]] + Copies(s, n);
    CopiesLength(s, n);
    assert ss[1..] == Copies(s, n);
    StringsSizes(ss);
    StringsOverflow(ss, 0);
  }

  lemma {:induction false} StringsSizes(ss: seq<seq<Byte>>)
    ensures |StringsFormat(ss)| == 2 * |ss| + 2 && |StringsArgs(ss)| == |ss| + 1
  {
    if ss != [] {
      StringsSizes(ss[1..]);
    }
  }

  // ----- printing -----

  function Rev(s: seq<Byte>): seq<Byte> {
    if s == [] then [] else [s[|s| - 1]] + Rev(s[..|s| - 1])
  }

  /** The digit loop: digits into a buffer, lowest first. 32 bytes are enough in base 10, 8 in 16. */
  method FillDigits(n: Word, b: nat, buffer: array<Byte>) returns (len: nat)
    requires Base(b) && buffer.Length >= (if b == 10 then 10 else 8)
    modifies buffer
    ensures len <= buffer.Length && Rev(buffer[..len]) == Text(b, n) && len == |Text(b, n)|
  {
    WordDigits(n);
    var num: nat := n;
    len := 0;
    while num != 0
      invariant len <= buffer.Length && Emptied(b, n, num, buffer[..len])
      decreases num
    {
      ghost var before := buffer[..len];
      EmptiedMore(b, n, num, before);
      var digit, rest := DigitChar(num % b), num / b;
      buffer[len] := digit;
      len := len + 1;
      assert buffer[..len] == before + [digit];
      num := rest;
    }
  }

  /** The digits in the buffer, lowest first, are those that num no longer has. */
  ghost predicate Emptied(b: nat, n: nat, num: nat, s: seq<Byte>) {
    Base(b) && Text(b, n) == Text(b, num) + Rev(s) && |s| + |Text(b, num)| == |Text(b, n)|
  }

  lemma EmptiedMore(b: nat, n: nat, num: nat, s: seq<Byte>)
    requires Emptied(b, n, num, s) && num > 0
    ensures num % b < 16 && 0 <= num / b < num && |s| < |Text(b, n)|
    ensures Emptied(b, n, num / b, s + [DigitChar(num % b)])
  {
    LastDigit(b, num, s);
  }

  lemma LastDigit(b: nat, num: nat, before: seq<Byte>)
    requires Base(b) && num > 0
    ensures num % b < 16 && 0 <= num / b < num
    ensures |Text(b, num)| == |Text(b, num / b)| + 1
    ensures Text(b, num) + Rev(before) == Text(b, num / b) + Rev(before + [DigitChar(num % b)])
  {
    Shrinks(b, num);
    MoveDigit(Text(b, num / b), DigitChar(num % b), before);
  }

  lemma MoveDigit(high: seq<Byte>, d: Byte, before: seq<Byte>)
    ensures high + [d] + Rev(before) == high + Rev(before + [d])
  {
    RevAppend(before, d);
  }

  lemma Shrinks(b: nat, num: nat)
    requires Base(b) && num > 0
    ensures num % b < 16 && 0 <= num / b < num
  {
    if b == 10 {
      assert num / 10 < num;
    } else {
      assert num / 16 < num;
    }
  }

  lemma RevAppend(s: seq<Byte>, c: Byte)
    ensures Rev(s + [c]) == [c] + Rev(s)
  {
    assert (s + [c])[..|s|] == s;
  }

  /** Since `before`, exactly `out` has been printed, in the current colour. */
  ghost predicate Printed(t: Terminal, before: seq<Glyph>, out: seq<Byte>)
    reads t, t.buffer
  {
    t.Valid() && t.written == before + Colored(out, t.color)
  }

  /** `print`: every character goes to the terminal through `putchar`. */
  method Print(t: Terminal, data: seq<Byte>, ghost before: seq<Glyph>, ghost out: seq<Byte>)
    requires Printed(t, before, out)
    modifies t`row, t`column, t`written, t.buffer
    ensures Printed(t, before, out + data)
  {
    assert out + data[..0] == out;
    for i := 0 to |data|
      invariant Printed(t, before, out + data[..i])
    {
      PutChar(t, data[i], before, out + data[..i]);
      assert out + data[..i + 1] == out + data[..i] + [data[i]];
    }
    assert data[..|data|] == data;
  }

  /** `putchar`: `terminal_write` of one character. */
  method PutChar(t: Terminal, c: Byte, ghost before: seq<Glyph>, ghost out: seq<Byte>)
    requires Printed(t, before, out)
    modifies t`row, t`column, t`written, t.buffer
    ensures Printed(t, before, out + [c])
  {
    t.Write([c]);
    ColoredMore(out, [c], t.color);
  }

  /** The digits of a number, printed from the top of the buffer. */
  method PrintDigits(t: Terminal, buffer: array<Byte>, len: nat, ghost before: seq<Glyph>, ghost out: seq<Byte>)
    requires Printed(t, before, out) && len <= buffer.Length && buffer as object != t.buffer
    modifies t`row, t`column, t`written, t.buffer
    ensures Printed(t, before, out + Rev(buffer[..len]))
  {
    ghost var done: seq<Byte>, digits := [], buffer[..len];
    var printed := len - 1;
    assert digits[..len] == digits && out + done == out;
    while printed >= 0
      invariant -1 <= printed < len && buffer[..len] == digits
      invariant Printed(t, before, out + done)
      invariant Rev(digits) == done + Rev(digits[..printed + 1])
    {
      Print(t, [buffer[printed]], before, out + done);
      RevStep(digits, done, printed);
      assert out + done + [digits[printed]] == out + (done + [digits[printed]]);
      done := done + [digits[printed]];
      printed := printed - 1;
    }
    assert done == Rev(digits);
  }

  lemma RevStep(digits: seq<Byte>, done: seq<Byte>, printed: nat)
    requires printed < |digits|
    ensures done + Rev(digits[..printed + 1]) == done + [digits[printed]] + Rev(digits[..printed])
  {
    assert digits[..printed + 1] == digits[..printed] + [digits[printed]];
    RevAppend(digits[..printed], digits[printed]);
  }

  // ----- steps of the format loop -----

  /** Characters other than a percent sign print themselves. */
  lemma {:induction false} PlainRun(f: seq<Byte>, args: seq<Arg>, k: nat)
    requires k <= |f| && PERCENT !in f[..k] && Matching(f, args)
    ensures Matching(f[k..], args) && Render(f, args) == f[..k] + Render(f[k..], args)
    decreases k
  {
    if k == 0 {
      assert f[0..] == f;
    } else {
      assert f[0] == f[..k][0];
      FirstPlain(f, args);
      Slices(f, k);
      PlainRun(f[1..], args, k - 1);
      Regroup([f[0]], f[1..][..k - 1], Render(f[k..], args));
    }
  }

  lemma Regroup(a: seq<Byte>, b: seq<Byte>, c: seq<Byte>)
    ensures a + (b + c) == a + b + c
  {
  }

  lemma FirstPlain(f: seq<Byte>, args: seq<Arg>)
    requires f != [] && f[0] != PERCENT && Matching(f, args)
    ensures Matching(f[1..], args) && Render(f, args) == [f[0]] + Render(f[1..], args)
  {
  }

  lemma Slices(f: seq<Byte>, k: nat)
    requires 0 < k <= |f|
    ensures f[1..][..k - 1] == f[..k][1..] && f[1..][k - 1..] == f[k..]
    ensures f[..k] == [f[0]] + f[1..][..k - 1]
  {
  }

  lemma {:induction false} PlainRunEnding(f: seq<Byte>, args: seq<Arg>, k: nat, written: nat)
    requires k <= |f| && PERCENT !in f[..k] && Matching(f, args) && Matching(f[k..], args) && written <= INT_MAX
    ensures Ending(f, args, written) ==
            if written + k > INT_MAX then Returned(-1) else Ending(f[k..], args, written + k)
    decreases k
  {
    if k == 0 {
      assert f[0..] == f;
    } else {
      assert f[0] == f[..k][0];
      assert f[1..][..k - 1] == f[..k][1..] && f[1..][k - 1..] == f[k..];
      if written < INT_MAX {
        PlainRunEnding(f[1..], args, k - 1, written + 1);
      }
    }
  }

  /** One pass of the literal branch: the k characters from `skip` on, of which only the first may
      be a percent sign. */
  ghost predicate Literal(f: seq<Byte>, args: seq<Arg>, skip: nat, k: nat) {
    && Matching(f, args)
    && f != [] && (f[0] != PERCENT || (|f| > 1 && f[1] == PERCENT))
    && skip == (if f[0] == PERCENT then 1 else 0)
    && 1 <= k && skip + k <= |f| && PERCENT !in f[skip + 1..skip + k]
  }

  lemma LiteralRender(f: seq<Byte>, args: seq<Arg>, skip: nat, k: nat)
    requires Literal(f, args, skip, k)
    ensures Matching(f[skip + k..], args)
    ensures Render(f, args) == f[skip..skip + k] + Render(f[skip + k..], args)
  {
    var g := f[skip + 1..];
    PieceSlices(f, skip, k);
    FirstLiteral(f, args, skip, 0);
    PlainRun(g, args, k - 1);
    var tail := Render(g[k - 1..], args);
    Regroup([f[0]], g[..k - 1], tail);
  }

  lemma LiteralEnding(f: seq<Byte>, args: seq<Arg>, skip: nat, k: nat, written: nat)
    requires Literal(f, args, skip, k) && written <= INT_MAX
    requires Matching(f[skip + k..], args)
    ensures Ending(f, args, written) ==
            if written + k > INT_MAX then Returned(-1) else Ending(f[skip + k..], args, written + k)
  {
    FirstLiteral(f, args, skip, written);
    if written < INT_MAX {
      PieceSlices(f, skip, k);
      TailEnding(f[skip + 1..], f[skip + k..], args, k - 1, written + 1, written + k);
    }
  }

  lemma TailEnding(g: seq<Byte>, rest: seq<Byte>, args: seq<Arg>, k: nat, written: nat, total: nat)
    requires k <= |g| && rest == g[k..] && PERCENT !in g[..k] && total == written + k && written <= INT_MAX
    requires Matching(g, args) && Matching(rest, args)
    ensures Ending(g, args, written) == if total > INT_MAX then Returned(-1) else Ending(rest, args, total)
  {
    PlainRunEnding(g, args, k, written);
  }

  lemma PieceSlices(f: seq<Byte>, skip: nat, k: nat)
    requires f != [] && (f[0] != PERCENT || (|f| > 1 && f[1] == PERCENT))
    requires skip == (if f[0] == PERCENT then 1 else 0)
    requires 1 <= k && skip + k <= |f|
    ensures f[skip + 1..][..k - 1] == f[skip + 1..skip + k] && f[skip + 1..][k - 1..] == f[skip + k..]
    ensures f[skip..skip + k] == [f[0]] + f[skip + 1..][..k - 1]
  {
  }

  lemma FirstLiteral(f: seq<Byte>, args: seq<Arg>, skip: nat, written: nat)
    requires Matching(f, args) && written <= INT_MAX
    requires f != [] && (f[0] != PERCENT || (|f| > 1 && f[1] == PERCENT))
    requires skip == (if f[0] == PERCENT then 1 else 0)
    ensures Matching(f[skip + 1..], args)
    ensures Render(f, args) == [f[0]] + Render(f[skip + 1..], args)
    ensures Ending(f, args, written) ==
            if written + 1 > INT_MAX then Returned(-1) else Ending(f[skip + 1..], args, written + 1)
  {
  }

  /** What holds at the head of the format loop. */
  ghost predicate Progress(format: seq<Byte>, args: seq<Arg>, f: seq<Byte>, rest: seq<Arg>, out: seq<Byte>,
                           written: nat)
    requires Matching(format, args)
  {
    && Matching(f, rest)
    && Render(format, args) == out + Render(f, rest)
    && Ending(format, args, 0) == Ending(f, rest, written)
    && written == |out| <= INT_MAX
  }

  lemma LiteralStep(format: seq<Byte>, args: seq<Arg>, f: seq<Byte>, rest: seq<Arg>, out: seq<Byte>, written: nat,
                    skip: nat, k: nat)
    requires Matching(format, args) && Progress(format, args, f, rest, out, written)
    requires Literal(f, rest, skip, k)
    ensures written + k > INT_MAX ==> Ending(format, args, 0) == Returned(-1)
    ensures written + k <= INT_MAX ==>
              Progress(format, args, f[skip + k..], rest, out + f[skip..skip + k], written + k)
  {
    LiteralRender(f, rest, skip, k);
    LiteralEnding(f, rest, skip, k, written);
    var piece, tail := f[skip..skip + k], Render(f[skip + k..], rest);
    Regroup(out, piece, tail);
  }

  lemma ConversionStep(format: seq<Byte>, args: seq<Arg>, f: seq<Byte>, rest: seq<Arg>, out: seq<Byte>, written: nat)
    requires Matching(format, args) && Progress(format, args, f, rest, out, written) && AtConversion(f)
    ensures var text := Converted(f[1], rest[0]);
            var checked := |text| - Unchecked(f[1], rest[0]);
            && (written + checked > INT_MAX ==> Ending(format, args, 0) == Returned(-1))
            && (written + checked <= INT_MAX && written + |text| > INT_MAX ==> Ending(format, args, 0) == Overflowed)
            && (written + |text| <= INT_MAX ==>
                  Progress(format, args, f[2..], rest[1..], out + text, written + |text|))
            && out + text <= Render(format, args)
  {
    UncheckedBound(f[1], rest[0]);
    FirstConversion(f, rest, written);
    var text := Converted(f[1], rest[0]);
    Regroup(out, text, Render(f[2..], rest[1..]));
  }

  lemma FirstConversion(f: seq<Byte>, args: seq<Arg>, written: nat)
    requires Matching(f, args) && AtConversion(f) && written <= INT_MAX
    ensures var text := Converted(f[1], args[0]);
            && Matching(f[2..], args[1..])
            && Render(f, args) == text + Render(f[2..], args[1..])
            && Ending(f, args, written) ==
               (if written + |text| - Unchecked(f[1], args[0]) > INT_MAX then Returned(-1)
                else Ending(f[2..], args[1..], written + |text|))
            && (written + |text| > INT_MAX ==> Ending(f[2..], args[1..], written + |text|) == Overflowed)
  {
  }

  lemma UncheckedBound(letter: Byte, arg: Arg)
    requires Accepts(letter, arg)
    ensures Unchecked(letter, arg) <= |Converted(letter, arg)|
  {
    if letter == D && arg.w == 0x8000_0000 {
      IntMinText();
    }
  }

  const INT_MIN_TEXT: seq<Byte> := [45, 50, 49, 52, 55, 52, 56, 51, 54, 52, 56]

  lemma IntMinText()
    ensures Decimal(0x8000_0000) == INT_MIN_TEXT
  {
    HighDigits();
    IntMinDigits(21474, 0x8000_0000);
  }

  lemma IntMinDigits(high: nat, w: Word)
    requires w == high * 100000 + 83648 == 0x8000_0000 && Text(10, high) == [50, 49, 52, 55, 52]
    ensures Decimal(w) == INT_MIN_TEXT
  {
    LowDigits(high);
  }

  lemma HighDigits()
    ensures Text(10, 21474) == [50, 49, 52, 55, 52]
  {
  }

  lemma LowDigits(high: nat)
    requires high > 0
    ensures Text(10, high * 100000 + 83648) == Text(10, high) + [56, 51, 54, 52, 56]
  {
    TextUnfold(high, 8);
    TextUnfold(high * 10 + 8, 3);
    TextUnfold(high * 100 + 83, 6);
    TextUnfold(high * 1000 + 836, 4);
    TextUnfold(high * 10000 + 8364, 8);
  }

  lemma TextUnfold(high: nat, digit: nat)
    requires digit < 10 && high > 0
    ensures Text(10, high * 10 + digit) == Text(10, high) + [ZERO + digit]
  {
    assert (high * 10 + digit) / 10 == high && (high * 10 + digit) % 10 == digit;
  }

  // ----- the interpreter -----

  /** What a call does: it prints a beginning of the rendering. All of it is printed and its length
      returned if that fits an int; otherwise the call ends with -1, or overflows `written` where a
      conversion is not checked. */
  method Printf(t: Terminal, format: seq<Byte>, args: seq<Arg>, ghost before: seq<Glyph>)
    returns (r: Outcome, ghost out: seq<Byte>)
    requires t.Valid() && t.written == before && Matching(format, args)
    modifies t`row, t`column, t`written, t.buffer
    ensures Printed(t, before, out)
    ensures out <= Render(format, args) && r == Ending(format, args, 0)
    ensures |Render(format, args)| <= 2147483647 ==> out == Render(format, args) && r == Returned(|out|)
    ensures |t.written| == |before| + |out| && t.written[..|before|] == before
    ensures forall i | 0 <= i < |out| :: t.written[|before| + i] == Glyph(out[i], t.color)
    decreases if PERCENT in format then 2 else 0, 2
  {
    r, out := Interpret(t, format, args, before);
    ColoredEach(before, t.written, out, t.color);
  }

  /** The format loop. */
  method Interpret(t: Terminal, format: seq<Byte>, args: seq<Arg>, ghost before: seq<Glyph>)
    returns (r: Outcome, ghost out: seq<Byte>)
    requires t.Valid() && t.written == before && Matching(format, args)
    modifies t`row, t`column, t`written, t.buffer
    ensures Printed(t, before, out)
    ensures out <= Render(format, args) && r == Ending(format, args, 0)
    ensures |Render(format, args)| <= INT_MAX ==> out == Render(format, args) && r == Returned(|out|)
    decreases if PERCENT in format then 2 else 0, 1
  {
    out := [];
    var i: nat, a: nat, written: nat := 0, 0, 0;
    assert format[0..] == format && args[0..] == args;
    EndingFits(format, args, 0);
    var ended := false;
    while i < |format|
      invariant i <= |format| && a <= |args|
      invariant Progress(format, args, format[i..], args[a..], out, written) && Printed(t, before, out)
    {
      i, a, written, ended, r, out := OnePass(t, format, args, i, a, written, before, out);
      if ended {
        return;
      }
    }
    r := Returned(written);
  }

  /** One pass of the format loop, at position i of the format and argument a. */
  method OnePass(t: Terminal, format: seq<Byte>, args: seq<Arg>, i: nat, a: nat, written: nat,
                 ghost before: seq<Glyph>, ghost out: seq<Byte>)
    returns (i': nat, a': nat, written': nat, ended: bool, r: Outcome, ghost out': seq<Byte>)
    requires i < |format| && a <= |args| && Matching(format, args)
    requires Progress(format, args, format[i..], args[a..], out, written) && Printed(t, before, out)
    modifies t`row, t`column, t`written, t.buffer
    ensures Printed(t, before, out') && out' <= Render(format, args)
    ensures !ended ==>
              i < i' <= |format| && a' <= |args| && Progress(format, args, format[i'..], args[a'..], out', written')
    ensures ended ==> r == Ending(format, args, 0)
    ensures ended && r.Returned? && r.n >= 0 ==> out' == Render(format, args)
    decreases if PERCENT in format then 2 else 0, 0
  {
    i', a', written', ended, r, out' := i, a, written, true, Returned(-1), out;
    if format[i] != PERCENT || (i + 1 < |format| && format[i + 1] == PERCENT) {
      i', written', ended, out' := LiteralPass(t, format, args, i, args[a..], written, before, out);
    } else if i + 1 < |format| && IsConversion(format[i + 1]) {
      i', a' := i + 2, a + 1;
      written', ended, r, out' := ConversionPass(t, format, args, i, a, written, before, out);
    } else {
      r, out' := RestPass(t, format, args, i, a, written, before, out);
    }
  }

  /** A conversion: -1 when its check fails, an overflow when its unchecked part goes too far. */
  method ConversionPass(t: Terminal, format: seq<Byte>, args: seq<Arg>, i: nat, a: nat, written: nat,
                        ghost before: seq<Glyph>, ghost out: seq<Byte>)
    returns (written': nat, ended: bool, r: Outcome, ghost out': seq<Byte>)
    requires i + 1 < |format| && a <= |args| && Matching(format, args)
    requires Progress(format, args, format[i..], args[a..], out, written) && Printed(t, before, out)
    requires format[i] == PERCENT && IsConversion(format[i + 1])
    modifies t`row, t`column, t`written, t.buffer
    ensures Printed(t, before, out') && out' <= Render(format, args)
    ensures !ended ==> a < |args| && Progress(format, args, format[i + 2..], args[a + 1..], out', written')
    ensures ended ==> r == Ending(format, args, 0) && (r == Returned(-1) || r == Overflowed)
    decreases 1, 3
  {
    ConversionAt(format, args, i, a, out, written);
    var ok, n := Convert(t, format[i + 1], args[a], INT_MAX - written, before, out);
    if !ok {
      return written, true, Returned(-1), out;
    }
    written', out' := written + n, out + Converted(format[i + 1], args[a]);
    ended, r := written' > INT_MAX, Overflowed;
  }

  /** An unknown specifier or a trailing percent sign: the rest of the format, and the end. */
  method RestPass(t: Terminal, format: seq<Byte>, args: seq<Arg>, i: nat, ghost a: nat, written: nat,
                  ghost before: seq<Glyph>, ghost out: seq<Byte>)
    returns (r: Outcome, ghost out': seq<Byte>)
    requires i < |format| && a <= |args| && Matching(format, args)
    requires Progress(format, args, format[i..], args[a..], out, written) && Printed(t, before, out)
    requires format[i] == PERCENT
    requires i + 1 < |format| ==> format[i + 1] != PERCENT && !IsConversion(format[i + 1])
    modifies t`row, t`column, t`written, t.buffer
    ensures Printed(t, before, out') && out' <= Render(format, args)
    ensures r == Ending(format, args, 0)
    ensures r != Returned(-1) ==> out' == Render(format, args)
  {
    RestAt(format, args, i, a, out, written);
    var len := |format| - i;
    if INT_MAX - written < len {
      return Returned(-1), out;
    }
    Print(t, format[i..], before, out);
    r, out' := Returned(written + len), out + format[i..];
  }

  /** A run of literal characters; when the check fails the call ends with -1. */
  method LiteralPass(t: Terminal, format: seq<Byte>, args: seq<Arg>, i: nat, ghost rest: seq<Arg>, written: nat,
                     ghost before: seq<Glyph>, ghost out: seq<Byte>)
    returns (i': nat, written': nat, ended: bool, ghost out': seq<Byte>)
    requires i < |format| && Matching(format, args)
    requires Progress(format, args, format[i..], rest, out, written) && Printed(t, before, out)
    requires format[i] != PERCENT || (i + 1 < |format| && format[i + 1] == PERCENT)
    modifies t`row, t`column, t`written, t.buffer
    ensures Printed(t, before, out') && out' <= Render(format, args)
    ensures !ended ==> i < i' <= |format| && Progress(format, args, format[i'..], rest, out', written')
    ensures ended ==> Ending(format, args, 0) == Returned(-1)
  {
    var skip := if format[i] == PERCENT then 1 else 0;
    var amount := LiteralLength(format, i + skip);
    i', written' := i + skip + amount, written + amount;
    var piece := format[i + skip..i'];
    ended, out' := EmitPiece(t, piece, written', before, out);
    LiteralAt(format, args, format[i..], rest, i, out, written, skip, amount, i', out + piece, written');
  }

  method EmitPiece(t: Terminal, piece: seq<Byte>, written: nat, ghost before: seq<Glyph>, ghost out: seq<Byte>)
    returns (ended: bool, ghost out': seq<Byte>)
    requires Printed(t, before, out)
    modifies t`row, t`column, t`written, t.buffer
    ensures ended == (written > INT_MAX) && out' == (if ended then out else out + piece)
    ensures Printed(t, before, out')
  {
    ended, out' := written > INT_MAX, out;
    if !ended {
      out' := out + piece;
      Print(t, piece, before, out);
    }
  }

  lemma LiteralAt(format: seq<Byte>, args: seq<Arg>, f: seq<Byte>, rest: seq<Arg>, i: nat, out: seq<Byte>, written: nat,
                  skip: nat, k: nat, next: nat, out': seq<Byte>, written': nat)
    requires i < |format| && f == format[i..] && Matching(format, args)
    requires Progress(format, args, f, rest, out, written)
    requires format[i] != PERCENT || (i + 1 < |format| && format[i + 1] == PERCENT)
    requires skip == (if format[i] == PERCENT then 1 else 0)
    requires 1 <= k && next == i + skip + k <= |format| && PERCENT !in format[i + skip + 1..next]
    requires out' == out + format[i + skip..next] && written' == written + k
    ensures out <= Render(format, args)
    ensures written' > INT_MAX ==> Ending(format, args, 0) == Returned(-1)
    ensures written' <= INT_MAX ==>
              Progress(format, args, format[next..], rest, out', written') && out' <= Render(format, args)
  {
    LiteralHere(format, f, rest, i, skip, k);
    LiteralStep(format, args, f, rest, out, written, skip, k);
    if written' <= INT_MAX {
      OutIsPrefix(format, args, format[next..], rest, out', written');
    }
    OutIsPrefix(format, args, f, rest, out, written);
  }

  lemma OutIsPrefix(format: seq<Byte>, args: seq<Arg>, f: seq<Byte>, rest: seq<Arg>, out: seq<Byte>, written: nat)
    requires Matching(format, args) && Progress(format, args, f, rest, out, written)
    ensures out <= Render(format, args)
  {
  }

  /** The run found at position i is one pass of the literal branch. */
  lemma LiteralHere(format: seq<Byte>, f: seq<Byte>, rest: seq<Arg>, i: nat, skip: nat, k: nat)
    requires i < |format| && f == format[i..] && Matching(f, rest)
    requires format[i] != PERCENT || (i + 1 < |format| && format[i + 1] == PERCENT)
    requires skip == (if format[i] == PERCENT then 1 else 0)
    requires 1 <= k && i + skip + k <= |format| && PERCENT !in format[i + skip + 1..i + skip + k]
    ensures Literal(f, rest, skip, k)
    ensures f[skip..skip + k] == format[i + skip..i + skip + k] && f[skip + k..] == format[i + skip + k..]
  {
    SliceOfSlice(format, i, skip, k);
  }

  lemma SliceOfSlice(format: seq<Byte>, i: nat, skip: nat, k: nat)
    requires 1 <= k && i + skip + k <= |format|
    ensures format[i..][skip + 1..skip + k] == format[i + skip + 1..i + skip + k]
    ensures format[i..][skip..skip + k] == format[i + skip..i + skip + k]
    ensures format[i..][skip + k..] == format[i + skip + k..]
  {
  }

  lemma ConversionAt(format: seq<Byte>, args: seq<Arg>, i: nat, a: nat, out: seq<Byte>, written: nat)
    requires i + 1 < |format| && a <= |args| && Matching(format, args)
    requires Progress(format, args, format[i..], args[a..], out, written)
    requires format[i] == PERCENT && IsConversion(format[i + 1])
    ensures a < |args| && Accepts(format[i + 1], args[a])
    ensures var text := Converted(format[i + 1], args[a]);
            var checked := |text| - Unchecked(format[i + 1], args[a]);
            && (written + checked > INT_MAX ==> Ending(format, args, 0) == Returned(-1))
            && (written + checked <= INT_MAX && written + |text| > INT_MAX ==> Ending(format, args, 0) == Overflowed)
            && (written + |text| <= INT_MAX ==>
                  Progress(format, args, format[i + 2..], args[a + 1..], out + text, written + |text|))
            && out <= out + text <= Render(format, args)
  {
    var f, rest := format[i..], args[a..];
    assert AtConversion(f) && rest != [];
    assert f[2..] == format[i + 2..] && rest[1..] == args[a + 1..];
    ConversionStep(format, args, f, rest, out, written);
  }

  lemma RestAt(format: seq<Byte>, args: seq<Arg>, i: nat, a: nat, out: seq<Byte>, written: nat)
    requires i < |format| && a <= |args| && Matching(format, args)
    requires Progress(format, args, format[i..], args[a..], out, written)
    requires format[i] == PERCENT
    requires i + 1 < |format| ==> format[i + 1] != PERCENT && !IsConversion(format[i + 1])
    ensures Render(format, args) == out + format[i..]
    ensures Ending(format, args, 0) ==
            if written + (|format| - i) > INT_MAX then Returned(-1) else Returned(written + (|format| - i))
  {
  }

  /** `amount`: one character, then on to the next percent sign or the end. */
  method LiteralLength(format: seq<Byte>, i: nat) returns (amount: nat)
    requires i < |format|
    ensures 1 <= amount && i + amount <= |format| && PERCENT !in format[i + 1..i + amount]
    ensures i + amount == |format| || format[i + amount] == PERCENT
  {
    amount := 1;
    while i + amount < |format| && format[i + amount] != PERCENT
      invariant 1 <= amount && i + amount <= |format|
      invariant PERCENT !in format[i + 1..i + amount]
    {
      assert format[i + 1..i + amount + 1] == format[i + 1..i + amount] + [format[i + amount]];
      amount := amount + 1;
    }
  }

  /** The switch on the conversion letter. Nothing is printed when the check fails. */
  method Convert(t: Terminal, letter: Byte, arg: Arg, maxrem: nat, ghost before: seq<Glyph>, ghost out: seq<Byte>)
    returns (ok: bool, n: nat)
    requires Printed(t, before, out) && Accepts(letter, arg)
    modifies t`row, t`column, t`written, t.buffer
    ensures ok <==> |Converted(letter, arg)| - Unchecked(letter, arg) <= maxrem
    ensures ok ==> n == |Converted(letter, arg)| && Printed(t, before, out + Converted(letter, arg))
    ensures !ok ==> Printed(t, before, out)
    decreases 1, 2
  {
    if letter == S {
      n := |arg.s|;
      ok := n <= maxrem;
      if ok {
        Print(t, arg.s, before, out);
      }
    } else if letter == C {
      n, ok := 1, maxrem != 0;
      if ok {
        Print(t, [arg.w % 256], before, out);
      }
    } else if letter == D {
      ok, n := ConvertSigned(t, arg.w, maxrem, before, out);
    } else if letter == U {
      ok, n := ConvertUnsigned(t, arg.w, maxrem, before, out);
    } else {
      ok, n := ConvertHex(t, arg.w, maxrem, before, out);
    }
  }

  method ConvertSigned(t: Terminal, w: Word, maxrem: nat, ghost before: seq<Glyph>, ghost out: seq<Byte>)
    returns (ok: bool, n: nat)
    requires Printed(t, before, out)
    modifies t`row, t`column, t`written, t.buffer
    ensures ok <==> |Decimal(w)| - Unchecked(D, Num(w)) <= maxrem
    ensures ok ==> n == |Decimal(w)| && Printed(t, before, out + Decimal(w))
    ensures !ok ==> Printed(t, before, out)
    decreases 1, 1
  {
    if w == 0x8000_0000 {
      IntMinText();
      PrintLiteral(t, INT_MIN_TEXT, before, out);
      return true, 11;
    }
    if w == 0 {
      Print(t, [ZERO], before, out);
      return true, 1;
    }
    var neg := w > 0x8000_0000;
    SignedText(w);
    ok, n := PrintSigned(t, neg, if neg then 0x1_0000_0000 - w else w, maxrem, before, out);
  }

  lemma SignedText(w: Word)
    requires w != 0 && w != 0x8000_0000
    ensures Decimal(w) == if w > 0x8000_0000 then [MINUS] + Text(10, 0x1_0000_0000 - w) else [] + Text(10, w)
    ensures Unchecked(D, Num(w)) == 0
  {
  }

  method PrintSigned(t: Terminal, neg: bool, num: Word, maxrem: nat, ghost before: seq<Glyph>, ghost out: seq<Byte>)
    returns (ok: bool, n: nat)
    requires Printed(t, before, out)
    modifies t`row, t`column, t`written, t.buffer
    ensures var text := (if neg then [MINUS] else []) + Text(10, num);
            && n == |text| && (ok <==> n <= maxrem)
            && Printed(t, before, if ok then out + text else out)
  {
    var buffer := new Byte[32](_ => 0);
    var len := FillDigits(num, 10, buffer);
    n := len + if neg then 1 else 0;
    ok := n <= maxrem;
    if ok {
      if neg {
        Print(t, [MINUS], before, out);
        PrintDigits(t, buffer, len, before, out + [MINUS]);
        Regroup(out, [MINUS], Text(10, num));
      } else {
        PrintDigits(t, buffer, len, before, out);
        assert [] + Text(10, num) == Text(10, num);
      }
    }
  }

  method ConvertUnsigned(t: Terminal, w: Word, maxrem: nat, ghost before: seq<Glyph>, ghost out: seq<Byte>)
    returns (ok: bool, n: nat)
    requires Printed(t, before, out)
    modifies t`row, t`column, t`written, t.buffer
    ensures ok <==> |Natural(10, w)| - Unchecked(U, Num(w)) <= maxrem
    ensures ok ==> n == |Natural(10, w)| && Printed(t, before, out + Natural(10, w))
    ensures !ok ==> Printed(t, before, out)
  {
    if w == 0 {
      Print(t, [ZERO], before, out);
      return true, 1;
    }
    var buffer := new Byte[32](_ => 0);
    n := FillDigits(w, 10, buffer);
    if maxrem < n {
      return false, n;
    }
    PrintDigits(t, buffer, n, before, out);
    ok := true;
  }

  const HEX_PREFIX: seq<Byte> := [48, 120]

  method ConvertHex(t: Terminal, w: Word, maxrem: nat, ghost before: seq<Glyph>, ghost out: seq<Byte>)
    returns (ok: bool, n: nat)
    requires Printed(t, before, out)
    modifies t`row, t`column, t`written, t.buffer
    ensures ok <==> |Hex(w)| - Unchecked(X, Num(w)) <= maxrem
    ensures ok ==> n == |Hex(w)| && Printed(t, before, out + Hex(w))
    ensures !ok ==> Printed(t, before, out)
    decreases 1, 1
  {
    if w == 0 {
      PrintLiteral(t, [48, 120, 48], before, out);
      assert Hex(w) == [48, 120, 48];
      return true, 3;
    }
    var buffer := new Byte[8](_ => 0);
    var len := FillDigits(w, 16, buffer);
    if maxrem < len {
      return false, len;
    }
    PrintLiteral(t, HEX_PREFIX, before, out);
    PrintDigits(t, buffer, len, before, out + HEX_PREFIX);
    Regroup(out, HEX_PREFIX, Text(16, w));
    return true, len + 2;
  }

  /** The nested `printf` calls: a format without percent sign. */
  method PrintLiteral(t: Terminal, text: seq<Byte>, ghost before: seq<Glyph>, ghost out: seq<Byte>)
    requires Printed(t, before, out) && PERCENT !in text && |text| <= INT_MAX
    modifies t`row, t`column, t`written, t.buffer
    ensures Printed(t, before, out + text)
    decreases 0, 3
  {
    PlainText(text);
    ghost var now := t.written;
    ghost var printed;
    var r;
    r, printed := Printf(t, text, [], now);
    assert printed == text;
    AfterLiteral(before, out, text, t.color);
  }

  lemma AfterLiteral(before: seq<Glyph>, out: seq<Byte>, text: seq<Byte>, color: Byte)
    ensures before + Colored(out, color) + Colored(text, color) == before + Colored(out + text, color)
  {
    ColoredMore(out, text, color);
  }

  lemma ColoredMore(a: seq<Byte>, b: seq<Byte>, color: Byte)
    ensures Colored(a + b, color) == Colored(a, color) + Colored(b, color)
  {
  }

  lemma {:induction false} PlainText(text: seq<Byte>)
    requires PERCENT !in text
    ensures Matching(text, []) && Render(text, []) == text
  {
    if text != [] {
      PlainText(text[1..]);
    }
  }
}

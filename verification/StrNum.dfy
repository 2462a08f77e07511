/** The number printer of kernel/stdio.c, and a parser that reads back what it writes. */
module StrNum {
  import opened Powers
  import opened Bits

  const STR_SIGN: nat := 2
  const STR_PLUS: nat := 4
  const STR_LEFT: nat := 8
  const STR_ZERO_PAD: nat := 16
  const STR_LOWER: nat := 32
  const STR_SPACE: nat := 64
  const STR_SPEC: nat := 128

  const DIGITS: string := "0123456789ABCDEF"

  predicate IsBase(base: nat) { base == 8 || base == 10 || base == 16 }

  predicate Has(flags: nat, flag: nat) { And(flags, flag) != 0 }

  /** The tests str_num makes on its flags. */
  datatype Flags = Flags(sign: bool, plus: bool, left: bool, zeroPad: bool, lower: bool, space: bool, spec: bool)

  function FlagsOf(flags: nat): Flags
  {
    Flags(Has(flags, STR_SIGN), Has(flags, STR_PLUS), Has(flags, STR_LEFT), Has(flags, STR_ZERO_PAD),
          Has(flags, STR_LOWER), Has(flags, STR_SPACE), Has(flags, STR_SPEC))
  }

  // ---- text and numbers -----------------------------------------------------------------------------

  /** A character with the bit of small letters set, when that is what lower says. */
  function CharOr(c: char, lower: nat): char
    requires c as nat < 128 && lower < 128
  {
    OrBelow(c as nat, lower, 7);
    assert Pow2(7) == 128 by { assert Pow2(4) == 16; }
    Or(c as nat, lower) as char
  }

  lemma OrBelow(a: nat, b: nat, k: nat)
    requires a < Pow2(k) && b < Pow2(k)
    ensures Or(a, b) < Pow2(k)
  {
    OrShr(a, b, k);
    SmallShr(a, k);
    SmallShr(b, k);
    SmallShr(Or(a, b), k);
    OrZero(0);
  }

  /** The character for a digit. */
  function DigitChar(d: nat, lower: nat): char
    requires d < 16 && lower < 128
  {
    CharOr(DIGITS[d], lower)
  }

  function DigitValue(c: char): int
  {
    if '0' <= c <= '9' then c as int - '0' as int
    else if 'A' <= c <= 'F' then c as int - 'A' as int + 10
    else if 'a' <= c <= 'f' then c as int - 'a' as int + 10
    else 0
  }

  /** Or-ing the bit 32 in: it is set in digits and tells small letters from capitals. */
  lemma OrLower(c: nat)
    requires 32 <= c < 96
    ensures Or(c, 32) == if c < 64 then c else c + 32
  {
    assert Pow2(5) == 32 by { assert Pow2(4) == 16; }
    OrShr(c, 32, 5);
    OrMod(c, 32, 5);
    OrZero(c % 32);
    assert Or(1, 1) == 1 && Or(2, 1) == 3;
  }

  lemma DigitBack(d: nat, lower: nat)
    requires d < 16 && (lower == 0 || lower == 32)
    ensures DigitValue(DigitChar(d, lower)) == d && DigitChar(d, lower) !in " +-"
  {
    var c := DIGITS[d] as nat;
    assert c == if d < 10 then 48 + d else 55 + d;
    OrZero(c);
    OrLower(c);
  }

  /** The digits of n, most significant first. */
  function Text(n: nat, base: nat, lower: nat): (s: string)
    requires 1 < base <= 16 && lower < 128
    ensures |s| > 0
  {
    if n < base then [DigitChar(n, lower)] else Text(n / base, base, lower) + [DigitChar(n % base, lower)]
  }

  /** The number a string of digits stands for. */
  function Number(s: string, base: nat): int
  {
    if s == [] then 0 else Number(s[..|s| - 1], base) * base + DigitValue(s[|s| - 1])
  }

  lemma NumberOfLast(t: string, c: char, base: nat)
    ensures Number(t + [c], base) == Number(t, base) * base + DigitValue(c)
  {
    assert (t + [c])[..|t|] == t;
  }

  lemma NumberStep(t: string, c: char, base: nat, q: nat, r: nat, n: nat)
    requires Number(t, base) == q && DigitValue(c) == r && n == q * base + r
    ensures Number(t + [c], base) == n
  {
    NumberOfLast(t, c, base);
  }

  lemma Recombined(n: nat, base: nat)
    requires base > 0
    ensures n / base * base + n % base == n
  {
  }

  lemma QuotientLess(n: nat, base: nat)
    requires base > 1 && n / base != 0
    ensures n / base < n
  {
    MulMono(2, base, n / base);
    Recombined(n, base);
  }

  lemma SmallerQuotient(n: nat, base: nat)
    requires 1 < base <= n
    ensures n / base < n
  {
    if n / base != 0 { QuotientLess(n, base); }
  }

  lemma {:induction false} NumberOfText(n: nat, base: nat, lower: nat)
    requires 1 < base <= 16 && (lower == 0 || lower == 32)
    ensures Number(Text(n, base, lower), base) == n
  {
    if n < base {
      DigitBack(n, lower);
      var c := DigitChar(n, lower);
      NumberOfLast([], c, base);
      assert [] + [c] == [c];
    } else {
      var t, c := Text(n / base, base, lower), DigitChar(n % base, lower);
      SmallerQuotient(n, base);
      NumberOfText(n / base, base, lower);
      DigitBack(n % base, lower);
      Recombined(n, base);
      NumberStep(t, c, base, n / base, n % base, n);
    }
  }

  /** Digits are neither spaces nor signs. */
  lemma {:induction false} TextIsPlain(n: nat, base: nat, lower: nat)
    requires 1 < base <= 16 && (lower == 0 || lower == 32)
    ensures forall c :: c in Text(n, base, lower) ==> c !in " +-"
  {
    if n < base {
      DigitBack(n, lower);
    } else {
      SmallerQuotient(n, base);
      TextIsPlain(n / base, base, lower);
      DigitBack(n % base, lower);
    }
  }

  function Repeat(c: char, n: int): (s: string)
    ensures |s| == if n < 0 then 0 else n
    ensures forall x :: x in s ==> x == c
  {
    if n <= 0 then [] else [c] + Repeat(c, n - 1)
  }

  lemma {:induction false} RepeatEnd(c: char, n: nat)
    ensures Repeat(c, n) + [c] == Repeat(c, n + 1)
  {
    if n > 0 { RepeatEnd(c, n - 1); }
  }

  lemma {:induction false} LeadingZeros(n: int, s: string, base: nat)
    ensures Number(Repeat('0', n) + s, base) == Number(s, base)
    decreases |s|, n
  {
    var z := Repeat('0', n);
    if s != [] {
      assert (z + s)[..|z + s| - 1] == z + s[..|s| - 1];
      LeadingZeros(n, s[..|s| - 1], base);
    } else if n > 0 {
      RepeatEnd('0', n - 1);
      var y := Repeat('0', n - 1);
      assert z + s == y + ['0'] && (y + ['0'])[..|y|] == y + [];
      LeadingZeros(n - 1, [], base);
    }
  }

  /** k digits are enough for a number below base^k; in base 8 or more, 22 for 64 bits. */
  lemma {:induction false} TextLength(n: nat, base: nat, lower: nat, k: nat)
    requires 8 <= base <= 16 && lower < 128 && n < Pow2(3 * k) && k > 0
    ensures |Text(n, base, lower)| <= k
    decreases k
  {
    assert Pow2(3 * k) == 8 * Pow2(3 * (k - 1)) by { Pow2Add(3, 3 * (k - 1)); assert Pow2(3) == 8; }
    if n >= base {
      QuotientShrinks(n, base);
      assert k > 1;
      TextLength(n / base, base, lower, k - 1);
    }
  }

  lemma QuotientShrinks(n: nat, base: nat)
    requires base >= 8
    ensures n / base <= n / 8
  {
    var q := n / base;
    MulMono(8, base, q);
    assert 8 * q <= n;
  }

  // ---- the layout -----------------------------------------------------------------------------------

  /** The sign the flags ask for. */
  function Sign(negative: bool, flags: Flags): string
  {
    if !flags.sign then ""
    else if negative then "-"
    else if flags.plus then "+"
    else if flags.space then " "
    else ""
  }

  function Prefix(base: nat, flags: Flags): string
  {
    if !flags.spec then ""
    else if base == 8 then "0"
    else if base == 16 then (if flags.lower then "0x" else "0X")
    else ""
  }

  /** The magnitude that is printed: the two's complement of a negative number is taken back. */
  function Printed(magnitude: nat, negative: bool, flags: Flags): nat
    requires magnitude < U64
  {
    if flags.sign && negative then (U64 - magnitude) % U64 else magnitude
  }

  function DigitText(n: nat, base: nat, precision: int, flags: Flags): string
    requires IsBase(base)
  {
    if n == 0 && precision == 0 then "" else Text(n, base, if flags.lower then 32 else 0)
  }

  /** Sign, prefix, the zeros of the precision and the digits. */
  function Body(magnitude: nat, negative: bool, base: nat, precision: int, flags: Flags): string
    requires magnitude < U64 && IsBase(base)
  {
    var digits := DigitText(Printed(magnitude, negative, flags), base, precision, flags);
    Repeat('0', precision - |digits|) + digits
  }

  /** What str_num writes. */
  function Formatted(magnitude: nat, negative: bool, base: nat, width: int, precision: int, flags: Flags): string
    requires magnitude < U64 && IsBase(base)
  {
    Padded(Sign(negative, flags), Prefix(base, flags), Body(magnitude, negative, base, precision, flags), width,
           flags.left, flags.zeroPad)
  }

  /** Spaces before or after, or zeros between prefix and body. */
  function Padded(sign: string, prefix: string, body: string, width: int, left: bool, zero: bool): string
  {
    var fill := width - |sign| - |prefix| - |body|;
    if left then sign + prefix + body + Repeat(' ', fill)
    else if zero then sign + prefix + Repeat('0', fill) + body
    else Repeat(' ', fill) + sign + prefix + body
  }

  /** The field is as wide as asked for, or as wide as its content. */
  lemma FormattedLength(magnitude: nat, negative: bool, base: nat, width: int, precision: int, flags: Flags)
    requires magnitude < U64 && IsBase(base)
    ensures var digits := |DigitText(Printed(magnitude, negative, flags), base, precision, flags)|;
            |Formatted(magnitude, negative, base, width, precision, flags)|
            == Max(width, |Sign(negative, flags)| + |Prefix(base, flags)| + Max(precision, digits))
  {
  }

  // ---- reading it back ------------------------------------------------------------------------------

  function SkipSpaces(s: string): string
  {
    if s != [] && s[0] == ' ' then SkipSpaces(s[1..]) else s
  }

  function DropSpaces(s: string): string
  {
    if s != [] && s[|s| - 1] == ' ' then DropSpaces(s[..|s| - 1]) else s
  }

  /** Spaces around, a sign, a prefix when one is expected, digits. */
  function Parse(s: string, base: nat, prefix: nat): int
  {
    var t := DropSpaces(SkipSpaces(s));
    var signed := t != [] && t[0] in "+-";
    var u := if signed then t[1..] else t;
    var n := Number(if prefix <= |u| then u[prefix..] else [], base);
    if signed && t[0] == '-' then -n else n
  }

  /** The signed value str_num was given. */
  function Value(magnitude: nat, negative: bool, flags: Flags): int
    requires magnitude < U64
  {
    var n: int := Printed(magnitude, negative, flags);
    if flags.sign && negative then -n else n
  }

  lemma {:induction false} SkipRepeat(n: int, s: string)
    ensures SkipSpaces(Repeat(' ', n) + s) == SkipSpaces(s)
  {
    if n <= 0 {
      assert Repeat(' ', n) + s == s;
    } else {
      assert (Repeat(' ', n) + s)[1..] == Repeat(' ', n - 1) + s;
      SkipRepeat(n - 1, s);
    }
  }

  lemma {:induction false} DropRepeat(n: int, s: string)
    ensures DropSpaces(s + Repeat(' ', n)) == DropSpaces(s)
  {
    if n <= 0 {
      assert s + Repeat(' ', n) == s;
    } else {
      RepeatEnd(' ', n - 1);
      assert (s + Repeat(' ', n))[..|s + Repeat(' ', n)| - 1] == s + Repeat(' ', n - 1);
      DropRepeat(n - 1, s);
    }
  }

  lemma Trimmed(a: int, core: string, z: int)
    requires ' ' !in core
    ensures DropSpaces(SkipSpaces(Repeat(' ', a) + core + Repeat(' ', z))) == core
  {
    assert Repeat(' ', a) + core + Repeat(' ', z) == Repeat(' ', a) + (core + Repeat(' ', z));
    SkipRepeat(a, core + Repeat(' ', z));
    if core == [] {
      assert core + Repeat(' ', z) == Repeat(' ', z) + [];
      SkipRepeat(z, []);
    } else {
      assert (core + Repeat(' ', z))[0] == core[0];
      DropRepeat(z, core);
    }
  }

  /** The sign that is not a space. */
  function Mark(sign: string): string { if sign == " " then "" else sign }

  /** Everything but the spaces. */
  function Core(sign: string, prefix: string, body: string, width: int, left: bool, zero: bool): string
  {
    Mark(sign) + prefix + Tail(sign, prefix, body, width, left, zero)
  }

  /** The zeros of the padding and the body. */
  function Tail(sign: string, prefix: string, body: string, width: int, left: bool, zero: bool): string
  {
    Repeat('0', if !left && zero then width - |sign| - |prefix| - |body| else 0) + body
  }

  lemma PaddedIsCore(sign: string, prefix: string, body: string, width: int, left: bool, zero: bool)
    returns (a: int, z: int)
    requires sign in {"", " ", "+", "-"}
    ensures Padded(sign, prefix, body, width, left, zero)
         == Repeat(' ', a) + Core(sign, prefix, body, width, left, zero) + Repeat(' ', z)
  {
    var fill := width - |sign| - |prefix| - |body|;
    var tail := Tail(sign, prefix, body, width, left, zero);
    var lead := if sign == " " then 1 else 0;
    SpaceSign(sign, lead);
    if left {
      a, z := lead, fill;
      Regrouped(Repeat(' ', lead), Mark(sign), prefix, tail, Repeat(' ', fill));
      assert tail == body;
    } else if zero {
      a, z := lead, 0;
      Regrouped(Repeat(' ', lead), Mark(sign), prefix, tail, Repeat(' ', 0));
      assert sign + prefix + Repeat('0', fill) + body == sign + prefix + tail + Repeat(' ', 0);
    } else {
      a, z := Max(fill, 0) + lead, 0;
      assert tail == body;
      RepeatSum(' ', Max(fill, 0), lead);
      assert Repeat(' ', fill) == Repeat(' ', Max(fill, 0));
      Shifted(Repeat(' ', fill), Repeat(' ', lead), Mark(sign), prefix, body);
      assert Repeat(' ', 0) == "";
    }
  }

  lemma Regrouped(lead: string, mark: string, prefix: string, tail: string, end: string)
    ensures (lead + mark) + prefix + tail + end == lead + (mark + prefix + tail) + end
  {
  }

  lemma Shifted(fill: string, lead: string, mark: string, prefix: string, body: string)
    ensures fill + (lead + mark) + prefix + body == (fill + lead) + (mark + prefix + body) + ""
  {
  }

  lemma SpaceSign(sign: string, lead: nat)
    requires lead == if sign == " " then 1 else 0
    ensures Repeat(' ', lead) + Mark(sign) == sign
  {
    assert Repeat(' ', 0) == "";
    assert Repeat(' ', 1) == [' '] + Repeat(' ', 0);
  }

  lemma {:induction false} RepeatSum(c: char, m: nat, n: nat)
    ensures Repeat(c, m + n) == Repeat(c, m) + Repeat(c, n)
  {
    if m > 0 { RepeatSum(c, m - 1, n); }
  }

  /** A sign is told apart from text that has none. */
  lemma SignSplits(mark: string, rest: string)
    requires mark in {"", "+", "-"} && forall c :: c in rest ==> c !in " +-"
    ensures var t := mark + rest;
            var signed := t != [] && t[0] in "+-";
            && ' ' !in t && signed == (mark != "") && (signed ==> t[0] == mark[0])
            && (if signed then t[1..] else t) == rest
  {
    var t := mark + rest;
    if mark == "" {
      assert t == rest;
      assert t != [] ==> t[0] in rest;
    } else {
      assert t[1..] == rest;
    }
  }

  /** What is left of the core when the sign and the prefix are taken off. */
  lemma CoreSplits(mark: string, prefix: string, tail: string)
    requires mark in {"", "+", "-"} && forall c :: c in prefix + tail ==> c !in " +-"
    ensures var t := mark + prefix + tail;
            var signed := t != [] && t[0] in "+-";
            var u := if signed then t[1..] else t;
            && ' ' !in t && signed == (mark != "") && (signed ==> t[0] == mark[0])
            && |prefix| <= |u| && u[|prefix|..] == tail
  {
    var rest := prefix + tail;
    assert mark + prefix + tail == mark + rest;
    SignSplits(mark, rest);
    assert rest[|prefix|..] == tail;
  }

  lemma BodyIs(magnitude: nat, negative: bool, base: nat, precision: int, flags: Flags)
    requires magnitude < U64 && IsBase(base)
    ensures var body := Body(magnitude, negative, base, precision, flags);
            && Number(body, base) == Printed(magnitude, negative, flags) && forall c :: c in body ==> c !in " +-"
  {
    var n, lower := Printed(magnitude, negative, flags), if flags.lower then 32 else 0;
    var digits := DigitText(n, base, precision, flags);
    LeadingZeros(precision - |digits|, digits, base);
    NumberOfText(n, base, lower);
    TextIsPlain(n, base, lower);
    assert Number([], base) == 0;
  }

  /** What was printed reads back as the value that was given. */
  lemma ParsesBack(magnitude: nat, negative: bool, base: nat, width: int, precision: int, flags: Flags)
    requires magnitude < U64 && IsBase(base)
    ensures Parse(Formatted(magnitude, negative, base, width, precision, flags), base, |Prefix(base, flags)|)
         == Value(magnitude, negative, flags)
  {
    BodyIs(magnitude, negative, base, precision, flags);
    PaddedParses(Sign(negative, flags), Prefix(base, flags), Body(magnitude, negative, base, precision, flags),
                 width, flags.left, flags.zeroPad, base);
  }

  lemma PaddedParses(sign: string, prefix: string, body: string, width: int, left: bool, zero: bool, base: nat)
    requires sign in {"", " ", "+", "-"} && forall c :: c in prefix + body ==> c !in " +-"
    ensures var n := Number(body, base);
            Parse(Padded(sign, prefix, body, width, left, zero), base, |prefix|) == if sign == "-" then -n else n
  {
    var out, core := Padded(sign, prefix, body, width, left, zero), Core(sign, prefix, body, width, left, zero);
    var tail := Tail(sign, prefix, body, width, left, zero);
    var zeros := if !left && zero then width - |sign| - |prefix| - |body| else 0;
    LeadingZeros(zeros, body, base);
    PlainTail(prefix, body, zeros);
    assert DropSpaces(SkipSpaces(out)) == core by {
      CoreSplits(Mark(sign), prefix, tail);
      var a, z := PaddedIsCore(sign, prefix, body, width, left, zero);
      Trimmed(a, core, z);
    }
    CoreParses(out, Mark(sign), prefix, tail, base);
  }

  lemma CoreParses(out: string, mark: string, prefix: string, tail: string, base: nat)
    requires DropSpaces(SkipSpaces(out)) == mark + prefix + tail
    requires mark in {"", "+", "-"} && forall c :: c in prefix + tail ==> c !in " +-"
    ensures Parse(out, base, |prefix|) == if mark == "-" then -Number(tail, base) else Number(tail, base)
  {
    CoreSplits(mark, prefix, tail);
  }

  lemma PlainTail(prefix: string, body: string, zeros: int)
    requires forall c :: c in prefix + body ==> c !in " +-"
    ensures forall c :: c in prefix + (Repeat('0', zeros) + body) ==> c !in " +-"
  {
    forall c | c in prefix + (Repeat('0', zeros) + body) ensures c !in " +-" {
      assert c in prefix + body || c in Repeat('0', zeros);
    }
  }

  // ---- str_num --------------------------------------------------------------------------------------

  function Reverse(s: string): string { if s == [] then [] else [s[|s| - 1]] + Reverse(s[..|s| - 1]) }

  /** reta */
  method Reta(n: nat, base: nat) returns (rest: nat, c: char)
    requires 1 < base <= 16
    ensures rest == n / base && c == DIGITS[n % base] && c as nat < 128
  {
    c := DIGITS[n % base];
    rest := n / base;
  }

  lemma SixtyFour()
    ensures Pow2(64) == U64
  {
    assert Pow2(4) == 16;
    Pow2Add(4, 4);
    Pow2Add(8, 8);
    Pow2Add(16, 16);
    Pow2Add(32, 32);
  }

  lemma ReverseLast(s: string, c: char)
    ensures Reverse(s + [c]) == [c] + Reverse(s)
  {
    assert (s + [c])[..|s|] == s;
  }

  /** The digit that is taken off next goes in front of those already taken. */
  lemma DigitStep(n: nat, base: nat, lower: nat, done: string)
    requires 1 < base <= 16 && lower < 128
    ensures var after := Reverse(done + [DigitChar(n % base, lower)]);
            Text(n, base, lower) + Reverse(done)
            == if n / base != 0 then Text(n / base, base, lower) + after else after
  {
    var c := DigitChar(n % base, lower);
    ReverseLast(done, c);
    if n < base {
      DivModUnique(n, base, 0, n);
    } else {
      assert n / base != 0 by { if n / base == 0 { Recombined(n, base); } }
      var t := Text(n / base, base, lower);
      assert (t + [c]) + Reverse(done) == t + ([c] + Reverse(done));
    }
  }

  lemma {:induction false} ReverseLength(s: string)
    ensures |Reverse(s)| == |s|
  {
    if s != [] { ReverseLength(s[..|s| - 1]); }
  }

  /** The next digit goes into the buffer, in the case that was asked for. */
  method PutDigit(tmp: array<char>, i: nat, n: nat, base: nat, lower: nat) returns (rest: nat)
    requires i < tmp.Length && 1 < base <= 16 && lower < 128
    modifies tmp
    ensures rest == n / base && tmp[..i + 1] == old(tmp[..i]) + [DigitChar(n % base, lower)]
  {
    var c;
    rest, c := Reta(n, base);
    tmp[i] := CharOr(c, lower);
  }

  /** The digit loop of str_num: lowest digit first, and one digit for zero. */
  method PutDigits(tmp: array<char>, magnitude: nat, base: nat, lower: nat) returns (i: nat)
    requires tmp.Length == 128 && magnitude < U64 && IsBase(base) && lower < 128
    modifies tmp
    ensures i <= 22 && Reverse(tmp[..i]) == Text(magnitude, base, lower)
  {
    i := 0;
    ghost var whole := Text(magnitude, base, lower);
    assert |whole| <= 22 by { SixtyFour(); Pow2Monotone(64, 66); TextLength(magnitude, base, lower, 22); }
    var n := magnitude;
    var more := true;
    assert tmp[..0] == [];
    while more
      invariant i <= |whole| <= 22
      invariant whole == if more then Text(n, base, lower) + Reverse(tmp[..i]) else Reverse(tmp[..i])
      decreases n, more
    {
      ghost var done, n0 := tmp[..i], n;
      ReverseLength(done);
      DigitStep(n, base, lower, done);
      n := PutDigit(tmp, i, n, base, lower);
      i := i + 1;
      more := n != 0;
      if more { QuotientLess(n0, base); }
      ReverseLength(tmp[..i]);
    }
  }

  /** The padding loops of str_num: one character for all of the width that is left. */
  method Pad(str: string, c: char, width: int) returns (out: string, rest: int)
    ensures out == str + Repeat(c, width) && rest == Min(width, 0) - 1
  {
    out, rest := str, width;
    ghost var k := 0;
    while rest > 0
      invariant k >= 0 && rest == width - k && (k == 0 || rest >= 0) && out == str + Repeat(c, k)
    {
      RepeatEnd(c, k);
      rest := rest - 1;
      out := out + [c];
      k := k + 1;
    }
    if width < 0 { assert Repeat(c, width) == Repeat(c, 0); }
    rest := rest - 1;
  }

  // ---- flags ----------------------------------------------------------------------------------------

  lemma FlagBits(flags: nat)
    ensures And(flags, STR_LOWER) == if Has(flags, STR_LOWER) then 32 else 0
  {
    assert Pow2(5) == 2 * Pow2(4) && Pow2(4) == 16;
    AndBit(flags, 5);
  }

  /** The test for either padding flag. */
  lemma EitherPad(flags: nat)
    ensures And(flags, STR_ZERO_PAD + STR_LEFT) != 0 <==> Has(flags, STR_LEFT) || Has(flags, STR_ZERO_PAD)
  {
    assert Pow2(3) == 8 && Pow2(4) == 16;
    AndBit(flags, 3);
    AndBit(flags, 4);
    AndTwo(flags);
    TwoBits(flags);
  }

  lemma TwoBits(a: nat)
    ensures a / 8 % 4 != 0 <==> TestBit(a, 3) || TestBit(a, 4)
  {
    assert Pow2(3) == 8 && Pow2(4) == 16;
    assert a / 16 == a / 8 / 2;
  }

  lemma AndTwo(a: nat)
    ensures And(a, 24) != 0 <==> a / 8 % 4 != 0
  {
    assert And(a, 24) == 2 * And(a / 2, 12);
    assert And(a / 2, 12) == 2 * And(a / 2 / 2, 6);
    assert And(a / 2 / 2, 6) == 2 * And(a / 2 / 2 / 2, 3);
    assert a / 2 / 2 / 2 == a / 8;
    AndMask(a / 8, 2);
    assert Pow2(2) == 4;
  }

  /** Clearing the zero-padding flag leaves the others. */
  lemma ZeroPadCleared(flags: nat)
    ensures var f := AndNot(flags, STR_ZERO_PAD);
            && !Has(f, STR_ZERO_PAD)
            && (forall flag :: flag in {STR_SIGN, STR_PLUS, STR_LEFT, STR_LOWER, STR_SPACE, STR_SPEC} ==>
                  Has(f, flag) == Has(flags, flag))
  {
    var f := AndNot(flags, STR_ZERO_PAD);
    assert Pow2(4) == 16;
    FlagCleared(flags, 1);
    FlagCleared(flags, 2);
    FlagCleared(flags, 3);
    FlagCleared(flags, 4);
    FlagCleared(flags, 5);
    FlagCleared(flags, 6);
    FlagCleared(flags, 7);
    assert Pow2(5) == 2 * Pow2(4) && Pow2(6) == 2 * Pow2(5) && Pow2(7) == 2 * Pow2(6);
  }

  lemma FlagCleared(flags: nat, k: nat)
    ensures Has(AndNot(flags, STR_ZERO_PAD), Pow2(k)) == (Has(flags, Pow2(k)) && k != 4)
  {
    assert Pow2(4) == 16;
    AndBit(flags, k);
    AndBit(AndNot(flags, STR_ZERO_PAD), k);
    TestBitAndNot(flags, Pow2(4), k);
    TestBitPow2(4, k);
  }

  // ---- the printer ----------------------------------------------------------------------------------

  /** The sign and what is left of the width. */
  method TakeSign(magnitude: nat, negative: bool, width: int, flags: Flags) returns (sign: string, m: nat, rest: int)
    requires magnitude < U64
    ensures sign == Sign(negative, flags) && m == Printed(magnitude, negative, flags) && rest == width - |sign|
  {
    sign, m, rest := "", magnitude, width;
    if flags.sign {
      if negative {
        sign := "-";
        m := (U64 - m) % U64;
        rest := rest - 1;
      } else if flags.plus {
        sign := "+";
        rest := rest - 1;
      } else if flags.space {
        sign := " ";
        rest := rest - 1;
      }
    }
  }

  /** The digits leave the buffer last one first, which puts the highest digit in front. */
  method PutReversed(str: string, tmp: array<char>, count: nat) returns (out: string)
    requires count <= tmp.Length
    ensures out == str + Reverse(tmp[..count])
  {
    out := str;
    var i := count;
    while i > 0
      invariant 0 <= i <= count && out + Reverse(tmp[..i]) == str + Reverse(tmp[..count])
    {
      ReverseLast(tmp[..i - 1], tmp[i - 1]);
      assert tmp[..i] == tmp[..i - 1] + [tmp[i - 1]];
      i := i - 1;
      assert out + ([tmp[i]] + Reverse(tmp[..i])) == (out + [tmp[i]]) + Reverse(tmp[..i]);
      out := out + [tmp[i]];
    }
    assert tmp[..0] == [];
  }

  /** The prefix. */
  method PutPrefix(str: string, base: nat, flags: Flags, lower: nat) returns (out: string)
    requires lower == if flags.lower then 32 else 0
    ensures out == str + Prefix(base, flags)
  {
    out := str;
    if flags.spec {
      if base == 8 {
        out := out + ['0'];
      } else if base == 16 {
        out := out + ['0'];
        out := out + [CharOr('X', lower)];
        OrLower(88);
        OrZero(88);
      }
    }
  }

  lemma NothingToRepeat(c: char, n: int)
    requires n <= 0
    ensures Repeat(c, n) == ""
  {
  }

  /** Up to the padding that follows the prefix; w is what is left of the width after that. */
  method EmitHead(sign: string, base: nat, word: nat, flags: Flags, lower: nat, width: int, pad: char)
    returns (str: string, w: int)
    requires flags == FlagsOf(word) && lower == if flags.lower then 32 else 0
    requires !flags.left ==> pad == if flags.zeroPad then '0' else ' '
    requires flags.left ==> !flags.zeroPad
    ensures str == (if flags.left then sign + Prefix(base, flags)
                    else if flags.zeroPad then sign + Prefix(base, flags) + Repeat('0', width)
                    else Repeat(' ', width) + sign + Prefix(base, flags))
    ensures if flags.left then w == width else w < 0
  {
    w := width;
    str := "";
    EitherPad(word);
    if And(word, STR_ZERO_PAD + STR_LEFT) == 0 { str, w := Pad(str, ' ', w); }
    str := str + sign;
    str := PutPrefix(str, base, flags, lower);
    if !flags.left {
      ghost var before := w;
      str, w := Pad(str, pad, w);
      if !flags.zeroPad { NothingToRepeat(' ', before); }
    }
  }

  /** The zeros of the precision, the digits and the spaces that may follow. */
  method EmitTail(head: string, tmp: array<char>, i: nat, p: int, w: int) returns (str: string)
    requires i <= tmp.Length
    ensures str == head + (Repeat('0', p - i) + Reverse(tmp[..i])) + Repeat(' ', w)
  {
    var rest;
    str, rest := Pad(head, '0', p - i);
    str := PutReversed(str, tmp, i);
    assert str == head + (Repeat('0', p - i) + Reverse(tmp[..i]));
    str, rest := Pad(str, ' ', w);
  }

  /** The writing half of str_num: the first i characters of tmp are the digits, p - i zeros are due, w
      is what is left of the width. */
  method Emit(sign: string, base: nat, word: nat, flags: Flags, lower: nat, tmp: array<char>, i: nat, p: int, w: int,
              pad: char, ghost body: string)
    returns (str: string)
    requires flags == FlagsOf(word) && lower == (if flags.lower then 32 else 0) && i <= tmp.Length
    requires flags.left ==> !flags.zeroPad
    requires !flags.left ==> pad == if flags.zeroPad then '0' else ' '
    requires body == Repeat('0', p - i) + Reverse(tmp[..i])
    ensures var prefix := Prefix(base, flags);
            str == Padded(sign, prefix, body, w + |sign| + |prefix| + |body|, flags.left, flags.zeroPad)
  {
    var rest;
    str, rest := EmitHead(sign, base, word, flags, lower, w, pad);
    str := EmitTail(str, tmp, i, p, rest);
    if !flags.left {
      NothingToRepeat(' ', rest);
    }
  }

  /** tmp gets the digits, if there are any. */
  method FillDigits(tmp: array<char>, m: nat, base: nat, precision: int, flags: Flags, lower: nat) returns (i: nat)
    requires tmp.Length == 128 && m < U64 && IsBase(base) && lower == if flags.lower then 32 else 0
    modifies tmp
    ensures i <= 22 && |Reverse(tmp[..i])| == i && Reverse(tmp[..i]) == DigitText(m, base, precision, flags)
  {
    i := 0;
    if !(m == 0 && precision == 0) {
      i := PutDigits(tmp, m, base, lower);
    }
    ReverseLength(tmp[..i]);
  }

  /** What is left of the width once sign, prefix, zeros and digits are taken off. */
  method WidthLeft(width: int, base: nat, flags: Flags) returns (w: int)
    ensures w == width - |Prefix(base, flags)|
  {
    w := width;
    if flags.spec {
      if base == 16 { w := w - 2; } else if base == 8 { w := w - 1; }
    }
  }

  lemma BodyPrinted(magnitude: nat, negative: bool, base: nat, precision: int, flags: Flags, m: nat,
                    digits: string, i: nat, p: int, body: string)
    requires magnitude < U64 && IsBase(base) && m == Printed(magnitude, negative, flags)
    requires digits == DigitText(m, base, precision, flags) && i == |digits| && p == Max(precision, i)
    requires body == Repeat('0', p - i) + digits
    ensures body == Body(magnitude, negative, base, precision, flags) && |body| == p
  {
    BodyZeros(precision, digits, p);
  }

  /** str_num after the flags are settled: as the word they are in and one by one. */
  method Print(magnitude: nat, negative: bool, base: nat, width: int, precision: int, word: nat, flags: Flags,
               lower: nat, pad: char)
    returns (str: string)
    requires flags == FlagsOf(word) && magnitude < U64 && IsBase(base) && lower == if flags.lower then 32 else 0
    requires flags.left ==> !flags.zeroPad
    requires !flags.left ==> pad == if flags.zeroPad then '0' else ' '
    ensures str == Formatted(magnitude, negative, base, width, precision, flags)
  {
    var tmp := new char[128];
    var sign, m, w := TakeSign(magnitude, negative, width, flags);
    w := WidthLeft(w, base, flags);
    var i := FillDigits(tmp, m, base, precision, flags, lower);
    ghost var digits := Reverse(tmp[..i]);
    var p := if i > precision then i else precision;
    w := w - p;
    ghost var body := Repeat('0', p - i) + digits;
    BodyPrinted(magnitude, negative, base, precision, flags, m, digits, i, p, body);
    assert w + |sign| + |Prefix(base, flags)| + |body| == width;
    str := Emit(sign, base, word, flags, lower, tmp, i, p, w, pad, body);
  }

  /** Padding on the right overrides zero padding. */
  function Settled(f: Flags): Flags { f.(zeroPad := f.zeroPad && !f.left) }

  lemma SettledIs(flags: nat)
    ensures FlagsOf(if Has(flags, STR_LEFT) then AndNot(flags, STR_ZERO_PAD) else flags) == Settled(FlagsOf(flags))
  {
    ZeroPadCleared(flags);
  }

  lemma SettledBody(magnitude: nat, negative: bool, base: nat, precision: int, f: Flags, g: Flags)
    requires magnitude < U64 && IsBase(base) && g == f.(zeroPad := g.zeroPad)
    ensures Body(magnitude, negative, base, precision, g) == Body(magnitude, negative, base, precision, f)
  {
    assert Printed(magnitude, negative, g) == Printed(magnitude, negative, f);
  }

  lemma SettledPads(sign: string, prefix: string, body: string, width: int, left: bool, zero: bool)
    ensures Padded(sign, prefix, body, width, left, zero && !left) == Padded(sign, prefix, body, width, left, zero)
  {
  }

  lemma SettledPrints(magnitude: nat, negative: bool, base: nat, width: int, precision: int, f: Flags)
    requires magnitude < U64 && IsBase(base)
    ensures Formatted(magnitude, negative, base, width, precision, Settled(f))
         == Formatted(magnitude, negative, base, width, precision, f)
  {
    SettledBody(magnitude, negative, base, precision, f, Settled(f));
    SettledPads(Sign(negative, f), Prefix(base, f), Body(magnitude, negative, base, precision, f), width,
                f.left, f.zeroPad);
  }

  /** str_num, with what it writes at str as its result. */
  method StrNum(magnitude: nat, negative: bool, base: nat, width: int, precision: int, flags: nat)
    returns (str: string)
    requires magnitude < U64 && IsBase(base)
    ensures str == Formatted(magnitude, negative, base, width, precision, FlagsOf(flags))
  {
    var lower := And(flags, STR_LOWER);
    var pad := if Has(flags, STR_ZERO_PAD) then '0' else ' ';
    var settled := if Has(flags, STR_LEFT) then AndNot(flags, STR_ZERO_PAD) else flags;
    FlagBits(flags);
    SettledIs(flags);
    SettledPrints(magnitude, negative, base, width, precision, FlagsOf(flags));
    str := Print(magnitude, negative, base, width, precision, settled, FlagsOf(settled), lower, pad);
  }

  lemma BodyZeros(precision: int, digits: string, p: int)
    requires p == Max(precision, |digits|)
    ensures Repeat('0', p - |digits|) == Repeat('0', precision - |digits|)
  {
    if precision < |digits| { NothingToRepeat('0', precision - |digits|); }
  }
}

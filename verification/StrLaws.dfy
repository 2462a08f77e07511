/**
 What a reader sees in the text str_num writes (kernel/stdio.c): where sign, prefix, zeros, digits and padding
 stand, and which characters they are.
 */
module StrLaws {
  import opened Powers
  import opened Bits
  import opened StrNum

  /** The columns the sign takes. */
  function SignWidth(negative: bool, flags: Flags): nat
  {
    if flags.sign && (negative || flags.plus || flags.space) then 1 else 0
  }

  /** Those of the prefix. */
  function PrefixWidth(base: nat, flags: Flags): nat
  {
    if flags.spec && base == 16 then 2 else if flags.spec && base == 8 then 1 else 0
  }

  /** The text for a field without width. */
  function Content(magnitude: nat, negative: bool, base: nat, precision: int, flags: Flags): string
    requires magnitude < U64 && IsBase(base)
  {
    Formatted(magnitude, negative, base, 0, precision, flags)
  }

  lemma NoFill(sign: string, prefix: string, body: string, left: bool, zero: bool)
    ensures Padded(sign, prefix, body, 0, left, zero) == sign + prefix + body
  {
    var fill := 0 - |sign| - |prefix| - |body|;
    NothingToRepeat(' ', fill);
    NothingToRepeat('0', fill);
  }

  /** A digit of this base, in the case that was asked for. */
  predicate IsDigit(c: char, base: nat, lower: bool)
  {
    || ('0' <= c <= '9' && c as int - '0' as int < base)
    || (base == 16 && if lower then 'a' <= c <= 'f' else 'A' <= c <= 'F')
  }

  predicate AllDigits(s: string, base: nat, lower: bool) { forall i :: 0 <= i < |s| ==> IsDigit(s[i], base, lower) }

  /** The three parts of the content. */
  lemma Parts(magnitude: nat, negative: bool, base: nat, precision: int, flags: Flags, c: string)
    returns (sign: string, prefix: string, body: string)
    requires magnitude < U64 && IsBase(base) && c == Content(magnitude, negative, base, precision, flags)
    ensures c == sign + prefix + body
    ensures forall width :: Formatted(magnitude, negative, base, width, precision, flags)
                            == Padded(sign, prefix, body, width, flags.left, flags.zeroPad)
    ensures |sign| == SignWidth(negative, flags) && |prefix| == PrefixWidth(base, flags)
    ensures |sign| == 1 ==> sign[0] == if negative then '-' else if flags.plus then '+' else ' '
    ensures prefix == if |prefix| == 2 then (if flags.lower then "0x" else "0X") else if |prefix| == 1 then "0" else ""
    ensures AllDigits(body, base, flags.lower) && |body| >= precision && (|body| > Max(precision, 1) ==> body[0] != '0')
    ensures body == "" <==> Printed(magnitude, negative, flags) == 0 && precision == 0
    ensures Number(body, base) == Printed(magnitude, negative, flags)
  {
    sign, prefix, body :=
      Sign(negative, flags), Prefix(base, flags), Body(magnitude, negative, base, precision, flags);
    NoFill(sign, prefix, body, flags.left, flags.zeroPad);
    BodyStands(magnitude, negative, base, precision, flags, body);
    BodyIs(magnitude, negative, base, precision, flags);
  }

  // ---- padding --------------------------------------------------------------------------------------

  /** The width that the content does not fill is filled behind it, or with zeros before its digits, or in
      front of it. */
  lemma PaddingSide(magnitude: nat, negative: bool, base: nat, width: int, precision: int, flags: Flags)
    requires magnitude < U64 && IsBase(base)
    ensures var (s, c) := (Formatted(magnitude, negative, base, width, precision, flags),
                           Content(magnitude, negative, base, precision, flags));
            var (h, fill) := (SignWidth(negative, flags) + PrefixWidth(base, flags), Max(width - |c|, 0));
            && h <= |c| && |s| == |c| + fill
            && (flags.left ==> s[..|c|] == c && forall i :: |c| <= i < |s| ==> s[i] == ' ')
            && (!flags.left && flags.zeroPad ==>
                  s[..h] == c[..h] && s[h + fill..] == c[h..] && forall i :: h <= i < h + fill ==> s[i] == '0')
            && (!flags.left && !flags.zeroPad ==>
                  s[fill..] == c && forall i :: 0 <= i < fill ==> s[i] == ' ')
  {
    var sign, prefix, body :=
      Parts(magnitude, negative, base, precision, flags, Content(magnitude, negative, base, precision, flags));
    FillPlaced(sign, prefix, body, width, flags.left, flags.zeroPad);
  }

  lemma FillPlaced(sign: string, prefix: string, body: string, width: int, left: bool, zero: bool)
    ensures var (s, c) := (Padded(sign, prefix, body, width, left, zero), sign + prefix + body);
            var (h, fill) := (|sign| + |prefix|, Max(width - |c|, 0));
            && |s| == |c| + fill
            && (left ==> s[..|c|] == c && forall i :: |c| <= i < |s| ==> s[i] == ' ')
            && (!left && zero ==>
                  s[..h] == c[..h] && s[h + fill..] == c[h..] && forall i :: h <= i < h + fill ==> s[i] == '0')
            && (!left && !zero ==> s[fill..] == c && forall i :: 0 <= i < fill ==> s[i] == ' ')
  {
    var c, h := sign + prefix + body, |sign| + |prefix|;
    var fill := Max(width - |c|, 0);
    var x := if !left && zero then '0' else ' ';
    var f := Repeat(x, width - |sign| - |prefix| - |body|);
    assert |f| == fill && forall i :: 0 <= i < fill ==> f[i] in f;
    assert c[..h] == sign + prefix && c[h..] == body;
    if left {
      assert Padded(sign, prefix, body, width, left, zero) == c + f;
    } else if zero {
      var s := sign + prefix + f + body;
      assert s[..h] == sign + prefix && s[h + fill..] == body;
      assert forall i :: h <= i < h + fill ==> s[i] == f[i - h];
    } else {
      var s := f + sign + prefix + body;
      assert s == f + c;
    }
  }

  // ---- sign and prefix ------------------------------------------------------------------------------

  /** The sign: a minus for a negative number, else a plus or a space if one was asked for, else none. */
  lemma SignStands(magnitude: nat, negative: bool, base: nat, precision: int, flags: Flags, c: string)
    requires magnitude < U64 && IsBase(base) && c == Content(magnitude, negative, base, precision, flags)
    ensures SignWidth(negative, flags) == 1 ==>
              c != "" && c[0] == if negative then '-' else if flags.plus then '+' else ' '
    ensures forall i :: SignWidth(negative, flags) <= i < |c| ==> c[i] !in " +-"
  {
    var sign, prefix, body := Parts(magnitude, negative, base, precision, flags, c);
    NoSignBehind(sign, prefix, body, c, base, flags.lower);
  }

  lemma NoSignBehind(sign: string, prefix: string, body: string, c: string, base: nat, lower: bool)
    requires c == sign + prefix + body && AllDigits(body, base, lower) && prefix in {"", "0", "0x", "0X"}
    ensures forall i :: |sign| <= i < |c| ==> c[i] !in " +-"
  {
    forall i | |sign| <= i < |c| ensures c[i] !in " +-" {
      if i < |sign| + |prefix| {
        assert c[i] == prefix[i - |sign|];
      } else {
        assert c[i] == body[i - |sign| - |prefix|] && IsDigit(c[i], base, lower);
      }
    }
  }

  /** The prefix follows the sign: 0x or 0X by the case that was asked for, or 0. */
  lemma PrefixStands(magnitude: nat, negative: bool, base: nat, precision: int, flags: Flags, c: string, k: nat)
    requires magnitude < U64 && IsBase(base) && c == Content(magnitude, negative, base, precision, flags)
    requires k == SignWidth(negative, flags)
    ensures PrefixWidth(base, flags) > 0 ==> k < |c| && c[k] == '0'
    ensures PrefixWidth(base, flags) == 2 ==> k + 1 < |c| && c[k + 1] == if flags.lower then 'x' else 'X'
  {
    var sign, prefix, body := Parts(magnitude, negative, base, precision, flags, c);
  }

  // ---- digits ---------------------------------------------------------------------------------------

  lemma DigitCase(d: nat, base: nat, lower: nat)
    requires IsBase(base) && d < base && (lower == 0 || lower == 32)
    ensures IsDigit(DigitChar(d, lower), base, lower == 32) && (DigitChar(d, lower) == '0' <==> d == 0)
  {
    var c := DIGITS[d] as nat;
    assert c == if d < 10 then 48 + d else 55 + d;
    OrZero(c);
    OrLower(c);
  }

  /** All characters of the text are digits, and it has no zero in front unless it is one. */
  lemma {:induction false} TextDigits(n: nat, base: nat, lower: nat)
    requires IsBase(base) && (lower == 0 || lower == 32)
    ensures forall c :: c in Text(n, base, lower) ==> IsDigit(c, base, lower == 32)
    ensures Text(n, base, lower)[0] == '0' <==> n == 0
    ensures n == 0 ==> |Text(n, base, lower)| == 1
  {
    if n < base {
      DigitCase(n, base, lower);
    } else {
      SmallerQuotient(n, base);
      TextDigits(n / base, base, lower);
      DigitCase(n % base, base, lower);
      if n / base == 0 { Recombined(n, base); }
    }
  }

  /** Zeros up to the precision, and digits. */
  lemma ZerosAndDigits(digits: string, precision: int, base: nat, lower: bool)
    requires IsBase(base) && forall c :: c in digits ==> IsDigit(c, base, lower)
    ensures var body := Repeat('0', precision - |digits|) + digits;
            && |body| == Max(precision, |digits|) && (|body| > precision ==> body == digits)
            && AllDigits(body, base, lower)
  {
    var zeros := Repeat('0', precision - |digits|);
    var body := zeros + digits;
    forall i | 0 <= i < |body| ensures IsDigit(body[i], base, lower) {
      if i < |zeros| { assert zeros[i] in zeros; } else { assert digits[i - |zeros|] in digits; }
    }
    if |body| > precision { assert zeros == ""; }
  }

  /** What follows sign and prefix are digits in the case that was asked for, as many as the precision
      demands; without that there is no zero in front, and for 0 with precision 0 there is no digit. */
  lemma DigitsStand(magnitude: nat, negative: bool, base: nat, precision: int, flags: Flags, c: string, h: nat)
    returns (digits: string)
    requires magnitude < U64 && IsBase(base) && c == Content(magnitude, negative, base, precision, flags)
    requires h == SignWidth(negative, flags) + PrefixWidth(base, flags)
    ensures h <= |c| && digits == c[h..] && AllDigits(digits, base, flags.lower)
    ensures |digits| >= precision && (|digits| > Max(precision, 1) ==> digits[0] != '0')
    ensures digits == "" <==> Printed(magnitude, negative, flags) == 0 && precision == 0
    ensures Number(digits, base) == Printed(magnitude, negative, flags)
  {
    var sign, prefix;
    sign, prefix, digits := Parts(magnitude, negative, base, precision, flags, c);
    BodyBehind(c, sign + prefix, digits);
  }

  lemma DigitsOnly(n: nat, base: nat, precision: int, flags: Flags, digits: string)
    requires IsBase(base) && digits == DigitText(n, base, precision, flags)
    ensures forall c :: c in digits ==> IsDigit(c, base, flags.lower)
    ensures (|digits| > 1 ==> digits[0] != '0') && (digits == "" <==> n == 0 && precision == 0)
  {
    TextDigits(n, base, if flags.lower then 32 else 0);
  }

  lemma BodyStands(magnitude: nat, negative: bool, base: nat, precision: int, flags: Flags, body: string)
    requires magnitude < U64 && IsBase(base) && body == Body(magnitude, negative, base, precision, flags)
    ensures |body| >= precision && AllDigits(body, base, flags.lower)
    ensures |body| > Max(precision, 1) ==> body[0] != '0'
    ensures body == "" <==> Printed(magnitude, negative, flags) == 0 && precision == 0
  {
    var n := Printed(magnitude, negative, flags);
    var digits := DigitText(n, base, precision, flags);
    DigitsOnly(n, base, precision, flags, digits);
    ZerosAndDigits(digits, precision, base, flags.lower);
  }

  lemma BodyBehind(c: string, head: string, body: string)
    requires c == head + body
    ensures c[|head|..] == body
  {
  }

  // ---- the value ------------------------------------------------------------------------------------

  /** The value that reads back is the one the magnitude is the two's complement of. */
  lemma TwosComplement(magnitude: nat, negative: bool, flags: Flags)
    requires magnitude < U64
    ensures var v := Value(magnitude, negative, flags);
            && v % U64 == magnitude && v < U64 && v + U64 > 0
            && (if flags.sign && negative then v <= 0 else v >= 0)
  {
  }
}

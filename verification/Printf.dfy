/** The bounded formatter of lib/snprintf.c: what a format and its arguments denote, without any bound. */
module Printf {
  /** The flag bits DP_F_MINUS ... DP_F_UNSIGNED. */
  datatype Flags = Flags(minus: bool, plus: bool, space: bool, num: bool, zero: bool, up: bool, unsigned: bool)

  const NO_FLAGS := Flags(false, false, false, false, false, false, false)

  datatype Modifier = Plain | Short | Long | LongDouble

  /** One variable argument: an int (or a pointer read as a number), a string, or the null string. */
  datatype Arg = Int(value: int) | Str(text: seq<char>) | Null

  const WORDS := 0x1_0000_0000

  function Max(a: int, b: int): int {
    if a >= b then a else b
  }

  // ---------- strings ----------

  /** The characters before the first NUL. */
  function CString(s: seq<char>): seq<char> {
    if s == [] || s[0] == '\0' then [] else [s[0]] + CString(s[1..])
  }

  lemma {:induction false} CStringIs(s: seq<char>)
    ensures var v := CString(s); v <= s && '\0' !in v && (v == s || s[|v|] == '\0')
    decreases |s|
  {
    if s != [] && s[0] != '\0' { CStringIs(s[1..]); }
  }

  function Repeat(c: char, n: int): (r: seq<char>)
    ensures |r| == Max(n, 0) && forall i :: 0 <= i < |r| ==> r[i] == c
    decreases Max(n, 0)
  {
    if n <= 0 then [] else [c] + Repeat(c, n - 1)
  }

  /** At most max characters of s. */
  function Cut(s: seq<char>, max: int): seq<char> {
    if max <= 0 then [] else if max < |s| then s[..max] else s
  }

  /** The value padded with spaces to min places, on the left unless the - flag is given. */
  function Padded(value: seq<char>, flags: Flags, min: int): seq<char> {
    var pad := Repeat(' ', min - |value|);
    if flags.minus then value + pad else pad + value
  }

  /** %s: min places, of which at most max are shown; a negative max is no limit. */
  function StrText(value: seq<char>, flags: Flags, min: int, max: int): seq<char> {
    if max < 0 then Padded(value, flags, min) else Cut(Padded(value, flags, min), max)
  }

  /** A string takes min places, or its own length if that is more, but never more than a precision
      max; what is shown of the string is a prefix of it, at the left or after the spaces. */
  lemma StrTextIs(value: seq<char>, flags: Flags, min: int, max: int)
    ensures var t, full := StrText(value, flags, min, max), Max(min, |value|);
      |t| == (if 0 <= max < full then max else full) &&
      forall i :: 0 <= i < |t| ==>
        var j := if flags.minus then i else i - (full - |value|);
        t[i] == if 0 <= j < |value| then value[j] else ' '
  {
  }

  // ---------- integers ----------

  function DigitChar(d: int, caps: bool): (c: char)
    requires 0 <= d < 16
  {
    if d < 10 then '0' + d as char else if caps then 'A' + (d - 10) as char else 'a' + (d - 10) as char
  }

  /** The bases the conversions use. */
  type Base = b: nat | b == 8 || b == 10 || b == 16 witness 10

  /** u / base and u % base. */
  function Quo(u: nat, base: Base): (q: nat)
    ensures u > 0 ==> q < u
  {
    if base == 8 then u / 8 else if base == 10 then u / 10 else u / 16
  }

  function Rem(u: nat, base: Base): (r: nat)
    ensures r < base
  {
    if base == 8 then u % 8 else if base == 10 then u % 10 else u % 16
  }

  lemma Quotient(u: nat, base: Base)
    ensures Quo(u, base) * base + Rem(u, base) == u
  {
  }

  /** u written in the given base, most significant digit first. */
  function Digits(u: nat, base: Base, caps: bool): (r: seq<char>)
    ensures |r| > 0
    decreases u
  {
    if u < base then [DigitChar(u, caps)] else Digits(Quo(u, base), base, caps) + [DigitChar(Rem(u, base), caps)]
  }

  /** The magnitude that is printed, and the sign before it. */
  function Magnitude(value: int, flags: Flags): (u: nat)
    ensures u < WORDS
  {
    if !flags.unsigned && value < 0 then (-value) % WORDS else value % WORDS
  }

  predicate IsSign(s: seq<char>) {
    s == [] || (|s| == 1 && (s[0] == '-' || s[0] == '+' || s[0] == ' '))
  }

  function Sign(value: int, flags: Flags): (s: seq<char>)
    ensures IsSign(s)
  {
    if flags.unsigned then [] else if value < 0 then ['-'] else if flags.plus then ['+']
    else if flags.space then [' '] else []
  }

  /** The zeros up to the precision, and the spaces up to the minimum width. */
  function Zeros(max: int, digits: int): int {
    Max(Max(max, 0) - digits, 0)
  }

  function Spaces(min: int, max: int, digits: int, sign: int): int {
    Max(min - Max(Max(max, 0), digits) - sign, 0)
  }

  /** fmtint: spaces, sign, zeros, digits, spaces. */
  function IntText(value: int, base: Base, min: int, max: int, flags: Flags): seq<char>
  {
    var sign, digits := Sign(value, flags), Digits(Magnitude(value, flags), base, flags.up);
    var zeros := Zeros(max, |digits|);
    var spaces := Spaces(min, max, |digits|, |sign|);
    if flags.zero then sign + Repeat('0', Max(zeros, spaces)) + digits
    else if flags.minus then sign + Repeat('0', zeros) + digits + Repeat(' ', spaces)
    else Repeat(' ', spaces) + sign + Repeat('0', zeros) + digits
  }

  /** Without the 0 flag the text is as long as min, or as the sign and the larger of precision and digits. */
  lemma IntLength(value: int, base: Base, min: int, max: int, flags: Flags)
    ensures var digits, sign := |Digits(Magnitude(value, flags), base, flags.up)|, |Sign(value, flags)|;
      var want := Max(min, sign + Max(max, digits));
      |IntText(value, base, min, max, flags)| == want <==>
      !(flags.zero && max > digits && min > sign + max)
  {
  }

  /** %08.3d of 5 takes 6 places instead of 8. */
  lemma ShortOfWidth()
    ensures |IntText(5, 10, 8, 3, NO_FLAGS.(zero := true))| == 6
  {
    assert Digits(5, 10, false) == ['5'];
  }

  // ---------- reading an integer back ----------

  function DigitValue(c: char): int {
    if '0' <= c <= '9' then (c - '0') as int
    else if 'a' <= c <= 'f' then (c - 'a') as int + 10
    else if 'A' <= c <= 'F' then (c - 'A') as int + 10
    else 0
  }

  /** The number a text of digits denotes. */
  function Number(s: seq<char>, base: Base): int {
    if s == [] then 0 else Number(s[..|s| - 1], base) * base + DigitValue(s[|s| - 1])
  }

  function SkipSpaces(s: seq<char>): seq<char> {
    if s != [] && s[0] == ' ' then SkipSpaces(s[1..]) else s
  }

  function DropSpaces(s: seq<char>): seq<char> {
    if s != [] && s[|s| - 1] == ' ' then DropSpaces(s[..|s| - 1]) else s
  }

  /** An optional sign and digits, with spaces around them. */
  function ReadInt(s: seq<char>, base: Base): int {
    var t := SkipSpaces(DropSpaces(s));
    if t != [] && t[0] == '-' then -Number(t[1..], base)
    else if t != [] && t[0] == '+' then Number(t[1..], base)
    else Number(t, base)
  }

  predicate IsDigit(c: char) {
    '0' <= c <= '9' || 'a' <= c <= 'f' || 'A' <= c <= 'F'
  }

  lemma DigitCharIs(d: int, caps: bool)
    requires 0 <= d < 16
    ensures IsDigit(DigitChar(d, caps)) && DigitValue(DigitChar(d, caps)) == d
  {
  }

  lemma {:induction false} DigitsNumber(u: nat, base: Base, caps: bool)
    ensures Number(Digits(u, base, caps), base) == u
    decreases u
  {
    hide DigitChar, DigitValue;
    var s := Digits(u, base, caps);
    if u < base {
      DigitCharIs(u, caps);
      assert s[..0] == [];
    } else {
      var q, r := Quo(u, base), Rem(u, base);
      Quotient(u, base);
      hide Quo, Rem;
      DigitsNumber(q, base, caps);
      DigitCharIs(r, caps);
      assert s[..|s| - 1] == Digits(q, base, caps) && s[|s| - 1] == DigitChar(r, caps);
    }
  }

  lemma {:induction false} DigitsAreDigits(u: nat, base: Base, caps: bool)
    ensures forall i :: 0 <= i < |Digits(u, base, caps)| ==> IsDigit(Digits(u, base, caps)[i])
    decreases u
  {
    hide Quo, Rem, IsDigit;
    DigitCharIs(Rem(u, base), caps);
    if u < base { DigitCharIs(u, caps); } else { DigitsAreDigits(Quo(u, base), base, caps); }
  }

  lemma {:induction false} ZerosNumber(n: int, s: seq<char>, base: Base)
    ensures Number(Repeat('0', n) + s, base) == Number(s, base)
    decreases |s|
  {
    var t := Repeat('0', n) + s;
    if s != [] {
      var init := s[..|s| - 1];
      assert t[..|t| - 1] == Repeat('0', n) + init && t[|t| - 1] == s[|s| - 1];
      ZerosNumber(n, init, base);
    } else {
      assert t == Repeat('0', n);
      OnlyZeros(n, base);
    }
  }

  lemma {:induction false} OnlyZeros(n: int, base: Base)
    ensures Number(Repeat('0', n), base) == 0
    decreases Max(n, 0)
  {
    if n > 0 {
      var t := Repeat('0', n);
      assert t[..|t| - 1] == Repeat('0', n - 1);
      OnlyZeros(n - 1, base);
    }
  }

  lemma {:induction false} SpacesSkipped(n: int, s: seq<char>)
    requires s == [] || s[0] != ' '
    ensures SkipSpaces(Repeat(' ', n) + s) == s
    decreases Max(n, 0)
  {
    var t := Repeat(' ', n) + s;
    if n > 0 {
      assert t[1..] == Repeat(' ', n - 1) + s;
      SpacesSkipped(n - 1, s);
    } else {
      assert t == s;
    }
  }

  lemma {:induction false} SpacesDropped(n: int, s: seq<char>)
    requires s == [] || s[|s| - 1] != ' '
    ensures DropSpaces(s + Repeat(' ', n)) == s
    decreases Max(n, 0)
  {
    var t := s + Repeat(' ', n);
    if n > 0 {
      assert t[..|t| - 1] == s + Repeat(' ', n - 1);
      SpacesDropped(n - 1, s);
    } else {
      assert t == s;
    }
  }

  /** The digits never fill the buffer of 20: a 32-bit number has at most 11 octal digits. */
  lemma {:induction false} DigitsShort(u: nat, base: Base, caps: bool, k: nat)
    requires k >= 1 && u < Power8(k)
    ensures |Digits(u, base, caps)| <= k
    decreases k
  {
    assert Power8(k) == 8 * Power8(k - 1);
    if u >= base && k > 1 {
      Eighth(u, base, Power8(k - 1));
      DigitsShort(Quo(u, base), base, caps, k - 1);
    }
  }

  function Power8(k: nat): nat {
    if k == 0 then 1 else 8 * Power8(k - 1)
  }

  lemma Eighth(u: nat, base: Base, p: nat)
    requires u < 8 * p
    ensures Quo(u, base) < p
  {
  }

  /** Spaces on both sides of a text that ends in something else are trimmed, and one more on its left. */
  lemma Trimmed(a: int, b: int, sign: seq<char>, body: seq<char>)
    requires body != [] && body[0] != ' ' && body[|body| - 1] != ' '
    requires IsSign(sign)
    ensures SkipSpaces(DropSpaces(Repeat(' ', a) + (sign + body) + Repeat(' ', b))) ==
      if sign == [' '] then body else sign + body
  {
    var left := Repeat(' ', a) + (sign + body);
    assert left[|left| - 1] == body[|body| - 1];
    SpacesDropped(b, left);
    if sign == [' '] {
      SkipSign(a, body);
    } else {
      assert (sign + body)[0] == if sign == [] then body[0] else sign[0];
      SpacesSkipped(a, sign + body);
    }
  }

  /** What stands between the spaces reads as the number. */
  lemma CoreReads(sign: seq<char>, zeros: int, digits: seq<char>, base: Base, a: int, b: int)
    requires IsSign(sign) && digits != [] && forall i :: 0 <= i < |digits| ==> IsDigit(digits[i])
    ensures ReadInt(Repeat(' ', a) + (sign + (Repeat('0', zeros) + digits)) + Repeat(' ', b), base) ==
      if sign == ['-'] then -Number(digits, base) else Number(digits, base)
  {
    hide Number, Repeat, SkipSpaces, DropSpaces, IsSign, IsDigit;
    var body := Repeat('0', zeros) + digits;
    ZerosNumber(zeros, digits, base);
    BodyIs(zeros, digits);
    Trimmed(a, b, sign, body);
    SignRead(sign, body, base);
  }

  lemma BodyIs(zeros: int, digits: seq<char>)
    requires digits != [] && forall i :: 0 <= i < |digits| ==> IsDigit(digits[i])
    ensures var body := Repeat('0', zeros) + digits;
      body != [] && IsDigit(body[0]) && body[0] !in {' ', '-', '+'} && body[|body| - 1] != ' '
  {
    var body := Repeat('0', zeros) + digits;
    assert body[|body| - 1] == digits[|digits| - 1] && IsDigit(digits[|digits| - 1]);
    assert zeros <= 0 ==> body[0] == digits[0];
  }

  /** The sign in front of the digits. */
  lemma SignRead(sign: seq<char>, body: seq<char>, base: Base)
    requires IsSign(sign) && body != [] && body[0] !in {' ', '-', '+'}
    ensures var t := if sign == [' '] then body else sign + body;
      (if t != [] && t[0] == '-' then -Number(t[1..], base)
       else if t != [] && t[0] == '+' then Number(t[1..], base) else Number(t, base)) ==
      if sign == ['-'] then -Number(body, base) else Number(body, base)
  {
    if sign == [] {
      assert sign + body == body;
    } else {
      assert (sign + body)[0] == sign[0] && (sign + body)[1..] == body;
    }
  }

  lemma SkipSign(a: int, body: seq<char>)
    requires body != [] && body[0] != ' '
    ensures SkipSpaces(Repeat(' ', a) + ([' '] + body)) == body
  {
    SpacesSkipped(Max(a, 0) + 1, body);
    assert Repeat(' ', Max(a, 0) + 1) + body == Repeat(' ', a) + ([' '] + body);
  }

  /** The text of an integer as spaces around a sign, zeros and the digits. */
  lemma IntTextIs(value: int, base: Base, min: int, max: int, flags: Flags) returns (a: nat, z: nat, b: nat)
    ensures IntText(value, base, min, max, flags) == Repeat(' ', a) +
      (Sign(value, flags) + (Repeat('0', z) + Digits(Magnitude(value, flags), base, flags.up))) + Repeat(' ', b)
    ensures var n, m := |Digits(Magnitude(value, flags), base, flags.up)|, |Sign(value, flags)|;
      if flags.zero then a == b == 0 && z == Max(Max(max - n, min - m - Max(max, n)), 0)
      else (if flags.minus then a == 0 else b == 0) && z == Max(max - n, 0) && a + b == Max(min - m - z - n, 0)
  {
    var sign, digits := Sign(value, flags), Digits(Magnitude(value, flags), base, flags.up);
    var zeros := Zeros(max, |digits|);
    var spaces := Spaces(min, max, |digits|, |sign|);
    hide Digits, Magnitude, Sign;
    z := if flags.zero then Max(zeros, spaces) else zeros;
    a := if flags.zero || flags.minus then 0 else spaces;
    b := if flags.minus && !flags.zero then spaces else 0;
    assert Repeat(' ', 0) == [];
    var as_, zs, bs := Repeat(' ', a), Repeat('0', z), Repeat(' ', b);
    hide Repeat;
    if flags.zero || flags.minus {
      Regroup([], sign, zs, digits, bs);
    } else {
      Regroup(as_, sign, zs, digits, []);
    }
  }

  lemma Regroup(a: seq<char>, s: seq<char>, z: seq<char>, d: seq<char>, b: seq<char>)
    ensures a + (s + (z + d)) + b == a + s + z + d + b
    ensures a == [] ==> a + (s + (z + d)) + b == s + z + d + b
    ensures b == [] ==> a + (s + (z + d)) + b == a + s + z + d
    ensures a == [] && b == [] ==> a + (s + (z + d)) + b == s + z + d
  {
  }

  /** Reading the text of an integer gives the integer back: as a signed number, or as an unsigned one. */
  lemma IntRoundTrip(value: int, base: Base, min: int, max: int, flags: Flags)
    requires -0x8000_0000 <= value < WORDS && (!flags.unsigned ==> value < 0x8000_0000)
    ensures ReadInt(IntText(value, base, min, max, flags), base) == if flags.unsigned then value % WORDS else value
  {
    var u := Magnitude(value, flags);
    var digits := Digits(u, base, flags.up);
    DigitsNumber(u, base, flags.up);
    DigitsAreDigits(u, base, flags.up);
    var a, z, b := IntTextIs(value, base, min, max, flags);
    hide Digits, IntText, ReadInt, Number;
    CoreReads(Sign(value, flags), z, digits, base, a, b);
  }

  // ---------- which characters, and where ----------

  /** The two tables fmtint takes its digits from. */
  function Table(caps: bool): (t: seq<char>)
    ensures |t| == 16
  {
    if caps then "0123456789ABCDEF" else "0123456789abcdef"
  }

  /** r is the numeral of u: characters of the table that are digits of the base, no zero in front unless it
      is the only digit, and u as their number. */
  predicate IsNumeral(r: seq<char>, u: nat, base: Base, caps: bool) {
    && r != [] && Number(r, base) == u && (|r| > 1 ==> r[0] != '0')
    && forall i :: 0 <= i < |r| ==> 0 <= DigitValue(r[i]) < base && r[i] == Table(caps)[DigitValue(r[i])]
  }

  lemma TableIs(d: int, caps: bool)
    requires 0 <= d < 16
    ensures DigitChar(d, caps) == Table(caps)[d] && DigitValue(DigitChar(d, caps)) == d
    ensures DigitChar(d, caps) == '0' <==> d == 0
  {
  }

  lemma {:induction false} DigitsAreNumeral(u: nat, base: Base, caps: bool)
    ensures IsNumeral(Digits(u, base, caps), u, base, caps)
    ensures u > 0 ==> Digits(u, base, caps)[0] != '0'
    decreases u
  {
    hide Number, DigitChar, DigitValue, Table;
    DigitsNumber(u, base, caps);
    TableIs(Rem(u, base), caps);
    if u < base {
      TableIs(u, caps);
    } else {
      var q := Quo(u, base);
      Quotient(u, base);
      assert q > 0;
      hide Quo, Rem;
      DigitsAreNumeral(q, base, caps);
    }
  }

  /** Every numeral of u is the one fmtint emits. */
  lemma {:induction false} NumeralIsUnique(r: seq<char>, u: nat, base: Base, caps: bool)
    requires IsNumeral(r, u, base, caps)
    ensures r == Digits(u, base, caps)
    decreases |r|
  {
    var init := r[..|r| - 1];
    var d := LastDigitIs(r, u, base, caps);
    if |r| > 1 { InitIsNumeral(r, u, base, caps); }
    hide IsNumeral, DigitChar, Number, Quo, Rem;
    if |r| > 1 { NumeralIsUnique(init, Number(init, base), base, caps); }
  }

  /** A numeral is that of the quotient, if it has one, and the digit of the remainder. */
  lemma LastDigitIs(r: seq<char>, u: nat, base: Base, caps: bool) returns (d: nat)
    requires IsNumeral(r, u, base, caps)
    ensures d == Rem(u, base) < base && r == r[..|r| - 1] + [DigitChar(d, caps)]
    ensures if |r| == 1 then u == d else u >= base && Quo(u, base) == Number(r[..|r| - 1], base)
  {
    d := DigitValue(r[|r| - 1]);
    TableIs(d, caps);
    if |r| > 1 { InitIsNumeral(r, u, base, caps); } else { assert r[..0] == []; }
    assert u == Number(r[..|r| - 1], base) * base + d;
    var q := Number(r[..|r| - 1], base);
    hide Number, DigitValue, DigitChar, IsNumeral;
    QuotientIs(q, d, u, base);
  }

  lemma InitIsNumeral(r: seq<char>, u: nat, base: Base, caps: bool)
    requires IsNumeral(r, u, base, caps) && |r| > 1
    ensures var init := r[..|r| - 1]; Number(init, base) > 0 && IsNumeral(init, Number(init, base), base, caps)
  {
    var init := r[..|r| - 1];
    assert forall i :: 0 <= i < |init| ==> init[i] == r[i];
    assert IsDigit(r[0]);
    NumberPositive(init, base);
  }

  lemma QuotientIs(q: nat, d: int, u: nat, base: Base)
    requires u == q * base + d && 0 <= d < base
    ensures Quo(u, base) == q && Rem(u, base) == d
    ensures q > 0 ==> u >= base
  {
  }

  lemma {:induction false} NumberPositive(r: seq<char>, base: Base)
    requires r != [] && r[0] != '0' && forall i :: 0 <= i < |r| ==> 0 <= DigitValue(r[i])
    requires IsDigit(r[0])
    ensures Number(r, base) > 0
    decreases |r|
  {
    if |r| > 1 { NumberPositive(r[..|r| - 1], base); }
  }

  /** The sign of a signed conversion: '-' before a negative value; before another one '+' if the + flag is
      given, otherwise a space if the space flag is. */
  predicate IsSignOf(sign: seq<char>, value: int, flags: Flags) {
    && |sign| <= 1 && (forall c :: c in sign ==> c in {'-', '+', ' '})
    && ('-' in sign <==> !flags.unsigned && value < 0)
    && ('+' in sign <==> !flags.unsigned && value >= 0 && flags.plus)
    && (' ' in sign <==> !flags.unsigned && value >= 0 && flags.space && !flags.plus)
  }

  /** Where everything stands: spaces, the sign, zeros, the numeral of the magnitude, spaces. Without the 0
      flag the zeros fill up the precision and the spaces the width, on the right with the - flag and on the
      left without it. With the 0 flag there are no spaces, and the zeros fill up the larger of the precision and
      what the width leaves beyond sign and precision. */
  lemma IntLayout(value: int, base: Base, min: int, max: int, flags: Flags)
      returns (a: nat, sign: seq<char>, z: nat, digits: seq<char>, b: nat)
    ensures IntText(value, base, min, max, flags) ==
      Repeat(' ', a) + (sign + (Repeat('0', z) + digits)) + Repeat(' ', b)
    ensures IsNumeral(digits, Magnitude(value, flags), base, flags.up) && IsSignOf(sign, value, flags)
    ensures flags.zero ==> a == 0 && b == 0
    ensures flags.zero ==> z == Max(Max(max - |digits|, min - |sign| - Max(max, |digits|)), 0)
    ensures !flags.zero ==> (if flags.minus then a == 0 else b == 0)
    ensures !flags.zero ==> z == Max(max - |digits|, 0) && a + b == Max(min - |sign| - z - |digits|, 0)
  {
    hide Digits, IntText, Repeat, Magnitude, IsNumeral;
    digits := Digits(Magnitude(value, flags), base, flags.up);
    sign := Sign(value, flags);
    DigitsAreNumeral(Magnitude(value, flags), base, flags.up);
    SignIs(value, flags);
    hide Sign, IsSignOf;
    a, z, b := IntTextIs(value, base, min, max, flags);
  }

  lemma SignIs(value: int, flags: Flags)
    ensures IsSignOf(Sign(value, flags), value, flags)
  {
  }

  /** Small letters without the upper-case flag and capitals with it, and one sign at most. */
  lemma IntCharacters(value: int, base: Base, min: int, max: int, flags: Flags)
    ensures var t := IntText(value, base, min, max, flags);
      && (forall i :: 0 <= i < |t| ==> t[i] in Table(flags.up)[..base] || t[i] in {' ', '-', '+'})
      && (!flags.up ==> forall c :: 'A' <= c <= 'F' ==> c !in t)
      && (flags.up ==> forall c :: 'a' <= c <= 'f' ==> c !in t)
      && ('+' in t <==> !flags.unsigned && value >= 0 && flags.plus)
      && ('-' in t <==> !flags.unsigned && value < 0)
  {
    var a, sign, z, digits, b := IntLayout(value, base, min, max, flags);
    var t := IntText(value, base, min, max, flags);
    hide IntText, Digits, Number;
    forall i | 0 <= i < |digits|
      ensures digits[i] in Table(flags.up)[..base]
    {
      assert Table(flags.up)[..base][DigitValue(digits[i])] == digits[i];
    }
    assert Table(flags.up)[..base][0] == '0';
    hide DigitValue;
    assert forall c :: c in digits ==> c in Table(flags.up)[..base];
    forall c
      ensures c in t <==> ((a > 0 || b > 0) && c == ' ') || c in sign || (z > 0 && c == '0') || c in digits
    {
      InRepeat(' ', a, c); InRepeat('0', z, c); InRepeat(' ', b, c);
    }
    TableLetters(flags.up, base);
  }

  lemma InRepeat(d: char, n: nat, c: char)
    ensures c in Repeat(d, n) <==> n > 0 && c == d
  {
    if n > 0 { assert Repeat(d, n)[0] == d; }
  }

  lemma TableLetters(caps: bool, base: Base)
    ensures forall c :: c in Table(caps)[..base] ==>
      c !in {' ', '-', '+'} && !(if caps then 'a' <= c <= 'f' else 'A' <= c <= 'F')
  {
  }

  // ---------- formats ----------

  /** The character at i; a C string ends in NUL. */
  function At(f: seq<char>, i: nat): char {
    if i < |f| then f[i] else '\0'
  }

  /** The value of a 32-bit word held in a long. */
  function Signed(w: int): (r: int)
    ensures -0x8000_0000 <= r < 0x8000_0000
  {
    (w + 0x8000_0000) % WORDS - 0x8000_0000
  }

  lemma SignedIs(w: int)
    requires 0 <= w < WORDS
    ensures Signed(w) == (if w < 0x8000_0000 then w else w - WORDS) && Signed(w) % WORDS == w
  {
  }

  /** va_arg into a long: an argument of another kind, or one that is missing, reads as 0 or as the empty
      string. */
  function IntArg(args: seq<Arg>, a: nat): int {
    if a < |args| && args[a].Int? then Signed(args[a].value) else 0
  }

  function StrArg(args: seq<Arg>, a: nat): Arg {
    if a < |args| && !args[a].Int? then args[a] else Str([])
  }

  function StrValue(arg: Arg): seq<char>
    requires !arg.Int?
  {
    CString(if arg.Null? then "<NULL>" else arg.text)
  }

  /** An integer argument is read modulo 2^32 as a signed long, a string up to its first NUL, and the null
      string as the text <NULL>. */
  lemma {:induction false} ArgumentRead(args: seq<Arg>, a: nat)
    requires a < |args|
    ensures args[a].Int? ==>
      -0x8000_0000 <= IntArg(args, a) < 0x8000_0000 && (args[a].value - IntArg(args, a)) % WORDS == 0
    ensures args[a].Null? ==> StrValue(StrArg(args, a)) == "<NULL>"
    ensures args[a].Str? ==> var v := StrValue(StrArg(args, a));
      v <= args[a].text && '\0' !in v && (v == args[a].text || args[a].text[|v|] == '\0')
  {
    match args[a]
    case Int(w) =>
      assert w - IntArg(args, a) == (w + 0x8000_0000) / WORDS * WORDS;
    case Str(text) => CStringIs(text);
    case Null => CStringIs("<NULL>");
  }

  /** A conversion specification up to its conversion character, which is at next; a is the next argument. */
  datatype Directive = Directive(flags: Flags, min: int, max: int, md: Modifier, next: nat, a: nat)

  function Flagged(c: char, fl: Flags): Flags {
    match c
    case '-' => fl.(minus := true)
    case '+' => fl.(plus := true)
    case ' ' => fl.(space := true)
    case '#' => fl.(num := true)
    case '0' => fl.(zero := true)
    case _ => fl
  }

  predicate IsFlag(c: char) {
    c in {'-', '+', ' ', '#', '0'}
  }

  predicate IsDecimal(c: char) {
    '0' <= c <= '9'
  }

  /** The flags, then the minimum width, the precision and the modifier, from position i on. */
  function FromFlags(f: seq<char>, i: nat, fl: Flags, args: seq<Arg>, a: nat): (d: Directive)
    ensures d.next >= i
    decreases |f| - i
  {
    if IsFlag(At(f, i)) then FromFlags(f, i + 1, Flagged(f[i], fl), args, a) else FromMin(f, i, fl, 0, args, a)
  }

  function FromMin(f: seq<char>, i: nat, fl: Flags, min: int, args: seq<Arg>, a: nat): (d: Directive)
    ensures d.next >= i
    decreases |f| - i
  {
    if IsDecimal(At(f, i)) then FromMin(f, i + 1, fl, 10 * min + (f[i] - '0') as int, args, a)
    else if At(f, i) == '*' then FromDot(f, i + 1, fl, IntArg(args, a), args, a + 1)
    else FromDot(f, i, fl, min, args, a)
  }

  function FromDot(f: seq<char>, i: nat, fl: Flags, min: int, args: seq<Arg>, a: nat): (d: Directive)
    ensures d.next >= i
  {
    if At(f, i) == '.' then FromMax(f, i + 1, fl, min, -1, args, a) else FromMod(f, i, fl, min, -1, a)
  }

  function FromMax(f: seq<char>, i: nat, fl: Flags, min: int, max: int, args: seq<Arg>, a: nat): (d: Directive)
    ensures d.next >= i
    decreases |f| - i
  {
    if IsDecimal(At(f, i)) then FromMax(f, i + 1, fl, min, 10 * Max(max, 0) + (f[i] - '0') as int, args, a)
    else if At(f, i) == '*' then FromMod(f, i + 1, fl, min, IntArg(args, a), a + 1)
    else FromMod(f, i, fl, min, max, a)
  }

  function ModifierOf(c: char): Modifier {
    if c == 'h' then Short else if c == 'l' then Long else if c == 'L' then LongDouble else Plain
  }

  function FromMod(f: seq<char>, i: nat, fl: Flags, min: int, max: int, a: nat): (d: Directive)
    ensures d.next >= i
  {
    var md := ModifierOf(At(f, i));
    Directive(fl, min, max, md, if md == Plain then i else i + 1, a)
  }

  /** Whether the conversion takes an argument, and the text it stands for. */
  predicate TakesArg(c: char) {
    c in {'d', 'i', 'o', 'u', 'x', 'X', 'c', 's', 'p'}
  }

  /** Floating point, %n and %w are not part of this model. */
  predicate Modelled(c: char) {
    c !in {'f', 'e', 'E', 'g', 'G', 'n', 'w'}
  }

  function Converted(c: char, d: Directive, args: seq<Arg>): seq<char> {
    var unsigned := d.flags.(unsigned := true);
    match c
    case 'd' => IntText(IntArg(args, d.a), 10, d.min, d.max, d.flags)
    case 'i' => IntText(IntArg(args, d.a), 10, d.min, d.max, d.flags)
    case 'o' => IntText(IntArg(args, d.a), 8, d.min, d.max, unsigned)
    case 'u' => IntText(IntArg(args, d.a), 10, d.min, d.max, unsigned)
    case 'x' => IntText(IntArg(args, d.a), 16, d.min, d.max, unsigned)
    case 'X' => IntText(IntArg(args, d.a), 16, d.min, d.max, unsigned.(up := true))
    case 'c' => [(IntArg(args, d.a) % 256) as char]
    case 's' => StrText(StrValue(StrArg(args, d.a)), d.flags, d.min, d.max)
    case 'p' => IntText(IntArg(args, d.a), 16, d.min, d.max, d.flags)
    case '%' => ['%']
    case _ => []
  }

  /** The base of an integer conversion, and whether it reads its argument as signed. */
  function BaseOf(c: char): Base {
    if c == 'o' then 8 else if c in {'x', 'X', 'p'} then 16 else 10
  }

  predicate IsSigned(c: char) {
    c in {'d', 'i', 'p'}
  }

  /** The unsigned conversions show a word as it is. %d, %i and %p show it as a long: they show the word
      itself exactly if it is below 2^31, and otherwise the negative number 2^32 below it. */
  lemma WordReadsBack(c: char, d: Directive, args: seq<Arg>, w: nat)
    requires c in {'d', 'i', 'o', 'u', 'x', 'X', 'p'} && !d.flags.unsigned
    requires d.a < |args| && args[d.a] == Int(w) && w < WORDS
    ensures ReadInt(Converted(c, d, args), BaseOf(c)) ==
      if IsSigned(c) && w >= 0x8000_0000 then w - WORDS else w
  {
    var flags := if IsSigned(c) then d.flags else d.flags.(unsigned := true);
    SignedIs(w);
    hide Signed, ReadInt, IntText;
    IntRoundTrip(IntArg(args, d.a), BaseOf(c), d.min, d.max, flags);
    if c == 'X' { IntRoundTrip(IntArg(args, d.a), BaseOf(c), d.min, d.max, flags.(up := true)); }
  }

  lemma HighDigits()
    ensures Digits(0x4000_0000, 16, false) == "40000000"
  {
    assert Digits(0x400, 16, false) == "400";
    assert Digits(0x40_0000, 16, false) == "400000";
  }

  lemma NegativeText(u: int)
    requires 0 < u <= 0x8000_0000
    ensures IntText(-u, 16, 0, -1, NO_FLAGS) == ['-'] + Digits(u, 16, false)
  {
    hide Digits;
    assert Magnitude(-u, NO_FLAGS) == u;
    hide Magnitude;
    assert Repeat(' ', 0) == [] && Repeat('0', 0) == [];
  }

  /** A kernel address printed with %p reads as a negative number. */
  lemma HighPointer(d: Directive)
    requires d == Directive(NO_FLAGS, 0, -1, Plain, 1, 0)
    ensures Converted('p', d, [Int(0xC000_0000)]) == "-40000000"
  {
    hide Digits, Signed, IntText, Magnitude, Repeat;
    SignedIs(0xC000_0000);
    NegativeText(0x4000_0000);
    HighDigits();
  }

  /** What the rest of the format denotes: ordinary characters, and conversions of the arguments. */
  function Text(f: seq<char>, i: nat, args: seq<Arg>, a: nat): seq<char>
    decreases |f| - i
  {
    if At(f, i) == '\0' then []
    else if f[i] != '%' then [f[i]] + Text(f, i + 1, args, a)
    else Ending(f, FromFlags(f, i + 1, NO_FLAGS, args, a), args)
  }

  function Ending(f: seq<char>, d: Directive, args: seq<Arg>): seq<char>
    decreases |f| - d.next
  {
    var c := At(f, d.next);
    if c == '\0' then []
    else Converted(c, d, args) + Text(f, d.next + 1, args, if TakesArg(c) then d.a + 1 else d.a)
  }

  /** A format without a percent sign stands for itself. */
  lemma {:induction false} PlainText(f: seq<char>, i: nat, args: seq<Arg>, a: nat)
    requires i <= |f| && forall j :: 0 <= j < |f| ==> f[j] != '%' && f[j] != '\0'
    ensures Text(f, i, args, a) == f[i..]
    decreases |f| - i
  {
    if i < |f| {
      PlainText(f, i + 1, args, a);
      assert f[i..] == [f[i]] + f[i + 1..];
    }
  }

  /** Every conversion of the format is one this model covers. */
  predicate Covered(f: seq<char>, i: nat, args: seq<Arg>, a: nat)
    decreases |f| - i
  {
    if At(f, i) == '\0' then true
    else if f[i] != '%' then Covered(f, i + 1, args, a)
    else CoveredEnding(f, FromFlags(f, i + 1, NO_FLAGS, args, a), args)
  }

  predicate CoveredEnding(f: seq<char>, d: Directive, args: seq<Arg>)
    decreases |f| - d.next
  {
    var c := At(f, d.next);
    c == '\0' || (Modelled(c) && Covered(f, d.next + 1, args, if TakesArg(c) then d.a + 1 else d.a))
  }
}

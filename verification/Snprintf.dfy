/** lib/snprintf.c on its own data: a buffer filled in place. The format is read by the eight-state loop
    of dopr, and everything emitted goes through dopr_outch. */
module Snprintf {
  import opened Printf

  const DP_S_DEFAULT := 0
  const DP_S_FLAGS := 1
  const DP_S_MIN := 2
  const DP_S_DOT := 3
  const DP_S_MAX := 4
  const DP_S_MOD := 5
  const DP_S_CONV := 6
  const DP_S_DONE := 7

  /** Of the text out the buffer shows what fits into maxlen characters; beyond that it is untouched. */
  ghost predicate Shows(buffer: array<char>, len: nat, maxlen: nat, out: seq<char>, tail: seq<char>)
    reads buffer
  {
    maxlen <= buffer.Length && len == (if |out| < maxlen then |out| else maxlen) &&
    buffer[..len] == out[..len] && buffer[maxlen..] == tail
  }

  method DoprOutch(buffer: array<char>, currlen: nat, maxlen: nat, c: char, ghost out: seq<char>, ghost tail: seq<char>)
    returns (len: nat)
    requires Shows(buffer, currlen, maxlen, out, tail)
    modifies buffer
    ensures Shows(buffer, len, maxlen, out + [c], tail)
  {
    len := currlen;
    if currlen < maxlen {
      buffer[len] := c;
      len := len + 1;
      assert buffer[..len] == out + [c];
    } else {
      assert (out + [c])[..len] == out[..len];
    }
  }

  /** The loops that emit n times the same character. */
  method Pad(buffer: array<char>, currlen: nat, maxlen: nat, c: char, n: int,
             ghost out: seq<char>, ghost tail: seq<char>)
    returns (len: nat)
    requires Shows(buffer, currlen, maxlen, out, tail)
    modifies buffer
    ensures Shows(buffer, len, maxlen, out + Repeat(c, n), tail)
  {
    hide Shows;
    len := currlen;
    var left := n;
    ghost var done := out;
    while left > 0
      invariant Shows(buffer, len, maxlen, done, tail) && out + Repeat(c, n) == done + Repeat(c, left)
    {
      len := DoprOutch(buffer, len, maxlen, c, done, tail);
      assert done + Repeat(c, left) == done + [c] + Repeat(c, left - 1);
      done := done + [c];
      left := left - 1;
    }
    assert done + Repeat(c, left) == done;
  }

  // ---------- fmtstr ----------

  lemma {:induction false} CStringAt(s: seq<char>, i: nat)
    requires i <= |CString(s)|
    ensures At(s, i) == '\0' <==> i == |CString(s)|
    ensures i < |CString(s)| ==> i < |s| && s[i] == CString(s)[i]
  {
    if i > 0 { CStringAt(s[1..], i - 1); }
  }

  method StrLen(value: seq<char>) returns (n: nat)
    ensures n == |CString(value)|
  {
    n := 0;
    CStringAt(value, 0);
    while At(value, n) != '\0'
      invariant n <= |CString(value)| && (At(value, n) == '\0' <==> n == |CString(value)|)
      decreases |CString(value)| - n
    {
      n := n + 1;
      CStringAt(value, n);
    }
  }

  /** What is left of t after cnt characters: padlen spaces, the text from j on, or -padlen spaces. */
  ghost predicate StrParts(t: seq<char>, v: seq<char>, cnt: int, padlen: int, j: nat) {
    0 <= cnt <= |t| && j <= |v| && (padlen > 0 ==> j == 0) &&
    t[cnt..] == Repeat(' ', padlen) + v[j..] + Repeat(' ', -padlen)
  }

  lemma StrStep(t: seq<char>, v: seq<char>, cnt: int, padlen: int, j: nat)
    requires StrParts(t, v, cnt, padlen, j)
    ensures padlen > 0 ==> cnt < |t| && t[cnt] == ' ' && StrParts(t, v, cnt + 1, padlen - 1, j)
    ensures padlen <= 0 && j < |v| ==> cnt < |t| && t[cnt] == v[j] && StrParts(t, v, cnt + 1, padlen, j + 1)
    ensures padlen < 0 && j == |v| ==> cnt < |t| && t[cnt] == ' ' && StrParts(t, v, cnt + 1, padlen + 1, j)
    ensures padlen == 0 && j == |v| ==> cnt == |t|
  {
    var rest := Repeat(' ', padlen) + v[j..] + Repeat(' ', -padlen);
    if cnt < |t| { assert t[cnt] == t[cnt..][0] && t[cnt + 1..] == t[cnt..][1..]; }
    if padlen > 0 {
      assert rest[1..] == Repeat(' ', padlen - 1) + v[j..] + [];
    } else if j < |v| {
      assert rest[1..] == [] + v[j + 1..] + Repeat(' ', -padlen);
    } else if padlen < 0 {
      assert rest[1..] == [] + v[j..] + Repeat(' ', -padlen - 1);
    }
  }

  method FmtStr(buffer: array<char>, currlen: nat, maxlen: nat, arg: Arg, flags: Flags, min: int, max: int,
                ghost out: seq<char>, ghost tail: seq<char>)
    returns (len: nat)
    requires Shows(buffer, currlen, maxlen, out, tail) && !arg.Int?
    modifies buffer
    ensures Shows(buffer, len, maxlen, out + Cut(Padded(StrValue(arg), flags, min), max), tail)
  {
    var value := if arg.Null? then "<NULL>" else arg.text;
    ghost var v := CString(value);
    assert v == StrValue(arg);
    ghost var t := Padded(v, flags, min);
    var padlen := PadLen(value, flags, min);
    PartsAtStart(v, flags, min, padlen);
    assert out + t[..0] == out;
    assert Emitting(buffer, currlen, maxlen, out, tail, t, v, 0, padlen, 0, max);
    len := EmitParts(buffer, currlen, maxlen, value, padlen, max, out, tail, t);
  }

  /** The number of spaces, negative when they go to the right. */
  method PadLen(value: seq<char>, flags: Flags, min: int) returns (padlen: int)
    ensures var n := Max(min - |CString(value)|, 0); padlen == if flags.minus then -n else n
  {
    var strln := StrLen(value);
    padlen := min - strln;
    if padlen < 0 {
      padlen := 0;
    }
    if flags.minus {
      padlen := -padlen;
    }
  }

  /** The three loops of fmtstr, under one count. */
  method EmitParts(buffer: array<char>, currlen: nat, maxlen: nat, value: seq<char>, pad: int, max: int,
                   ghost out: seq<char>, ghost tail: seq<char>, ghost t: seq<char>)
    returns (len: nat)
    requires Emitting(buffer, currlen, maxlen, out, tail, t, CString(value), 0, pad, 0, max)
    modifies buffer
    ensures Shows(buffer, len, maxlen, out + Cut(t, max), tail)
  {
    hide *;
    ghost var v := CString(value);
    len := currlen;
    var padlen, cnt := pad, 0;
    var j: nat := 0;
    while padlen > 0 && cnt < max
      invariant Emitting(buffer, len, maxlen, out, tail, t, v, cnt, padlen, j, max)
      decreases padlen
    {
      len := EmitStr(buffer, len, maxlen, ' ', out, tail, t, v, cnt, padlen, j, max);
      padlen := padlen - 1;
      cnt := cnt + 1;
    }
    CStringAt(value, j);
    while At(value, j) != '\0' && cnt < max
      invariant Emitting(buffer, len, maxlen, out, tail, t, v, cnt, padlen, j, max)
      invariant j <= |v| && (At(value, j) == '\0' <==> j == |v|) && (padlen > 0 ==> cnt >= max)
      decreases |v| - j
    {
      CStringAt(value, j);
      len := EmitStr(buffer, len, maxlen, value[j], out, tail, t, v, cnt, padlen, j, max);
      j := j + 1;
      CStringAt(value, j);
      cnt := cnt + 1;
    }
    while padlen < 0 && cnt < max
      invariant Emitting(buffer, len, maxlen, out, tail, t, v, cnt, padlen, j, max)
      invariant cnt < max ==> padlen <= 0 && j == |v|
      decreases -padlen
    {
      len := EmitStr(buffer, len, maxlen, ' ', out, tail, t, v, cnt, padlen, j, max);
      padlen := padlen + 1;
      cnt := cnt + 1;
    }
    AllEmitted(buffer, len, maxlen, out, tail, t, v, cnt, padlen, j, max);
  }

  lemma AllEmitted(buffer: array<char>, len: nat, maxlen: nat, out: seq<char>, tail: seq<char>,
                   t: seq<char>, v: seq<char>, cnt: int, padlen: int, j: nat, max: int)
    requires Emitting(buffer, len, maxlen, out, tail, t, v, cnt, padlen, j, max)
    requires cnt < max ==> padlen == 0 && j == |v|
    ensures Shows(buffer, len, maxlen, out + Cut(t, max), tail)
  {
    StrStep(t, v, cnt, padlen, j);
    assert t[..cnt] == Cut(t, max);
  }

  /** cnt characters of t are out, and StrParts says what is left. */
  ghost predicate Emitting(buffer: array<char>, len: nat, maxlen: nat, out: seq<char>, tail: seq<char>,
                           t: seq<char>, v: seq<char>, cnt: int, padlen: int, j: nat, max: int)
    reads buffer
  {
    StrParts(t, v, cnt, padlen, j) && (cnt > 0 ==> cnt <= max) && Shows(buffer, len, maxlen, out + t[..cnt], tail)
  }

  method EmitStr(buffer: array<char>, currlen: nat, maxlen: nat, c: char, ghost out: seq<char>, ghost tail: seq<char>,
                 ghost t: seq<char>, ghost v: seq<char>, ghost cnt: int, ghost padlen: int, ghost j: nat,
                 ghost max: int)
    returns (len: nat)
    requires Emitting(buffer, currlen, maxlen, out, tail, t, v, cnt, padlen, j, max) && cnt < max
    requires c == if padlen <= 0 && j < |v| then v[j] else ' '
    requires padlen != 0 || j < |v|
    modifies buffer
    ensures padlen > 0 ==> Emitting(buffer, len, maxlen, out, tail, t, v, cnt + 1, padlen - 1, j, max)
    ensures padlen <= 0 && j < |v| ==> Emitting(buffer, len, maxlen, out, tail, t, v, cnt + 1, padlen, j + 1, max)
    ensures padlen < 0 && j == |v| ==> Emitting(buffer, len, maxlen, out, tail, t, v, cnt + 1, padlen + 1, j, max)
  {
    StrStep(t, v, cnt, padlen, j);
    hide Shows, StrParts;
    len := DoprOutch(buffer, currlen, maxlen, c, out + t[..cnt], tail);
    assert out + t[..cnt] + [c] == out + t[..cnt + 1];
  }

  lemma PartsAtStart(v: seq<char>, flags: Flags, min: int, padlen: int)
    requires padlen == (if flags.minus then -Max(min - |v|, 0) else Max(min - |v|, 0))
    ensures StrParts(Padded(v, flags, min), v, 0, padlen, 0)
  {
    var t := Padded(v, flags, min);
    assert t[0..] == t && v[0..] == v;
    assert Repeat(' ', min - |v|) == Repeat(' ', Max(min - |v|, 0));
  }

  // ---------- fmtint ----------

  /** convert[..place] holds the digits d, last digit first. */
  ghost predicate Backwards(convert: array<char>, place: nat, d: seq<char>)
    reads convert
  {
    place == |d| && place <= convert.Length && forall k :: 0 <= k < place ==> convert[k] == d[place - 1 - k]
  }

  lemma LastDigit(u: nat, base: Base, caps: bool)
    ensures var c, q := DigitChar(Rem(u, base), caps), Quo(u, base);
      Digits(u, base, caps) == if q == 0 then [c] else Digits(q, base, caps) + [c]
  {
  }

  /** 32-bit numbers have at most 11 digits in any of the bases. */
  lemma AtMostEleven(u: nat, base: Base, caps: bool)
    requires u < WORDS
    ensures |Digits(u, base, caps)| <= 11
  {
    assert Power8(4) == 4096;
    assert Power8(8) == 4096 * Power8(4) by {
      assert Power8(8) == 8 * Power8(7) == 64 * Power8(6) == 512 * Power8(5) == 4096 * Power8(4);
    }
    assert Power8(11) == 8 * Power8(10) == 64 * Power8(9) == 512 * Power8(8);
    DigitsShort(u, base, caps, 11);
  }

  /** The do loop of fmtint: it stops on its own, well before the 20 places of convert are used up. */
  method Convert(uvalue: nat, base: Base, caps: bool) returns (convert: array<char>, place: int)
    requires uvalue < WORDS
    ensures fresh(convert) && 0 < place < 20 && Backwards(convert, place, Digits(uvalue, base, caps))
  {
    convert := new char[20];
    place := 0;
    var u := uvalue;
    ghost var d, low := Digits(uvalue, base, caps), [];
    AtMostEleven(uvalue, base, caps);
    assert Digits(u, base, caps) + low == d;
    hide Digits, DigitChar, Rem, Quo;
    while true
      invariant |d| <= 11 && d == Digits(u, base, caps) + low
      invariant 0 <= place && Backwards(convert, place, low) && convert.Length == 20 && fresh(convert)
      decreases u
    {
      LastDigit(u, base, caps);
      var c := DigitChar(Rem(u, base), caps);
      assert place < 11;
      convert[place] := c;
      place := place + 1;
      ghost var longer := [c] + low;
      assert Backwards(convert, place, longer);
      assert Digits(u, base, caps) + low ==
        if Quo(u, base) == 0 then longer else Digits(Quo(u, base), base, caps) + longer;
      low := longer;
      u := Quo(u, base);
      if !(u != 0 && place < 20) { break; }
    }
    if place == 20 {
      place := place - 1;
    }
    convert[place] := '\0';
  }

  method FmtInt(buffer: array<char>, currlen: nat, maxlen: nat, value: int, base: Base, min: int, max: int,
                flags: Flags, ghost out: seq<char>, ghost tail: seq<char>)
    returns (len: nat)
    requires Shows(buffer, currlen, maxlen, out, tail)
    modifies buffer
    ensures Shows(buffer, len, maxlen, out + IntText(value, base, min, max, flags), tail)
  {
    var signvalue, uvalue := SignAndValue(value, flags);
    var convert, place := Convert(uvalue, base, flags.up);
    var spadlen, zpadlen := IntPads(place, signvalue != [], min, max, flags);
    IntTextParts(value, base, min, max, flags, spadlen, zpadlen);
    assert Shows(buffer, currlen, maxlen, out, tail);
    hide Shows, IntText, Backwards, Repeat, Digits;
    ghost var digits := Digits(uvalue, base, flags.up);
    len := EmitInt(buffer, currlen, maxlen, spadlen, signvalue, zpadlen, convert, place, out, tail, digits);
  }

  /** The sign character, if any, and the unsigned value to convert. */
  method SignAndValue(value: int, flags: Flags) returns (signvalue: seq<char>, uvalue: nat)
    ensures signvalue == Sign(value, flags) && uvalue == Magnitude(value, flags)
  {
    signvalue := [];
    uvalue := value % WORDS;
    if !flags.unsigned {
      if value < 0 {
        signvalue := ['-'];
        uvalue := (-value) % WORDS;
      } else if flags.plus {
        signvalue := ['+'];
      } else if flags.space {
        signvalue := [' '];
      }
    }
  }

  /** The numbers of spaces and zeros: with the 0 flag the zeros take over the spaces' place, or the
      precision's if that is more; negative spaces go to the right. */
  method IntPads(place: int, signed: bool, min: int, precision: int, flags: Flags) returns (spadlen: int, zpadlen: int)
    ensures var zeros, spaces := Zeros(precision, place), Spaces(min, precision, place, if signed then 1 else 0);
      zpadlen == (if flags.zero then Max(zeros, spaces) else zeros) &&
      spadlen == if flags.zero then 0 else if flags.minus then -spaces else spaces
  {
    var max := precision;
    if max < 0 {
      max := 0;
    }
    zpadlen := max - place;
    spadlen := min - Max(max, place) - (if signed then 1 else 0);
    if zpadlen < 0 {
      zpadlen := 0;
    }
    if spadlen < 0 {
      spadlen := 0;
    }
    if flags.zero {
      zpadlen := Max(zpadlen, spadlen);
      spadlen := 0;
    }
    if flags.minus {
      spadlen := -spadlen;
    }
  }

  lemma IntTextParts(value: int, base: Base, min: int, max: int, flags: Flags, spadlen: int, zpadlen: int)
    requires var digits, sign := Digits(Magnitude(value, flags), base, flags.up), Sign(value, flags);
      var zeros, spaces := Zeros(max, |digits|), Spaces(min, max, |digits|, |sign|);
      zpadlen == (if flags.zero then Max(zeros, spaces) else zeros) &&
      spadlen == if flags.zero then 0 else if flags.minus then -spaces else spaces
    ensures IntText(value, base, min, max, flags) == Repeat(' ', spadlen) + Sign(value, flags) + Repeat('0', zpadlen) +
      Digits(Magnitude(value, flags), base, flags.up) + Repeat(' ', -spadlen)
  {
    hide Digits, Magnitude, Sign;
    assert spadlen <= 0 ==> Repeat(' ', spadlen) == [];
    assert spadlen >= 0 ==> Repeat(' ', -spadlen) == [];
    hide Repeat;
  }

  /** The loops of fmtint: spaces, sign, zeros, digits, spaces. */
  method EmitInt(buffer: array<char>, currlen: nat, maxlen: nat, spadlen: int, sign: seq<char>, zpadlen: int,
                 convert: array<char>, places: nat,
                 ghost out: seq<char>, ghost tail: seq<char>, ghost digits: seq<char>)
    returns (len: nat)
    requires Shows(buffer, currlen, maxlen, out, tail) && |sign| <= 1
    requires convert != buffer && Backwards(convert, places, digits)
    modifies buffer
    ensures Shows(buffer, len, maxlen,
                  out + (Repeat(' ', spadlen) + sign + Repeat('0', zpadlen) + digits + Repeat(' ', -spadlen)), tail)
  {
    hide Shows, Repeat;
    len := Pad(buffer, currlen, maxlen, ' ', spadlen, out, tail);
    ghost var o := out + Repeat(' ', spadlen);
    if sign != [] {
      len := DoprOutch(buffer, len, maxlen, sign[0], o, tail);
    }
    assert o + sign == if sign != [] then o + [sign[0]] else o;
    o := o + sign;
    len := Pad(buffer, len, maxlen, '0', zpadlen, o, tail);
    o := o + Repeat('0', zpadlen);
    len := EmitDigits(buffer, len, maxlen, convert, places, o, tail, digits);
    o := o + digits;
    len := Pad(buffer, len, maxlen, ' ', -spadlen, o, tail);
    Regrouped(out, Repeat(' ', spadlen), sign, Repeat('0', zpadlen), digits, Repeat(' ', -spadlen));
  }

  lemma Regrouped(o: seq<char>, a: seq<char>, s: seq<char>, z: seq<char>, d: seq<char>, b: seq<char>)
    ensures o + a + s + z + d + b == o + (a + s + z + d + b)
  {
  }

  /** The digits, first to last. */
  method EmitDigits(buffer: array<char>, currlen: nat, maxlen: nat, convert: array<char>, places: nat,
                    ghost out: seq<char>, ghost tail: seq<char>, ghost digits: seq<char>)
    returns (len: nat)
    requires Shows(buffer, currlen, maxlen, out, tail) && convert != buffer && Backwards(convert, places, digits)
    modifies buffer
    ensures Shows(buffer, len, maxlen, out + digits, tail)
  {
    hide Shows;
    len := currlen;
    var place := places;
    assert out + digits[..0] == out;
    while place > 0
      invariant 0 <= place <= places && Backwards(convert, places, digits)
      invariant places == |digits| && Shows(buffer, len, maxlen, out + digits[..places - place], tail)
    {
      place := place - 1;
      len := DoprOutch(buffer, len, maxlen, convert[place], out + digits[..places - place - 1], tail);
      assert out + digits[..places - place] == out + digits[..places - place - 1] + [convert[place]];
    }
    assert digits[..places] == digits;
  }

  // ---------- dopr ----------

  /** The variables of dopr between two turns of its loop: ch is the character at pos. */
  datatype Reading = Reading(state: int, pos: nat, flags: Flags, min: int, max: int, md: Modifier, a: nat)

  /** What is still to come, as the state and the fields gathered so far determine it. */
  ghost function Rest(f: seq<char>, args: seq<Arg>, r: Reading): seq<char> {
    if r.state == DP_S_DEFAULT then Text(f, r.pos, args, r.a)
    else if r.state == DP_S_FLAGS then Ending(f, FromFlags(f, r.pos, r.flags, args, r.a), args)
    else if r.state == DP_S_MIN then Ending(f, FromMin(f, r.pos, r.flags, r.min, args, r.a), args)
    else if r.state == DP_S_DOT then Ending(f, FromDot(f, r.pos, r.flags, r.min, args, r.a), args)
    else if r.state == DP_S_MAX then Ending(f, FromMax(f, r.pos, r.flags, r.min, r.max, args, r.a), args)
    else if r.state == DP_S_MOD then Ending(f, FromMod(f, r.pos, r.flags, r.min, r.max, r.a), args)
    else if r.state == DP_S_CONV then Ending(f, Directive(r.flags, r.min, r.max, r.md, r.pos, r.a), args)
    else []
  }

  /** The same for the conversions still to come. */
  ghost predicate CoveredRest(f: seq<char>, args: seq<Arg>, r: Reading) {
    if r.state == DP_S_DEFAULT then Covered(f, r.pos, args, r.a)
    else if r.state == DP_S_FLAGS then CoveredEnding(f, FromFlags(f, r.pos, r.flags, args, r.a), args)
    else if r.state == DP_S_MIN then CoveredEnding(f, FromMin(f, r.pos, r.flags, r.min, args, r.a), args)
    else if r.state == DP_S_DOT then CoveredEnding(f, FromDot(f, r.pos, r.flags, r.min, args, r.a), args)
    else if r.state == DP_S_MAX then CoveredEnding(f, FromMax(f, r.pos, r.flags, r.min, r.max, args, r.a), args)
    else if r.state == DP_S_MOD then CoveredEnding(f, FromMod(f, r.pos, r.flags, r.min, r.max, r.a), args)
    else if r.state == DP_S_CONV then CoveredEnding(f, Directive(r.flags, r.min, r.max, r.md, r.pos, r.a), args)
    else true
  }

  /** The fields a state has not reached yet hold their initial values. */
  predicate Fresh(r: Reading) {
    0 <= r.state <= 7 &&
    (r.state == DP_S_DEFAULT ==> r.flags == NO_FLAGS) && (r.state <= DP_S_FLAGS ==> r.min == 0) &&
    (r.state <= DP_S_DOT ==> r.max == -1) && (r.state <= DP_S_MOD ==> r.md == Plain)
  }

  /** One turn of the loop in a state that emits nothing, at a character that does not end the format. */
  function Advance(f: seq<char>, args: seq<Arg>, r: Reading): Reading
    requires At(f, r.pos) != '\0'
  {
    var ch := At(f, r.pos);
    if r.state == DP_S_FLAGS then
      if IsFlag(ch) then r.(flags := Flagged(ch, r.flags), pos := r.pos + 1) else r.(state := DP_S_MIN)
    else if r.state == DP_S_MIN then
      if IsDecimal(ch) then r.(min := 10 * r.min + (ch - '0') as int, pos := r.pos + 1)
      else if ch == '*' then r.(min := IntArg(args, r.a), a := r.a + 1, pos := r.pos + 1, state := DP_S_DOT)
      else r.(state := DP_S_DOT)
    else if r.state == DP_S_DOT then
      if ch == '.' then r.(state := DP_S_MAX, pos := r.pos + 1) else r.(state := DP_S_MOD)
    else if r.state == DP_S_MAX then
      if IsDecimal(ch) then r.(max := 10 * Max(r.max, 0) + (ch - '0') as int, pos := r.pos + 1)
      else if ch == '*' then r.(max := IntArg(args, r.a), a := r.a + 1, pos := r.pos + 1, state := DP_S_MOD)
      else r.(state := DP_S_MOD)
    else if r.state == DP_S_MOD then
      if ModifierOf(ch) != Plain then r.(md := ModifierOf(ch), pos := r.pos + 1, state := DP_S_CONV)
      else r.(state := DP_S_CONV)
    else r
  }

  /** Such a turn leaves what is still to come as it is. */
  lemma AdvanceKeeps(f: seq<char>, args: seq<Arg>, r: Reading)
    requires At(f, r.pos) != '\0' && DP_S_FLAGS <= r.state <= DP_S_MOD && Fresh(r)
    ensures var r' := Advance(f, args, r);
      Fresh(r') && Rest(f, args, r') == Rest(f, args, r) &&
      (CoveredRest(f, args, r') <==> CoveredRest(f, args, r)) &&
      (r'.pos > r.pos || (r'.pos == r.pos && r'.state > r.state)) && r'.pos <= |f|
  {
    hide Ending, CoveredEnding, Text, Covered;
  }

  /** At the end of the format nothing more is to come, whatever the state. */
  lemma NothingLeft(f: seq<char>, args: seq<Arg>, r: Reading)
    requires At(f, r.pos) == '\0'
    ensures Rest(f, args, r) == []
  {
  }

  /** The cases of the switch that gather flags, width, precision and modifier. */
  method Gather(f: seq<char>, args: seq<Arg>, r0: Reading) returns (r: Reading)
    requires At(f, r0.pos) != '\0' && DP_S_FLAGS <= r0.state <= DP_S_MOD && Fresh(r0)
    ensures r == Advance(f, args, r0)
  {
    r := r0;
    var ch := At(f, r.pos);
    if r.state == DP_S_FLAGS {
      match ch
      case '-' => r := r.(flags := r.flags.(minus := true), pos := r.pos + 1);
      case '+' => r := r.(flags := r.flags.(plus := true), pos := r.pos + 1);
      case ' ' => r := r.(flags := r.flags.(space := true), pos := r.pos + 1);
      case '#' => r := r.(flags := r.flags.(num := true), pos := r.pos + 1);
      case '0' => r := r.(flags := r.flags.(zero := true), pos := r.pos + 1);
      case _ => r := r.(state := DP_S_MIN);
    } else if r.state == DP_S_MIN {
      if IsDecimal(ch) {
        r := r.(min := 10 * r.min + (ch - '0') as int, pos := r.pos + 1);
      } else if ch == '*' {
        r := r.(min := IntArg(args, r.a), a := r.a + 1, pos := r.pos + 1, state := DP_S_DOT);
      } else {
        r := r.(state := DP_S_DOT);
      }
    } else if r.state == DP_S_DOT {
      if ch == '.' {
        r := r.(state := DP_S_MAX, pos := r.pos + 1);
      } else {
        r := r.(state := DP_S_MOD);
      }
    } else if r.state == DP_S_MAX {
      if IsDecimal(ch) {
        if r.max < 0 {
          r := r.(max := 0);
        }
        r := r.(max := 10 * r.max + (ch - '0') as int, pos := r.pos + 1);
      } else if ch == '*' {
        r := r.(max := IntArg(args, r.a), a := r.a + 1, pos := r.pos + 1, state := DP_S_MOD);
      } else {
        r := r.(state := DP_S_MOD);
      }
    } else {
      match ch
      case 'h' => r := r.(md := Short, pos := r.pos + 1, state := DP_S_CONV);
      case 'l' => r := r.(md := Long, pos := r.pos + 1, state := DP_S_CONV);
      case 'L' => r := r.(md := LongDouble, pos := r.pos + 1, state := DP_S_CONV);
      case _ => r := r.(state := DP_S_CONV);
    }
  }

  /** %s without a precision is cut at maxlen, which the buffer cannot tell from no cut at all. */
  lemma CutAtMaxlen(buffer: array<char>, len: nat, maxlen: nat, out: seq<char>, tail: seq<char>, t: seq<char>)
    requires Shows(buffer, len, maxlen, out + Cut(t, maxlen), tail)
    ensures Shows(buffer, len, maxlen, out + t, tail)
  {
    assert (out + Cut(t, maxlen))[..len] == (out + t)[..len];
  }

  /** The case of the switch that emits a conversion. */
  method Emit(buffer: array<char>, currlen: nat, maxlen: nat, ch: char, r: Reading, args: seq<Arg>,
              ghost out: seq<char>, ghost tail: seq<char>)
    returns (len: nat, a: nat)
    requires Shows(buffer, currlen, maxlen, out, tail) && Modelled(ch)
    modifies buffer
    ensures a == if TakesArg(ch) then r.a + 1 else r.a
    ensures Shows(buffer, len, maxlen,
                  out + Converted(ch, Directive(r.flags, r.min, r.max, r.md, r.pos, r.a), args), tail)
  {
    hide Shows, IntText, StrText;
    len, a := currlen, r.a;
    var unsigned := r.flags.(unsigned := true);
    match ch
    case 'd' =>
      len := FmtInt(buffer, len, maxlen, IntArg(args, a), 10, r.min, r.max, r.flags, out, tail);
      a := a + 1;
    case 'i' =>
      len := FmtInt(buffer, len, maxlen, IntArg(args, a), 10, r.min, r.max, r.flags, out, tail);
      a := a + 1;
    case 'o' =>
      len := FmtInt(buffer, len, maxlen, IntArg(args, a), 8, r.min, r.max, unsigned, out, tail);
      a := a + 1;
    case 'u' =>
      len := FmtInt(buffer, len, maxlen, IntArg(args, a), 10, r.min, r.max, unsigned, out, tail);
      a := a + 1;
    case 'X' =>
      len := FmtInt(buffer, len, maxlen, IntArg(args, a), 16, r.min, r.max, unsigned.(up := true), out, tail);
      a := a + 1;
    case 'x' =>
      len := FmtInt(buffer, len, maxlen, IntArg(args, a), 16, r.min, r.max, unsigned, out, tail);
      a := a + 1;
    case 'c' =>
      len := DoprOutch(buffer, len, maxlen, (IntArg(args, a) % 256) as char, out, tail);
      a := a + 1;
    case 's' =>
      len := EmitString(buffer, len, maxlen, StrArg(args, a), r, out, tail);
      a := a + 1;
    case 'p' =>
      len := FmtInt(buffer, len, maxlen, IntArg(args, a), 16, r.min, r.max, r.flags, out, tail);
      a := a + 1;
    case '%' =>
      len := DoprOutch(buffer, len, maxlen, ch, out, tail);
    case _ =>
      assert out + [] == out;
  }

  method EmitString(buffer: array<char>, currlen: nat, maxlen: nat, arg: Arg, r: Reading,
                    ghost out: seq<char>, ghost tail: seq<char>)
    returns (len: nat)
    requires Shows(buffer, currlen, maxlen, out, tail) && !arg.Int?
    modifies buffer
    ensures Shows(buffer, len, maxlen, out + StrText(StrValue(arg), r.flags, r.min, r.max), tail)
  {
    hide Shows, Padded;
    var max := r.max;
    if max < 0 {
      max := maxlen;
    }
    len := FmtStr(buffer, currlen, maxlen, arg, r.flags, r.min, max, out, tail);
    if r.max < 0 {
      CutAtMaxlen(buffer, len, maxlen, out, tail, Padded(StrValue(arg), r.flags, r.min));
    }
  }

  /** The first n - 1 characters of t, or all of it, and a NUL. */
  ghost predicate Truncated(buffer: array<char>, n: nat, t: seq<char>)
    reads buffer
  {
    1 <= n <= buffer.Length &&
    var k := if |t| < n - 1 then |t| else n - 1;
    buffer[..k] == t[..k] && buffer[k] == '\0'
  }

  /** An ordinary character, or the % that starts a conversion. */
  lemma DefaultStep(f: seq<char>, args: seq<Arg>, r: Reading)
    requires r.state == DP_S_DEFAULT && Fresh(r) && At(f, r.pos) != '\0'
    ensures var r' := if At(f, r.pos) == '%' then r.(state := DP_S_FLAGS, pos := r.pos + 1) else r.(pos := r.pos + 1);
      Fresh(r') && r'.pos <= |f| && (CoveredRest(f, args, r) ==> CoveredRest(f, args, r')) &&
      Rest(f, args, r) == (if At(f, r.pos) == '%' then [] else [At(f, r.pos)]) + Rest(f, args, r')
  {
    hide Ending, CoveredEnding, FromFlags;
  }

  lemma ConvStep(f: seq<char>, args: seq<Arg>, r: Reading)
    requires r.state == DP_S_CONV && At(f, r.pos) != '\0' && CoveredRest(f, args, r)
    ensures var ch, d := At(f, r.pos), Directive(r.flags, r.min, r.max, r.md, r.pos, r.a);
      var r' := Next(r, if TakesArg(ch) then r.a + 1 else r.a);
      Modelled(ch) && r'.pos <= |f| && CoveredRest(f, args, r') &&
      Rest(f, args, r) == Converted(ch, d, args) + Rest(f, args, r')
  {
    hide Converted;
  }

  /** Back to ordinary characters, after a conversion. */
  function Next(r: Reading, a: nat): (r': Reading)
    ensures Fresh(r')
  {
    Reading(DP_S_DEFAULT, r.pos + 1, NO_FLAGS, 0, -1, Plain, a)
  }

  /** The full text is what has been emitted followed by what is still to come. */
  ghost predicate Halfway(f: seq<char>, args: seq<Arg>, r: Reading, out: seq<char>, full: seq<char>) {
    Fresh(r) && r.pos <= |f| && out + Rest(f, args, r) == full && CoveredRest(f, args, r)
  }

  /** One turn of the loop, while the format goes on and the buffer has room. */
  method Turn(buffer: array<char>, currlen: nat, maxlen: nat, f: seq<char>, args: seq<Arg>, r: Reading,
              ghost out: seq<char>, ghost tail: seq<char>, ghost full: seq<char>)
    returns (len: nat, r': Reading, ghost out': seq<char>)
    requires r.state != DP_S_DONE && At(f, r.pos) != '\0'
    requires Shows(buffer, currlen, maxlen, out, tail) && Halfway(f, args, r, out, full)
    modifies buffer
    ensures Shows(buffer, len, maxlen, out', tail) && Halfway(f, args, r', out', full) && r'.state != DP_S_DONE
    ensures r'.pos > r.pos || (r'.pos == r.pos && r'.state > r.state)
  {
    var ch := At(f, r.pos);
    len, r', out' := currlen, r, out;
    hide Shows, Rest, CoveredRest, At;
    if r.state == DP_S_DEFAULT {
      DefaultStep(f, args, r);
      if ch == '%' {
        r' := r'.(state := DP_S_FLAGS);
        ghost var rest := Rest(f, args, r.(state := DP_S_FLAGS, pos := r.pos + 1));
        assert [] + rest == rest;
      } else {
        len := DoprOutch(buffer, currlen, maxlen, ch, out, tail);
        out' := out + [ch];
        assert out' + Rest(f, args, r.(pos := r.pos + 1)) == out + ([ch] + Rest(f, args, r.(pos := r.pos + 1)));
      }
      r' := r'.(pos := r.pos + 1);
    } else if DP_S_FLAGS <= r.state <= DP_S_MOD {
      AdvanceKeeps(f, args, r);
      r' := Gather(f, args, r);
      AdvanceStays(f, args, r);
    } else {
      ConvStep(f, args, r);
      var a: nat;
      len, a := Emit(buffer, currlen, maxlen, ch, r, args, out, tail);
      ghost var t := Converted(ch, Directive(r.flags, r.min, r.max, r.md, r.pos, r.a), args);
      r' := Next(r, a);
      out' := out + t;
      assert out' + Rest(f, args, r') == out + (t + Rest(f, args, r'));
    }
  }

  lemma AdvanceStays(f: seq<char>, args: seq<Arg>, r: Reading)
    requires At(f, r.pos) != '\0' && DP_S_FLAGS <= r.state <= DP_S_MOD
    ensures Advance(f, args, r).state != DP_S_DONE
  {
  }

  /** dopr over a buffer of maxlen >= 1 characters. */
  method Dopr(buffer: array<char>, maxlen: nat, f: seq<char>, args: seq<Arg>)
    requires 1 <= maxlen <= buffer.Length && Covered(f, 0, args, 0)
    modifies buffer
    ensures Truncated(buffer, maxlen, Text(f, 0, args, 0))
    ensures buffer[maxlen..] == old(buffer[maxlen..])
  {
    ghost var full, tail, out := Text(f, 0, args, 0), buffer[maxlen..], [];
    var r := Reading(DP_S_DEFAULT, 0, NO_FLAGS, 0, -1, Plain, 0);
    var currlen: nat := 0;
    assert out + full == full;
    assert Shows(buffer, currlen, maxlen, out, tail) && Halfway(f, args, r, out, full);
    hide Halfway, Shows;
    while r.state != DP_S_DONE
      invariant Shows(buffer, currlen, maxlen, out, tail)
      invariant if r.state == DP_S_DONE then Enough(out, full, currlen, maxlen) else Halfway(f, args, r, out, full)
      decreases if r.state == DP_S_DONE then 0 else 1, |f| - r.pos, DP_S_DONE - r.state
    {
      var ch := At(f, r.pos);
      if ch == '\0' || currlen >= maxlen {
        Stop(f, args, r, out, full, currlen, maxlen);
        r := r.(state := DP_S_DONE);
      } else {
        InBounds(f, args, r, out, full);
        currlen, r, out := Turn(buffer, currlen, maxlen, f, args, r, out, tail, full);
      }
    }
    Terminate(buffer, currlen, maxlen, out, tail, full);
  }

  lemma InBounds(f: seq<char>, args: seq<Arg>, r: Reading, out: seq<char>, full: seq<char>)
    requires Halfway(f, args, r, out, full)
    ensures r.pos <= |f| && r.state <= DP_S_DONE
  {
  }

  /** The loop may stop: all of the text is out, or as much of it as fits. */
  ghost predicate Enough(out: seq<char>, full: seq<char>, currlen: nat, maxlen: nat) {
    out <= full && (out == full || currlen >= maxlen)
  }

  lemma Stop(f: seq<char>, args: seq<Arg>, r: Reading, out: seq<char>, full: seq<char>, currlen: nat, maxlen: nat)
    requires Halfway(f, args, r, out, full) && (At(f, r.pos) == '\0' || currlen >= maxlen)
    ensures Enough(out, full, currlen, maxlen)
  {
    if At(f, r.pos) == '\0' {
      NothingLeft(f, args, r);
      assert out + [] == out;
    }
  }

  /** The end of dopr. */
  method Terminate(buffer: array<char>, currlen: nat, maxlen: nat,
                   ghost out: seq<char>, ghost tail: seq<char>, ghost full: seq<char>)
    requires Shows(buffer, currlen, maxlen, out, tail) && Enough(out, full, currlen, maxlen) && maxlen >= 1
    modifies buffer
    ensures Truncated(buffer, maxlen, full) && buffer[maxlen..] == tail
  {
    ghost var was := buffer[..currlen];
    if currlen < maxlen - 1 {
      buffer[currlen] := '\0';
      assert buffer[..currlen] == was;
    } else {
      buffer[maxlen - 1] := '\0';
      assert buffer[..maxlen - 1] == was[..maxlen - 1];
    }
  }

  /** vsnprintf into a buffer of count >= 1 characters: the unbounded text cut to count - 1, and its length. */
  method Vsnprintf(str: array<char>, count: nat, f: seq<char>, args: seq<Arg>) returns (n: nat)
    requires 1 <= count <= str.Length && Covered(f, 0, args, 0)
    modifies str
    ensures Truncated(str, count, Text(f, 0, args, 0))
    ensures str[count..] == old(str[count..])
    ensures n < count && str[n] == '\0' && '\0' !in str[..n]
    ensures var t := Text(f, 0, args, 0); '\0' !in t ==> n == if |t| < count - 1 then |t| else count - 1
  {
    str[0] := '\0';
    assert str[count..] == old(str[count..]);
    Dopr(str, count, f, args);
    n := 0;
    ghost var t := Text(f, 0, args, 0);
    ghost var k := if |t| < count - 1 then |t| else count - 1;
    hide Text;
    while str[n] != '\0'
      invariant n <= k && '\0' !in str[..n]
      decreases k - n
    {
      n := n + 1;
    }
    if n < k { assert t[..k][n] == '\0' && t[n] in t; }
  }
}

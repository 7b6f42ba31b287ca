/** Formats as data: ordinary characters and conversion specifications with their flags, width, precision,
    modifier and conversion. What a printed format denotes is the concatenation of what its pieces show, each
    of them starting at the argument where the one before it stopped; and every format is the print of one. */
module Formats {
  import opened Printf

  /** A numeral, and perhaps a star, which takes the value from the arguments instead. */
  datatype Field = Field(digits: seq<char>, star: bool)

  datatype Precision = NoPrecision | Dot(field: Field)

  /** flags width .precision modifier conversion */
  datatype Spec = Spec(flags: seq<char>, width: Field, precision: Precision, modifier: seq<char>, conv: char)

  datatype Piece = Ordinary(c: char) | Conversion(spec: Spec)

  /** Pieces, and perhaps a specification that breaks off before its conversion character; conv is then NUL. */
  datatype Format = Format(pieces: seq<Piece>, rest: seq<Spec>)

  // ---------- printing ----------

  function FieldText(w: Field): seq<char> {
    w.digits + if w.star then "*" else ""
  }

  function PrecisionText(p: Precision): seq<char> {
    match p
    case NoPrecision => ""
    case Dot(w) => "." + FieldText(w)
  }

  /** Everything between the percent sign and the conversion character. */
  function Body(s: Spec): seq<char> {
    s.flags + FieldText(s.width) + PrecisionText(s.precision) + s.modifier
  }

  function PieceText(p: Piece): (t: seq<char>)
    ensures t != []
  {
    match p
    case Ordinary(c) => [c]
    case Conversion(s) => "%" + Body(s) + [s.conv]
  }

  function Printed(ps: seq<Piece>): seq<char> {
    if ps == [] then [] else PieceText(ps[0]) + Printed(ps[1..])
  }

  function RestText(rest: seq<Spec>): seq<char> {
    if rest == [] then [] else "%" + Body(rest[0])
  }

  function FormatText(fm: Format): seq<char> {
    Printed(fm.pieces) + RestText(fm.rest)
  }

  // ---------- which specifications can be told apart ----------

  /** The first character of what follows. */
  function First(t: seq<char>, c: char): char {
    if t == [] then c else t[0]
  }

  predicate Decimals(t: seq<char>) {
    forall c :: c in t ==> IsDecimal(c)
  }

  /** A numeral in front of c ends there. */
  predicate EndsField(w: Field, c: char) {
    Decimals(w.digits) && (w.star || (!IsDecimal(c) && c != '*'))
  }

  predicate PrecisionOk(p: Precision, c: char) {
    match p
    case NoPrecision => c != '.'
    case Dot(w) => EndsField(w, c)
  }

  predicate ModifierOk(m: seq<char>, c: char) {
    m in ["h", "l", "L"] || (m == [] && c !in {'h', 'l', 'L'})
  }

  /** No part of the specification runs on into the next one. */
  predicate SpecOk(s: Spec) {
    var m := First(s.modifier, s.conv);
    var p := First(PrecisionText(s.precision), m);
    && (forall c :: c in s.flags ==> IsFlag(c)) && !IsFlag(First(FieldText(s.width), p))
    && EndsField(s.width, p) && PrecisionOk(s.precision, m) && ModifierOk(s.modifier, s.conv)
  }

  predicate PieceOk(p: Piece) {
    match p
    case Ordinary(c) => c != '%' && c != '\0'
    case Conversion(s) => SpecOk(s) && s.conv != '\0'
  }

  predicate PiecesOk(ps: seq<Piece>) {
    forall p :: p in ps ==> PieceOk(p)
  }

  predicate FormatOk(fm: Format) {
    PiecesOk(fm.pieces) && (fm.rest == [] || (|fm.rest| == 1 && SpecOk(fm.rest[0]) && fm.rest[0].conv == '\0'))
  }

  /** For the usual conversions the parts are as one expects: flags, a width that does not begin with a zero,
      digits in the precision, one modifier at most. */
  lemma UsualSpec(s: Spec)
    requires s.conv in {'d', 'i', 'o', 'u', 'x', 'X', 'c', 's', 'p', '%'}
    ensures SpecOk(s) <==>
      && (forall c :: c in s.flags ==> IsFlag(c)) && Decimals(s.width.digits)
      && (s.width.digits != [] ==> s.width.digits[0] != '0')
      && (s.precision.Dot? ==> Decimals(s.precision.field.digits))
      && (s.modifier == [] || s.modifier in ["h", "l", "L"])
  {
    var w, m := s.width, First(s.modifier, s.conv);
    if w.digits != [] { assert FieldText(w)[0] == w.digits[0] && w.digits[0] in w.digits; }
  }

  // ---------- what a piece shows ----------

  function FlagsOf(fs: seq<char>): Flags {
    Flags('-' in fs, '+' in fs, ' ' in fs, '#' in fs, '0' in fs, false, false)
  }

  function Stars(w: Field): nat {
    if w.star then 1 else 0
  }

  /** The minimum width: the argument for a star, and otherwise the number the digits denote. */
  function MinOf(w: Field, args: seq<Arg>, a: nat): int {
    if w.star then IntArg(args, a) else Number(w.digits, 10)
  }

  /** The precision; without digits it is no limit. */
  function MaxOf(p: Precision, args: seq<Arg>, a: nat): int {
    match p
    case NoPrecision => -1
    case Dot(w) => if w.star then IntArg(args, a) else if w.digits == [] then -1 else Number(w.digits, 10)
  }

  function PrecisionStars(p: Precision): nat {
    if p.Dot? then Stars(p.field) else 0
  }

  /** The arguments taken by stars, the one of the width first. */
  function StarCount(s: Spec): nat {
    Stars(s.width) + PrecisionStars(s.precision)
  }

  datatype Kind = Integer(base: Base, signed: bool, caps: bool) | Character | String | Percent | Nothing

  function KindOf(c: char): Kind {
    match c
    case 'd' => Integer(10, true, false)
    case 'i' => Integer(10, true, false)
    case 'u' => Integer(10, false, false)
    case 'o' => Integer(8, false, false)
    case 'x' => Integer(16, false, false)
    case 'X' => Integer(16, false, true)
    case 'p' => Integer(16, true, false)
    case 'c' => Character
    case 's' => String
    case '%' => Percent
    case _ => Nothing
  }

  /** Stars and the conversion take one argument each; %% and unknown conversions take none. */
  function Used(p: Piece): nat {
    match p
    case Ordinary(_) => 0
    case Conversion(s) => StarCount(s) + match KindOf(s.conv) case Percent => 0 case Nothing => 0 case _ => 1
  }

  /** What a piece shows when its first argument is number a. */
  function Shown(p: Piece, args: seq<Arg>, a: nat): seq<char> {
    match p
    case Ordinary(c) => [c]
    case Conversion(s) =>
      var min, max := MinOf(s.width, args, a), MaxOf(s.precision, args, a + Stars(s.width));
      var flags, k := FlagsOf(s.flags), a + StarCount(s);
      match KindOf(s.conv)
      case Integer(base, signed, caps) =>
        IntText(IntArg(args, k), base, min, max, flags.(unsigned := !signed, up := caps))
      case Character => [(IntArg(args, k) % 256) as char]
      case String => StrText(StrValue(StrArg(args, k)), flags, min, max)
      case Percent => "%"
      case Nothing => ""
  }

  function ShownAll(ps: seq<Piece>, args: seq<Arg>, a: nat): seq<char> {
    if ps == [] then [] else Shown(ps[0], args, a) + ShownAll(ps[1..], args, a + Used(ps[0]))
  }

  function UsedAll(ps: seq<Piece>): nat {
    if ps == [] then 0 else Used(ps[0]) + UsedAll(ps[1..])
  }

  predicate PieceModelled(p: Piece) {
    p.Conversion? ==> Modelled(p.spec.conv)
  }

  /** Every conversion is one this model covers. */
  predicate AllModelled(ps: seq<Piece>) {
    forall p :: p in ps ==> PieceModelled(p)
  }

  // ---------- reading a specification ----------

  /** The directive dopr gathers from a specification. */
  function DirectiveOf(s: Spec, next: nat, args: seq<Arg>, a: nat): Directive {
    Directive(FlagsOf(s.flags), MinOf(s.width, args, a), MaxOf(s.precision, args, a + Stars(s.width)),
              ModifierOf(First(s.modifier, '\0')), next, a + StarCount(s))
  }

  /** t stands in f at position i. */
  ghost predicate Stands(f: seq<char>, i: nat, t: seq<char>) {
    i + |t| <= |f| && f[i..i + |t|] == t
  }

  lemma StandsSplit(f: seq<char>, i: nat, t: seq<char>, u: seq<char>)
    requires Stands(f, i, t + u)
    ensures Stands(f, i, t) && Stands(f, i + |t|, u)
  {
    assert f[i..i + |t + u|][..|t|] == t && f[i..i + |t + u|][|t|..] == u;
  }

  lemma StandsAt(f: seq<char>, i: nat, t: seq<char>, k: nat)
    requires Stands(f, i, t) && k < |t|
    ensures At(f, i + k) == f[i + k] == t[k]
  {
    assert f[i..i + |t|][k] == f[i + k];
  }

  /** The character after t, when u and then c follow. */
  lemma StandsFirst(f: seq<char>, i: nat, u: seq<char>, c: char)
    requires Stands(f, i, u) && At(f, i + |u|) == c
    ensures At(f, i) == First(u, c)
  {
    if u != [] { StandsAt(f, i, u, 0); }
  }

  /** The flags gathered so far and those still to come. */
  function Gathered(fl: Flags, fs: seq<char>): Flags {
    fl.(minus := fl.minus || '-' in fs, plus := fl.plus || '+' in fs, space := fl.space || ' ' in fs,
        num := fl.num || '#' in fs, zero := fl.zero || '0' in fs)
  }

  lemma InRest(c: char, fs: seq<char>)
    requires fs != []
    ensures c in fs <==> c == fs[0] || c in fs[1..]
  {
    if c in fs && c != fs[0] {
      var i :| 0 <= i < |fs| && fs[i] == c;
      assert fs[1..][i - 1] == c;
    }
  }

  lemma GatheredNext(fl: Flags, fs: seq<char>)
    requires fs != []
    ensures Gathered(Flagged(fs[0], fl), fs[1..]) == Gathered(fl, fs)
  {
    hide Flagged;
    InRest('-', fs);
    InRest('+', fs);
    InRest(' ', fs);
    InRest('#', fs);
    InRest('0', fs);
    FlaggedIs(fs[0], fl);
  }

  lemma FlaggedIs(c: char, fl: Flags)
    ensures Flagged(c, fl) == fl.(minus := fl.minus || c == '-', plus := fl.plus || c == '+',
                                  space := fl.space || c == ' ', num := fl.num || c == '#', zero := fl.zero || c == '0')
  {
  }

  lemma {:induction false} FlagsRead(f: seq<char>, i: nat, fl: Flags, fs: seq<char>, args: seq<Arg>, a: nat)
    requires Stands(f, i, fs) && (forall c :: c in fs ==> IsFlag(c)) && !IsFlag(At(f, i + |fs|))
    ensures FromFlags(f, i, fl, args, a) == FromMin(f, i + |fs|, Gathered(fl, fs), 0, args, a)
    decreases |fs|
  {
    hide FromMin, Gathered, IsFlag, Flagged;
    if fs != [] {
      assert fs == [fs[0]] + fs[1..];
      StandsSplit(f, i, [fs[0]], fs[1..]);
      StandsAt(f, i, fs, 0);
      hide Stands, At;
      FlagsRead(f, i + 1, Flagged(fs[0], fl), fs[1..], args, a);
      GatheredNext(fl, fs);
    } else {
      NoneGathered(fl);
    }
  }

  lemma NoneGathered(fl: Flags)
    ensures Gathered(fl, []) == fl
  {
  }

  lemma NumberNext(t: seq<char>, k: nat)
    requires k < |t| && IsDecimal(t[k]) && Number(t[..k], 10) >= 0
    ensures Number(t[..k + 1], 10) == 10 * Number(t[..k], 10) + (t[k] - '0') as int >= 0
  {
    assert t[..k + 1][..k] == t[..k];
  }

  /** The character k of a numeral at i. */
  lemma DigitAt(f: seq<char>, i: nat, t: seq<char>, k: nat)
    requires Stands(f, i, t) && Decimals(t) && k < |t|
    ensures i + k < |f| && At(f, i + k) == f[i + k] == t[k] && IsDecimal(t[k])
  {
    StandsAt(f, i, t, k);
    assert t[k] in t;
  }

  lemma MinStep(f: seq<char>, i: nat, fl: Flags, min: int, args: seq<Arg>, a: nat)
    requires IsDecimal(At(f, i))
    ensures FromMin(f, i, fl, min, args, a) == FromMin(f, i + 1, fl, 10 * min + (At(f, i) - '0') as int, args, a)
  {
    hide FromDot;
  }

  lemma MaxStep(f: seq<char>, i: nat, fl: Flags, min: int, max: int, args: seq<Arg>, a: nat)
    requires IsDecimal(At(f, i))
    ensures FromMax(f, i, fl, min, max, args, a) ==
      FromMax(f, i + 1, fl, min, 10 * Max(max, 0) + (At(f, i) - '0') as int, args, a)
  {
    hide FromMod;
  }

  lemma {:induction false} MinDigits(f: seq<char>, i: nat, fl: Flags, t: seq<char>, k: nat, args: seq<Arg>, a: nat)
    requires Stands(f, i, t) && Decimals(t) && k <= |t|
    ensures Number(t[..k], 10) >= 0
    ensures FromMin(f, i, fl, 0, args, a) == FromMin(f, i + k, fl, Number(t[..k], 10), args, a)
    decreases k
  {
    hide FromMin, Stands, Decimals, At, IsDecimal;
    if k > 0 {
      MinDigits(f, i, fl, t, k - 1, args, a);
      DigitAt(f, i, t, k - 1);
      NumberNext(t, k - 1);
      MinStep(f, i + k - 1, fl, Number(t[..k - 1], 10), args, a);
    }
  }

  lemma {:induction false} MaxDigits(f: seq<char>, i: nat, fl: Flags, min: int, t: seq<char>, k: nat,
                                     args: seq<Arg>, a: nat)
    requires Stands(f, i, t) && Decimals(t) && k <= |t|
    ensures Number(t[..k], 10) >= 0
    ensures FromMax(f, i, fl, min, -1, args, a) ==
      FromMax(f, i + k, fl, min, if k == 0 then -1 else Number(t[..k], 10), args, a)
    decreases k
  {
    hide FromMax, Stands, Decimals, At, IsDecimal;
    assert t[..0] == [];
    if k > 0 {
      MaxDigits(f, i, fl, min, t, k - 1, args, a);
      DigitAt(f, i, t, k - 1);
      NumberNext(t, k - 1);
      MaxStep(f, i + k - 1, fl, min, if k == 1 then -1 else Number(t[..k - 1], 10), args, a);
    }
  }

  lemma MinEnd(f: seq<char>, i: nat, fl: Flags, min: int, args: seq<Arg>, a: nat)
    ensures At(f, i) == '*' ==> FromMin(f, i, fl, min, args, a) == FromDot(f, i + 1, fl, IntArg(args, a), args, a + 1)
    ensures !IsDecimal(At(f, i)) && At(f, i) != '*' ==>
      FromMin(f, i, fl, min, args, a) == FromDot(f, i, fl, min, args, a)
  {
    hide FromDot, IntArg;
  }

  lemma MaxEnd(f: seq<char>, i: nat, fl: Flags, min: int, max: int, args: seq<Arg>, a: nat)
    ensures At(f, i) == '*' ==>
      FromMax(f, i, fl, min, max, args, a) == FromMod(f, i + 1, fl, min, IntArg(args, a), a + 1)
    ensures !IsDecimal(At(f, i)) && At(f, i) != '*' ==>
      FromMax(f, i, fl, min, max, args, a) == FromMod(f, i, fl, min, max, a)
  {
    hide FromMod, IntArg;
  }

  /** The digits of a field, and what ends them. */
  lemma FieldStands(f: seq<char>, i: nat, w: Field)
    requires Stands(f, i, FieldText(w)) && EndsField(w, At(f, i + |FieldText(w)|))
    ensures Stands(f, i, w.digits) && Decimals(w.digits)
    ensures |FieldText(w)| == |w.digits| + Stars(w)
    ensures var c := At(f, i + |w.digits|); if w.star then c == '*' else !IsDecimal(c) && c != '*'
  {
    hide Decimals, IsDecimal;
    StandsSplit(f, i, w.digits, if w.star then "*" else "");
    if w.star { StandsAt(f, i + |w.digits|, "*", 0); }
  }

  lemma WidthRead(f: seq<char>, i: nat, fl: Flags, w: Field, args: seq<Arg>, a: nat)
    requires Stands(f, i, FieldText(w)) && EndsField(w, At(f, i + |FieldText(w)|))
    ensures FromMin(f, i, fl, 0, args, a) ==
      FromDot(f, i + |FieldText(w)|, fl, MinOf(w, args, a), args, a + Stars(w))
  {
    hide FieldText, EndsField, Stands, At, Number, FromMin, FromDot, IntArg, Decimals, IsDecimal;
    FieldStands(f, i, w);
    MinDigits(f, i, fl, w.digits, |w.digits|, args, a);
    assert w.digits[..|w.digits|] == w.digits;
    MinEnd(f, i + |w.digits|, fl, Number(w.digits, 10), args, a);
  }

  lemma NoDot(f: seq<char>, i: nat, fl: Flags, min: int, args: seq<Arg>, a: nat)
    ensures FromDot(f, i, fl, min, args, a) ==
      if At(f, i) == '.' then FromMax(f, i + 1, fl, min, -1, args, a) else FromMod(f, i, fl, min, -1, a)
  {
    hide FromMax, FromMod;
  }

  /** The dot, and the field after it. */
  lemma DotStands(f: seq<char>, i: nat, w: Field)
    requires Stands(f, i, PrecisionText(Dot(w)))
    ensures At(f, i) == '.' && Stands(f, i + 1, FieldText(w)) && |PrecisionText(Dot(w))| == 1 + |FieldText(w)|
  {
    hide FieldText;
    StandsSplit(f, i, ".", FieldText(w));
    StandsAt(f, i, ".", 0);
  }

  lemma PrecisionRead(f: seq<char>, i: nat, fl: Flags, min: int, p: Precision, args: seq<Arg>, a: nat)
    requires Stands(f, i, PrecisionText(p)) && PrecisionOk(p, At(f, i + |PrecisionText(p)|))
    ensures FromDot(f, i, fl, min, args, a) ==
      FromMod(f, i + |PrecisionText(p)|, fl, min, MaxOf(p, args, a), a + PrecisionStars(p))
  {
    hide FromDot, FromMod, FromMax, Number, Stands, At, FieldText, EndsField, IntArg;
    NoDot(f, i, fl, min, args, a);
    if p.Dot? {
      DotStands(f, i, p.field);
      hide PrecisionText;
      DotRead(f, i + 1, fl, min, p.field, args, a);
    }
  }

  lemma DotRead(f: seq<char>, i: nat, fl: Flags, min: int, w: Field, args: seq<Arg>, a: nat)
    requires Stands(f, i, FieldText(w)) && EndsField(w, At(f, i + |FieldText(w)|))
    ensures FromMax(f, i, fl, min, -1, args, a) ==
      FromMod(f, i + |FieldText(w)|, fl, min, MaxOf(Dot(w), args, a), a + Stars(w))
  {
    hide FieldText, EndsField, Stands, At, Number, FromMax, FromMod, IntArg, Decimals, IsDecimal;
    FieldStands(f, i, w);
    MaxDigits(f, i, fl, min, w.digits, |w.digits|, args, a);
    assert w.digits[..|w.digits|] == w.digits;
    MaxEnd(f, i + |w.digits|, fl, min, if w.digits == [] then -1 else Number(w.digits, 10), args, a);
  }

  lemma ModifierRead(f: seq<char>, i: nat, fl: Flags, min: int, max: int, m: seq<char>, a: nat)
    requires Stands(f, i, m) && ModifierOk(m, At(f, i + |m|))
    ensures FromMod(f, i, fl, min, max, a) == Directive(fl, min, max, ModifierOf(First(m, '\0')), i + |m|, a)
  {
    if m != [] { StandsAt(f, i, m, 0); }
  }

  /** The four parts stand one after the other, and each ends where the next begins. */
  lemma PartsStand(f: seq<char>, i: nat, s: Spec)
    requires Stands(f, i, Body(s)) && At(f, i + |Body(s)|) == s.conv && SpecOk(s)
    ensures var w, p, m := FieldText(s.width), PrecisionText(s.precision), s.modifier;
      var i1 := i + |s.flags|; var i2 := i1 + |w|; var i3 := i2 + |p|;
      && Stands(f, i, s.flags) && (forall c :: c in s.flags ==> IsFlag(c)) && !IsFlag(At(f, i1))
      && Stands(f, i1, w) && EndsField(s.width, At(f, i2))
      && Stands(f, i2, p) && PrecisionOk(s.precision, At(f, i3))
      && Stands(f, i3, m) && ModifierOk(m, At(f, i3 + |m|)) && i + |Body(s)| == i3 + |m|
  {
    hide *;
    var w, p, m := FieldText(s.width), PrecisionText(s.precision), s.modifier;
    SpecParts(s);
    StandsSplit(f, i, s.flags + w + p, m);
    StandsSplit(f, i, s.flags + w, p);
    StandsSplit(f, i, s.flags, w);
    var i1 := i + |s.flags|;
    var i2 := i1 + |w|;
    var i3 := i2 + |p|;
    StandsFirst(f, i3, m, s.conv);
    StandsFirst(f, i2, p, At(f, i3));
    StandsFirst(f, i1, w, At(f, i2));
  }

  lemma SpecParts(s: Spec)
    requires SpecOk(s)
    ensures var w, p := FieldText(s.width), PrecisionText(s.precision);
      var m0 := First(s.modifier, s.conv); var p0 := First(p, m0);
      && Body(s) == s.flags + w + p + s.modifier
      && (forall c :: c in s.flags ==> IsFlag(c)) && !IsFlag(First(w, p0))
      && EndsField(s.width, p0) && PrecisionOk(s.precision, m0) && ModifierOk(s.modifier, s.conv)
  {
    hide FieldText, PrecisionText, EndsField, PrecisionOk, ModifierOk, IsFlag;
  }

  /** dopr gathers from the text of a specification what the specification says. */
  lemma SpecRead(f: seq<char>, i: nat, s: Spec, args: seq<Arg>, a: nat)
    requires Stands(f, i, Body(s)) && At(f, i + |Body(s)|) == s.conv && SpecOk(s)
    ensures FromFlags(f, i, NO_FLAGS, args, a) == DirectiveOf(s, i + |Body(s)|, args, a)
  {
    hide *;
    PartsStand(f, i, s);
    GatheredAll(s.flags);
    Counts(s, i + |Body(s)|, args, a);
    var fl, min, a1 := FlagsOf(s.flags), MinOf(s.width, args, a), a + Stars(s.width);
    var i1 := i + |s.flags|;
    var i2 := i1 + |FieldText(s.width)|;
    FlagsRead(f, i, NO_FLAGS, s.flags, args, a);
    WidthRead(f, i1, fl, s.width, args, a);
    PrecisionRead(f, i2, fl, min, s.precision, args, a1);
    var max := MaxOf(s.precision, args, a1);
    ModifierRead(f, i2 + |PrecisionText(s.precision)|, fl, min, max, s.modifier, a1 + PrecisionStars(s.precision));
  }

  lemma GatheredAll(fs: seq<char>)
    ensures Gathered(NO_FLAGS, fs) == FlagsOf(fs)
  {
  }

  lemma Counts(s: Spec, next: nat, args: seq<Arg>, a: nat)
    ensures StarCount(s) == Stars(s.width) + PrecisionStars(s.precision)
    ensures DirectiveOf(s, next, args, a) ==
      Directive(FlagsOf(s.flags), MinOf(s.width, args, a), MaxOf(s.precision, args, a + Stars(s.width)),
                ModifierOf(First(s.modifier, '\0')), next, a + StarCount(s))
  {
    hide FlagsOf, MinOf, MaxOf, ModifierOf, First;
  }

  // ---------- the law ----------

  /** A conversion shows what the directive gathered from its specification denotes. */
  lemma ConversionShows(s: Spec, next: nat, args: seq<Arg>, a: nat)
    requires Modelled(s.conv)
    ensures var d := DirectiveOf(s, next, args, a);
      && d.next == next && Converted(s.conv, d, args) == Shown(Conversion(s), args, a)
      && a + Used(Conversion(s)) == if TakesArg(s.conv) then d.a + 1 else d.a
  {
    NoCaps(s.flags);
    hide IntText, StrText, StrValue, IntArg, StrArg, FlagsOf, MinOf, MaxOf, ModifierOf;
  }

  lemma NoCaps(fs: seq<char>)
    ensures FlagsOf(fs).(unsigned := false, up := false) == FlagsOf(fs)
  {
  }

  lemma TextAt(f: seq<char>, i: nat, args: seq<Arg>, a: nat)
    requires i < |f| && f[i] != '\0'
    ensures f[i] != '%' ==> Text(f, i, args, a) == [f[i]] + Text(f, i + 1, args, a)
    ensures f[i] != '%' ==> (Covered(f, i, args, a) <==> Covered(f, i + 1, args, a))
    ensures f[i] == '%' ==> Text(f, i, args, a) == Ending(f, FromFlags(f, i + 1, NO_FLAGS, args, a), args)
    ensures f[i] == '%' ==>
      (Covered(f, i, args, a) <==> CoveredEnding(f, FromFlags(f, i + 1, NO_FLAGS, args, a), args))
  {
    hide FromFlags, Ending, CoveredEnding;
  }

  lemma EndingAt(f: seq<char>, d: Directive, args: seq<Arg>, c: char)
    requires At(f, d.next) == c && c != '\0'
    ensures var a := if TakesArg(c) then d.a + 1 else d.a;
      && Ending(f, d, args) == Converted(c, d, args) + Text(f, d.next + 1, args, a)
      && (CoveredEnding(f, d, args) <==> Modelled(c) && Covered(f, d.next + 1, args, a))
  {
    hide Converted, Modelled, Text, Covered, TakesArg;
  }

  /** One piece: what is still to be printed is what it shows, and then the rest of the format, which goes on
      after the arguments the piece used. */
  lemma PieceRead(f: seq<char>, i: nat, p: Piece, args: seq<Arg>, a: nat)
    requires PieceOk(p) && Stands(f, i, PieceText(p))
    ensures var j, b := i + |PieceText(p)|, a + Used(p);
      && (PieceModelled(p) ==> Text(f, i, args, a) == Shown(p, args, a) + Text(f, j, args, b))
      && (PieceModelled(p) ==> (Covered(f, i, args, a) <==> Covered(f, j, args, b)))
      && (Covered(f, i, args, a) ==> PieceModelled(p))
  {
    hide Text, Covered, Stands, SpecOk, PieceText, Shown, Used, Modelled;
    if p.Conversion? {
      ConversionRead(f, i, p.spec, args, a);
    } else {
      OrdinaryRead(f, i, p.c, args, a);
    }
  }

  lemma OrdinaryRead(f: seq<char>, i: nat, c: char, args: seq<Arg>, a: nat)
    requires c != '%' && c != '\0' && Stands(f, i, PieceText(Ordinary(c)))
    ensures var p := Ordinary(c); var j, b := i + |PieceText(p)|, a + Used(p);
      && Text(f, i, args, a) == Shown(p, args, a) + Text(f, j, args, b)
      && (Covered(f, i, args, a) <==> Covered(f, j, args, b))
  {
    hide Text, Covered, Stands;
    StandsAt(f, i, [c], 0);
    TextAt(f, i, args, a);
  }

  lemma PieceLength(s: Spec, next: nat, args: seq<Arg>, a: nat)
    ensures |PieceText(Conversion(s))| == 2 + |Body(s)|
    ensures DirectiveOf(s, next, args, a).next == next
  {
    hide Body;
  }

  lemma ConversionRead(f: seq<char>, i: nat, s: Spec, args: seq<Arg>, a: nat)
    requires SpecOk(s) && s.conv != '\0' && Stands(f, i, PieceText(Conversion(s)))
    ensures var p := Conversion(s); var j, b := i + |PieceText(p)|, a + Used(p);
      && (Modelled(s.conv) ==> Text(f, i, args, a) == Shown(p, args, a) + Text(f, j, args, b))
      && (Modelled(s.conv) ==> (Covered(f, i, args, a) <==> Covered(f, j, args, b)))
      && (Covered(f, i, args, a) ==> Modelled(s.conv))
  {
    hide *;
    var next := i + 1 + |Body(s)|;
    PieceLength(s, next, args, a);
    SpecStands(f, i, s);
    TextAt(f, i, args, a);
    SpecRead(f, i + 1, s, args, a);
    EndingAt(f, DirectiveOf(s, next, args, a), args, s.conv);
    if Modelled(s.conv) { ConversionShows(s, next, args, a); }
  }

  lemma SpecStands(f: seq<char>, i: nat, s: Spec)
    requires Stands(f, i, PieceText(Conversion(s)))
    ensures At(f, i) == '%' && i < |f| && f[i] == '%'
    ensures Stands(f, i + 1, Body(s)) && At(f, i + 1 + |Body(s)|) == s.conv
  {
    StandsSplit(f, i, "%" + Body(s), [s.conv]);
    StandsSplit(f, i, "%", Body(s));
    StandsAt(f, i, "%", 0);
    StandsAt(f, i + 1 + |Body(s)|, [s.conv], 0);
  }

  lemma PrintedFirst(ps: seq<Piece>)
    requires ps != []
    ensures Printed(ps) == PieceText(ps[0]) + Printed(ps[1..])
    ensures PiecesOk(ps) ==> PieceOk(ps[0]) && PiecesOk(ps[1..])
    ensures AllModelled(ps) <==> PieceModelled(ps[0]) && AllModelled(ps[1..])
  {
    hide PieceText, PieceOk, PieceModelled;
    assert ps == [ps[0]] + ps[1..];
    assert ps[0] in ps;
    forall p | p in ps
      ensures p == ps[0] || p in ps[1..]
    {
    }
  }

  lemma {:induction false} PiecesRead(f: seq<char>, i: nat, ps: seq<Piece>, args: seq<Arg>, a: nat)
    requires PiecesOk(ps) && Stands(f, i, Printed(ps))
    ensures var j, b := i + |Printed(ps)|, a + UsedAll(ps);
      && (AllModelled(ps) ==> Text(f, i, args, a) == ShownAll(ps, args, a) + Text(f, j, args, b))
      && (AllModelled(ps) ==> (Covered(f, i, args, a) <==> Covered(f, j, args, b)))
      && (Covered(f, i, args, a) ==> AllModelled(ps))
    decreases |ps|
  {
    hide Text, Covered, Stands, PieceOk, PieceText, Shown, Used, PieceModelled, PiecesOk, AllModelled;
    if ps != [] {
      var p := ps[0];
      PrintedFirst(ps);
      StandsSplit(f, i, PieceText(p), Printed(ps[1..]));
      PieceRead(f, i, p, args, a);
      PiecesRead(f, i + |PieceText(p)|, ps[1..], args, a + Used(p));
      Concatenated(Shown(p, args, a), ShownAll(ps[1..], args, a + Used(p)),
                   Text(f, i + |Printed(ps)|, args, a + UsedAll(ps)));
    } else {
      NothingUnmodelled();
    }
  }

  lemma NothingUnmodelled()
    ensures AllModelled([])
  {
  }

  lemma Concatenated(t: seq<char>, u: seq<char>, v: seq<char>)
    ensures t + (u + v) == t + u + v
  {
  }

  lemma CStringStands(f: seq<char>)
    ensures Stands(f, 0, CString(f)) && At(f, |CString(f)|) == '\0' && '\0' !in CString(f)
  {
    CStringIs(f);
  }

  /** A specification without a conversion character shows nothing. */
  lemma RestRead(f: seq<char>, i: nat, rest: seq<Spec>, args: seq<Arg>, a: nat)
    requires rest == [] || (|rest| == 1 && SpecOk(rest[0]) && rest[0].conv == '\0')
    requires Stands(f, i, RestText(rest)) && At(f, i + |RestText(rest)|) == '\0'
    ensures Text(f, i, args, a) == [] && Covered(f, i, args, a)
  {
    hide Stands, SpecOk, Body, FromFlags;
    if rest != [] {
      var s := rest[0];
      StandsSplit(f, i, "%", Body(s));
      StandsAt(f, i, "%", 0);
      SpecRead(f, i + 1, s, args, a);
      TextAt(f, i, args, a);
      assert DirectiveOf(s, i + 1 + |Body(s)|, args, a).next == i + 1 + |Body(s)|;
    }
  }

  /** The parts of a format stand in it, and it ends after them. */
  lemma FormatStands(f: seq<char>, fm: Format)
    requires FormatOk(fm) && CString(f) == FormatText(fm)
    ensures var n := |Printed(fm.pieces)|;
      && Stands(f, 0, Printed(fm.pieces)) && Stands(f, n, RestText(fm.rest))
      && At(f, n + |RestText(fm.rest)|) == '\0' && PiecesOk(fm.pieces)
      && (fm.rest == [] || (|fm.rest| == 1 && SpecOk(fm.rest[0]) && fm.rest[0].conv == '\0'))
  {
    hide Printed, Stands, At, CString, SpecOk, PiecesOk, RestText;
    CStringStands(f);
    StandsSplit(f, 0, Printed(fm.pieces), RestText(fm.rest));
  }

  /** The text a format denotes is what its pieces show, one after the other, each from the argument at which
      the one before it stopped; what breaks off at the end shows nothing. */
  lemma FormatShows(f: seq<char>, fm: Format, args: seq<Arg>)
    requires FormatOk(fm) && CString(f) == FormatText(fm)
    ensures AllModelled(fm.pieces) ==> Text(f, 0, args, 0) == ShownAll(fm.pieces, args, 0)
    ensures Covered(f, 0, args, 0) <==> AllModelled(fm.pieces)
  {
    hide *;
    FormatStands(f, fm);
    PiecesRead(f, 0, fm.pieces, args, 0);
    RestRead(f, |Printed(fm.pieces)|, fm.rest, args, UsedAll(fm.pieces));
  }

  // ---------- every format has such pieces ----------

  lemma FirstOf(t: seq<char>, u: seq<char>, c: char)
    ensures First(t + u, c) == First(t, First(u, c))
  {
  }

  lemma {:induction false} SplitFlags(g: seq<char>) returns (fs: seq<char>, g': seq<char>)
    ensures g == fs + g' && (forall c :: c in fs ==> IsFlag(c)) && !IsFlag(First(g', '\0'))
    decreases |g|
  {
    if g != [] && IsFlag(g[0]) {
      fs, g' := SplitFlags(g[1..]);
      fs := [g[0]] + fs;
    } else {
      fs, g' := [], g;
    }
  }

  lemma {:induction false} SplitDecimals(g: seq<char>) returns (ds: seq<char>, g': seq<char>)
    ensures g == ds + g' && Decimals(ds) && !IsDecimal(First(g', '\0'))
    decreases |g|
  {
    if g != [] && IsDecimal(g[0]) {
      ds, g' := SplitDecimals(g[1..]);
      ds := [g[0]] + ds;
    } else {
      ds, g' := [], g;
    }
  }

  lemma SplitField(g: seq<char>) returns (w: Field, g': seq<char>)
    ensures g == FieldText(w) + g' && EndsField(w, First(g', '\0'))
  {
    var ds, h := SplitDecimals(g);
    if h != [] && h[0] == '*' {
      w, g' := Field(ds, true), h[1..];
      assert h == "*" + g';
    } else {
      w, g' := Field(ds, false), h;
    }
  }

  lemma SplitPrecision(g: seq<char>) returns (p: Precision, g': seq<char>)
    ensures g == PrecisionText(p) + g' && PrecisionOk(p, First(g', '\0'))
  {
    if g != [] && g[0] == '.' {
      var w, h := SplitField(g[1..]);
      p, g' := Dot(w), h;
      assert g == "." + g[1..];
    } else {
      p, g' := NoPrecision, g;
    }
  }

  lemma SplitModifier(g: seq<char>) returns (m: seq<char>, g': seq<char>)
    ensures g == m + g' && ModifierOk(m, First(g', '\0'))
  {
    if g != [] && g[0] in {'h', 'l', 'L'} {
      m, g' := g[..1], g[1..];
      assert m in ["h", "l", "L"] by { assert m == [g[0]] && "h" in ["h", "l", "L"]; }
    } else {
      m, g' := [], g;
    }
  }

  /** Whatever follows a percent sign is a specification, complete or broken off. */
  lemma SplitSpec(g: seq<char>) returns (s: Spec, g': seq<char>)
    requires '\0' !in g
    ensures SpecOk(s)
    ensures if s.conv == '\0' then g == Body(s) && g' == [] else g == Body(s) + [s.conv] + g'
  {
    var fs, g1 := SplitFlags(g);
    var w, g2 := SplitField(g1);
    var p, g3 := SplitPrecision(g2);
    var m, g4 := SplitModifier(g3);
    s := Spec(fs, w, p, m, First(g4, '\0'));
    g' := if g4 == [] then [] else g4[1..];
    FirstOf(m, g4, '\0');
    FirstOf(PrecisionText(p), g3, '\0');
    FirstOf(FieldText(w), g2, '\0');
    hide FieldText, PrecisionText, EndsField, PrecisionOk, ModifierOk, IsFlag, First;
    Five(fs, FieldText(w), PrecisionText(p), m, g4);
    assert g == Body(s) + g4;
    if g4 != [] { assert g[|Body(s)|] == g4[0] && g4 == [g4[0]] + g'; }
  }

  lemma Five(a: seq<char>, b: seq<char>, c: seq<char>, d: seq<char>, e: seq<char>)
    ensures a + (b + (c + (d + e))) == a + b + c + d + e
  {
  }

  lemma {:induction false} Split(g: seq<char>) returns (fm: Format)
    requires '\0' !in g
    ensures FormatOk(fm) && FormatText(fm) == g
    decreases |g|
  {
    hide *;
    if g == [] {
      fm := Format([], []);
      EmptyFormat();
    } else {
      var p, h := SplitPiece(g);
      if p == [] {
        fm := Format([], h);
      } else {
        assert |h| == 0;
        fm := Split(g[|PieceText(p[0])|..]);
        fm := Prepend(p[0], fm, g, g[|PieceText(p[0])|..]);
      }
    }
  }

  lemma EmptyFormat()
    ensures FormatOk(Format([], [])) && FormatText(Format([], [])) == []
  {
  }

  /** The first piece of a format, or the specification that breaks off. */
  lemma SplitPiece(g: seq<char>) returns (p: seq<Piece>, rest: seq<Spec>)
    requires g != [] && '\0' !in g
    ensures p == [] ==> FormatOk(Format([], rest)) && FormatText(Format([], rest)) == g
    ensures p != [] ==> |p| == 1 && rest == [] && PieceOk(p[0]) && |PieceText(p[0])| <= |g|
    ensures p != [] ==> var n := |PieceText(p[0])|; g == PieceText(p[0]) + g[n..] && '\0' !in g[n..]
  {
    p, rest := [], [];
    if g[0] == '%' {
      assert g == "%" + g[1..];
      var s, h := SplitSpec(g[1..]);
      hide *;
      if s.conv == '\0' {
        rest := [s];
        BrokenOff(s, g);
      } else {
        p := [Conversion(s)];
        Complete(s, g, h);
      }
    } else {
      p := [Ordinary(g[0])];
    }
  }

  lemma BrokenOff(s: Spec, g: seq<char>)
    requires SpecOk(s) && s.conv == '\0' && g == "%" + Body(s)
    ensures FormatOk(Format([], [s])) && FormatText(Format([], [s])) == g
  {
    hide SpecOk, Body;
  }

  lemma Complete(s: Spec, g: seq<char>, h: seq<char>)
    requires SpecOk(s) && s.conv != '\0' && g == "%" + (Body(s) + [s.conv] + h) && '\0' !in g
    ensures PieceOk(Conversion(s)) && g == PieceText(Conversion(s)) + h
    ensures var n := |PieceText(Conversion(s))|; n <= |g| && g[n..] == h && '\0' !in h
  {
    hide SpecOk, Body;
    assert g == PieceText(Conversion(s)) + h;
    var n := |PieceText(Conversion(s))|;
    assert g[n..] == h;
  }

  lemma Prepend(p: Piece, fm: Format, g: seq<char>, h: seq<char>) returns (fm': Format)
    requires PieceOk(p) && FormatOk(fm) && FormatText(fm) == h && g == PieceText(p) + h
    ensures FormatOk(fm') && FormatText(fm') == g
  {
    fm' := fm.(pieces := [p] + fm.pieces);
    hide PieceOk, PieceText, SpecOk, Body;
    assert fm'.pieces[1..] == fm.pieces;
  }

  /** Every format is the print of pieces, up to its NUL; so FormatShows is about every format, and dopr's
      formats are covered exactly if all their conversions are. */
  lemma EveryFormat(f: seq<char>) returns (fm: Format)
    ensures FormatOk(fm) && CString(f) == FormatText(fm)
  {
    CStringStands(f);
    fm := Split(CString(f));
  }
}

/** What a printk format means: the characters it produces for an argument list.
    Arguments are 32-bit words; a string argument is the address of a C string. */
module PrintkFormat {

  import opened CTypes
  import opened Numerals

  type CText = s: seq<U8> | 0 !in s

  /** The variable arguments and the strings they may point at. */
  datatype Args = Args(word: nat -> U32, text: U32 -> CText)

  const PERCENT: U8 := 37
  const ZERO: U8 := 48
  const NINE: U8 := 57
  const BLANK: U8 := 32
  const MINUS: U8 := 45

  /** How a digit is written: 0-9, then a-f. */
  function Glyph(d: nat): int { if d > 9 then d + 87 else d + 48 }

  function Text(ds: seq<nat>): (t: seq<int>)
    ensures |t| == |ds|
  {
    if ds == [] then [] else Text(ds[..|ds| - 1]) + [Glyph(ds[|ds| - 1])]
  }

  function Repeat(c: int, k: int): seq<int> { if k <= 0 then [] else Repeat(c, k - 1) + [c] }

  function Padding(zero: bool): int { if zero then ZERO else BLANK }

  /** A number padded to a width of at most limit characters. */
  function Padded(n: nat, b: Radix, zero: bool, width: int, limit: nat): seq<int> {
    Filled(Digits(n, b), zero, Min(width, limit) - |Digits(n, b)|)
  }

  function Filled(ds: seq<nat>, zero: bool, pads: int): seq<int> {
    Repeat(Padding(zero), pads) + Text(ds)
  }

  function Unsigned(n: U32, zero: bool, width: int): seq<int> { Padded(n, Decimal, zero, width, 10) }

  function Hex(n: U32, zero: bool, width: int): seq<int> { Padded(n, Hexadecimal, zero, width, 8) }

  /** The minus sign takes one column of the width. */
  function Signed(w: U32, zero: bool, width: int): seq<int> {
    if Signed32(w) < 0 then [MINUS as int] + Unsigned(0 - Signed32(w), zero, width - 1)
    else Unsigned(w, zero, width)
  }

  /** The characters the interpreter distinguishes inside a directive. */
  datatype Kind = Digit | Modifier | Int | Uint | Pointer | HexWord | Str | Chr | Percent | Other

  function KindOf(c: U8): Kind {
    if ZERO <= c <= NINE then Digit
    else if c == 122 || c == 108 || c == 104 then Modifier // z l h
    else if c == 100 || c == 105 then Int                  // d i
    else if c == 117 then Uint                             // u
    else if c == 112 then Pointer                          // p
    else if c == 120 || c == 88 then HexWord               // x X
    else if c == 115 then Str                              // s
    else if c == 99 then Chr                               // c
    else if c == PERCENT then Percent
    else Other
  }

  /** What the character that ends a directive produces, given the next argument. */
  function Converted(c: U8, zero: bool, width: int, arg: U32, text: U32 -> CText): seq<int> {
    match KindOf(c)
    case Int => Signed(arg, zero, width)
    case Uint => Unsigned(arg, zero, width)
    case Pointer => [ZERO as int, 120] + Hex(arg, true, 8)
    case HexWord => Hex(arg, zero, width)
    case Str => text(arg)
    case Chr => [Signed32(arg)]
    case Percent => [c]
    case _ => [PERCENT as int, c]
  }

  function Taken(c: U8): nat { if KindOf(c) in {Percent, Other} then 0 else 1 }

  datatype Mode = Plain | Directive(zero: bool, width: int)

  /** Characters produced so far, whether a directive is open, and the arguments used. */
  datatype Output = Output(text: seq<int>, mode: Mode, used: nat)

  /** A character inside a directive. */
  function Directed(o: Output, c: U8, args: Args): Output
    requires o.mode.Directive?
  {
    var Directive(zero, width) := o.mode;
    if c == ZERO && width < 0 && !zero then o.(mode := Directive(true, width))
    else if KindOf(c).Digit? then o.(mode := Directive(zero, (if width < 0 then 0 else 10 * width) + c - ZERO))
    else if KindOf(c).Modifier? then o
    else Output(o.text + Converted(c, zero, width, args.word(o.used), args.text), Plain, o.used + Taken(c))
  }

  function Next(o: Output, c: U8, args: Args): Output {
    if o.mode.Directive? then Directed(o, c, args)
    else if c == PERCENT then o.(mode := Directive(false, -1))
    else o.(text := o.text + [c])
  }

  /** A whole format, from the state o. */
  function Run(o: Output, fmt: seq<U8>, args: Args): Output {
    if fmt == [] then o else Next(Run(o, fmt[..|fmt| - 1], args), fmt[|fmt| - 1], args)
  }

  const START := Output([], Plain, 0)

  function Printed(fmt: seq<U8>, args: Args): seq<int> { Run(START, fmt, args).text }

  /* Laws of numbers. */

  lemma TextSnoc(ds: seq<nat>, d: nat)
    ensures Text(ds + [d]) == Text(ds) + [Glyph(d)]
  {
    assert (ds + [d])[..|ds|] == ds;
  }

  /** Reading a number: skip blanks, then every character is a digit. */
  function Skip(t: seq<int>): seq<int> {
    if t != [] && t[0] == BLANK as int then Skip(t[1..]) else t
  }

  function Meaning(c: int): nat { if 48 <= c < 58 then c - 48 else if 97 <= c < 103 then c - 87 else 0 }

  function Read(t: seq<int>, b: Radix): nat {
    if t == [] then 0 else b.Times(Read(t[..|t| - 1], b)) + Meaning(t[|t| - 1])
  }

  lemma {:induction false} ReadText(ds: seq<nat>, b: Radix)
    requires forall j :: 0 <= j < |ds| ==> ds[j] < b.Size()
    ensures Read(Text(ds), b) == Value(ds, b)
  {
    if ds != [] {
      ReadText(ds[..|ds| - 1], b);
      assert Text(ds)[..|ds| - 1] == Text(ds[..|ds| - 1]);
    }
  }

  /** Leading zeros do not change the reading. */
  lemma {:induction false} ReadZeros(k: int, t: seq<int>, b: Radix)
    ensures Read(Repeat(ZERO as int, k) + t, b) == Read(t, b)
    decreases |t|, k
  {
    if t != [] {
      ReadZeros(k, t[..|t| - 1], b);
      assert (Repeat(ZERO as int, k) + t)[..|Repeat(ZERO as int, k) + t| - 1] == Repeat(ZERO as int, k) + t[..|t| - 1];
    } else if k > 0 {
      ReadZeros(k - 1, [], b);
      assert Repeat(ZERO as int, k) + t == Repeat(ZERO as int, k - 1) + [] + [ZERO as int];
      assert (Repeat(ZERO as int, k) + t)[..|Repeat(ZERO as int, k)| - 1] == Repeat(ZERO as int, k - 1) + [];
    } else {
      assert Repeat(ZERO as int, k) + t == t;
    }
  }

  lemma {:induction false} SkipBlanks(k: int, t: seq<int>)
    requires t == [] || t[0] != BLANK as int
    ensures Skip(Repeat(BLANK as int, k) + t) == t
  {
    if k > 0 {
      SkipBlanks(k - 1, t);
      RepeatFront(BLANK as int, k);
      assert (Repeat(BLANK as int, k) + t)[1..] == Repeat(BLANK as int, k - 1) + t;
    } else {
      assert Repeat(BLANK as int, k) + t == t;
    }
  }

  lemma {:induction false} RepeatFront(c: int, k: int)
    requires k > 0
    ensures Repeat(c, k) == [c] + Repeat(c, k - 1)
  {
    if k > 1 {
      RepeatFront(c, k - 1);
    }
  }

  lemma {:induction false} RepeatLength(c: int, k: int)
    ensures |Repeat(c, k)| == if k <= 0 then 0 else k
    ensures forall j :: 0 <= j < k ==> Repeat(c, k)[j] == c
  {
    if k > 0 {
      RepeatLength(c, k - 1);
    }
  }

  /** Printed numbers read back, whatever the padding. */
  lemma NumberReadsBack(n: nat, b: Radix, zero: bool, width: int, limit: nat)
    ensures Read(Skip(Padded(n, b, zero, width, limit)), b) == n
  {
    var ds := Digits(n, b);
    DigitsNumeral(n, b);
    FilledReads(ds, b, zero, Min(width, limit) - |ds|);
  }

  lemma FilledReads(ds: seq<nat>, b: Radix, zero: bool, k: int)
    requires ds != [] && forall j :: 0 <= j < |ds| ==> ds[j] < b.Size()
    ensures Read(Skip(Filled(ds, zero, k)), b) == Value(ds, b)
  {
    var t := Text(ds);
    ReadText(ds, b);
    TextFirst(ds);
    if zero {
      ZerosKept(k, t);
      ReadZeros(k, t, b);
    } else {
      SkipBlanks(k, t);
    }
  }

  lemma ZerosKept(k: int, t: seq<int>)
    requires t != [] && t[0] != BLANK as int
    ensures Skip(Repeat(ZERO as int, k) + t) == Repeat(ZERO as int, k) + t
  {
    if k > 0 {
      RepeatFront(ZERO as int, k);
    } else {
      assert Repeat(ZERO as int, k) + t == t;
    }
  }

  /** The length is the larger of the digit count and the width cut at the limit, and the
      digits at the end carry no leading zero. */
  lemma NumberShape(n: nat, b: Radix, zero: bool, width: int, limit: nat)
    ensures var t, ds := Padded(n, b, zero, width, limit), Digits(n, b);
      && |t| == Max(|ds|, Min(width, limit))
      && t[|t| - |ds|..] == Text(ds)
      && (forall j :: 0 <= j < |t| - |ds| ==> t[j] == Padding(zero))
      && (|ds| > 1 ==> t[|t| - |ds|] != ZERO)
  {
    var ds := Digits(n, b);
    DigitsNumeral(n, b);
    TextFirst(ds);
    RepeatLength(Padding(zero), Min(width, limit) - |ds|);
  }

  lemma {:induction false} TextFirst(ds: seq<nat>)
    requires ds != []
    ensures Text(ds)[0] == Glyph(ds[0])
  {
    if |ds| > 1 {
      TextFirst(ds[..|ds| - 1]);
    }
  }

  function Min(a: int, b: int): int { if a < b then a else b }

  function Max(a: int, b: int): int { if a > b then a else b }

  /* Laws of formats. */

  /** Running a concatenation is running one part after the other. */
  lemma {:induction false} RunConcat(o: Output, f: seq<U8>, g: seq<U8>, args: Args)
    ensures Run(o, f + g, args) == Run(Run(o, f, args), g, args)
  {
    if g == [] {
      assert f + g == f;
    } else {
      RunConcat(o, f, g[..|g| - 1], args);
      assert (f + g)[..|f + g| - 1] == f + g[..|g| - 1];
    }
  }

  /** The arguments left after the first k. */
  function After(args: Args, k: nat): Args { Args(i => args.word(k + i), args.text) }

  /** The output r, produced after o. */
  function Join(o: Output, r: Output): Output { Output(o.text + r.text, r.mode, o.used + r.used) }

  lemma NextShift(o: Output, r: Output, c: U8, args: Args)
    ensures Next(Join(o, r), c, args) == Join(o, Next(r, c, After(args, o.used)))
  {
    if r.mode.Directive? {
      var Directive(zero, width) := r.mode;
      assert After(args, o.used).word(r.used) == args.word(o.used + r.used);
      JoinText(o.text, r.text, Converted(c, zero, width, args.word(o.used + r.used), args.text));
    } else {
      JoinText(o.text, r.text, [c]);
    }
  }

  lemma JoinText(a: seq<int>, b: seq<int>, c: seq<int>)
    ensures a + b + c == a + (b + c)
  {
  }

  /** A run does not depend on what was produced before it. */
  lemma {:induction false} RunShift(o: Output, g: seq<U8>, args: Args)
    requires o.mode.Plain?
    ensures Run(o, g, args) == Join(o, Run(START, g, After(args, o.used)))
  {
    if g == [] {
      assert o.text + [] == o.text;
    } else {
      RunShift(o, g[..|g| - 1], args);
      NextShift(o, Run(START, g[..|g| - 1], After(args, o.used)), g[|g| - 1], args);
    }
  }

  predicate EndsPlain(f: seq<U8>) { Run(START, f, Args(_ => 0, _ => [])).mode.Plain? }

  /** The mode a format ends in does not depend on its arguments. */
  lemma {:induction false} ModeOnly(f: seq<U8>, args: Args, other: Args)
    ensures Run(START, f, args).mode == Run(START, f, other).mode
    ensures Run(START, f, args).used == Run(START, f, other).used
  {
    if f != [] {
      ModeOnly(f[..|f| - 1], args, other);
    }
  }

  /** The output of f + g, over all g, is the output of f followed by that of g on the
      remaining arguments, exactly when f ends outside a directive. */
  lemma {:induction false} ConcatExactly(f: seq<U8>, args: Args)
    ensures EndsPlain(f) <==>
      forall g :: Printed(f + g, args) == Printed(f, args) + Printed(g, After(args, Run(START, f, args).used))
  {
    var o := Run(START, f, args);
    ModeOnly(f, args, Args(_ => 0, _ => []));
    if EndsPlain(f) {
      forall g ensures Printed(f + g, args) == Printed(f, args) + Printed(g, After(args, o.used)) {
        RunConcat(START, f, g, args);
        RunShift(o, g, args);
      }
    } else {
      var g := [PERCENT];
      RunConcat(START, f, g, args);
      assert g[..0] == [];
      assert Run(o, g, args) == Next(o, PERCENT, args);
      assert Run(START, g, After(args, o.used)) == Next(START, PERCENT, After(args, o.used));
      assert Printed(f + g, args) == Printed(f, args) + [PERCENT as int];
      assert Printed(g, After(args, o.used)) == [];
    }
  }

  /** A width written as its decimal digits is read as that width. */
  lemma {:induction false} WidthRead(o: Output, ds: seq<nat>, args: Args)
    requires o.mode.Directive? && o.mode.width < 0
    requires ds != [] && ds[0] != 0 && forall j :: 0 <= j < |ds| ==> ds[j] < 10
    ensures Run(o, Bytes(ds), args) == o.(mode := Directive(o.mode.zero, Value(ds, Decimal)))
  {
    var init, last := ds[..|ds| - 1], ds[|ds| - 1];
    assert Bytes(ds)[..|ds| - 1] == Bytes(init);
    if init != [] {
      WidthRead(o, init, args);
    } else {
      assert Run(o, Bytes(init), args) == o && Value(init, Decimal) == 0;
    }
  }

  /** The characters of a number, as they stand in a format. */
  function Bytes(ds: seq<nat>): (t: seq<U8>)
    requires forall j :: 0 <= j < |ds| ==> ds[j] < 10
    ensures |t| == |ds|
  {
    if ds == [] then [] else Bytes(ds[..|ds| - 1]) + [ds[|ds| - 1] + 48]
  }

  /** Length modifiers change nothing. */
  lemma {:induction false} ModifiersRead(o: Output, mods: seq<U8>, args: Args)
    requires o.mode.Directive? && forall i :: 0 <= i < |mods| ==> KindOf(mods[i]) == Modifier
    ensures Run(o, mods, args) == o
  {
    if mods != [] {
      ModifiersRead(o, mods[..|mods| - 1], args);
    }
  }

  /** How a width is written; NO_WIDTH is not. */
  const NO_WIDTH := -1

  function WidthText(width: int): seq<U8>
    requires width == NO_WIDTH || width > 0
  {
    if width == NO_WIDTH then []
    else
      DigitsNumeral(width, Decimal);
      Bytes(Digits(width, Decimal))
  }

  /** The directive % [0] [width] [z l h]... c. */
  function DirectiveText(zero: bool, width: int, mods: seq<U8>, c: U8): seq<U8>
    requires width == NO_WIDTH || width > 0
  {
    [PERCENT] + (if zero then [ZERO] else []) + WidthText(width) + mods + [c]
  }

  lemma WidthTextRead(zero: bool, width: int, args: Args)
    requires width == NO_WIDTH || width > 0
    ensures Run(Output([], Directive(zero, -1), 0), WidthText(width), args) == Output([], Directive(zero, width), 0)
  {
    if width != NO_WIDTH {
      var ds := Digits(width, Decimal);
      DigitsNumeral(width, Decimal);
      assert ds[0] != 0 by { if |ds| == 1 { assert Value(ds[..0], Decimal) == 0; } }
      WidthRead(Output([], Directive(zero, -1), 0), ds, args);
    }
  }

  /** The letters d i u p x X s c, which take an argument. */
  predicate Converts(c: U8) { c in {100, 105, 117, 112, 120, 88, 115, 99} }

  /** The letters z l h. */
  predicate Modifies(c: U8) { c in {122, 108, 104} }

  /** A character that ends a directive. */
  predicate Ends(c: U8) { !(48 <= c <= 57) && !Modifies(c) }

  lemma SignedLetters(c: U8, zero: bool, width: int, arg: U32, text: U32 -> CText)
    requires c in {100, 105}
    ensures Converted(c, zero, width, arg, text) ==
      if arg >= 0x8000_0000 then [45] + Padded(0x1_0000_0000 - arg, Decimal, zero, width - 1, 10)
      else Padded(arg, Decimal, zero, width, 10)
  {
    assert KindOf(c) == Int;
  }

  lemma NumberLetters(c: U8, zero: bool, width: int, arg: U32, text: U32 -> CText)
    ensures c == 117 ==> Converted(c, zero, width, arg, text) == Padded(arg, Decimal, zero, width, 10)
    ensures c in {120, 88} ==> Converted(c, zero, width, arg, text) == Padded(arg, Hexadecimal, zero, width, 8)
    ensures c == 112 ==> Converted(c, zero, width, arg, text) == [48, 120] + Padded(arg, Hexadecimal, true, 8, 8)
  {
    if c in {120, 88} { assert KindOf(c) == HexWord; }
  }

  lemma OtherLetters(c: U8, zero: bool, width: int, arg: U32, text: U32 -> CText)
    ensures c == 115 ==> Converted(c, zero, width, arg, text) == text(arg)
    ensures c == 99 ==>
      Converted(c, zero, width, arg, text) == [if arg >= 0x8000_0000 then arg - 0x1_0000_0000 else arg]
    ensures c == 37 ==> Converted(c, zero, width, arg, text) == [37]
    ensures Ends(c) && !Converts(c) && c != 37 ==> Converted(c, zero, width, arg, text) == [37, c]
  {
    if Ends(c) && !Converts(c) && c != 37 { assert KindOf(c) == Other; }
  }

  /** What a directive prints, letter by letter: d and i a signed number, u an unsigned one,
      both decimal in at most ten columns; x and X a hexadecimal one in at most eight, p one
      of eight digits behind 0x; s a string; c a character; %% a percent sign; and any other
      letter the percent sign and itself. */
  lemma Letters(c: U8, zero: bool, width: int, arg: U32, text: U32 -> CText)
    ensures var out := Converted(c, zero, width, arg, text);
      && (c in {100, 105} ==> out == if arg >= 0x8000_0000
                                     then [45] + Padded(0x1_0000_0000 - arg, Decimal, zero, width - 1, 10)
                                     else Padded(arg, Decimal, zero, width, 10))
      && (c == 117 ==> out == Padded(arg, Decimal, zero, width, 10))
      && (c in {120, 88} ==> out == Padded(arg, Hexadecimal, zero, width, 8))
      && (c == 112 ==> out == [48, 120] + Padded(arg, Hexadecimal, true, 8, 8))
      && (c == 115 ==> out == text(arg))
      && (c == 99 ==> out == [if arg >= 0x8000_0000 then arg - 0x1_0000_0000 else arg])
      && (c == 37 ==> out == [37])
      && (Ends(c) && !Converts(c) && c != 37 ==> out == [37, c])
  {
    if c in {100, 105} { SignedLetters(c, zero, width, arg, text); }
    NumberLetters(c, zero, width, arg, text);
    OtherLetters(c, zero, width, arg, text);
  }

  /** A directive prints its argument in its width, for every flag, width, run of modifiers
      and conversion, and takes one argument exactly if it is one of the eight letters. */
  lemma DirectiveMeaning(zero: bool, width: int, mods: seq<U8>, c: U8, args: Args)
    requires (width == NO_WIDTH || width > 0) && Ends(c)
    requires forall i :: 0 <= i < |mods| ==> Modifies(mods[i])
    ensures Run(START, DirectiveText(zero, width, mods, c), args)
         == Output(Converted(c, zero, width, args.word(0), args.text), Plain, if Converts(c) then 1 else 0)
  {
    var flag := if zero then [ZERO] else [];
    var head := [PERCENT] + flag;
    var begun, flagged := Output([], Directive(false, -1), 0), Output([], Directive(zero, -1), 0);
    assert Run(START, [PERCENT], args) == begun by { assert [PERCENT][..0] == []; }
    assert Run(begun, flag, args) == flagged by { assert [ZERO][..0] == []; }
    RunConcat(START, [PERCENT], flag, args);
    RunConcat(START, head, WidthText(width), args);
    WidthTextRead(zero, width, args);
    RunConcat(START, head + WidthText(width), mods, args);
    ModifiersRead(Output([], Directive(zero, width), 0), mods, args);
    RunConcat(START, head + WidthText(width) + mods, [c], args);
    assert [c][..0] == [];
  }

  /** A part of a format: plain text, or a directive. */
  datatype Piece = Lit(text: seq<U8>) | Conv(zero: bool, width: int, mods: seq<U8>, c: U8)

  predicate PieceOk(p: Piece) {
    match p
    case Lit(text) => 37 !in text
    case Conv(_, width, mods, c) =>
      (width == NO_WIDTH || width > 0) && Ends(c) && forall i :: 0 <= i < |mods| ==> Modifies(mods[i])
  }

  function PieceText(p: Piece): seq<U8>
    requires PieceOk(p)
  {
    match p case Lit(text) => text case Conv(zero, width, mods, c) => DirectiveText(zero, width, mods, c)
  }

  /** What a part prints, given the next argument. */
  function PieceOutput(p: Piece, arg: U32, text: U32 -> CText): seq<int> {
    match p case Lit(text) => text case Conv(zero, width, _, c) => Converted(c, zero, width, arg, text)
  }

  function FormatText(pieces: seq<Piece>): seq<U8>
    requires forall i :: 0 <= i < |pieces| ==> PieceOk(pieces[i])
  {
    if pieces == [] then [] else FormatText(pieces[..|pieces| - 1]) + PieceText(pieces[|pieces| - 1])
  }

  /** How many parts take an argument. */
  function Conversions(pieces: seq<Piece>): nat {
    if pieces == [] then 0
    else
      var last := pieces[|pieces| - 1];
      Conversions(pieces[..|pieces| - 1]) + if last.Conv? && Converts(last.c) then 1 else 0
  }

  /** The parts in order, each with the argument that comes after those of the parts before. */
  function Expected(pieces: seq<Piece>, args: Args): seq<int> {
    if pieces == [] then []
    else
      var front, last := pieces[..|pieces| - 1], pieces[|pieces| - 1];
      Expected(front, args) + PieceOutput(last, args.word(Conversions(front)), args.text)
  }

  lemma {:induction false} PlainRun(text: seq<U8>, args: Args)
    requires 37 !in text
    ensures Run(START, text, args) == Output(text, Plain, 0)
  {
    if text != [] {
      PlainRun(text[..|text| - 1], args);
      assert text == text[..|text| - 1] + [text[|text| - 1]];
    }
  }

  lemma PieceRun(p: Piece, args: Args)
    requires PieceOk(p)
    ensures Run(START, PieceText(p), args)
         == Output(PieceOutput(p, args.word(0), args.text), Plain, if p.Conv? && Converts(p.c) then 1 else 0)
  {
    match p
    case Lit(text) => PlainRun(text, args);
    case Conv(zero, width, mods, c) => DirectiveMeaning(zero, width, mods, c, args);
  }

  lemma PieceAfter(o: Output, p: Piece, args: Args)
    requires PieceOk(p) && o.mode == Plain
    ensures Run(o, PieceText(p), args)
         == Output(o.text + PieceOutput(p, args.word(o.used), args.text), Plain,
                   o.used + if p.Conv? && Converts(p.c) then 1 else 0)
  {
    var rest := After(args, o.used);
    assert rest.word(0) == args.word(o.used);
    PieceRun(p, rest);
    ShiftedPlain(o, PieceText(p), args, PieceOutput(p, rest.word(0), rest.text),
                 if p.Conv? && Converts(p.c) then 1 else 0);
  }

  lemma ShiftedPlain(o: Output, fmt: seq<U8>, args: Args, out: seq<int>, n: nat)
    requires o.mode == Plain && Run(START, fmt, After(args, o.used)) == Output(out, Plain, n)
    ensures Run(o, fmt, args) == Output(o.text + out, Plain, o.used + n)
  {
    RunShift(o, fmt, args);
  }

  /** What a whole format prints: its parts in order, the j-th directive that takes an
      argument with the j-th argument. */
  lemma {:induction false} FormatMeaning(pieces: seq<Piece>, args: Args)
    requires forall i :: 0 <= i < |pieces| ==> PieceOk(pieces[i])
    ensures Run(START, FormatText(pieces), args) == Output(Expected(pieces, args), Plain, Conversions(pieces))
  {
    if pieces != [] {
      var front, last := pieces[..|pieces| - 1], pieces[|pieces| - 1];
      FormatMeaning(front, args);
      RunConcat(START, FormatText(front), PieceText(last), args);
      PieceAfter(Output(Expected(front, args), Plain, Conversions(front)), last, args);
    }
  }

  /** How 0xBEEF and 90210 are spelled. */
  lemma SpelledHex()
    ensures Padded(0xBEEF, Hexadecimal, false, NO_WIDTH, 8) == [98, 101, 101, 102]
  {
    assert Digits(0xBE, Hexadecimal) == [11, 14];
    assert Digits(0xBEEF, Hexadecimal) == [11, 14] + [14] + [15];
    TextSnoc([11, 14] + [14], 15);
    TextSnoc([11, 14], 14);
    TextSnoc([11], 14);
    TextSnoc([], 11);
  }

  lemma SpelledDecimal()
    ensures Padded(90210, Decimal, true, 7, 10) == [48, 48, 57, 48, 50, 49, 48]
  {
    assert Digits(90, Decimal) == [9, 0];
    assert Digits(90210, Decimal) == [9, 0] + [2] + [1] + [0];
    TextSnoc([9, 0] + [2] + [1], 0);
    TextSnoc([9, 0] + [2], 1);
    TextSnoc([9, 0], 2);
    TextSnoc([9], 0);
    TextSnoc([], 9);
    assert Repeat(ZERO as int, 2) == [48, 48];
  }

  /** So a printed signed number reads back as itself, sign and all. */
  lemma SignedReadsBack(w: U32, zero: bool, width: int)
    ensures var t := Signed(w, zero, width);
      Signed32(w) == if t != [] && t[0] == MINUS then 0 - Read(Skip(t[1..]), Decimal) else Read(Skip(t), Decimal)
  {
    if Signed32(w) < 0 {
      NumberReadsBack(0 - Signed32(w), Decimal, zero, width - 1, 10);
      assert Signed(w, zero, width)[1..] == Unsigned(0 - Signed32(w), zero, width - 1);
    } else {
      NumberReadsBack(w, Decimal, zero, width, 10);
      UnsignedFirst(w, zero, width);
    }
  }

  lemma UnsignedFirst(w: U32, zero: bool, width: int)
    ensures Unsigned(w, zero, width) != [] && Unsigned(w, zero, width)[0] != MINUS
  {
    var ds := Digits(w, Decimal);
    DigitsNumeral(w, Decimal);
    TextFirst(ds);
    var k := Min(width, 10) - |ds|;
    RepeatLength(Padding(zero), k);
    if k > 0 {
      RepeatFront(Padding(zero), k);
    }
  }
}

/** The inter-processor console: drivers/console/ipm_console_sender.c feeds characters
    through a mailbox interrupt into drivers/console/ipm_console_receiver.c, whose interrupt
    callback and thread share a ring buffer, a semaphore and a channel-disabled flag. */
module IpmConsole {
  import opened CTypes
  import opened RingLayout
  import opened RingBuffer
  import opened CStrings

  const CR := 13
  const LF := 10
  const SEM_LIMIT := 0xFFFF_FFFF

  /** Ring size in words, line buffer size in bytes, and whether the interrupt lock really
      keeps the mailbox callback out (it does on hardware; a callback run synchronously by
      ipm_set_enabled would ignore it). */
  datatype Config = Config(ringSize: nat, lineSize: nat, masked: bool) {
    predicate Valid() { 2 <= ringSize <= 0x4000_0000 && 2 <= lineSize }
  }

  /** Where the thread stands in its loop: blocked on the semaphore, copying the oldest
      item, advancing the head, handling the character, testing the flag, enabling the
      channel, or (still with interrupts locked) about to clear the flag. */
  datatype Pc = Take | Fetch | Advance | Handle | Test | Enable | Clear

  /** A printed line, and whether a newline ended it before the buffer was full. */
  datatype Line = Line(text: seq<U8>, newline: bool)

  /** The line buffer, the fill position and the lines printed so far. */
  datatype Printer = Printer(buf: seq<U8>, pos: nat, printed: seq<Line>)

  datatype State = State(
    words: seq<Word>, head: nat, tail: nat, dropped: nat,
    sem: nat, open: bool, disabled: bool,
    pc: Pc, size32: U8, line: Printer, errors: nat,
    offered: seq<int>, consumed: seq<U8>)

  /** consoleOut of a character, or one step of the receiver thread. */
  datatype Step = Offer(c: int) | Thread

  ghost predicate Initial(cfg: Config, s: State) {
    && cfg.Valid() && |s.words| == cfg.ringSize && |s.line.buf| == cfg.lineSize
    && s.head == s.tail == s.dropped == s.sem == s.size32 == s.line.pos == s.errors == 0
    && s.open && !s.disabled && s.pc == Take
    && s.offered == [] && s.consumed == [] && s.line.printed == []
  }

  /** A carriage return never reaches the mailbox; any other character waits until the
      channel is open and its interrupt can be taken. */
  predicate Enabled(cfg: Config, s: State, step: Step) {
    && s.head < |s.words| && s.tail < |s.words| && s.line.pos + 1 < |s.line.buf|
    && match step
       case Offer(c) => c == CR || (s.open && !(cfg.masked && s.pc == Clear))
       case Thread => s.pc == Take ==> s.sem > 0
  }

  /** ipm_console_receive_callback: store the low byte of the id, give the semaphore, and
      close the channel if the buffer is now full. */
  function Receive(s: State, c: int): State
    requires s.head < |s.words| && s.tail < |s.words|
  {
    var room := Space(|s.words|, s.head, s.tail) >= 1;
    var words := if room then s.words[s.tail := Pack(Header(0, 0, c % 0x100))] else s.words;
    var tail := if room then Wrap(s.tail + 1, |s.words|) else s.tail;
    var full := Space(|words|, s.head, tail) == 0;
    s.(words := words, tail := tail, dropped := if room then s.dropped else s.dropped + 1,
       sem := if s.sem != SEM_LIMIT then s.sem + 1 else s.sem,
       open := s.open && !full, disabled := s.disabled || full,
       offered := s.offered + [c])
  }

  /** The character handling of ipm_console_thread: the newest character is at pos. */
  function HandleChar(lineSize: nat, p: Printer): Printer
    requires p.pos + 1 < |p.buf|
  {
    if p.buf[p.pos] == LF || p.pos == lineSize - 2 then
      var early := p.pos != lineSize - 2;
      var buf := p.buf[if early then p.pos else p.pos + 1 := 0];
      Printer(buf, 0, p.printed + [Line(CString(buf), early)])
    else
      p.(pos := p.pos + 1)
  }

  function Next(cfg: Config, s: State, step: Step): State
    requires Enabled(cfg, s, step)
  {
    match step
    case Offer(c) => if c == CR then s.(offered := s.offered + [c]) else Receive(s, c)
    case Thread =>
      match s.pc
      case Take => s.(sem := s.sem - 1, pc := Fetch)
      case Fetch =>
        var header := Unpack(s.words[s.head]);
        if s.head == s.tail || header.length > s.size32 then
          s.(errors := s.errors + 1, size32 := 0, pc := Take)
        else
          s.(line := s.line.(buf := s.line.buf[s.line.pos := header.value]), size32 := header.length,
             consumed := s.consumed + [header.value], pc := Advance)
      case Advance => s.(head := (s.head + Unpack(s.words[s.head]).length + 1) % |s.words|, pc := Handle)
      case Handle => s.(line := HandleChar(cfg.lineSize, s.line), pc := Test)
      case Test =>
        s.(pc := if s.disabled && Space(|s.words|, s.head, s.tail) > 0 then Enable else Take)
      case Enable => s.(open := true, pc := Clear)
      case Clear => s.(disabled := false, pc := Take)
  }

  ghost predicate Run(cfg: Config, s: State, steps: seq<Step>, t: State)
    decreases |steps|
  {
    if steps == [] then s == t
    else Enabled(cfg, s, steps[0]) && Run(cfg, Next(cfg, s, steps[0]), steps[1..], t)
  }

  ghost predicate Reachable(cfg: Config, t: State) {
    exists s, steps :: Initial(cfg, s) && Run(cfg, s, steps, t)
  }

  // ---------------------------------------------------------------- what should happen

  /** The bytes the mailbox carries for a sequence of console characters. */
  function Sent(offered: seq<int>): seq<U8> {
    if offered == [] then []
    else
      var rest, c := Sent(offered[..|offered| - 1]), offered[|offered| - 1];
      if c == CR then rest else rest + [c % 0x100]
  }

  /** Characters are carried one by one: a carriage return (13) not at all, any other as its
      low byte. */
  lemma {:induction false} SentParts(a: seq<int>, b: seq<int>, c: int)
    ensures Sent(a + b) == Sent(a) + Sent(b)
    ensures Sent([c]) == if c == 13 then [] else [c % 256]
  {
    if b == [] {
      assert a + b == a;
    } else {
      SentParts(a, b[..|b| - 1], c);
      assert (a + b)[..|a + b| - 1] == a + b[..|b| - 1];
    }
    assert [c][..0] == [];
  }

  /** Lines cut out of a byte stream, and the bytes of the unfinished line. */
  datatype Text = Text(lines: seq<Line>, rest: seq<U8>)

  /** A line ends at a newline, which is dropped, or at lineSize - 1 bytes, all kept. */
  function Cut(lineSize: nat, t: Text, b: U8): Text {
    if |t.rest| + 2 == lineSize then Text(t.lines + [Line(t.rest + [b], false)], [])
    else if b == LF then Text(t.lines + [Line(t.rest, true)], [])
    else Text(t.lines, t.rest + [b])
  }

  function Split(lineSize: nat, bytes: seq<U8>): (t: Text)
    requires lineSize >= 2
    ensures |t.rest| <= lineSize - 2
  {
    if bytes == [] then Text([], []) else Cut(lineSize, Split(lineSize, bytes[..|bytes| - 1]), bytes[|bytes| - 1])
  }

  function Glue(lines: seq<Line>): seq<U8> {
    if lines == [] then []
    else
      var last := lines[|lines| - 1];
      Glue(lines[..|lines| - 1]) + last.text + (if last.newline then [LF] else [])
  }

  lemma GlueAppend(lines: seq<Line>, l: Line)
    ensures Glue(lines + [l]) == Glue(lines) + l.text + (if l.newline then [LF] else [])
  {
    assert (lines + [l])[..|lines|] == lines;
  }

  /** Splitting loses nothing. */
  lemma {:induction false} GlueSplit(lineSize: nat, bytes: seq<U8>)
    requires lineSize >= 2
    ensures Glue(Split(lineSize, bytes).lines) + Split(lineSize, bytes).rest == bytes
  {
    if bytes != [] {
      var front, b := bytes[..|bytes| - 1], bytes[|bytes| - 1];
      GlueSplit(lineSize, front);
      GlueCut(lineSize, Split(lineSize, front), b);
      assert bytes == front + [b];
    }
  }

  lemma GlueCut(lineSize: nat, t: Text, b: U8)
    ensures var u := Cut(lineSize, t, b); Glue(u.lines) + u.rest == Glue(t.lines) + t.rest + [b]
  {
    GlueAppend(t.lines, Line(t.rest + [b], false));
    GlueAppend(t.lines, Line(t.rest, true));
  }

  /** A line out of a buffer of n bytes: one that a newline (10) ended early, or one that
      filled the buffer up to its terminator, with a newline at most in the last place. */
  predicate LineOk(n: nat, l: Line)
    requires n >= 2
  {
    if l.newline then |l.text| < n - 2 && 10 !in l.text
    else |l.text| == n - 1 && 10 !in l.text[..n - 2]
  }

  /** The lines are such lines, and the rest is one that is not complete yet. */
  ghost predicate WellCut(n: nat, t: Text)
    requires n >= 2
  {
    (forall i :: 0 <= i < |t.lines| ==> LineOk(n, t.lines[i])) && |t.rest| < n - 1 && 10 !in t.rest
  }

  lemma CutWell(n: nat, t: Text, b: U8)
    requires n >= 2 && WellCut(n, t)
    ensures WellCut(n, Cut(n, t, b))
  {
    if |t.rest| + 2 == n { assert (t.rest + [b])[..n - 2] == t.rest; }
  }

  lemma {:induction false} SplitWell(n: nat, bytes: seq<U8>)
    requires n >= 2
    ensures WellCut(n, Split(n, bytes))
  {
    if bytes != [] {
      SplitWell(n, bytes[..|bytes| - 1]);
      CutWell(n, Split(n, bytes[..|bytes| - 1]), bytes[|bytes| - 1]);
    }
  }

  function LineBytes(l: Line): seq<U8> { l.text + if l.newline then [LF] else [] }

  lemma {:induction false} GlueFirst(lines: seq<Line>)
    requires lines != []
    ensures Glue(lines) == LineBytes(lines[0]) + Glue(lines[1..])
  {
    if |lines| > 1 {
      var front := lines[..|lines| - 1];
      GlueFirst(front);
      assert lines[1..][..|lines| - 2] == front[1..];
    }
  }

  lemma GlueJoin(a: seq<U8>, b: seq<U8>, c: seq<U8>)
    ensures a + b + c == a + (b + c)
  {
  }

  /** Where a line ends shows in the bytes that start with it. */
  lemma LineEnds(n: nat, l: Line, a: seq<U8>)
    requires n >= 2 && LineOk(n, l)
    ensures var bytes := LineBytes(l) + a;
      && |LineBytes(l)| <= |bytes| && bytes[..|l.text|] == l.text
      && (forall i :: 0 <= i < |l.text| && i < n - 2 ==> bytes[i] != 10)
      && (l.newline ==> bytes[|l.text|] == 10)
  {
    var bytes := LineBytes(l) + a;
    forall i | 0 <= i < |l.text| && i < n - 2 ensures bytes[i] != 10 {
      assert bytes[i] == l.text[i];
      if !l.newline { assert l.text[..n - 2][i] == l.text[i]; }
    }
  }

  /** The first line is determined by the bytes that start with it. */
  lemma FirstLine(n: nat, l: Line, m: Line, a: seq<U8>, b: seq<U8>)
    requires n >= 2 && LineOk(n, l) && LineOk(n, m) && LineBytes(l) + a == LineBytes(m) + b
    ensures l == m && a == b
  {
    var bytes := LineBytes(l) + a;
    LineEnds(n, l, a);
    LineEnds(n, m, b);
    assert |l.text| == |m.text|;
    assert a == bytes[|LineBytes(l)|..] && b == bytes[|LineBytes(m)|..];
  }

  /** A rest is not the start of a line. */
  lemma RestOrLine(n: nat, rest: seq<U8>, m: Line, b: seq<U8>)
    requires n >= 2 && |rest| < n - 1 && 10 !in rest && LineOk(n, m)
    ensures rest != LineBytes(m) + b
  {
    LineEnds(n, m, b);
    var bytes := LineBytes(m) + b;
    assert m.newline ==> bytes[|m.text|] in bytes;
  }

  /** There is one way to cut a stream of bytes into such lines. */
  lemma {:induction false} CutUnique(n: nat, t: Text, u: Text)
    requires n >= 2 && WellCut(n, t) && WellCut(n, u) && Glue(t.lines) + t.rest == Glue(u.lines) + u.rest
    ensures t == u
    decreases |t.lines|
  {
    if t.lines == [] && u.lines != [] {
      GlueFirst(u.lines);
      GlueJoin(LineBytes(u.lines[0]), Glue(u.lines[1..]), u.rest);
      RestOrLine(n, t.rest, u.lines[0], Glue(u.lines[1..]) + u.rest);
    } else if t.lines != [] && u.lines == [] {
      GlueFirst(t.lines);
      GlueJoin(LineBytes(t.lines[0]), Glue(t.lines[1..]), t.rest);
      RestOrLine(n, u.rest, t.lines[0], Glue(t.lines[1..]) + t.rest);
    } else if t.lines != [] {
      GlueFirst(t.lines);
      GlueFirst(u.lines);
      var a, b := Glue(t.lines[1..]) + t.rest, Glue(u.lines[1..]) + u.rest;
      GlueJoin(LineBytes(t.lines[0]), Glue(t.lines[1..]), t.rest);
      GlueJoin(LineBytes(u.lines[0]), Glue(u.lines[1..]), u.rest);
      FirstLine(n, t.lines[0], u.lines[0], a, b);
      CutUnique(n, Text(t.lines[1..], t.rest), Text(u.lines[1..], u.rest));
      assert t.lines == [t.lines[0]] + t.lines[1..] && u.lines == [u.lines[0]] + u.lines[1..];
    } else {
      assert Glue([]) + t.rest == t.rest && Glue([]) + u.rest == u.rest;
    }
  }

  /** What printing the lines as C strings shows. */
  function Shown(lines: seq<Line>): seq<Line> {
    if lines == [] then []
    else
      var last := lines[|lines| - 1];
      Shown(lines[..|lines| - 1]) + [Line(CString(last.text), last.newline)]
  }

  // ---------------------------------------------------------------- invariant

  ghost predicate Plain(q: seq<Item>) {
    forall i :: 0 <= i < |q| ==> q[i].tag == 0 && q[i].data == []
  }

  function Bytes(q: seq<Item>): (b: seq<U8>)
    ensures |b| == |q| && forall i :: 0 <= i < |q| ==> b[i] == q[i].value
  {
    seq(|q|, i requires 0 <= i < |q| => q[i].value)
  }

  lemma {:induction false} PlainLength(q: seq<Item>)
    requires Plain(q)
    ensures |Flatten(q)| == |q|
  {
    if q != [] { PlainLength(q[1..]); }
  }

  /** One if the thread has taken the semaphore for an item it has not yet removed. */
  function InHand(s: State): nat { if s.pc == Fetch || s.pc == Advance then 1 else 0 }

  ghost predicate FlowInv(cfg: Config, s: State, q: seq<Item>) {
    && cfg.Valid() && |s.words| == cfg.ringSize
    && Holds(s.words, s.head, s.tail, q) && Plain(q)
    && s.dropped == 0 && s.errors == 0 && s.size32 == 0
    && |q| == Used(|s.words|, s.head, s.tail) == s.sem + InHand(s)
    && (s.disabled <==> !s.open || s.pc == Clear)
    && (!s.disabled ==> |q| <= cfg.ringSize - 2)
    && (s.pc == Enable || s.pc == Clear ==> s.disabled && |q| <= cfg.ringSize - 2)
    && (s.pc == Clear ==> s.open)
    && (s.disabled && s.pc in {Take, Fetch, Advance} ==> |q| == cfg.ringSize - 1)
  }

  /** What was sent is what was consumed followed by what is queued. */
  ghost predicate StreamInv(offered: seq<int>, consumed: seq<U8>, left: seq<Item>) {
    Sent(offered) == consumed + Bytes(left)
  }

  /** The line buffer and the printed lines are those of the consumed bytes; midway means
      that the last consumed byte is in the buffer but not yet handled. */
  ghost predicate TextInv(lineSize: nat, p: Printer, midway: bool, consumed: seq<U8>) {
    && 2 <= lineSize == |p.buf| && p.pos <= lineSize - 2
    && (midway ==> consumed != [] && p.buf[p.pos] == consumed[|consumed| - 1])
    && Shows(p, Split(lineSize, if midway then consumed[..|consumed| - 1] else consumed))
  }

  ghost predicate Shows(p: Printer, text: Text) {
    p.pos <= |p.buf| && text.rest == p.buf[..p.pos] && p.printed == Shown(text.lines)
  }

  function Left(s: State, q: seq<Item>): seq<Item> { if s.pc == Advance && q != [] then q[1..] else q }

  predicate Midway(s: State) { s.pc == Advance || s.pc == Handle }

  ghost predicate LineInv(cfg: Config, s: State, q: seq<Item>) {
    && StreamInv(s.offered, s.consumed, Left(s, q))
    && TextInv(cfg.lineSize, s.line, Midway(s), s.consumed)
  }

  // ---------------------------------------------------------------- preservation

  lemma PlainPutGet(cfg: Config, s: State, q: seq<Item>)
    requires FlowInv(cfg, s, q)
    ensures q != [] <==> s.head != s.tail
    ensures q != [] ==> Unpack(s.words[s.head]) == Header(0, 0, q[0].value)
    ensures q != [] ==> Holds(s.words, Wrap(s.head + 1, |s.words|), s.tail, q[1..])
  {
    HoldsEmpty(s.words, s.head, s.tail, q);
    if q != [] {
      HoldsRemove(s.words, s.head, s.tail, q);
      assert |Encode(q[0])| == 1;
    }
  }

  lemma ReceiveStores(cfg: Config, s: State, q: seq<Item>, c: int)
    requires FlowInv(cfg, s, q) && |q| <= cfg.ringSize - 2
    ensures var t := Receive(s, c);
            && Holds(t.words, t.head, t.tail, q + [Item(0, c % 0x100, [])])
            && t.dropped == 0 && Used(|t.words|, t.head, t.tail) == |q| + 1
  {
    var r: Item := Item(0, c % 0x100, []);
    var t := Receive(s, c);
    assert Encode(r) == [Pack(Header(0, 0, c % 0x100))];
    StoredStep(s.words, s.head, s.tail, q, Encode(r), 0);
    HoldsAppend(t.words, s.head, s.tail, q, r);
  }

  /** What q becomes when a step is taken. */
  function Queue(s: State, q: seq<Item>, step: Step): seq<Item> {
    match step
    case Offer(c) => if c == CR then q else q + [Item(0, c % 0x100, [])]
    case Thread => if s.pc == Advance && q != [] then q[1..] else q
  }

  lemma FlowOffer(cfg: Config, s: State, q: seq<Item>, c: int)
    requires FlowInv(cfg, s, q) && s.open && c != CR
    requires s.pc != Clear || Receive(s, c).open
    ensures FlowInv(cfg, Receive(s, c), q + [Item(0, c % 0x100, [])])
  {
    ReceiveStores(cfg, s, q, c);
  }

  lemma FlowAdvance(cfg: Config, s: State, q: seq<Item>)
    requires FlowInv(cfg, s, q) && Enabled(cfg, s, Thread) && s.pc == Advance
    ensures q != [] && FlowInv(cfg, Next(cfg, s, Thread), q[1..])
  {
    PlainPutGet(cfg, s, q);
    ModIsWrap(s.head + 1, |s.words|);
    HoldsUsed(s.words, Wrap(s.head + 1, |s.words|), s.tail, q[1..]);
    PlainLength(q[1..]);
  }

  lemma FlowRest(cfg: Config, s: State, q: seq<Item>)
    requires FlowInv(cfg, s, q) && Enabled(cfg, s, Thread) && s.pc != Advance
    ensures FlowInv(cfg, Next(cfg, s, Thread), q)
  {
    PlainPutGet(cfg, s, q);
  }

  /** Flow control: with interrupts masked, every step keeps the invariant. */
  lemma FlowStep(cfg: Config, s: State, q: seq<Item>, step: Step)
    requires FlowInv(cfg, s, q) && Enabled(cfg, s, step) && (cfg.masked || s.pc != Clear)
    ensures FlowInv(cfg, Next(cfg, s, step), Queue(s, q, step))
  {
    if step == Thread {
      if s.pc == Advance { FlowAdvance(cfg, s, q); } else { FlowRest(cfg, s, q); }
    } else if step.c != CR {
      FlowOffer(cfg, s, q, step.c);
    }
  }

  lemma HoldsUsed(words: seq<Word>, head: nat, tail: nat, q: seq<Item>)
    requires Holds(words, head, tail, q)
    ensures Used(|words|, head, tail) == |Flatten(q)|
  {
  }

  lemma StreamOffer(offered: seq<int>, consumed: seq<U8>, left: seq<Item>, c: int)
    requires StreamInv(offered, consumed, left)
    ensures StreamInv(offered + [c], consumed, if c == CR then left else left + [Item(0, c % 0x100, [])])
  {
    assert (offered + [c])[..|offered|] == offered;
    if c != CR {
      assert Bytes(left + [Item(0, c % 0x100, [])]) == Bytes(left) + [c % 0x100];
    }
  }

  lemma StreamFetch(offered: seq<int>, consumed: seq<U8>, left: seq<Item>)
    requires StreamInv(offered, consumed, left) && left != []
    ensures StreamInv(offered, consumed + [left[0].value], left[1..])
  {
    assert Bytes(left) == [left[0].value] + Bytes(left[1..]);
  }

  lemma TextFetch(lineSize: nat, p: Printer, consumed: seq<U8>, b: U8)
    requires TextInv(lineSize, p, false, consumed)
    ensures TextInv(lineSize, p.(buf := p.buf[p.pos := b]), true, consumed + [b])
  {
    assert (consumed + [b])[..|consumed|] == consumed;
    assert p.buf[p.pos := b][..p.pos] == p.buf[..p.pos];
  }

  /** The buffer-level line handling is one cut of the text. */
  lemma HandleCuts(lineSize: nat, p: Printer, text: Text)
    requires 2 <= lineSize == |p.buf| && p.pos <= lineSize - 2 && Shows(p, text)
    ensures Shows(HandleChar(lineSize, p), Cut(lineSize, text, p.buf[p.pos]))
  {
    var t, b := HandleChar(lineSize, p), p.buf[p.pos];
    if p.pos == lineSize - 2 {
      assert t.buf[..p.pos + 1] == text.rest + [b];
      ShownAppend(text.lines, t.buf, p.pos + 1, false);
    } else if b == LF {
      assert t.buf[..p.pos] == text.rest;
      ShownAppend(text.lines, t.buf, p.pos, true);
    } else {
      assert t.buf[..t.pos] == text.rest + [b];
    }
  }

  lemma TextHandle(lineSize: nat, p: Printer, consumed: seq<U8>)
    requires TextInv(lineSize, p, true, consumed)
    ensures TextInv(lineSize, HandleChar(lineSize, p), false, consumed)
  {
    HandleCuts(lineSize, p, Split(lineSize, consumed[..|consumed| - 1]));
  }

  lemma LineOffer(cfg: Config, s: State, q: seq<Item>, c: int)
    requires LineInv(cfg, s, q) && Enabled(cfg, s, Offer(c)) && (s.pc == Advance ==> q != [])
    ensures LineInv(cfg, Next(cfg, s, Offer(c)), Queue(s, q, Offer(c)))
  {
    StreamOffer(s.offered, s.consumed, Left(s, q), c);
    var r: Item := Item(0, c % 0x100, []);
    if c != CR && s.pc == Advance { assert (q + [r])[1..] == q[1..] + [r]; }
  }

  lemma LineFetch(cfg: Config, s: State, q: seq<Item>)
    requires FlowInv(cfg, s, q) && LineInv(cfg, s, q) && Enabled(cfg, s, Thread) && s.pc == Fetch
    ensures LineInv(cfg, Next(cfg, s, Thread), q)
  {
    PlainPutGet(cfg, s, q);
    StreamFetch(s.offered, s.consumed, q);
    TextFetch(cfg.lineSize, s.line, s.consumed, q[0].value);
  }

  lemma LineHandle(cfg: Config, s: State, q: seq<Item>)
    requires LineInv(cfg, s, q) && Enabled(cfg, s, Thread) && s.pc == Handle
    ensures LineInv(cfg, Next(cfg, s, Thread), q)
  {
    TextHandle(cfg.lineSize, s.line, s.consumed);
  }

  lemma LineRest(cfg: Config, s: State, q: seq<Item>)
    requires LineInv(cfg, s, q) && Enabled(cfg, s, Thread) && s.pc !in {Fetch, Handle}
    ensures LineInv(cfg, Next(cfg, s, Thread), Queue(s, q, Thread))
  {
    var t := Next(cfg, s, Thread);
    assert t.offered == s.offered && t.consumed == s.consumed && t.line == s.line;
    assert Midway(t) == Midway(s) && Left(t, Queue(s, q, Thread)) == Left(s, q);
  }

  /** The line handling keeps its invariant at every step. */
  lemma LineStep(cfg: Config, s: State, q: seq<Item>, step: Step)
    requires FlowInv(cfg, s, q) && LineInv(cfg, s, q) && Enabled(cfg, s, step)
    ensures LineInv(cfg, Next(cfg, s, step), Queue(s, q, step))
  {
    if step.Offer? {
      LineOffer(cfg, s, q, step.c);
    } else if s.pc == Fetch {
      LineFetch(cfg, s, q);
    } else if s.pc == Handle {
      LineHandle(cfg, s, q);
    } else {
      LineRest(cfg, s, q);
    }
  }

  lemma ShownAppend(lines: seq<Line>, buf: seq<U8>, k: nat, newline: bool)
    requires k < |buf| && buf[k] == 0
    ensures Shown(lines + [Line(buf[..k], newline)]) == Shown(lines) + [Line(CString(buf), newline)]
  {
    NulAt(buf, k);
    assert (lines + [Line(buf[..k], newline)])[..|lines|] == lines;
  }

  // ---------------------------------------------------------------- theorems

  lemma {:induction false} RunKeeps(cfg: Config, s: State, q: seq<Item>, steps: seq<Step>, t: State)
    returns (q': seq<Item>)
    requires FlowInv(cfg, s, q) && LineInv(cfg, s, q) && cfg.masked && Run(cfg, s, steps, t)
    ensures FlowInv(cfg, t, q') && LineInv(cfg, t, q')
    decreases |steps|
  {
    if steps == [] {
      q' := q;
    } else {
      FlowStep(cfg, s, q, steps[0]);
      LineStep(cfg, s, q, steps[0]);
      q' := RunKeeps(cfg, Next(cfg, s, steps[0]), Queue(s, q, steps[0]), steps[1..], t);
    }
  }

  lemma InitialInv(cfg: Config, s: State)
    requires Initial(cfg, s)
    ensures FlowInv(cfg, s, []) && LineInv(cfg, s, [])
  {
    assert Split(cfg.lineSize, []) == Text([], []);
  }

  lemma ReachableInv(cfg: Config, t: State) returns (q: seq<Item>)
    requires cfg.masked && Reachable(cfg, t)
    ensures FlowInv(cfg, t, q) && LineInv(cfg, t, q)
  {
    var s, steps :| Initial(cfg, s) && Run(cfg, s, steps, t);
    InitialInv(cfg, s);
    q := RunKeeps(cfg, s, [], steps, t);
  }

  /** In every interleaving of interrupts and thread steps: no put has failed and none can
      fail while the channel is open, no get has failed, the semaphore plus the item in the
      thread's hand counts the queued items, every index stays in bounds, the thread is never
      blocked while the channel is closed, and until the thread has made room the channel is
      marked as closed exactly when the buffer is full. */
  lemma FlowControl(cfg: Config, t: State)
    requires cfg.masked && Reachable(cfg, t)
    ensures t.dropped == 0 && t.errors == 0
    ensures t.head < |t.words| && t.tail < |t.words| && t.line.pos <= cfg.lineSize - 2
    ensures t.sem + InHand(t) == Used(|t.words|, t.head, t.tail)
    ensures t.open && t.pc != Clear ==> Space(|t.words|, t.head, t.tail) >= 1
    ensures !t.open ==> Enabled(cfg, t, Thread)
    ensures t.pc in {Take, Fetch, Advance} ==>
      (t.disabled <==> Space(|t.words|, t.head, t.tail) == 0) && (t.disabled <==> !t.open)
  {
    var q := ReachableInv(cfg, t);
  }

  lemma RunFirst(cfg: Config, s: State, step: Step, rest: seq<Step>, t: State)
    requires Enabled(cfg, s, step) && Run(cfg, Next(cfg, s, step), rest, t)
    ensures Run(cfg, s, [step] + rest, t)
  {
    assert ([step] + rest)[1..] == rest;
  }

  /** The thread running alone for n steps. */
  function ThreadSteps(n: nat): seq<Step> { seq(n, _ => Thread) }

  lemma OneMore(n: nat)
    ensures [Thread] + ThreadSteps(n) == ThreadSteps(n + 1)
  {
  }

  /** Thread steps left until the channel is enabled: a thread past its head update that
      will find the buffer full again needs another round. */
  function Distance(s: State): nat
    requires s.head < |s.words| && s.tail < |s.words|
  {
    var full := Space(|s.words|, s.head, s.tail) == 0;
    match s.pc
    case Take => 6 case Fetch => 5 case Advance => 4
    case Handle => if full then 8 else 3
    case Test => if full then 7 else 2
    case Enable => 1 case Clear => 0
  }

  /** While the channel is closed each thread step brings the enabling nearer. */
  lemma Nearer(cfg: Config, s: State, q: seq<Item>)
    requires FlowInv(cfg, s, q) && Enabled(cfg, s, Thread) && !s.open
    ensures var t := Next(cfg, s, Thread);
            && t.head < |t.words| && t.tail < |t.words| && Distance(t) < Distance(s)
            && (if s.pc == Enable then t.open && t.pc == Clear else !t.open)
  {
    FlowStep(cfg, s, q, Thread);
  }

  lemma {:induction false} ReopensFrom(cfg: Config, s: State, q: seq<Item>) returns (n: nat, t: State, r: seq<Item>)
    requires FlowInv(cfg, s, q) && LineInv(cfg, s, q) && !s.open
    ensures n <= Distance(s) && Run(cfg, s, ThreadSteps(n), t)
    ensures t.open && t.pc == Clear && FlowInv(cfg, t, r) && LineInv(cfg, t, r)
    decreases Distance(s)
  {
    Nearer(cfg, s, q);
    FlowStep(cfg, s, q, Thread);
    LineStep(cfg, s, q, Thread);
    n, t, r := 0, Next(cfg, s, Thread), Queue(s, q, Thread);
    if s.pc != Enable {
      n, t, r := ReopensFrom(cfg, t, r);
    }
    RunFirst(cfg, s, Thread, ThreadSteps(n), t);
    OneMore(n);
    n := n + 1;
  }

  /** A closed channel reopens within eight steps of the thread. */
  lemma Reopens(cfg: Config, s: State)
    requires cfg.masked && Reachable(cfg, s) && !s.open
    ensures exists n, t :: n <= 8 && Run(cfg, s, ThreadSteps(n), t) && t.open
  {
    var q := ReachableInv(cfg, s);
    var n, t, _ := ReopensFrom(cfg, s, q);
  }

  /** No line holds a NUL. */
  ghost predicate Clean(lines: seq<Line>) {
    forall i :: 0 <= i < |lines| ==> 0 !in lines[i].text
  }

  lemma {:induction false} CStringWhole(text: seq<U8>)
    ensures CString(text) == text <==> 0 !in text
    ensures 0 in text ==> |CString(text)| < |text|
  {
  }

  lemma CleanSnoc(lines: seq<Line>, l: Line)
    ensures Clean(lines + [l]) <==> Clean(lines) && 0 !in l.text
  {
    if Clean(lines + [l]) {
      assert (lines + [l])[|lines|] == l;
      forall i | 0 <= i < |lines| ensures 0 !in lines[i].text { assert (lines + [l])[i] == lines[i]; }
    }
  }

  /** Printing as C strings shows everything exactly when there is no NUL to cut at. */
  lemma {:induction false} GlueShown(lines: seq<Line>)
    ensures Clean(lines) ==> Shown(lines) == lines
    ensures |Glue(Shown(lines))| <= |Glue(lines)|
    ensures !Clean(lines) ==> |Glue(Shown(lines))| < |Glue(lines)|
  {
    if lines != [] {
      var front, last := lines[..|lines| - 1], lines[|lines| - 1];
      GlueShown(front);
      CStringWhole(last.text);
      assert lines == front + [last];
      var shown := Line(CString(last.text), last.newline);
      GlueAppend(Shown(front), shown);
      assert Shown(lines) == Shown(front) + [shown];
      CleanSnoc(front, last);
    }
  }

  /** End to end: the bytes consumed are a prefix of the bytes sent, short of them by the
      semaphore count and the byte about to be fetched, so none is lost; the lines printed and
      the pending part of the buffer are the lines and the rest of the consumed bytes, however
      these are cut into lines that end at a newline or a full buffer; and they rebuild those
      bytes if and only if no printed line contains a NUL. */
  lemma EndToEnd(cfg: Config, t: State)
    requires cfg.masked && Reachable(cfg, t)
    ensures t.consumed <= Sent(t.offered)
    ensures |Sent(t.offered)| == |t.consumed| + t.sem + if t.pc == Fetch then 1 else 0
    ensures t.consumed == Sent(t.offered) <==> t.sem == 0 && t.pc != Fetch
    ensures t.pc !in {Advance, Handle} ==> Shows(t.line, Split(cfg.lineSize, t.consumed))
    ensures t.pc !in {Advance, Handle} ==>
      (Glue(t.line.printed) + Split(cfg.lineSize, t.consumed).rest == t.consumed
       <==> Clean(Split(cfg.lineSize, t.consumed).lines))
    ensures WellCut(cfg.lineSize, Split(cfg.lineSize, t.consumed))
    ensures forall u: Text :: t.pc !in {Advance, Handle} && WellCut(cfg.lineSize, u) ==>
      Glue(u.lines) + u.rest == t.consumed ==>
        t.line.printed == Shown(u.lines) && t.line.pos == |u.rest| && u.rest <= t.line.buf
  {
    var q := ReachableInv(cfg, t);
    var text := Split(cfg.lineSize, t.consumed);
    GlueSplit(cfg.lineSize, t.consumed);
    GlueShown(text.lines);
    SplitWell(cfg.lineSize, t.consumed);
    forall u: Text | WellCut(cfg.lineSize, u) && Glue(u.lines) + u.rest == t.consumed ensures u == text {
      CutUnique(cfg.lineSize, u, text);
    }
  }

  /** Thread steps until nothing is left to do. */
  function Work(s: State): nat {
    7 * s.sem + match s.pc
                case Take => 0 case Fetch => 6 case Advance => 5 case Handle => 4
                case Test => 3 case Enable => 2 case Clear => 1
  }

  lemma Works(cfg: Config, s: State, q: seq<Item>)
    requires FlowInv(cfg, s, q) && LineInv(cfg, s, q) && !(s.pc == Take && s.sem == 0)
    ensures Enabled(cfg, s, Thread)
    ensures var t := Next(cfg, s, Thread); Work(t) < Work(s) && t.offered == s.offered
  {
  }

  lemma {:induction false} DrainsFrom(cfg: Config, s: State, q: seq<Item>) returns (n: nat, t: State, r: seq<Item>)
    requires cfg.masked && FlowInv(cfg, s, q) && LineInv(cfg, s, q)
    ensures n <= Work(s) && Run(cfg, s, ThreadSteps(n), t) && t.pc == Take && t.sem == 0 && t.offered == s.offered
    ensures FlowInv(cfg, t, r) && LineInv(cfg, t, r)
    decreases Work(s)
  {
    if s.pc == Take && s.sem == 0 {
      n, t, r := 0, s, q;
    } else {
      Works(cfg, s, q);
      FlowStep(cfg, s, q, Thread);
      LineStep(cfg, s, q, Thread);
      var u := Next(cfg, s, Thread);
      n, t, r := DrainsFrom(cfg, u, Queue(s, q, Thread));
      RunFirst(cfg, s, Thread, ThreadSteps(n), t);
      OneMore(n);
      n := n + 1;
    }
  }

  /** From every reachable state the thread alone consumes everything sent, within seven steps
      for each character waiting and six for the one in hand. */
  lemma Drains(cfg: Config, s: State) returns (n: nat, t: State)
    requires cfg.masked && Reachable(cfg, s)
    ensures n <= 7 * s.sem + 6 && Run(cfg, s, ThreadSteps(n), t) && t.consumed == Sent(s.offered)
  {
    var q := ReachableInv(cfg, s);
    var r;
    n, t, r := DrainsFrom(cfg, s, q);
  }

  /** One step further. */
  lemma StepReached(cfg: Config, s: State, step: Step)
    requires Reachable(cfg, s) && Enabled(cfg, s, step)
    ensures Reachable(cfg, Next(cfg, s, step))
  {
    assert Run(cfg, Next(cfg, s, step), [step][1..], Next(cfg, s, step));
    Extend(cfg, s, [step], Next(cfg, s, step));
  }

  /** The thread alone takes out the oldest byte, and handles it. */
  lemma ByteFetched(cfg: Config, s: State, q: seq<Item>) returns (t: State)
    requires cfg.masked && Reachable(cfg, s) && FlowInv(cfg, s, q) && LineInv(cfg, s, q) && s.pc == Take && q != []
    ensures Reachable(cfg, t) && FlowInv(cfg, t, q) && LineInv(cfg, t, q)
    ensures t.pc == Advance && t.consumed == s.consumed + [q[0].value]
  {
    var s1 := ThreadMoves(cfg, s, q);
    PlainPutGet(cfg, s1, q);
    t := ThreadMoves(cfg, s1, q);
  }

  lemma ByteHandled(cfg: Config, s: State, q: seq<Item>) returns (t: State)
    requires cfg.masked && Reachable(cfg, s) && FlowInv(cfg, s, q) && LineInv(cfg, s, q) && s.pc == Take && q != []
    ensures Reachable(cfg, t) && t.pc == Test && t.consumed == s.consumed + [q[0].value]
  {
    var s1 := ByteFetched(cfg, s, q);
    var s2 := ThreadMoves(cfg, s1, q);
    t := ThreadMoves(cfg, s2, q[1..]);
  }

  lemma ThreadMoves(cfg: Config, s: State, q: seq<Item>) returns (t: State)
    requires cfg.masked && Reachable(cfg, s) && FlowInv(cfg, s, q) && LineInv(cfg, s, q) && (s.pc == Take ==> q != [])
    ensures Enabled(cfg, s, Thread) && t == Next(cfg, s, Thread) && Reachable(cfg, t)
    ensures FlowInv(cfg, t, Queue(s, q, Thread)) && LineInv(cfg, t, Queue(s, q, Thread))
  {
    t := Next(cfg, s, Thread);
    StepReached(cfg, s, Thread);
    FlowStep(cfg, s, q, Thread);
    LineStep(cfg, s, q, Thread);
  }

  /** With a line buffer of two bytes a NUL is consumed and printed as an empty line: the
      lines do not rebuild what was consumed. */
  lemma NulLost(cfg: Config) returns (t: State)
    requires cfg.Valid() && cfg.masked && cfg.lineSize == 2
    ensures Reachable(cfg, t) && t.pc == Test && t.consumed == [0]
    ensures Glue(t.line.printed) + Split(cfg.lineSize, t.consumed).rest != t.consumed
  {
    var s := StartState(cfg);
    StepReached(cfg, s, Offer(0));
    FlowStep(cfg, s, [], Offer(0));
    LineStep(cfg, s, [], Offer(0));
    t := ByteHandled(cfg, Next(cfg, s, Offer(0)), Queue(s, [], Offer(0)));
    EndToEnd(cfg, t);
    SplitOne(0);
  }

  lemma SplitOne(b: U8)
    ensures Split(2, [b]) == Text([Line([b], false)], [])
  {
    assert [b][..0] == [] && Split(2, []) == Text([], []);
    assert [] + [b] == [b] && [] + [Line([b], false)] == [Line([b], false)];
  }

  // ---------------------------------------------------------------- why the lock is there

  /** Channel closed, flag clear, thread not about to enable: nothing will reopen it. */
  ghost predicate Lost(s: State) {
    !s.open && !s.disabled && s.pc != Enable && s.pc != Clear
  }

  /** A lost channel stays lost. */
  lemma LostForever(cfg: Config, s: State, step: Step)
    requires Lost(s) && Enabled(cfg, s, step)
    ensures Lost(Next(cfg, s, step))
  {
  }

  lemma HeadFirst(a: seq<Step>, b: seq<Step>)
    requires a != []
    ensures [a[0]] + (a[1..] + b) == a + b
  {
  }

  lemma {:induction false} RunJoin(cfg: Config, s: State, a: seq<Step>, t: State, b: seq<Step>, u: State)
    requires Run(cfg, s, a, t) && Run(cfg, t, b, u)
    ensures Run(cfg, s, a + b, u)
    decreases |a|
  {
    if a == [] {
      assert a + b == b;
    } else {
      RunJoin(cfg, Next(cfg, s, a[0]), a[1..], t, b, u);
      RunFirst(cfg, s, a[0], a[1..] + b, u);
      HeadFirst(a, b);
    }
  }

  /** An open channel can be filled until it closes. */
  lemma {:induction false} Fill(cfg: Config, s: State, q: seq<Item>) returns (steps: seq<Step>, t: State, r: seq<Item>)
    requires FlowInv(cfg, s, q) && LineInv(cfg, s, q) && s.open && !cfg.masked
    ensures Run(cfg, s, steps, t) && !t.open && t.pc == s.pc
    ensures t.head < |t.words| && t.tail < |t.words| && t.line.pos + 1 < |t.line.buf|
    ensures s.pc != Clear ==> FlowInv(cfg, t, r) && LineInv(cfg, t, r)
    decreases cfg.ringSize - |q|
  {
    var c := 65;
    var s' := Next(cfg, s, Offer(c));
    ReceiveStores(cfg, s, q, c);
    LineOffer(cfg, s, q, c);
    r := q + [Item(0, c % 0x100, [])];
    if s'.open {
      FlowOffer(cfg, s, q, c);
      steps, t, r := Fill(cfg, s', r);
    } else {
      steps, t := [], s';
      if s.pc != Clear { FlowOffer(cfg, s, q, c); }
    }
    steps := [Offer(c)] + steps;
    assert steps[1..] == if s'.open then steps[1..] else [];
  }

  /** The interrupt lock around the enabling of the channel is what flow control rests on:
      for every configuration, a channel can be lost if and only if the callback can run
      between the enabling and the clearing of the flag. */
  lemma LockNeeded(cfg: Config)
    requires cfg.Valid()
    ensures cfg.masked <==> forall t :: Reachable(cfg, t) ==> !Lost(t)
  {
    if cfg.masked {
      forall t | Reachable(cfg, t) ensures !Lost(t) {
        var q := ReachableInv(cfg, t);
      }
    } else {
      var t := LoseChannel(cfg);
    }
  }

  lemma Extend(cfg: Config, s: State, steps: seq<Step>, t: State)
    requires Reachable(cfg, s) && Run(cfg, s, steps, t)
    ensures Reachable(cfg, t)
  {
    var s0, before :| Initial(cfg, s0) && Run(cfg, s0, before, s);
    RunJoin(cfg, s0, before, s, steps, t);
  }

  lemma StartState(cfg: Config) returns (s: State)
    requires cfg.Valid()
    ensures Reachable(cfg, s) && s.open && s.pc == Take && s.consumed == []
    ensures FlowInv(cfg, s, []) && LineInv(cfg, s, [])
  {
    s := State(seq(cfg.ringSize, _ => 0), 0, 0, 0, 0, true, false, Take, 0,
               Printer(seq(cfg.lineSize, _ => 0), 0, []), 0, [], []);
    InitialInv(cfg, s);
    assert Run(cfg, s, [], s);
  }

  /** The thread can be brought to the point between enabling and clearing. */
  lemma EnablingReached(cfg: Config) returns (t: State, r: seq<Item>)
    requires cfg.Valid() && !cfg.masked
    ensures Reachable(cfg, t) && t.open && t.pc == Clear && FlowInv(cfg, t, r) && LineInv(cfg, t, r)
  {
    var s := StartState(cfg);
    var a, full, q := Fill(cfg, s, []);
    Extend(cfg, s, a, full);
    var n;
    n, t, r := ReopensFrom(cfg, full, q);
    Extend(cfg, full, ThreadSteps(n), t);
  }

  lemma LoseChannel(cfg: Config) returns (t: State)
    requires cfg.Valid() && !cfg.masked
    ensures Reachable(cfg, t) && Lost(t)
  {
    var s, q := EnablingReached(cfg);
    var b, closed, _ := Fill(cfg, s, q);
    Extend(cfg, s, b, closed);
    t := Next(cfg, closed, Thread);
    assert Run(cfg, closed, [Thread], t);
    Extend(cfg, closed, [Thread], t);
  }
}

/** The line editor of drivers/console/uart_console.c: uart_console_isr feeds each received
    byte through an escape-sequence automaton and edits the line buffer in place. */
module LineEditor {
  import opened CTypes
  import opened CStrings
  import Numerals

  const ESC: U8 := 0x1B
  const CR: U8 := 13
  const TAB: U8 := 9
  const LEFT_BRACKET: U8 := 0x5B
  const SEMICOLON: U8 := 0x3B
  const FORWARD: U8 := 0x43
  const BACKWARD: U8 := 0x44
  const END: U8 := 0x46
  const HOME: U8 := 0x48
  const DELETE: U8 := 0x7E

  predicate IsDigit(b: U8) { 0x30 <= b <= 0x39 }

  predicate IsPrint(b: U8) { 0x20 <= b <= 0x7E }

  // ---------------------------------------------------------------- the text model

  /** The position in an escape sequence: outside, after ESC, after ESC [, in the first
      number, or in the second number. */
  datatype Mode = Plain | Escape | First | Number(n: U32) | Second(n: U32, m: U32)

  /** A text with a cursor: what is before it and what is after it. */
  datatype Text = Text(before: seq<U8>, after: seq<U8>)

  datatype View = View(text: Text, mode: Mode)

  /** The configuration: line buffer size, the backspace byte, and the completion. */
  datatype Config = Config(size: nat, del: U8, completion: seq<U8> -> seq<U8>) {
    predicate Valid() { 1 <= size <= 256 && (del == 0x08 || del == 0x7F) }

    /** What the completion appends to a text contains no NUL and still fits. */
    ghost predicate CompletionFits() {
      forall t {:trigger completion(t)} :: |t| < size ==> |t| + |completion(t)| < size && 0 !in completion(t)
    }
  }

  function Insert(size: nat, t: Text, b: U8): Text {
    if |t.before| + |t.after| < size - 1 then Text(t.before + [b], t.after) else t
  }

  function Backspace(t: Text): Text {
    if t.before == [] then t else Text(t.before[..|t.before| - 1], t.after)
  }

  function DeleteForward(t: Text): Text {
    if t.after == [] then t else Text(t.before, t.after[1..])
  }

  function Left(t: Text, n: nat): Text {
    if n > |t.before| then t
    else
      var k := |t.before| - n;
      Text(t.before[..k], t.before[k..] + t.after)
  }

  function Right(t: Text, n: nat): Text {
    if n > |t.after| then t else Text(t.before + t.after[..n], t.after[n..])
  }

  /** The final byte of a control sequence, with its first number. */
  function Command(t: Text, b: U8, n: U32): Text {
    if b == BACKWARD then Left(t, n)
    else if b == FORWARD then Right(t, n)
    else if b == HOME then Left(t, |t.before|)
    else if b == END then Right(t, |t.after|)
    else if b == DELETE then DeleteForward(t)
    else t
  }

  function NextDigit(n: U32, b: U8): U32
    requires IsDigit(b)
  {
    (n * 10 + (b as int - 0x30)) % 0x1_0000_0000
  }

  /** What a byte does inside a control sequence: go on in a mode, or end it as a command. */
  datatype Event = Continue(mode: Mode) | Final(n: U32)

  function Advance(mode: Mode, b: U8): Event
    requires mode.First? || mode.Number? || mode.Second?
  {
    match mode
    case First => if IsDigit(b) then Continue(Number(b as int - 0x30)) else Final(1)
    case Number(n) =>
      if IsDigit(b) then Continue(Number(NextDigit(n, b)))
      else if b == SEMICOLON then Continue(Second(n, 0))
      else Final(n)
    case Second(n, m) => if IsDigit(b) then Continue(Second(n, NextDigit(m, b))) else Final(n)
  }

  /** A byte outside any sequence. A carriage return submits the text. */
  function PlainByte(cfg: Config, t: Text, b: U8): View {
    if IsPrint(b) then View(Insert(cfg.size, t, b), Plain)
    else if b == cfg.del then View(Backspace(t), Plain)
    else if b == ESC then View(t, Escape)
    else if b == CR then View(Text([], []), Plain)
    else if b == TAB && t.after == [] then View(Text(t.before + cfg.completion(t.before), []), Plain)
    else View(t, Plain)
  }

  /** One received byte. */
  function Step(cfg: Config, v: View, b: U8): View {
    if v.mode == Plain then PlainByte(cfg, v.text, b)
    else if v.mode == Escape then View(v.text, if b == LEFT_BRACKET then First else Plain)
    else
      match Advance(v.mode, b)
      case Continue(mode) => View(v.text, mode)
      case Final(n) => View(Command(v.text, b, n), Plain)
  }

  // ---------------------------------------------------------------- the driver

  /** The automaton's flags and numbers as the driver keeps them. */
  datatype Flags = Flags(esc: bool, ansi: bool, first: bool, val: bool, val2: bool, n: U32, m: U32)

  /** The flags encode a mode: ANSI_FIRST and ANSI_VAL occur only inside ANSI, exclude each
      other and one of them is set; ANSI_VAL_2 occurs only inside ANSI_VAL; ESC only alone. */
  predicate Encodes(f: Flags, mode: Mode) {
    match mode
    case Plain => !f.esc && !f.ansi && !f.first && !f.val && !f.val2
    case Escape => f.esc && !f.ansi && !f.first && !f.val && !f.val2
    case First => !f.esc && f.ansi && f.first && !f.val && !f.val2
    case Number(n) => !f.esc && f.ansi && !f.first && f.val && !f.val2 && f.n == n && f.m == 0
    case Second(n, m) => !f.esc && f.ansi && !f.first && f.val && f.val2 && f.n == n && f.m == m
  }

  /** The text that a buffer holds around a cursor. */
  function TextOf(a: seq<U8>, cur: nat, end: nat): Text
    requires cur + end <= |a|
  {
    Text(a[..cur], a[cur..cur + end])
  }

  lemma LeftOf(a: seq<U8>, cur: nat, end: nat, n: nat)
    requires cur + end <= |a| && n <= cur
    ensures Left(TextOf(a, cur, end), n) == TextOf(a, cur - n, end + n)
  {
    assert a[..cur][..cur - n] == a[..cur - n];
    assert a[..cur][cur - n..] + a[cur..cur + end] == a[cur - n..cur + end];
  }

  lemma RightOf(a: seq<U8>, cur: nat, end: nat, n: nat)
    requires cur + end <= |a| && n <= end
    ensures Right(TextOf(a, cur, end), n) == TextOf(a, cur + n, end - n)
  {
    assert a[..cur] + a[cur..cur + end][..n] == a[..cur + n];
    assert a[cur..cur + end][n..] == a[cur + n..cur + end];
  }

  class Console {
    const cfg: Config
    var line: array<U8>
    var cur: nat
    var end: nat
    var flags: Flags
    ghost var mode: Mode

    ghost predicate Valid()
      reads this
    {
      && cfg.Valid() && line.Length == cfg.size
      && cur + end <= cfg.size - 1
      && Encodes(flags, mode)
    }

    /** A console with an empty line buffer in hand. */
    constructor (config: Config)
      requires config.Valid()
      ensures Valid() && cfg == config && fresh(line) && Contents() == View(Text([], []), Plain)
    {
      cfg := config;
      line := new U8[config.size];
      cur, end := 0, 0;
      flags, mode := Flags(false, false, false, false, false, 0, 0), Plain;
    }

    ghost function Contents(): View
      reads this, line
      requires Valid()
    {
      View(Text(line[..cur], line[cur..cur + end]), mode)
    }

    /** insert_char: shift the end bytes from pos on by one and put c in front. */
    method InsertChar(pos: nat, c: U8, end: nat)
      requires pos + end < line.Length
      modifies line
      ensures line[..pos] == old(line[..pos])
      ensures line[pos] == c && line[pos + 1..pos + end + 1] == old(line[pos..pos + end])
      ensures line[pos + end + 1..] == old(line[pos + end + 1..])
    {
      if end == 0 {
        line[pos] := c;
        return;
      }
      var tmp := line[pos];
      line[pos] := c;
      var p, left := pos + 1, end;
      while left > 0
        invariant p == pos + 1 + (end - left) && 0 <= left <= end
        invariant line[..pos] == old(line[..pos]) && line[pos] == c
        invariant forall j :: pos + 1 <= j < p ==> line[j] == old(line[j - 1])
        invariant tmp == old(line[p - 1])
        invariant forall j :: p <= j < line.Length ==> line[j] == old(line[j])
      {
        var next := line[p];
        line[p] := tmp;
        tmp := next;
        p, left := p + 1, left - 1;
      }
    }

    /** del_char: shift the end bytes after pos back by one. */
    method DeleteChar(pos: nat, end: nat)
      requires pos + end < line.Length
      modifies line
      ensures line[..pos] == old(line[..pos])
      ensures line[pos..pos + end] == old(line[pos + 1..pos + end + 1])
      ensures line[pos + end..] == old(line[pos + end..])
    {
      var p, left := pos, end;
      while left > 0
        invariant p == pos + (end - left) && 0 <= left <= end
        invariant line[..pos] == old(line[..pos])
        invariant line[pos..p] == old(line[pos + 1..p + 1])
        invariant line[p..] == old(line[p..])
      {
        line[p] := line[p + 1];
        p, left := p + 1, left - 1;
      }
    }

    method MoveLeft(n: nat)
      requires Valid() && n <= cur
      modifies this`cur, this`end
      ensures Valid() && Contents() == old(View(Left(Contents().text, n), mode))
    {
      LeftOf(line[..], cur, end, n);
      end, cur := end + n, cur - n;
      assert line[..][..cur] == line[..cur] && line[..][cur..cur + end] == line[cur..cur + end];
    }

    method MoveRight(n: nat)
      requires Valid() && n <= end
      modifies this`cur, this`end
      ensures Valid() && Contents() == old(View(Right(Contents().text, n), mode))
    {
      RightOf(line[..], cur, end, n);
      end, cur := end - n, cur + n;
      assert line[..][..cur] == line[..cur] && line[..][cur..cur + end] == line[cur..cur + end];
    }

    method DeleteAtCursor()
      requires Valid() && end > 0
      modifies this`end, line
      ensures Valid() && Contents() == old(View(DeleteForward(Contents().text), mode))
    {
      end := end - 1;
      DeleteChar(cur, end);
    }

    /** The command switch of handle_ansi. */
    method RunCommand(b: U8)
      requires Valid()
      modifies this`cur, this`end, line
      ensures Valid() && Contents() == old(View(Command(Contents().text, b, flags.n), mode))
    {
      if b == BACKWARD {
        if flags.n <= cur { MoveLeft(flags.n); }
      } else if b == FORWARD {
        if flags.n <= end { MoveRight(flags.n); }
      } else if b == HOME {
        MoveLeft(cur);
      } else if b == END {
        MoveRight(end);
      } else if b == DELETE {
        if end > 0 { DeleteAtCursor(); }
      }
    }

    /** The flag and number handling of handle_ansi; true if b ends the sequence. */
    method Sequence(b: U8) returns (final: bool)
      requires Encodes(flags, mode) && flags.ansi
      modifies this`flags, this`mode
      ensures Encodes(flags, mode)
      ensures Advance(old(mode), b) == if final then Final(flags.n) else Continue(mode)
      ensures final ==> mode == Plain
    {
      if flags.first {
        flags := flags.(first := false);
        if IsDigit(b) {
          flags := flags.(val := true, n := b as int - 0x30, m := 0);
          mode := Number(flags.n);
          return false;
        }
        flags := flags.(n := 1);
      } else if flags.val {
        if IsDigit(b) {
          if flags.val2 {
            flags := flags.(m := NextDigit(flags.m, b));
            mode := Second(flags.n, flags.m);
          } else {
            flags := flags.(n := NextDigit(flags.n, b));
            mode := Number(flags.n);
          }
          return false;
        }
        if b == SEMICOLON {
          var repeated := flags.val2;
          flags := flags.(val2 := true);
          if !repeated {
            mode := Second(flags.n, flags.m);
            return false;
          }
        }
        flags := flags.(val := false, val2 := false);
      }
      flags := flags.(ansi := false);
      mode := Plain;
      final := true;
    }

    /** handle_ansi. */
    method HandleAnsi(b: U8)
      requires Valid() && flags.ansi
      modifies this`cur, this`end, this`flags, this`mode, line
      ensures Valid() && Contents() == Step(cfg, old(Contents()), b)
    {
      ghost var text := Contents().text;
      var final := Sequence(b);
      assert Valid() && Contents() == View(text, mode);
      if final { RunCommand(b); }
    }

    method BackspaceAtCursor()
      requires Valid() && cur > 0
      modifies this`cur, line
      ensures Valid() && Contents() == old(View(Backspace(Contents().text), mode))
    {
      cur := cur - 1;
      DeleteChar(cur, end);
    }

    method InsertAtCursor(b: U8)
      requires Valid() && cur + end < cfg.size - 1
      modifies this`cur, line
      ensures Valid() && Contents() == old(View(Text(Contents().text.before + [b], Contents().text.after), mode))
    {
      cur := cur + 1;
      InsertChar(cur - 1, b, end);
      assert line[..cur] == line[..cur - 1] + [b];
    }

    /** The completion callback on a cursor at the end of the text: it terminates the typed
        text, then writes what it appends. */
    method Complete()
      requires Valid() && end == 0 && cfg.CompletionFits()
      modifies this`cur, line
      ensures Valid()
      ensures Contents() == old(View(Text(Contents().text.before + cfg.completion(Contents().text.before), []), mode))
    {
      ghost var typed := line[..cur];
      line[cur] := 0;
      assert line[..cur] == typed;
      var tail := cfg.completion(line[..cur]);
      WriteTail(tail);
      cur := cur + |tail|;
    }

    method WriteTail(tail: seq<U8>)
      requires cur + |tail| < line.Length
      modifies line
      ensures line[..cur + |tail|] == old(line[..cur]) + tail
    {
      var i := 0;
      while i < |tail|
        invariant 0 <= i <= |tail|
        invariant line[..cur + i] == old(line[..cur]) + tail[..i]
      {
        line[cur + i] := tail[i];
        i := i + 1;
      }
    }

    /** The carriage return: the buffer then holds the text as a terminated string. */
    method Submit()
      requires Valid() && Clean(cfg.size, Contents().text)
      modifies this`cur, this`end, line
      ensures Valid() && Contents() == View(Text([], []), mode)
      ensures CString(line[..]) == Whole(old(Contents().text))
    {
      ghost var text := Whole(Contents().text);
      line[cur + end] := 0;
      assert text == line[..cur + end];
      assert text + [0] == line[..][..cur + end + 1];
      CStringOf(line[..], text);
      cur, end := 0, 0;
    }

    /** The byte after an ESC. */
    method ReceiveEscape(b: U8)
      requires Valid() && mode == Escape
      modifies this`flags, this`mode
      ensures Valid() && Contents() == Step(cfg, old(Contents()), b)
    {
      flags := flags.(esc := false);
      mode := Plain;
      if b == LEFT_BRACKET {
        flags := flags.(ansi := true, first := true);
        mode := First;
      }
    }

    /** A byte outside any escape sequence. */
    method ReceivePlain(b: U8) returns (submitted: bool)
      requires Valid() && mode == Plain && cfg.CompletionFits() && Clean(cfg.size, Contents().text)
      modifies this`cur, this`end, this`flags, this`mode, line
      ensures Valid() && Contents() == PlainByte(cfg, old(Contents().text), b)
      ensures submitted <==> b == CR
      ensures submitted ==> CString(line[..]) == Whole(old(Contents().text))
    {
      submitted := b == CR;
      if IsPrint(b) {
        if cur + end < cfg.size - 1 { InsertAtCursor(b); }
      } else if b == cfg.del {
        if cur > 0 { BackspaceAtCursor(); }
      } else if b == ESC {
        flags := flags.(esc := true);
        mode := Escape;
      } else if b == CR {
        Submit();
      } else if b == TAB {
        if end == 0 { Complete(); }
      }
    }

    /** One round of uart_console_isr with a line buffer in hand. */
    method Receive(b: U8) returns (submitted: bool)
      requires Valid() && cfg.CompletionFits() && Clean(cfg.size, Contents().text)
      modifies this`cur, this`end, this`flags, this`mode, line
      ensures Valid() && Contents() == Step(cfg, old(Contents()), b)
      ensures submitted <==> old(mode) == Plain && b == CR
      ensures submitted ==> CString(line[..]) == Whole(old(Contents().text))
    {
      submitted := false;
      if flags.ansi {
        HandleAnsi(b);
      } else if flags.esc {
        ReceiveEscape(b);
      } else {
        submitted := ReceivePlain(b);
      }
    }

    /** A byte, and what it puts on the lines queue; after a submission another buffer is
        taken. */
    method ReceiveOne(b: U8) returns (queued: seq<seq<U8>>)
      requires Valid() && cfg.CompletionFits() && Clean(cfg.size, Contents().text)
      modifies this, line
      ensures Valid() && (if queued == [] then line == old(line) else fresh(line)) && Clean(cfg.size, Contents().text)
      ensures Contents() == Step(cfg, old(Contents()), b) && queued == Queued(old(Contents()), b)
    {
      StepClean(cfg, Contents(), b);
      queued := [];
      var submitted := Receive(b);
      if submitted {
        queued := [CString(line[..])];
        line := new U8[cfg.size];
      }
    }

    /** The byte loop of uart_console_isr: the strings put on the lines queue are those of
        the text model. */
    method ReceiveAll(bytes: seq<U8>) returns (lines: seq<seq<U8>>)
      requires Valid() && cfg.CompletionFits() && Clean(cfg.size, Contents().text)
      modifies this, line
      ensures Valid() && Contents() == Feed(cfg, old(Contents()), bytes)
      ensures lines == Submitted(cfg, old(Contents()), bytes)
    {
      lines := [];
      var i := 0;
      ghost var start := Contents();
      while i < |bytes|
        invariant 0 <= i <= |bytes| && Valid() && Clean(cfg.size, Contents().text)
        invariant line == old(line) || fresh(line)
        invariant Contents() == Feed(cfg, start, bytes[..i]) && lines == Submitted(cfg, start, bytes[..i])
      {
        var queued := ReceiveOne(bytes[i]);
        assert bytes[..i + 1][..i] == bytes[..i];
        lines := lines + queued;
        i := i + 1;
      }
      assert bytes[..|bytes|] == bytes;
    }
  }

  // ---------------------------------------------------------------- whole streams

  function Whole(t: Text): seq<U8> { t.before + t.after }

  /** The view after a stream of bytes. */
  function Feed(cfg: Config, v: View, bytes: seq<U8>): View {
    if bytes == [] then v else Step(cfg, Feed(cfg, v, bytes[..|bytes| - 1]), bytes[|bytes| - 1])
  }

  /** What a byte submits. */
  function Queued(v: View, b: U8): seq<seq<U8>> {
    if v.mode == Plain && b == CR then [Whole(v.text)] else []
  }

  /** The texts submitted by a stream of bytes. */
  function Submitted(cfg: Config, v: View, bytes: seq<U8>): seq<seq<U8>> {
    if bytes == [] then []
    else
      var front, b := bytes[..|bytes| - 1], bytes[|bytes| - 1];
      Submitted(cfg, v, front) + Queued(Feed(cfg, v, front), b)
  }

  /** The text is free of NULs and leaves room for the terminator. */
  predicate Clean(size: nat, t: Text) {
    0 !in t.before && 0 !in t.after && |t.before| + |t.after| < size
  }

  /** Cursor commands keep the whole text; forward delete drops one byte of it. */
  lemma CommandWhole(t: Text, b: U8, n: U32)
    ensures b != DELETE ==> Whole(Command(t, b, n)) == Whole(t)
    ensures b == DELETE ==>
      Command(t, b, n).before == t.before && t.after[if t.after == [] then 0 else 1..] == Command(t, b, n).after
  {
  }

  lemma CommandClean(size: nat, t: Text, b: U8, n: U32)
    requires Clean(size, t)
    ensures Clean(size, Command(t, b, n))
  {
    CommandWhole(t, b, n);
    var u := Command(t, b, n);
    assert forall c :: c in u.before || c in u.after ==> c in Whole(u);
    assert forall c :: c in Whole(t) ==> c in t.before || c in t.after;
    if b != DELETE {
      assert |Whole(u)| == |Whole(t)|;
    }
  }

  /** No step puts a NUL into the text or makes it longer than the buffer allows. */
  lemma StepClean(cfg: Config, v: View, b: U8)
    requires cfg.Valid() && cfg.CompletionFits() && Clean(cfg.size, v.text)
    ensures Clean(cfg.size, Step(cfg, v, b).text)
  {
    if v.mode == Plain {
      PlainClean(cfg, v.text, b);
    } else if v.mode != Escape && Advance(v.mode, b).Final? {
      CommandClean(cfg.size, v.text, b, Advance(v.mode, b).n);
    }
  }

  lemma PlainClean(cfg: Config, t: Text, b: U8)
    requires cfg.Valid() && cfg.CompletionFits() && Clean(cfg.size, t)
    ensures Clean(cfg.size, PlainByte(cfg, t, b).text)
  {
    if b == TAB && t.after == [] {
      assert |t.before| + |cfg.completion(t.before)| < cfg.size && 0 !in cfg.completion(t.before);
    } else if b == cfg.del && t.before != [] {
      assert t.before == t.before[..|t.before| - 1] + [t.before[|t.before| - 1]];
    }
  }

  /** For every byte stream: what is submitted and what is being edited is free of NULs and
      shorter than the buffer. */
  lemma {:induction false} StreamClean(cfg: Config, v: View, bytes: seq<U8>)
    requires cfg.Valid() && cfg.CompletionFits() && Clean(cfg.size, v.text)
    ensures Clean(cfg.size, Feed(cfg, v, bytes).text)
    ensures forall t :: t in Submitted(cfg, v, bytes) ==> 0 !in t && |t| < cfg.size
  {
    if bytes != [] {
      StreamClean(cfg, v, bytes[..|bytes| - 1]);
      StepClean(cfg, Feed(cfg, v, bytes[..|bytes| - 1]), bytes[|bytes| - 1]);
    }
  }

  // ---------------------------------------------------------------- editing laws

  /** Backspace undoes a typed character, and deleting forward after a step to the left is
      a backspace. */
  lemma BackspaceLaws(size: nat, t: Text, b: U8)
    ensures |Whole(t)| < size - 1 ==> Backspace(Insert(size, t, b)) == t
    ensures t.before != [] ==> DeleteForward(Left(t, 1)) == Backspace(t)
  {
    assert (t.before + [b])[..|t.before|] == t.before;
    if t.before != [] {
      assert (t.before[|t.before| - 1..] + t.after)[1..] == t.after;
    }
  }

  lemma LeftMoves(t: Text, n: nat)
    ensures var u := Left(t, n);
      Whole(u) == Whole(t) && |u.before| == if n <= |t.before| then |t.before| - n else |t.before|
  {
  }

  lemma RightMoves(t: Text, n: nat)
    ensures var u := Right(t, n);
      Whole(u) == Whole(t) && |u.before| == if n <= |t.after| then |t.before| + n else |t.before|
  {
  }

  lemma SameText(t: Text, u: Text)
    requires Whole(t) == Whole(u) && |t.before| == |u.before|
    ensures t == u
  {
    assert t.before == Whole(t)[..|t.before|] && t.after == Whole(t)[|t.before|..];
    assert u.before == Whole(u)[..|u.before|] && u.after == Whole(u)[|u.before|..];
  }

  /** Moving right undoes moving left and conversely. */
  lemma LeftRight(t: Text, n: nat)
    ensures n <= |t.before| ==> Right(Left(t, n), n) == t
    ensures n <= |t.after| ==> Left(Right(t, n), n) == t
  {
    LeftMoves(t, n);
    RightMoves(t, n);
    LeftMoves(Right(t, n), n);
    RightMoves(Left(t, n), n);
    if n <= |t.before| { SameText(Right(Left(t, n), n), t); }
    if n <= |t.after| { SameText(Left(Right(t, n), n), t); }
  }

  /** The decimal value of a digit string. */
  function Value(digits: seq<U8>): nat
    requires forall i :: 0 <= i < |digits| ==> IsDigit(digits[i])
  {
    if digits == [] then 0
    else
      var d := digits[|digits| - 1];
      assert IsDigit(d);
      Value(digits[..|digits| - 1]) * 10 + (d as int - 0x30)
  }

  lemma {:induction false} FeedJoin(cfg: Config, v: View, a: seq<U8>, b: seq<U8>)
    ensures Feed(cfg, v, a + b) == Feed(cfg, Feed(cfg, v, a), b)
  {
    if b == [] {
      assert a + b == a;
    } else {
      FeedJoin(cfg, v, a, b[..|b| - 1]);
      assert (a + b)[..|a + b| - 1] == a + b[..|b| - 1];
    }
  }

  lemma {:induction false} DigitsRead(cfg: Config, t: Text, digits: seq<U8>)
    requires digits != [] && forall i :: 0 <= i < |digits| ==> IsDigit(digits[i])
    ensures Feed(cfg, View(t, First), digits) == View(t, Number(Value(digits) % 0x1_0000_0000))
  {
    var front, d := digits[..|digits| - 1], digits[|digits| - 1];
    if front == [] {
      assert Feed(cfg, View(t, First), front) == View(t, First);
    } else {
      DigitsRead(cfg, t, front);
      NextDigitWraps(Value(front), d);
    }
  }

  lemma NextDigitWraps(n: nat, d: U8)
    requires IsDigit(d)
    ensures NextDigit(n % 0x1_0000_0000, d) == (n * 10 + (d as int - 0x30)) % 0x1_0000_0000
  {
    var q, r := n / 0x1_0000_0000, n % 0x1_0000_0000;
    var e := d as int - 0x30;
    assert n * 10 + e == (r * 10 + e) + (q * 10) * 0x1_0000_0000;
  }

  /** A whole control sequence ESC [ digits b runs the command b with the decimal value of
      the digits, reduced modulo 2^32; in particular with the value itself exactly when it
      fits an unsigned int. */
  lemma ControlSequence(cfg: Config, t: Text, digits: seq<U8>, b: U8)
    requires digits != [] && forall i :: 0 <= i < |digits| ==> IsDigit(digits[i])
    requires !IsDigit(b) && b != SEMICOLON && ESC != cfg.del
    ensures Feed(cfg, View(t, Plain), [ESC, LEFT_BRACKET] + digits + [b])
         == View(Command(t, b, Value(digits) % 0x1_0000_0000), Plain)
    ensures Value(digits) % 0x1_0000_0000 == Value(digits) <==> Value(digits) < 0x1_0000_0000
  {
    var v := View(t, Plain);
    var head := [ESC, LEFT_BRACKET];
    assert head[..1] == [ESC] && [ESC][..0] == [];
    assert Feed(cfg, v, [ESC]) == View(t, Escape);
    assert Feed(cfg, v, head) == View(t, First);
    FeedJoin(cfg, v, head, digits);
    DigitsRead(cfg, t, digits);
    assert (head + digits + [b])[..|head + digits|] == head + digits;
  }

  /** The same without digits: the number is one. */
  lemma ShortSequence(cfg: Config, t: Text, b: U8)
    requires !IsDigit(b) && ESC != cfg.del
    ensures Feed(cfg, View(t, Plain), [ESC, LEFT_BRACKET] + [b]) == View(Command(t, b, 1), Plain)
  {
    var v := View(t, Plain);
    var head := [ESC, LEFT_BRACKET];
    assert head[..1] == [ESC] && [ESC][..0] == [];
    assert Feed(cfg, v, [ESC]) == View(t, Escape);
    assert Feed(cfg, v, head) == View(t, First);
    assert (head + [b])[..2] == head;
  }

  /** A second number, after a semicolon, makes no difference. */
  lemma {:induction false} SecondIgnored(cfg: Config, t: Text, n: U32, m: U32, digits: seq<U8>)
    requires forall i :: 0 <= i < |digits| ==> IsDigit(digits[i])
    ensures exists k: U32 :: Feed(cfg, View(t, Second(n, m)), digits) == View(t, Second(n, k))
  {
    if digits == [] {
      assert Feed(cfg, View(t, Second(n, m)), digits) == View(t, Second(n, m));
    } else {
      var front, d := digits[..|digits| - 1], digits[|digits| - 1];
      SecondIgnored(cfg, t, n, m, front);
      var k: U32 :| Feed(cfg, View(t, Second(n, m)), front) == View(t, Second(n, k));
      assert Feed(cfg, View(t, Second(n, m)), digits) == View(t, Second(n, NextDigit(k, d)));
    }
  }

  lemma TwoNumbers(cfg: Config, t: Text, first: seq<U8>, second: seq<U8>, b: U8)
    requires first != [] && (forall i :: 0 <= i < |first| ==> IsDigit(first[i]))
    requires forall i :: 0 <= i < |second| ==> IsDigit(second[i])
    requires !IsDigit(b) && ESC != cfg.del
    ensures Feed(cfg, View(t, Plain), [ESC, LEFT_BRACKET] + first + ([SEMICOLON] + second + [b]))
         == View(Command(t, b, Value(first) % 0x1_0000_0000), Plain)
  {
    var v, n := View(t, Plain), Value(first) % 0x1_0000_0000;
    var head := [ESC, LEFT_BRACKET];
    assert head[..1] == [ESC] && [ESC][..0] == [];
    assert Feed(cfg, v, [ESC]) == View(t, Escape);
    assert Feed(cfg, v, head) == View(t, First);
    FeedJoin(cfg, v, head, first);
    DigitsRead(cfg, t, first);
    FeedJoin(cfg, v, head + first, [SEMICOLON] + second + [b]);
    var u := View(t, Number(n));
    assert [SEMICOLON][..0] == [];
    assert Feed(cfg, u, [SEMICOLON]) == View(t, Second(n, 0));
    FeedJoin(cfg, u, [SEMICOLON], second);
    SecondIgnored(cfg, t, n, 0, second);
    var k: U32 :| Feed(cfg, View(t, Second(n, 0)), second) == View(t, Second(n, k));
    assert ([SEMICOLON] + second + [b])[..1 + |second|] == [SEMICOLON] + second;
  }

  /** Printable characters that fit are typed as they are, and a carriage return submits
      the text with them. */
  lemma {:induction false} Typing(cfg: Config, t: Text, s: seq<U8>)
    requires cfg.Valid() && |Whole(t)| + |s| < cfg.size
    requires forall i :: 0 <= i < |s| ==> IsPrint(s[i])
    ensures Feed(cfg, View(t, Plain), s) == View(Text(t.before + s, t.after), Plain)
    ensures Submitted(cfg, View(t, Plain), s + [CR]) == [t.before + s + t.after]
  {
    TypingText(cfg, t, s);
    TypingQuiet(cfg, View(t, Plain), s);
    assert (s + [CR])[..|s|] == s;
  }

  lemma {:induction false} TypingText(cfg: Config, t: Text, s: seq<U8>)
    requires cfg.Valid() && |Whole(t)| + |s| < cfg.size
    requires forall i :: 0 <= i < |s| ==> IsPrint(s[i])
    ensures Feed(cfg, View(t, Plain), s) == View(Text(t.before + s, t.after), Plain)
  {
    if s != [] {
      TypingText(cfg, t, s[..|s| - 1]);
      assert t.before + s == t.before + s[..|s| - 1] + [s[|s| - 1]];
    }
  }

  lemma {:induction false} TypingQuiet(cfg: Config, v: View, s: seq<U8>)
    requires forall i :: 0 <= i < |s| ==> IsPrint(s[i])
    ensures Submitted(cfg, v, s) == []
  {
    if s != [] { TypingQuiet(cfg, v, s[..|s| - 1]); }
  }

  /** The number a control sequence carries: the decimal value of its digits, or one. */
  function Amount(digits: seq<U8>): U32
    requires forall i :: 0 <= i < |digits| ==> IsDigit(digits[i])
  {
    if digits == [] then 1 else Value(digits) % 0x1_0000_0000
  }

  /** That value is the one of the numeral. */
  lemma {:induction false} ValueIsNumeral(digits: seq<U8>)
    requires forall i :: 0 <= i < |digits| ==> 48 <= digits[i] <= 57
    ensures Value(digits)
         == Numerals.Value(seq(|digits|, i requires 0 <= i < |digits| => digits[i] - 48), Numerals.Decimal)
  {
    if digits != [] {
      var front := digits[..|digits| - 1];
      ValueIsNumeral(front);
      var ds := seq(|digits|, i requires 0 <= i < |digits| => digits[i] - 48);
      assert ds[..|ds| - 1] == seq(|front|, i requires 0 <= i < |front| => front[i] - 48);
    }
  }

  /** Moved by a control sequence: the same text with so many bytes before the cursor. */
  predicate Moved(t: Text, before: int, v: View) {
    v.mode == Plain && Whole(v.text) == Whole(t) && |v.text.before| == before
  }

  /** What ESC [ digits b does, for every text and every final byte: D (0x44) and C (0x43)
      move the cursor by the number if there is so much text on that side, H (0x48) and F
      (0x46) to the ends, ~ (0x7E) drops the byte behind the cursor; any other byte does
      nothing. */
  lemma Keys(cfg: Config, t: Text, digits: seq<U8>, b: U8)
    requires forall i :: 0 <= i < |digits| ==> 48 <= digits[i] <= 57
    requires !(48 <= b <= 57) && (b == 0x3B ==> digits == []) && cfg.del != 0x1B
    ensures var v, n := Feed(cfg, View(t, Plain), [0x1B, 0x5B] + digits + [b]), Amount(digits);
      && (b == 0x44 ==> Moved(t, if n <= |t.before| then |t.before| - n else |t.before|, v))
      && (b == 0x43 ==> Moved(t, if n <= |t.after| then |t.before| + n else |t.before|, v))
      && (b == 0x48 ==> Moved(t, 0, v))
      && (b == 0x46 ==> Moved(t, |t.before| + |t.after|, v))
      && (b == 0x7E ==> v == View(Text(t.before, if t.after == [] then [] else t.after[1..]), Plain))
      && (b !in {0x44, 0x43, 0x48, 0x46, 0x7E} ==> v == View(t, Plain))
  {
    if digits == [] {
      assert [ESC, LEFT_BRACKET] + digits + [b] == [ESC, LEFT_BRACKET] + [b];
      ShortSequence(cfg, t, b);
    } else {
      ControlSequence(cfg, t, digits, b);
    }
    CommandMoves(t, b, Amount(digits));
  }

  lemma CommandMoves(t: Text, b: U8, n: U32)
    ensures var u := Command(t, b, n);
      && (b != 0x7E ==> Whole(u) == Whole(t))
      && (b == 0x44 ==> |u.before| == if n <= |t.before| then |t.before| - n else |t.before|)
      && (b == 0x43 ==> |u.before| == if n <= |t.after| then |t.before| + n else |t.before|)
      && (b == 0x48 ==> |u.before| == 0)
      && (b == 0x46 ==> |u.before| == |t.before| + |t.after|)
      && (b == 0x7E ==> u == Text(t.before, if t.after == [] then [] else t.after[1..]))
      && (b !in {0x44, 0x43, 0x48, 0x46, 0x7E} ==> u == t)
  {
    if b == 0x44 || b == 0x48 { LeftMoves(t, if b == 0x44 then n else |t.before|); }
    if b == 0x43 || b == 0x46 { RightMoves(t, if b == 0x43 then n else |t.after|); }
  }

  /** A text with its cursor at k. */
  lemma MovedTo(s: seq<U8>, k: nat, t: Text, v: View)
    requires k <= |s| && Whole(t) == s && Moved(t, k, v)
    ensures v == View(Text(s[..k], s[k..]), Plain)
  {
    assert s[..k] + s[k..] == s;
    SameText(v.text, Text(s[..k], s[k..]));
  }

  /** What the other bytes do outside a control sequence: printable ones (0x20 to 0x7E) are
      inserted while there is room, the backspace byte takes one back, TAB (9) at the end of
      the text completes it, CR (13) ends and submits it, ESC (0x1B) begins a sequence that
      any byte but [ (0x5B) ends; and the rest does nothing. */
  lemma PlainKeys(cfg: Config, t: Text, b: U8, c: U8)
    requires cfg.Valid()
    ensures var v := Feed(cfg, View(t, Plain), [b]);
      && (0x20 <= b <= 0x7E ==>
            v == View(if |Whole(t)| + 1 < cfg.size then Text(t.before + [b], t.after) else t, Plain))
      && (b == cfg.del ==> v.mode == Plain && v.text.after == t.after
                           && (if t.before == [] then v.text == t else exists d :: v.text.before + [d] == t.before))
      && (b == 9 ==> v == View(if t.after == [] then Text(t.before + cfg.completion(t.before), []) else t, Plain))
      && (b == 13 ==> v == View(Text([], []), Plain))
      && (b < 0x20 && b !in {9, 13, 0x1B, cfg.del} ==> v == View(t, Plain))
      && (b > 0x7E && b != cfg.del ==> v == View(t, Plain))
    ensures Submitted(cfg, View(t, Plain), [b]) == if b == 13 then [t.before + t.after] else []
    ensures c != 0x5B ==> Feed(cfg, View(t, Plain), [0x1B, c]) == View(t, Plain)
  {
    assert [b][..0] == [];
    assert Feed(cfg, View(t, Plain), []) == View(t, Plain) && Submitted(cfg, View(t, Plain), []) == [];
    if b == cfg.del && t.before != [] {
      var k := |t.before| - 1;
      assert t.before[..k] + [t.before[k]] == t.before;
    }
    assert [ESC, c][..1] == [ESC] && [ESC][..0] == [];
  }

  /** Nothing inside a control sequence submits a line. */
  lemma {:induction false} SequenceQuiet(cfg: Config, t: Text, mode: Mode, digits: seq<U8>, b: U8)
    requires (mode.First? || mode.Number?) && forall i :: 0 <= i < |digits| ==> IsDigit(digits[i])
    ensures Submitted(cfg, View(t, mode), digits + [b]) == []
    ensures Feed(cfg, View(t, mode), digits).mode.First? || Feed(cfg, View(t, mode), digits).mode.Number?
    ensures Submitted(cfg, View(t, mode), digits) == []
  {
    if digits != [] {
      SequenceQuiet(cfg, t, mode, digits[..|digits| - 1], digits[|digits| - 1]);
      assert digits == digits[..|digits| - 1] + [digits[|digits| - 1]];
    }
    assert (digits + [b])[..|digits|] == digits;
  }

  lemma QueueJoin(a: seq<seq<U8>>, b: seq<seq<U8>>, c: seq<seq<U8>>)
    ensures a + b + c == a + (b + c)
  {
  }

  lemma {:induction false} SubmittedJoin(cfg: Config, v: View, a: seq<U8>, b: seq<U8>)
    ensures Submitted(cfg, v, a + b) == Submitted(cfg, v, a) + Submitted(cfg, Feed(cfg, v, a), b)
  {
    if b == [] {
      assert a + b == a;
    } else {
      var front, last := b[..|b| - 1], b[|b| - 1];
      SubmittedJoin(cfg, v, a, front);
      FeedJoin(cfg, v, a, front);
      assert (a + b)[..|a + b| - 1] == a + front;
      QueueJoin(Submitted(cfg, v, a), Submitted(cfg, Feed(cfg, v, a), front), Queued(Feed(cfg, v, a + front), last));
    }
  }

  lemma KeyQuiet(cfg: Config, t: Text, digits: seq<U8>, b: U8)
    requires cfg.del != ESC && forall i :: 0 <= i < |digits| ==> IsDigit(digits[i])
    ensures Submitted(cfg, View(t, Plain), [ESC, LEFT_BRACKET] + digits + [b]) == []
  {
    var v := View(t, Plain);
    var head := [ESC, LEFT_BRACKET];
    assert head[..1] == [ESC] && [ESC][..0] == [];
    assert Feed(cfg, v, [ESC]) == View(t, Escape);
    assert Submitted(cfg, v, [ESC]) == [];
    assert Feed(cfg, v, head) == View(t, First) && Submitted(cfg, v, head) == [];
    SubmittedJoin(cfg, v, head, digits + [b]);
    assert head + digits + [b] == head + (digits + [b]);
    SequenceQuiet(cfg, t, First, digits, b);
  }

  /** Typing s, moving n to the left, typing c and CR submits c inside s, n from its end. */
  lemma TypedInside(cfg: Config, s: seq<U8>, digits: seq<U8>, c: seq<U8>)
    requires cfg.Valid() && |s| + |c| < cfg.size
    requires (forall i :: 0 <= i < |s| ==> 0x20 <= s[i] <= 0x7E) && (forall i :: 0 <= i < |c| ==> 0x20 <= c[i] <= 0x7E)
    requires forall i :: 0 <= i < |digits| ==> 48 <= digits[i] <= 57
    requires Amount(digits) <= |s|
    ensures var k := |s| - Amount(digits);
      Submitted(cfg, View(Text([], []), Plain), s + ([0x1B, 0x5B] + digits + [0x44]) + (c + [13]))
        == [s[..k] + c + s[k..]]
  {
    var start, k, key := View(Text([], []), Plain), |s| - Amount(digits), [ESC, LEFT_BRACKET] + digits + [BACKWARD];
    var typed := Text(s, []);
    TypingText(cfg, Text([], []), s);
    TypingQuiet(cfg, start, s);
    assert [] + s == s;
    Keys(cfg, typed, digits, BACKWARD);
    assert Whole(typed) == s;
    MovedTo(s, k, typed, Feed(cfg, View(typed, Plain), key));
    KeyQuiet(cfg, typed, digits, BACKWARD);
    var moved := Text(s[..k], s[k..]);
    assert Whole(moved) == s;
    Typing(cfg, moved, c);
    SubmittedJoin(cfg, start, s, key);
    FeedJoin(cfg, start, s, key);
    SubmittedJoin(cfg, start, s + key, c + [CR]);
  }
}

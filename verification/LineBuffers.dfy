/** The three line buffers shared by uart_console_isr and the shell thread: they circulate
    through the available queue, the interrupt's hand, the lines queue and the shell's hand. */
module LineBuffers {
  import opened CTypes
  import opened LineEditor

  // ---------------------------------------------------------------- where the buffers are

  datatype Hand = Empty | Holds(buf: nat)

  datatype Pool = Pool(avail: seq<nat>, lines: seq<nat>, isr: Hand, shell: Hand)

  function Occurs(q: seq<nat>, k: nat): nat {
    if q == [] then 0 else Occurs(q[..|q| - 1], k) + (if q[|q| - 1] == k then 1 else 0)
  }

  function Held(h: Hand, k: nat): nat { if h == Holds(k) then 1 else 0 }

  /** In how many places the buffer k is. */
  function Places(p: Pool, k: nat): nat {
    Occurs(p.avail, k) + Occurs(p.lines, k) + Held(p.isr, k) + Held(p.shell, k)
  }

  function Size(p: Pool): nat {
    |p.avail| + |p.lines| + (if p.isr.Holds? then 1 else 0) + (if p.shell.Holds? then 1 else 0)
  }

  /** The three buffers 0, 1 and 2 are each in exactly one place, and there are no others. */
  ghost predicate Conserved(p: Pool) {
    && (forall k :: Places(p, k) == if k < 3 then 1 else 0)
    && Size(p) == 3
  }

  lemma OccursSnoc(q: seq<nat>, x: nat, k: nat)
    ensures Occurs(q + [x], k) == Occurs(q, k) + if x == k then 1 else 0
  {
    assert (q + [x])[..|q|] == q;
  }

  lemma {:induction false} OccursTail(q: seq<nat>, k: nat)
    requires q != []
    ensures Occurs(q, k) == Occurs(q[1..], k) + if q[0] == k then 1 else 0
  {
    if |q| > 1 {
      OccursTail(q[..|q| - 1], k);
      assert q[..|q| - 1][1..] == q[1..][..|q| - 2];
    } else {
      assert q[..0] == [] && q[1..] == [];
    }
  }

  lemma {:induction false} OccursAt(q: seq<nat>, i: nat)
    requires i < |q|
    ensures Occurs(q, q[i]) >= 1
  {
    if i < |q| - 1 { OccursAt(q[..|q| - 1], i); }
  }

  /** A buffer in a hand is one of the three and is not queued; so are the queued ones. */
  lemma Apart(p: Pool)
    requires Conserved(p)
    ensures p.isr.Holds? ==> p.isr.buf !in p.lines && p.isr.buf < 3
    ensures p.shell.Holds? ==> p.shell.buf !in p.lines && p.shell.buf < 3
    ensures forall i :: 0 <= i < |p.lines| ==> p.lines[i] < 3
  {
    forall i | 0 <= i < |p.lines|
      ensures p.lines[i] < 3 && p.isr != Holds(p.lines[i]) && p.shell != Holds(p.lines[i])
    {
      OccursAt(p.lines, i);
      assert Places(p, p.lines[i]) >= 1;
    }
    if p.isr.Holds? { assert Places(p, p.isr.buf) >= 1; }
    if p.shell.Holds? { assert Places(p, p.shell.buf) >= 1; }
  }

  /** The interrupt takes a buffer if it has none and there is one. */
  function Take(p: Pool): Pool {
    if p.isr.Empty? && p.avail != [] then p.(isr := Holds(p.avail[0]), avail := p.avail[1..]) else p
  }

  /** It queues the line it holds. */
  function Queue(p: Pool): Pool
    requires p.isr.Holds?
  {
    p.(isr := Empty, lines := p.lines + [p.isr.buf])
  }

  /** The shell takes the first line, unless it is busy or there is none. */
  function Get(p: Pool): Pool {
    if p.shell.Empty? && p.lines != [] then p.(shell := Holds(p.lines[0]), lines := p.lines[1..]) else p
  }

  function PutBack(p: Pool): Pool {
    if p.shell.Holds? then p.(shell := Empty, avail := p.avail + [p.shell.buf]) else p
  }

  lemma IsrConserves(p: Pool)
    requires Conserved(p)
    ensures Conserved(Take(p))
    ensures p.isr.Holds? ==> Conserved(Queue(p))
  {
    forall k
      ensures Places(Take(p), k) == Places(p, k)
      ensures p.isr.Holds? ==> Places(Queue(p), k) == Places(p, k)
    {
      if p.avail != [] { OccursTail(p.avail, k); }
      if p.isr.Holds? { OccursSnoc(p.lines, p.isr.buf, k); }
    }
  }

  lemma ShellConserves(p: Pool)
    requires Conserved(p)
    ensures Conserved(Get(p)) && Conserved(PutBack(p))
  {
    forall k ensures Places(Get(p), k) == Places(p, k) && Places(PutBack(p), k) == Places(p, k) {
      if p.lines != [] { OccursTail(p.lines, k); }
      if p.shell.Holds? { OccursSnoc(p.avail, p.shell.buf, k); }
    }
  }

  // ---------------------------------------------------------------- what they hold

  /** mem is the string in each buffer; accepted and got record the bytes the editor has
      processed and the strings the shell has taken. */
  datatype State = State(pool: Pool, mem: seq<seq<U8>>, view: View, accepted: seq<U8>, got: seq<seq<U8>>)

  /** A received byte; the shell takes a line, writes into the one it holds, or gives it back. */
  datatype Action = Byte(b: U8) | Taken | Scribble(s: seq<U8>) | Done

  const BLANK_VIEW := View(Text([], []), Plain)

  /** line_queue_init. */
  function Init(): State {
    State(Pool([0, 1, 2], [], Empty, Empty), [[], [], []], BLANK_VIEW, [], [])
  }

  function Write(mem: seq<seq<U8>>, k: nat, t: seq<U8>): seq<seq<U8>> { if k < |mem| then mem[k := t] else mem }

  function At(mem: seq<seq<U8>>, k: nat): seq<U8> { if k < |mem| then mem[k] else [] }

  /** With a buffer in hand the byte is edited into it; a carriage return queues the line. */
  function Edit(cfg: Config, s: State, b: U8): State
    requires s.pool.isr.Holds?
  {
    var submits := s.view.mode == Plain && b == CR;
    var next := Step(cfg, s.view, b);
    var text := Whole(if submits then s.view.text else next.text);
    State(if submits then Queue(s.pool) else s.pool, Write(s.mem, s.pool.isr.buf, text), next, s.accepted + [b], s.got)
  }

  /** A byte that finds no buffer is dropped. */
  function Receive(cfg: Config, s: State, b: U8): State {
    var t := s.(pool := Take(s.pool));
    if t.pool.isr.Empty? then t else Edit(cfg, t, b)
  }

  function ShellGets(s: State): State {
    if s.pool.shell.Empty? && s.pool.lines != []
    then s.(pool := Get(s.pool), got := s.got + [At(s.mem, s.pool.lines[0])])
    else s
  }

  function Next(cfg: Config, s: State, a: Action): State {
    match a
    case Byte(b) => Receive(cfg, s, b)
    case Taken => ShellGets(s)
    case Scribble(t) => if s.pool.shell.Holds? then s.(mem := Write(s.mem, s.pool.shell.buf, t)) else s
    case Done => s.(pool := PutBack(s.pool))
  }

  function Run(cfg: Config, s: State, actions: seq<Action>): State {
    if actions == [] then s else Next(cfg, Run(cfg, s, actions[..|actions| - 1]), actions[|actions| - 1])
  }

  /** The strings waiting in the lines queue. */
  function Waiting(lines: seq<nat>, mem: seq<seq<U8>>): (w: seq<seq<U8>>)
    ensures |w| == |lines| && forall i :: 0 <= i < |w| ==> w[i] == At(mem, lines[i])
  {
    if lines == [] then [] else Waiting(lines[..|lines| - 1], mem) + [At(mem, lines[|lines| - 1])]
  }

  /** The lines taken and those waiting are the lines typed, in order; and the interrupt
      without a buffer is between two lines. */
  ghost predicate InOrder(cfg: Config, s: State) {
    && s.got + Waiting(s.pool.lines, s.mem) == Submitted(cfg, BLANK_VIEW, s.accepted)
    && s.view == Feed(cfg, BLANK_VIEW, s.accepted)
    && (s.pool.isr.Empty? ==> s.view == BLANK_VIEW)
  }

  ghost predicate Inv(cfg: Config, s: State) { Conserved(s.pool) && |s.mem| == 3 && InOrder(cfg, s) }

  /** Writing a buffer that is not queued leaves the waiting strings alone. */
  lemma WaitingKept(lines: seq<nat>, mem: seq<seq<U8>>, k: nat, t: seq<U8>)
    requires k !in lines
    ensures Waiting(lines, Write(mem, k, t)) == Waiting(lines, mem)
  {
  }

  lemma SubmitKeeps(cfg: Config, s: State)
    requires s.pool.isr.Holds? && s.pool.isr.buf < |s.mem| && s.pool.isr.buf !in s.pool.lines && InOrder(cfg, s)
    requires cfg.Valid() && s.view.mode == Plain
    ensures InOrder(cfg, Edit(cfg, s, CR))
  {
    var k, text := s.pool.isr.buf, Whole(s.view.text);
    var t := Edit(cfg, s, CR);
    assert t.view == BLANK_VIEW && t.got == s.got;
    assert t.mem == Write(s.mem, k, text) && t.pool.lines == s.pool.lines + [k];
    SubmittedSnoc(cfg, s.accepted, CR);
    assert Queued(s.view, CR) == [text];
    LineQueued(s.got, s.pool.lines, s.mem, k, text);
  }

  /** A line put into a buffer that was not queued, and the buffer queued. */
  lemma LineQueued(got: seq<seq<U8>>, lines: seq<nat>, mem: seq<seq<U8>>, k: nat, text: seq<U8>)
    requires k < |mem| && k !in lines
    ensures got + Waiting(lines + [k], Write(mem, k, text)) == got + Waiting(lines, mem) + [text]
  {
    WaitingKept(lines, mem, k, text);
    WaitingSnoc(lines, Write(mem, k, text), k);
    Associate(got, Waiting(lines, mem), [text]);
  }

  lemma Associate(a: seq<seq<U8>>, b: seq<seq<U8>>, c: seq<seq<U8>>)
    ensures a + (b + c) == a + b + c
  {
  }

  lemma TypeKeeps(cfg: Config, s: State, b: U8)
    requires s.pool.isr.Holds? && s.pool.isr.buf < |s.mem| && s.pool.isr.buf !in s.pool.lines && InOrder(cfg, s)
    requires !(s.view.mode == Plain && b == CR)
    ensures InOrder(cfg, Edit(cfg, s, b))
  {
    WaitingKept(s.pool.lines, s.mem, s.pool.isr.buf, Whole(Step(cfg, s.view, b).text));
    SubmittedSnoc(cfg, s.accepted, b);
    assert Queued(s.view, b) == [];
  }

  lemma WaitingSnoc(lines: seq<nat>, mem: seq<seq<U8>>, k: nat)
    ensures Waiting(lines + [k], mem) == Waiting(lines, mem) + [At(mem, k)]
  {
  }

  lemma SubmittedSnoc(cfg: Config, bytes: seq<U8>, b: U8)
    ensures var v := Feed(cfg, BLANK_VIEW, bytes);
      && Feed(cfg, BLANK_VIEW, bytes + [b]) == Step(cfg, v, b)
      && Submitted(cfg, BLANK_VIEW, bytes + [b]) == Submitted(cfg, BLANK_VIEW, bytes) + Queued(v, b)
  {
    assert (bytes + [b])[..|bytes|] == bytes;
  }

  lemma GetKeeps(cfg: Config, s: State)
    requires InOrder(cfg, s)
    ensures InOrder(cfg, ShellGets(s))
  {
    if s.pool.shell.Empty? && s.pool.lines != [] {
      WaitingFirst(s.pool.lines, s.mem);
      Associate(s.got, [At(s.mem, s.pool.lines[0])], Waiting(s.pool.lines[1..], s.mem));
    }
  }

  lemma WaitingFirst(lines: seq<nat>, mem: seq<seq<U8>>)
    requires lines != []
    ensures Waiting(lines, mem) == [At(mem, lines[0])] + Waiting(lines[1..], mem)
  {
  }

  lemma ByteKeeps(cfg: Config, s: State, b: U8)
    requires cfg.Valid() && Inv(cfg, s)
    ensures Inv(cfg, Receive(cfg, s, b))
  {
    IsrConserves(s.pool);
    var t := s.(pool := Take(s.pool));
    if t.pool.isr.Holds? {
      Apart(t.pool);
      IsrConserves(t.pool);
      if t.view.mode == Plain && b == CR { SubmitKeeps(cfg, t); } else { TypeKeeps(cfg, t, b); }
    }
  }

  lemma ScribbleKeeps(cfg: Config, s: State, t: seq<U8>)
    requires Inv(cfg, s) && s.pool.shell.Holds?
    ensures Inv(cfg, s.(mem := Write(s.mem, s.pool.shell.buf, t)))
  {
    Apart(s.pool);
    WaitingKept(s.pool.lines, s.mem, s.pool.shell.buf, t);
  }

  lemma NextKeeps(cfg: Config, s: State, a: Action)
    requires cfg.Valid() && Inv(cfg, s)
    ensures Inv(cfg, Next(cfg, s, a))
  {
    match a
    case Byte(b) => ByteKeeps(cfg, s, b);
    case Taken =>
      ShellConserves(s.pool);
      GetKeeps(cfg, s);
    case Scribble(t) => if s.pool.shell.Holds? { ScribbleKeeps(cfg, s, t); }
    case Done => ShellConserves(s.pool);
  }

  lemma {:induction false} RunKeeps(cfg: Config, actions: seq<Action>)
    requires cfg.Valid()
    ensures Inv(cfg, Run(cfg, Init(), actions))
  {
    if actions == [] {
      forall k: nat ensures Places(Init().pool, k) == if k < 3 then 1 else 0 {
        OccursSnoc([0, 1], 2, k);
        OccursSnoc([0], 1, k);
        OccursSnoc([], 0, k);
        assert [] + [0] == [0] && [0] + [1] == [0, 1] && [0, 1] + [2] == [0, 1, 2];
      }
    } else {
      RunKeeps(cfg, actions[..|actions| - 1]);
      NextKeeps(cfg, Run(cfg, Init(), actions[..|actions| - 1]), actions[|actions| - 1]);
    }
  }

  /** In every run, whatever the shell writes into the lines it holds: each buffer is in
      exactly one place; the strings the shell has taken followed by those waiting are the
      lines of the accepted bytes, in the order typed. */
  lemma BuffersConserved(cfg: Config, actions: seq<Action>)
    requires cfg.Valid()
    ensures var s := Run(cfg, Init(), actions);
      && Conserved(s.pool)
      && s.got + Waiting(s.pool.lines, s.mem) == Submitted(cfg, BLANK_VIEW, s.accepted)
  {
    RunKeeps(cfg, actions);
  }

  /** A byte is dropped exactly when the lines queue and the shell hold all three buffers,
      and only between two lines. */
  lemma DroppedExactly(cfg: Config, actions: seq<Action>, b: U8)
    requires cfg.Valid()
    ensures var s := Run(cfg, Init(), actions);
      var t := Next(cfg, s, Byte(b));
      && t.accepted ==
           (if |s.pool.lines| + (if s.pool.shell.Holds? then 1 else 0) == 3 then s.accepted else s.accepted + [b])
      && (t.accepted == s.accepted ==> s.view == BLANK_VIEW)
  {
    RunKeeps(cfg, actions);
    var s := Run(cfg, Init(), actions);
    assert |s.accepted + [b]| != |s.accepted|;
  }

  /** Dropping ends as soon as the shell is done with one line: it never waits for the
      interrupt. */
  lemma Recovers(cfg: Config, actions: seq<Action>, b: U8)
    requires cfg.Valid()
    ensures var t := Run(cfg, Init(), actions + [Taken, Done]);
      Next(cfg, t, Byte(b)).accepted == t.accepted + [b]
  {
    var s := Run(cfg, Init(), actions);
    RunKeeps(cfg, actions);
    RunTwo(cfg, actions, Taken, Done);
    ShellDone(cfg, s, b);
  }

  lemma RunTwo(cfg: Config, actions: seq<Action>, a: Action, b: Action)
    ensures Run(cfg, Init(), actions + [a, b]) == Next(cfg, Next(cfg, Run(cfg, Init(), actions), a), b)
  {
    assert (actions + [a, b])[..|actions| + 1] == actions + [a];
    assert (actions + [a])[..|actions|] == actions;
  }

  lemma ShellDone(cfg: Config, s: State, b: U8)
    requires Size(s.pool) == 3
    ensures var t := Next(cfg, Next(cfg, s, Taken), Done); Next(cfg, t, Byte(b)).accepted == t.accepted + [b]
  {
    var t := Next(cfg, Next(cfg, s, Taken), Done);
    assert t.pool == PutBack(if s.pool.shell.Empty? then Get(s.pool) else s.pool);
    assert t.pool.isr.Holds? || t.pool.avail != [];
  }
}

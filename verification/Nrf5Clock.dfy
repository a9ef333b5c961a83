/** Reference counting of the nRF5 high-frequency clock in
    drivers/clock_control/nrf5_power_clock.c. Any number of contexts (threads and interrupt
    handlers) start and stop the clock; the section under irq_lock is one step, and every
    later access to the hardware or the guard is a step of its own. */
module Nrf5Clock {
  import opened CTypes

  const REF_MAX := 255

  /** Where a context stands: outside both routines; inside _m16src_start with the guard
      taken, with the start task issued, or about to check the count; inside _m16src_stop
      with the guard taken or with the stop task issued. */
  datatype Context = Idle | StartTaken | StartIssued | Started | StopTaken | StopIssued {
    predicate Guards() { StartTaken? || StartIssued? || StopTaken? || StopIssued? }
    predicate Starting() { StartTaken? || StartIssued? || Started? }
    predicate Stopping() { StopTaken? || StopIssued? }
  }

  datatype Task = Start | Stop

  /** The shared count and guard, the tasks issued to the hardware so far, the number of
      starts that have returned and are not yet stopped, whether every count assertion has
      held, and the result of the latest stop. */
  datatype State = State(ref: nat, guarded: bool, tasks: seq<Task>, contexts: seq<Context>,
                         owed: nat, asserted: bool, stopResult: int)

  datatype Step = BeginStart(i: nat) | BeginStop(i: nat) | Continue(i: nat)

  predicate Initial(s: State) {
    && s.ref == 0 && !s.guarded && s.tasks == [] && s.owed == 0 && s.asserted && s.stopResult == 0
    && forall i :: 0 <= i < |s.contexts| ==> s.contexts[i] == Idle
  }

  /** Every stop is paired with a start that has returned. */
  predicate Enabled(s: State, step: Step) {
    && step.i < |s.contexts|
    && match step
       case BeginStart(i) => s.contexts[i] == Idle
       case BeginStop(i) => s.contexts[i] == Idle && s.owed > 0
       case Continue(i) => s.contexts[i] != Idle
  }

  /** The result of the section under irq_lock in _m16src_start: refused with -EAGAIN. */
  predicate StartRefused(s: State) { s.ref == 0 && s.guarded }

  function Next(s: State, step: Step): State
    requires Enabled(s, step)
  {
    match step
    case BeginStart(i) =>
      if s.ref != 0 then
        s.(ref := (s.ref + 1) % 256, contexts := s.contexts[i := Started])
      else if s.guarded then
        s
      else
        s.(ref := 1, guarded := true, contexts := s.contexts[i := StartTaken])
    case BeginStop(i) =>
      if s.ref == 0 then
        s.(stopResult := -EALREADY)
      else if s.ref != 1 then
        s.(ref := s.ref - 1, owed := s.owed - 1, stopResult := 0)
      else if s.guarded then
        s.(stopResult := -EAGAIN)
      else
        s.(ref := 0, guarded := true, owed := s.owed - 1, contexts := s.contexts[i := StopTaken])
    case Continue(i) =>
      match s.contexts[i]
      case StartTaken => s.(tasks := s.tasks + [Start], contexts := s.contexts[i := StartIssued])
      case StartIssued => s.(guarded := false, contexts := s.contexts[i := Started])
      case Started => s.(asserted := s.asserted && s.ref != 0, owed := s.owed + 1, contexts := s.contexts[i := Idle])
      case StopTaken => s.(tasks := s.tasks + [Stop], contexts := s.contexts[i := StopIssued])
      case StopIssued => s.(guarded := false, stopResult := 0, contexts := s.contexts[i := Idle])
      case Idle => s
  }

  /** A run in which no start is made with 255 references outstanding. */
  ghost predicate Run(s: State, steps: seq<Step>, t: State)
    decreases |steps|
  {
    if steps == [] then s == t
    else
      && Enabled(s, steps[0])
      && (steps[0].BeginStart? ==> s.ref < REF_MAX)
      && Run(Next(s, steps[0]), steps[1..], t)
  }

  // ---------------------------------------------------------------- counting contexts

  function Guarding(cs: seq<Context>): nat {
    if cs == [] then 0 else Guarding(cs[1..]) + (if cs[0].Guards() then 1 else 0)
  }

  function StartsOpen(cs: seq<Context>): nat {
    if cs == [] then 0 else StartsOpen(cs[1..]) + (if cs[0].Starting() then 1 else 0)
  }

  lemma {:induction false} Counts(cs: seq<Context>, i: nat, c: Context)
    requires i < |cs|
    ensures Guarding(cs[i := c]) == Guarding(cs) - (if cs[i].Guards() then 1 else 0) + (if c.Guards() then 1 else 0)
    ensures StartsOpen(cs[i := c])
         == StartsOpen(cs) - (if cs[i].Starting() then 1 else 0) + (if c.Starting() then 1 else 0)
    ensures cs[i].Guards() ==> Guarding(cs) >= 1
    ensures cs[i].Starting() ==> StartsOpen(cs) >= 1
  {
    if i == 0 {
      assert cs[i := c][1..] == cs[1..];
    } else {
      Counts(cs[1..], i - 1, c);
      assert cs[i := c][1..] == cs[1..][i - 1 := c];
    }
  }

  lemma {:induction false} GuardHolder(cs: seq<Context>) returns (i: nat)
    requires Guarding(cs) > 0
    ensures i < |cs| && cs[i].Guards()
  {
    if cs[0].Guards() {
      i := 0;
    } else {
      i := GuardHolder(cs[1..]);
      i := i + 1;
    }
  }

  /** With a single guard held, its holder is unique. */
  lemma OnlyHolder(cs: seq<Context>, i: nat, j: nat)
    requires i < |cs| && j < |cs| && cs[i].Guards() && cs[j].Guards() && Guarding(cs) <= 1
    ensures i == j
  {
    if i != j {
      Counts(cs, i, Idle);
      Counts(cs[i := Idle], j, Idle);
    }
  }

  // ---------------------------------------------------------------- invariant

  predicate On(tasks: seq<Task>) { |tasks| % 2 == 1 }

  /** Tasks alternate, beginning with a start. */
  predicate Alternating(tasks: seq<Task>) {
    forall k :: 0 <= k < |tasks| ==> tasks[k] == if k % 2 == 0 then Start else Stop
  }

  /** What the holder of the guard is entitled to. */
  predicate HolderOk(s: State, c: Context) {
    match c
    case StartTaken => s.ref > 0 && !On(s.tasks)
    case StartIssued => s.ref > 0 && On(s.tasks)
    case StopTaken => s.ref == 0 && On(s.tasks)
    case StopIssued => s.ref == 0 && !On(s.tasks)
    case _ => true
  }

  ghost predicate Inv(s: State) {
    && s.ref <= REF_MAX && s.ref == s.owed + StartsOpen(s.contexts)
    && Guarding(s.contexts) == (if s.guarded then 1 else 0)
    && (forall i :: 0 <= i < |s.contexts| ==> HolderOk(s, s.contexts[i]))
    && (!s.guarded ==> (On(s.tasks) <==> s.ref > 0))
    && Alternating(s.tasks) && s.asserted && s.stopResult == 0
  }

  lemma OthersKept(s: State, t: State, i: nat)
    requires Inv(s) && i < |s.contexts| == |t.contexts| && t.contexts == s.contexts[i := t.contexts[i]]
    requires HolderOk(t, t.contexts[i])
    requires s.contexts[i].Guards() || (t.tasks == s.tasks && (s.ref > 0 <==> t.ref > 0)) || !s.guarded
    ensures forall j :: 0 <= j < |t.contexts| ==> HolderOk(t, t.contexts[j])
  {
    forall j | 0 <= j < |t.contexts| ensures HolderOk(t, t.contexts[j]) {
      if j != i && s.contexts[j].Guards() {
        Counts(s.contexts, j, Idle);
        if s.contexts[i].Guards() { OnlyHolder(s.contexts, i, j); }
      }
    }
  }

  lemma StartKeeps(s: State, i: nat)
    requires Inv(s) && Enabled(s, BeginStart(i)) && s.ref < REF_MAX
    ensures Inv(Next(s, BeginStart(i)))
  {
    var t := Next(s, BeginStart(i));
    Counts(s.contexts, i, t.contexts[i]);
    OthersKept(s, t, i);
  }

  /** A stop paired with a completed start is never refused. */
  lemma StopKeeps(s: State, i: nat)
    requires Inv(s) && Enabled(s, BeginStop(i))
    ensures s.ref > 0 && (s.ref == 1 ==> !s.guarded)
    ensures Inv(Next(s, BeginStop(i)))
  {
    var t := Next(s, BeginStop(i));
    if s.guarded {
      var j := GuardHolder(s.contexts);
      Counts(s.contexts, j, Idle);
    }
    Counts(s.contexts, i, t.contexts[i]);
    OthersKept(s, t, i);
  }

  lemma ContinueKeeps(s: State, i: nat)
    requires Inv(s) && Enabled(s, Continue(i))
    ensures Inv(Next(s, Continue(i)))
  {
    var t := Next(s, Continue(i));
    Counts(s.contexts, i, t.contexts[i]);
    OthersKept(s, t, i);
  }

  lemma {:induction false} RunKeeps(s: State, steps: seq<Step>, t: State)
    requires Inv(s) && Run(s, steps, t)
    ensures Inv(t)
    decreases |steps|
  {
    if steps != [] {
      match steps[0] {
        case BeginStart(i) => StartKeeps(s, i);
        case BeginStop(i) => StopKeeps(s, i);
        case Continue(i) => ContinueKeeps(s, i);
      }
      RunKeeps(Next(s, steps[0]), steps[1..], t);
    }
  }

  // ---------------------------------------------------------------- theorems

  /** In every interleaving of paired starts and stops with fewer than 255 references at
      each start: at most one context holds the guard, and the guard flag says whether one
      does; whenever the guard is free the last task issued is a start exactly when the
      count is positive; start and stop tasks alternate; every count assertion has held and
      every finished stop has returned 0; the count is the number of starts that have not been
      stopped; and a stop made now will not be refused, so the assertion after the stop at the
      end of a calibration holds. */
  lemma Protocol(s: State, steps: seq<Step>, t: State)
    requires Initial(s) && Run(s, steps, t)
    ensures forall i, j | 0 <= i < |t.contexts| && 0 <= j < |t.contexts| ::
              t.contexts[i].Guards() && t.contexts[j].Guards() ==> i == j
    ensures t.guarded <==> exists i :: 0 <= i < |t.contexts| && t.contexts[i].Guards()
    ensures !t.guarded ==> ((t.tasks != [] && t.tasks[|t.tasks| - 1] == Start) <==> t.ref > 0)
    ensures Alternating(t.tasks) && t.asserted && t.stopResult == 0
    ensures t.ref == t.owed + StartsOpen(t.contexts)
    ensures t.owed > 0 ==> t.ref > 0 && (t.ref == 1 ==> !t.guarded)
  {
    InitialInv(s);
    RunKeeps(s, steps, t);
    forall i, j | 0 <= i < |t.contexts| && 0 <= j < |t.contexts| && t.contexts[i].Guards() && t.contexts[j].Guards()
      ensures i == j
    {
      OnlyHolder(t.contexts, i, j);
    }
    HolderIff(t);
    if t.owed > 0 && t.guarded {
      var j := GuardHolder(t.contexts);
      Counts(t.contexts, j, Idle);
    }
  }

  /** A context that continues alone. */
  function Alone(i: nat, n: nat): seq<Step> { seq(n, _ => Continue(i)) }

  /** The steps a context has still to make. */
  function Ahead(c: Context): nat {
    match c
    case StartTaken => 3
    case StartIssued => 2
    case Started => 1
    case StopTaken => 2
    case StopIssued => 1
    case Idle => 0
  }

  lemma AloneFirst(t: State, i: nat, n: nat, u: State)
    requires Enabled(t, Continue(i)) && Run(Next(t, Continue(i)), Alone(i, n), u)
    ensures Run(t, Alone(i, n + 1), u)
  {
    assert Alone(i, n + 1)[1..] == Alone(i, n);
  }

  /** A context inside a start or a stop returns within three steps of its own, whatever the
      others are in the middle of: it gives back the guard if it has it, issues its task if
      it has not yet, and leaves everything else as it is. */
  lemma {:induction false} Returns(t: State, i: nat) returns (n: nat, u: State)
    requires i < |t.contexts|
    ensures n == Ahead(t.contexts[i]) <= 3 && Run(t, Alone(i, n), u)
    ensures u.contexts == t.contexts[i := Idle] && u.ref == t.ref
    ensures u.guarded == (t.guarded && !t.contexts[i].Guards())
    ensures u.owed == t.owed + if t.contexts[i].Starting() then 1 else 0
    ensures u.tasks == t.tasks + if t.contexts[i] == StartTaken then [Start]
                                 else if t.contexts[i] == StopTaken then [Stop] else []
    decreases Ahead(t.contexts[i])
  {
    if t.contexts[i] == Idle {
      n, u := 0, t;
    } else {
      n, u := Returns(Next(t, Continue(i)), i);
      AloneFirst(t, i, n, u);
      n := n + 1;
    }
  }

  /** Once every context has returned the guard is free, the count is the number of starts not
      yet stopped, and the last task is a start exactly if there is one. */
  lemma Settled(s: State, steps: seq<Step>, t: State)
    requires Initial(s) && Run(s, steps, t) && forall i :: 0 <= i < |t.contexts| ==> t.contexts[i] == Idle
    ensures !t.guarded && t.ref == t.owed
    ensures (t.tasks != [] && t.tasks[|t.tasks| - 1] == Start) <==> t.owed > 0
  {
    Protocol(s, steps, t);
    AllIdle(t.contexts);
  }

  lemma InitialInv(s: State)
    requires Initial(s)
    ensures Inv(s)
  {
    AllIdle(s.contexts);
  }

  lemma {:induction false} AllIdle(cs: seq<Context>)
    requires forall i :: 0 <= i < |cs| ==> cs[i] == Idle
    ensures Guarding(cs) == 0 && StartsOpen(cs) == 0
  {
    if cs != [] { AllIdle(cs[1..]); }
  }

  lemma HolderIff(s: State)
    requires Inv(s)
    ensures s.guarded <==> exists i :: 0 <= i < |s.contexts| && s.contexts[i].Guards()
  {
    if s.guarded {
      var i := GuardHolder(s.contexts);
    } else if i :| 0 <= i < |s.contexts| && s.contexts[i].Guards() {
      Counts(s.contexts, i, Idle);
    }
  }

  /** A start is refused with -EAGAIN exactly while some stop is between its locked section
      and its release of the guard; the assertion after the calibration-timeout start fails
      exactly then. */
  lemma StartRefusedExactly(s: State, steps: seq<Step>, t: State)
    requires Initial(s) && Run(s, steps, t)
    ensures StartRefused(t) <==> exists i :: 0 <= i < |t.contexts| && t.contexts[i].Stopping()
  {
    InitialInv(s);
    RunKeeps(s, steps, t);
    HolderIff(t);
    if StartRefused(t) {
      var i := GuardHolder(t.contexts);
      assert HolderOk(t, t.contexts[i]);
      assert t.contexts[i].Stopping();
    }
  }

  /** Such a refusal does happen. */
  lemma StartRefusedSometimes()
    ensures exists s, steps, t :: Initial(s) && Run(s, steps, t) && StartRefused(t)
  {
    var s := State(0, false, [], [Idle, Idle], 0, true, 0);
    var a := Next(s, BeginStart(0));
    var b := Next(a, Continue(0));
    var c := Next(b, Continue(0));
    var d := Next(c, Continue(0));
    var t := Next(d, BeginStop(0));
    assert Run(d, [BeginStop(0)], t);
    assert Run(c, [Continue(0)] + [BeginStop(0)], t);
    assert Run(b, [Continue(0)] + ([Continue(0)] + [BeginStop(0)]), t);
    assert Run(a, [Continue(0)] + ([Continue(0)] + ([Continue(0)] + [BeginStop(0)])), t);
    assert Run(s, [BeginStart(0)] + ([Continue(0)] + ([Continue(0)] + ([Continue(0)] + [BeginStop(0)]))), t);
  }

  /** The count assertion after one more start fails exactly when 255 references are
      already outstanding: the 8-bit count rolls over to zero. */
  lemma RolloverExactly(s: State, i: nat)
    requires Inv(s) && Enabled(s, BeginStart(i)) && s.ref > 0
    ensures Next(Next(s, BeginStart(i)), Continue(i)).asserted <==> s.ref < REF_MAX
  {
  }

  /** Any count up to 255 is reached by one context that keeps starting. */
  lemma {:induction false} CountReached(n: nat) returns (s: State, steps: seq<Step>, t: State)
    requires n <= REF_MAX
    ensures Initial(s) && Run(s, steps, t) && t.ref == n && t.contexts == [Idle] && !t.guarded
  {
    if n == 0 {
      s, steps := State(0, false, [], [Idle], 0, true, 0), [];
      t := s;
    } else {
      s, steps, t := CountReached(n - 1);
      var u := Next(t, BeginStart(0));
      steps := RunMore(s, steps, t, BeginStart(0));
      while u.contexts[0] != Idle
        invariant Run(s, steps, u) && |u.contexts| == 1 && u.ref == n
        invariant u.guarded <==> u.contexts[0] in {StartTaken, StartIssued}
        invariant u.contexts[0] in {StartTaken, StartIssued, Started, Idle}
        decreases match u.contexts[0] case StartTaken => 3 case StartIssued => 2 case Started => 1 case _ => 0
      {
        steps := RunMore(s, steps, u, Continue(0));
        u := Next(u, Continue(0));
      }
      t := u;
    }
  }

  lemma {:induction false} RunMore(s: State, steps: seq<Step>, t: State, step: Step) returns (more: seq<Step>)
    requires Run(s, steps, t) && Enabled(t, step) && (step.BeginStart? ==> t.ref < REF_MAX)
    ensures more == steps + [step] && Run(s, more, Next(t, step))
    decreases |steps|
  {
    more := steps + [step];
    if steps == [] {
      assert more[1..] == [];
    } else {
      var rest := RunMore(Next(s, steps[0]), steps[1..], t, step);
      assert more[1..] == rest;
    }
  }
}

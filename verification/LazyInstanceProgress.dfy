/**
 What a LazyInstance owes its callers besides safety: the exit callback is registered exactly once if the
 traits ask for it, and every call can return from wherever the threads are.
 */
module LazyInstanceProgress {
  import opened LazyInstance

  // ---------------------------------------------------------------- the exit callback

  /** How many threads are about to register the exit callback. */
  function Registering(threads: seq<Thread>): nat {
    if threads == [] then 0
    else Registering(threads[..|threads| - 1]) + if threads[|threads| - 1].pc.Register? then 1 else 0
  }

  ghost predicate Books(c: Config, s: State) {
    && s.registered + Registering(s.threads) == (if c.registersExit && |s.word| == 3 then 1 else 0)
    && (|s.word| == 2 ==> exists u :: 0 <= u < |s.threads| && Creating(s.threads[u].pc))
  }

  lemma {:induction false} RegisteringAfter(threads: seq<Thread>, t: nat, th: Thread)
    requires t < |threads|
    ensures Registering(threads[t := th]) + (if threads[t].pc.Register? then 1 else 0)
         == Registering(threads) + (if th.pc.Register? then 1 else 0)
  {
    var n := |threads| - 1;
    if t == n {
      assert threads[t := th][..n] == threads[..n];
    } else {
      assert threads[t := th][..n] == threads[..n][t := th];
      RegisteringAfter(threads[..n], t, th);
    }
  }

  /** A step changes one thread, and the number of stores and registrations as its kind says. */
  lemma StepEffect(c: Config, s: State, s': State, t: nat, i: nat)
    requires Created(c.instance) && Inv(c, s) && t < |s.threads| && Step(c, s, s', t, i)
    ensures |s'.threads| == |s.threads| && s'.threads == s.threads[t := s'.threads[t]]
    ensures var pc, next := s.threads[t].pc, s'.threads[t].pc;
      && s'.registered == s.registered + (if pc.Register? then 1 else 0)
      && |s'.word| == |s.word| + (if pc.Publish? || next == Construct(0) then 1 else 0)
      && (next.Register? <==> pc.Publish? && c.registersExit)
      && (next == Construct(0) <==> pc.Swap? && |s'.word| == 2 && |s.word| == 1)
      && (pc.Publish? ==> |s'.word| == 3)
      && (pc.Construct? ==> Creating(next))
  {
    CreatedValues(c);
    assert ThreadInv(c, s, t);
  }

  lemma StepKeepsBooks(c: Config, s: State, s': State, t: nat, i: nat)
    requires Created(c.instance) && Inv(c, s) && Books(c, s) && t < |s.threads| && Step(c, s, s', t, i)
    ensures Books(c, s')
  {
    StepEffect(c, s, s', t, i);
    RegisteringAfter(s.threads, t, s'.threads[t]);
    assert ThreadInv(c, s, t);
    hide Step, Registering, ThreadInv;
    if |s'.word| == 2 {
      if |s.word| == 1 {
        assert Creating(s'.threads[t].pc);
      } else {
        var u :| 0 <= u < |s.threads| && Creating(s.threads[u].pc);
        assert Creating(s'.threads[u].pc);
      }
    }
  }

  lemma {:induction false} NoneRegistering(threads: seq<Thread>)
    requires forall t :: 0 <= t < |threads| ==> !threads[t].pc.Register?
    ensures Registering(threads) == 0
  {
    if threads != [] {
      NoneRegistering(threads[..|threads| - 1]);
    }
  }

  lemma {:induction false} RunKeepsBooks(c: Config, states: seq<State>, n: nat)
    requires Created(c.instance) && Run(c, states) && n < |states|
    ensures Inv(c, states[n]) && Books(c, states[n])
  {
    RunKeeps(c, states, n);
    if n == 0 {
      NoneRegistering(states[0].threads);
    } else {
      RunKeepsBooks(c, states, n - 1);
      var s, s' := states[n - 1], states[n - 1 + 1];
      assert Next(c, s, s');
      var t: nat, i: nat :| t < |s.threads| && Step(c, s, s', t, i);
      hide Run, Inv, Books, Step;
      StepKeepsBooks(c, s, s', t, i);
    }
  }

  /** A registration that is under way keeps the count from zero. */
  lemma {:induction false} SomeRegistering(threads: seq<Thread>)
    ensures Registering(threads) > 0 <==> exists t :: 0 <= t < |threads| && threads[t].pc.Register?
  {
    if threads != [] {
      var n := |threads| - 1;
      SomeRegistering(threads[..n]);
      if t :| 0 <= t < |threads| && threads[t].pc.Register? {
        assert t < n ==> threads[..n][t].pc.Register?;
      }
      if Registering(threads) > 0 && !threads[n].pc.Register? {
        var t :| 0 <= t < |threads[..n]| && threads[..n][t].pc.Register?;
        assert threads[t].pc.Register?;
      }
    }
  }

  /**
   In every reachable state: the callback is registered once the instance is published and the creator is
   past its registration, if the traits ask for it, and it is never registered otherwise.
   */
  lemma RegisteredExactly(c: Config, states: seq<State>, n: nat)
    requires Created(c.instance) && Run(c, states) && n < |states|
    ensures var s := states[n];
      && s.registered + Registering(s.threads) == (if c.registersExit && |s.word| == 3 then 1 else 0)
      && (s.registered == 1 <==>
            c.registersExit && |s.word| == 3 && forall t :: 0 <= t < |s.threads| ==> !s.threads[t].pc.Register?)
  {
    RunKeepsBooks(c, states, n);
    SomeRegistering(states[n].threads);
    hide Run, Inv, Registering;
  }

  /** When the creator has returned, the callback has been registered exactly once if and only if the traits ask for it. */
  lemma RegisteredAtReturn(c: Config, states: seq<State>, n: nat, t: nat)
    requires Created(c.instance) && Run(c, states) && n < |states|
    requires states[n].creators == [t] && t < |states[n].threads| && states[n].threads[t].pc.Returned?
    ensures states[n].registered == if c.registersExit then 1 else 0
  {
    RegisteredExactly(c, states, n);
    RunKeeps(c, states, n);
    var s := states[n];
    assert ThreadInv(c, s, t);
    forall u | 0 <= u < |s.threads| ensures !s.threads[u].pc.Register? {
      assert ThreadInv(c, s, u);
    }
  }

  // ---------------------------------------------------------------- every call can return

  /** How far a call is from its return when its thread runs alone. */
  function Stage(pc: PC): nat {
    match pc
    case Returned(_) => 0
    case FinalLoad => 1
    case Register => 2
    case Publish => 3
    case Construct(_) => 4
    case Spin => 5
    case Swap => 6
    case FastLoad => 7
    case Idle => 8
  }

  function CellsLeft(c: Config, pc: PC): nat {
    if pc.Construct? && pc.next <= c.cells then c.cells - pc.next else 0
  }

  /** No other thread is creating the instance. */
  ghost predicate Alone(s: State, t: nat)
    requires t < |s.threads|
  {
    |s.word| == 2 ==> Creating(s.threads[t].pc)
  }

  /** The thread's next step when every load returns the newest store. */
  lemma StepAlone(c: Config, s: State, t: nat) returns (s': State)
    requires Created(c.instance) && Inv(c, s) && t < |s.threads| && Alone(s, t) && !s.threads[t].pc.Returned?
    ensures Step(c, s, s', t, |s.word| - 1) && |s'.threads| == |s.threads| && Alone(s', t)
    ensures forall u :: 0 <= u < |s.threads| && u != t ==> s'.threads[u] == s.threads[u]
    ensures var pc, next := s.threads[t].pc, s'.threads[t].pc;
      Stage(next) < Stage(pc) || (Stage(next) == Stage(pc) && CellsLeft(c, next) < CellsLeft(c, pc))
  {
    CreatedValues(c);
    assert ThreadInv(c, s, t);
    var th := s.threads[t];
    var i := |s.word| - 1;
    match th.pc
    case Idle => s' := Put(s, t, th.(pc := FastLoad));
    case FastLoad =>
      s' := Put(s, t, Load(s, th, i, c.barriers.fastAcquire, if Created(s.word[i].value) then FinalLoad else Swap));
    case Swap =>
      s' := if s.word[i].value == 0
            then Append(s, t, Construct(0), Store(CREATING, {})).(creators := s.creators + [t])
            else Put(s, t, Load(s, th, i, false, Spin));
    case Spin => s' := Put(s, t, Load(s, th, i, c.barriers.spinAcquire, FinalLoad));
    case Construct(n) =>
      s' := Put(s, t, if n < c.cells then th.(pc := Construct(n + 1), view := th.view + {n}) else th.(pc := Publish));
    case Publish =>
      s' := Append(s, t, if c.registersExit then Register else FinalLoad,
                   Store(c.instance, if c.barriers.release then th.view else {}));
    case Register => s' := Put(s, t, th.(pc := FinalLoad)).(registered := s.registered + 1);
    case FinalLoad => s' := Put(s, t, Load(s, th, i, false, Returned(s.word[i].value)));
  }

  lemma OneLink(c: Config, s: State, s': State, t: nat, i: nat, more: seq<State>)
    requires t < |s.threads| && Step(c, s, s', t, i) && Chain(c, more) && more[0] == s'
    ensures Chain(c, [s] + more)
  {
    hide Step;
    assert Next(c, s, s');
    var all := [s] + more;
    forall n | 0 <= n < |all| - 1 ensures Next(c, all[n], all[n + 1]) {
      assert n > 0 ==> all[n] == more[n - 1] && all[n + 1] == more[n - 1 + 1];
    }
  }

  /** A thread that nobody keeps waiting returns by its own steps. */
  lemma {:induction false} ReturnsAlone(c: Config, s: State, t: nat) returns (states: seq<State>)
    requires Created(c.instance) && Inv(c, s) && t < |s.threads| && Alone(s, t)
    ensures Chain(c, states) && states[0] == s
    ensures var last := states[|states| - 1];
      && Inv(c, last) && |last.threads| == |s.threads| && last.threads[t].pc.Returned?
      && forall u :: 0 <= u < |s.threads| && u != t ==> last.threads[u] == s.threads[u]
    decreases Stage(s.threads[t].pc), CellsLeft(c, s.threads[t].pc)
  {
    states := [s];
    if !s.threads[t].pc.Returned? {
      var s' := StepAlone(c, s, t);
      hide Inv, Step, Stage, CellsLeft, Alone, Chain;
      StepKeeps(c, s, s', t, |s.word| - 1);
      var more := ReturnsAlone(c, s', t);
      OneLink(c, s, s', t, |s.word| - 1, more);
      assert Chain(c, [s] + more);
      states := Prepend(c, s, more);
    }
  }

  lemma Prepend(c: Config, s: State, more: seq<State>) returns (states: seq<State>)
    requires Chain(c, [s] + more) && more != []
    ensures Chain(c, states) && states[0] == s && states[|states| - 1] == more[|more| - 1]
  {
    states := [s] + more;
  }

  lemma JoinChains(c: Config, a: seq<State>, b: seq<State>) returns (states: seq<State>)
    requires Chain(c, a) && Chain(c, b) && b[0] == a[|a| - 1]
    ensures Chain(c, states) && states[0] == a[0] && states[|states| - 1] == b[|b| - 1]
  {
    states := a + b[1..];
    forall n | 0 <= n < |states| - 1 ensures Next(c, states[n], states[n + 1]) {
      if n >= |a| - 1 {
        var m := n - (|a| - 1);
        assert states[n] == b[m] && states[n + 1] == b[m + 1];
      } else {
        assert states[n] == a[n] && states[n + 1] == a[n + 1];
      }
    }
  }

  /**
   No call gets stuck: from every reachable state the run can go on until a given call returns. At most
   the creator has to be let through first.
   */
  lemma EveryCallCanReturn(c: Config, states: seq<State>, n: nat, t: nat) returns (more: seq<State>)
    requires Created(c.instance) && Run(c, states) && n < |states| && t < |states[n].threads|
    ensures Chain(c, more) && more[0] == states[n]
    ensures var last := more[|more| - 1]; t < |last.threads| && last.threads[t].pc == Returned(c.instance)
  {
    RunKeepsBooks(c, states, n);
    var s := states[n];
    if Alone(s, t) {
      more := ReturnsAlone(c, s, t);
    } else {
      var u :| 0 <= u < |s.threads| && Creating(s.threads[u].pc);
      var first := ReturnsAlone(c, s, u);
      var mid := first[|first| - 1];
      assert Alone(mid, t) by { assert ThreadInv(c, mid, u); }
      hide Inv, Chain, Run, Books;
      var second := ReturnsAlone(c, mid, t);
      more := JoinChains(c, first, second);
    }
    assert Inv(c, more[|more| - 1]);
    ReturnedIs(c, more[|more| - 1], t);
  }

  lemma ReturnedIs(c: Config, s: State, t: nat)
    requires Inv(c, s) && t < |s.threads| && s.threads[t].pc.Returned?
    ensures s.threads[t].pc == Returned(c.instance)
  {
    assert ThreadInv(c, s, t);
  }
}

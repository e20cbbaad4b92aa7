/**
 base/atomic_sequence_num.h over the ARM loops: concurrent GetNext calls hand out 0, 1, 2, ...
 without gaps or repetitions.
 */
module AtomicSequenceNumber {
  import opened AtomicOps

  /** GetNext returns the incremented value minus one. */
  function GetNext(d: Completed): int {
    d.result - 1
  }

  ghost predicate OnlyGetNext(s: State) {
    forall t :: 0 <= t < |s.threads| && !s.threads[t].pc.Idle? ==> s.threads[t].pc.op == Increment(1)
  }

  ghost predicate AllIncrements(log: seq<Effect>) {
    forall n :: 0 <= n < |log| ==> log[n].op == Increment(1)
  }

  lemma {:induction false} LogIsIncrements(states: seq<State>, n: nat)
    requires Run(states, 0) && n < |states| && forall m :: 0 <= m < |states| ==> OnlyGetNext(states[m])
    ensures AllIncrements(states[n].log)
  {
    if n > 0 {
      LogIsIncrements(states, n - 1);
      assert Next(states[n - 1], states[n - 1 + 1]);
      assert OnlyGetNext(states[n - 1]);
    }
  }

  lemma {:induction false} SequenceWord(log: seq<Effect>)
    requires AllIncrements(log) && |log| < 0x8000_0000
    ensures WordAfter(0, log) == |log|
  {
    if log != [] {
      SequenceWord(log[..|log| - 1]);
    }
  }

  lemma NumberOfEffect(log: seq<Effect>, n: nat)
    requires AllIncrements(log) && Legal(0, log) && n < |log| < 0x8000_0000
    ensures log[n].result == n + 1
  {
    SequenceWord(log[..n]);
  }

  function CallsOf(log: seq<Effect>): set<nat> {
    set n | 0 <= n < |log| :: log[n].call
  }

  lemma {:induction false} DistinctCalls(log: seq<Effect>)
    requires forall m, n :: 0 <= m < n < |log| ==> log[m].call != log[n].call
    ensures |CallsOf(log)| == |log|
  {
    if log != [] {
      var last := |log| - 1;
      DistinctCalls(log[..last]);
      assert CallsOf(log) == CallsOf(log[..last]) + {log[last].call};
    }
  }

  lemma EffectIsCompleted(s: State, n: nat)
    requires Inv(s, 0) && n < |s.log| && forall t :: 0 <= t < |s.threads| ==> s.threads[t].pc.Idle?
    ensures s.log[n].call in s.done && s.done[s.log[n].call].result == s.log[n].result
    ensures forall m :: 0 <= m < |s.log| && m != n ==> s.log[m].call != s.log[n].call
  {
    var c := s.log[n].call;
    assert Owned(s, c);
    assert Linearized(s.log, c, s.done[c]);
  }

  lemma CompletedHasEffect(s: State, c: nat) returns (m: nat)
    requires Inv(s, 0) && c in s.done
    ensures m < |s.log| && s.log[m].call == c && s.log[m].result == s.done[c].result
  {
    var e := s.done[c];
    assert Linearized(s.log, c, e);
    m :| e.start <= m < e.finish <= |s.log| && EffectAt(s.log, m, c, e.op, e.result);
  }

  /** Without a call under way, effects and completed calls match one to one. */
  lemma CallsMatch(s: State)
    requires Inv(s, 0) && forall t :: 0 <= t < |s.threads| ==> s.threads[t].pc.Idle?
    ensures |s.done| == |s.log|
    ensures forall n :: 0 <= n < |s.log| ==>
              s.log[n].call in s.done && s.done[s.log[n].call].result == s.log[n].result
  {
    hide Inv;
    forall n | 0 <= n < |s.log|
      ensures s.log[n].call in s.done && s.done[s.log[n].call].result == s.log[n].result
      ensures forall m :: 0 <= m < |s.log| && m != n ==> s.log[m].call != s.log[n].call
    {
      EffectIsCompleted(s, n);
    }
    forall c | c in s.done ensures c in CallsOf(s.log) {
      var m := CompletedHasEffect(s, c);
    }
    assert CallsOf(s.log) == s.done.Keys;
    DistinctCalls(s.log);
  }

  ghost predicate Handed(s: State, c: nat, v: int) {
    c in s.done && GetNext(s.done[c]) == v
  }

  /** With no call pending, n completed calls return each of 0..n-1 exactly once. */
  lemma EachNumberOnce(states: seq<State>, n: nat, v: nat)
    requires Run(states, 0) && n < |states| && forall m :: 0 <= m < |states| ==> OnlyGetNext(states[m])
    requires var s := states[n];
      && |s.log| < 0x8000_0000 && v < |s.done|
      && forall t :: 0 <= t < |s.threads| ==> s.threads[t].pc.Idle?
    ensures exists c :: Handed(states[n], c, v) && forall d :: Handed(states[n], d, v) ==> d == c
    ensures forall c :: c in states[n].done ==> 0 <= GetNext(states[n].done[c]) < |states[n].done|
  {
    var s := states[n];
    RunKeeps(states, 0, n);
    LogIsIncrements(states, n);
    hide Inv, Run, OnlyGetNext, AllIncrements;
    CallsMatch(s);
    NumbersMatch(s, v);
  }

  lemma NumbersMatch(s: State, v: nat)
    requires Inv(s, 0) && AllIncrements(s.log) && v < |s.done| == |s.log| < 0x8000_0000
    requires s.log[v].call in s.done && s.done[s.log[v].call].result == s.log[v].result
    ensures exists c :: Handed(s, c, v) && forall d :: Handed(s, d, v) ==> d == c
    ensures forall c :: c in s.done ==> 0 <= GetNext(s.done[c]) < |s.done|
  {
    assert Legal(0, s.log);
    hide Inv, AllIncrements;
    NumberOfEffect(s.log, v);
    forall d | d in s.done
      ensures 0 <= GetNext(s.done[d]) < |s.done| && s.log[GetNext(s.done[d])].call == d
    {
      var m := CompletedHasEffect(s, d);
      NumberOfEffect(s.log, m);
    }
    assert Handed(s, s.log[v].call, v);
  }
}

/**
 base/atomic_ref_count.h over the ARM loops, used in the conventional way: references are
 taken by current holders, handed on, and given up by decrements.
 */
module AtomicRefCount {
  import opened AtomicOps

  const LIMIT := 0x8000_0000

  /** AtomicRefCountDecN returns whether the result is non-zero. */
  predicate DecReturns(d: Completed) { d.result != 0 }

  /** `held[t]` is the number of references that thread `t` may use. */
  datatype Shared = Shared(s: State, held: seq<nat>)

  // ---------------------------------------------------------------- the discipline

  /** What a step does to the references that the threads hold. */
  ghost predicate HeldStep(h: Shared, h': Shared, t: nat, action: Action)
    requires t < |h.s.threads| == |h.held|
  {
    var pc := h.s.threads[t].pc;
    match action
    case Invoke(op) =>
      && op.Increment? && op.delta != 0
      && (op.delta > 0 ==> h.held[t] >= 1 && h'.held == h.held)
      && (op.delta < 0 ==> h.held[t] >= -op.delta && h'.held == h.held[t := h.held[t] + op.delta])
    case Return =>
      if pc.Returning? && pc.op.Increment? && pc.op.delta > 0
      then h'.held == h.held[t := h.held[t] + pc.op.delta]
      else h'.held == h.held
    case _ => h'.held == h.held
  }

  ghost predicate HandOn(h: Shared, h': Shared, t: nat, u: nat, n: nat)
    requires |h.s.threads| == |h.held|
  {
    && t < |h.held| && u < |h.held| && t != u && h.s.threads[t].pc.Idle? && n <= h.held[t]
    && h' == Shared(h.s, h.held[t := h.held[t] - n][u := h.held[u] + n])
  }

  ghost predicate SharedStep(h: Shared, h': Shared) {
    && |h.s.threads| == |h.held|
    && (|| (exists t: nat, action :: t < |h.held| && Step(h.s, h'.s, t, action) && HeldStep(h, h', t, action))
        || (exists t: nat, u: nat, n: nat :: HandOn(h, h', t, u, n)))
  }

  // ---------------------------------------------------------------- sums

  function Sum(xs: seq<int>): int {
    if xs == [] then 0 else Sum(xs[..|xs| - 1]) + xs[|xs| - 1]
  }

  lemma {:induction false} SumUpdate(xs: seq<int>, t: nat, v: int)
    requires t < |xs|
    ensures Sum(xs[t := v]) == Sum(xs) - xs[t] + v
  {
    var last := |xs| - 1;
    if t < last {
      SumUpdate(xs[..last], t, v);
      assert xs[t := v][..last] == xs[..last][t := v];
    } else {
      assert xs[t := v][..last] == xs[..last];
    }
  }

  lemma {:induction false} SumOrdered(xs: seq<int>, ys: seq<int>)
    requires |xs| == |ys| && forall t :: 0 <= t < |xs| ==> xs[t] <= ys[t]
    ensures Sum(xs) <= Sum(ys)
  {
    if xs != [] {
      SumOrdered(xs[..|xs| - 1], ys[..|ys| - 1]);
    }
  }

  lemma {:induction false} SumZero(xs: seq<int>)
    requires Sum(xs) == 0 && forall t :: 0 <= t < |xs| ==> xs[t] >= 0
    ensures forall t :: 0 <= t < |xs| ==> xs[t] == 0
  {
    if xs != [] {
      var last := |xs| - 1;
      SumNonNegative(xs[..last]);
      SumZero(xs[..last]);
    }
  }

  lemma {:induction false} SumNonNegative(xs: seq<int>)
    requires forall t :: 0 <= t < |xs| ==> xs[t] >= 0
    ensures Sum(xs) >= 0
  {
    if xs != [] {
      SumNonNegative(xs[..|xs| - 1]);
    }
  }

  lemma {:induction false} SumOfZeros(xs: seq<int>)
    requires forall t :: 0 <= t < |xs| ==> xs[t] == 0
    ensures Sum(xs) == 0
  {
    if xs != [] {
      SumOfZeros(xs[..|xs| - 1]);
    }
  }

  // ---------------------------------------------------------------- outstanding references

  /** References under way: granted by an increment that has not returned, or not yet given up by a decrement. */
  function InFlight(pc: PC): int {
    if pc.Idle? || !pc.op.Increment? then 0
    else if pc.op.delta > 0 then (if pc.Returning? then pc.op.delta else 0)
    else (if pc.Returning? then 0 else -pc.op.delta)
  }

  /** What a call may still add or give up. */
  function Asked(pc: PC): nat {
    if pc.Idle? || !pc.op.Increment? then 0 else if pc.op.delta > 0 then pc.op.delta else -pc.op.delta
  }

  function Outstanding(h: Shared): seq<int>
    requires |h.s.threads| == |h.held|
  {
    seq(|h.held|, t requires 0 <= t < |h.held| => h.held[t] + InFlight(h.s.threads[t].pc))
  }

  function Demand(h: Shared): seq<int>
    requires |h.s.threads| == |h.held|
  {
    seq(|h.held|, t requires 0 <= t < |h.held| => h.held[t] + Asked(h.s.threads[t].pc))
  }

  /** The references in use and asked for stay below the limit of the word. */
  ghost predicate BelowLimit(h: Shared) {
    |h.s.threads| == |h.held| && Sum(Demand(h)) < LIMIT
  }

  ghost predicate RefInit(h: Shared, init: int) {
    && |h.s.threads| == |h.held| && Init(h.s, init)
    && init == Sum(Outstanding(h)) && 0 < init < LIMIT
  }

  ghost predicate SharedRun(hs: seq<Shared>, init: int) {
    && hs != [] && RefInit(hs[0], init)
    && (forall n :: 0 <= n < |hs| ==> BelowLimit(hs[n]))
    && forall n :: 0 <= n < |hs| - 1 ==> SharedStep(hs[n], hs[n + 1])
  }

  ghost predicate Conventional(h: Shared)
    requires |h.s.threads| == |h.held|
  {
    forall t :: 0 <= t < |h.held| ==>
      var pc := h.s.threads[t].pc;
      !pc.Idle? ==> pc.op.Increment? && pc.op.delta != 0 && (pc.op.delta > 0 ==> h.held[t] >= 1)
  }

  /** Zero is the result of the last effect only, and only a decrement brings it about. */
  ghost predicate ZeroIsLast(s: State) {
    && (forall n :: 0 <= n < |s.log| && s.log[n].result == 0 ==>
          n == |s.log| - 1 && s.log[n].op.Increment? && s.log[n].op.delta < 0)
    && (s.word == 0 <==> s.log != [] && s.log[|s.log| - 1].result == 0)
  }

  ghost predicate RefInv(h: Shared, init: int) {
    && |h.s.threads| == |h.held|
    && Inv(h.s, init)
    && h.s.word == Sum(Outstanding(h))
    && Conventional(h)
    && ZeroIsLast(h.s)
  }

  /** While a call has not taken effect, the word counts at least one reference, and room is left for it. */
  lemma RoomForEffect(h: Shared, t: nat)
    requires |h.s.threads| == |h.held| && t < |h.held| && Conventional(h) && BelowLimit(h)
    requires var pc := h.s.threads[t].pc; !pc.Idle? && !pc.Returning?
    ensures 0 < Sum(Outstanding(h)) && 0 <= Sum(Outstanding(h)) + h.s.threads[t].pc.op.delta < LIMIT
    ensures h.s.threads[t].pc.op.delta > 0 ==> Sum(Outstanding(h)) + h.s.threads[t].pc.op.delta > 0
  {
    var o := Outstanding(h);
    var d := h.s.threads[t].pc.op.delta;
    var rest := o[t := 0];
    SumUpdate(o, t, 0);
    SumNonNegative(rest);
    var more := o[t := o[t] + d];
    SumUpdate(o, t, o[t] + d);
    SumOrdered(more, Demand(h));
  }

  /** A step of thread `t` changes only its own share. */
  lemma ShareMoves(h: Shared, h': Shared, t: nat)
    requires |h.s.threads| == |h.held| == |h'.s.threads| == |h'.held| && t < |h.held|
    requires forall u :: 0 <= u < |h.held| && u != t ==>
               h'.held[u] == h.held[u] && h'.s.threads[u] == h.s.threads[u]
    ensures Sum(Outstanding(h')) == Sum(Outstanding(h)) - Outstanding(h)[t] + Outstanding(h')[t]
  {
    SumUpdate(Outstanding(h), t, Outstanding(h')[t]);
    assert Outstanding(h)[t := Outstanding(h')[t]] == Outstanding(h');
  }

  lemma StepKeepsConventional(h: Shared, h': Shared, t: nat, action: Action)
    requires |h.s.threads| == |h.held| && t < |h.held| && Conventional(h)
    requires Step(h.s, h'.s, t, action) && HeldStep(h, h', t, action)
    ensures |h'.s.threads| == |h'.held| == |h.held| && Conventional(h')
    ensures forall u :: 0 <= u < |h.held| && u != t ==>
              h'.held[u] == h.held[u] && h'.s.threads[u] == h.s.threads[u]
  {
  }

  /** An exchange that succeeds moves the word by its delta, without wrapping. */
  lemma EffectMovesCount(h: Shared, h': Shared, t: nat)
    requires |h.s.threads| == |h.held| && t < |h.held| && Conventional(h) && BelowLimit(h) && ZeroIsLast(h.s)
    requires h.s.word == Sum(Outstanding(h))
    requires Step(h.s, h'.s, t, ExchangeDone) && h'.held == h.held
    ensures |h'.s.threads| == |h'.held| && h'.s.word == Sum(Outstanding(h')) && ZeroIsLast(h'.s)
  {
    RoomForEffect(h, t);
    ShareMoves(h, h', t);
    var pc := h.s.threads[t].pc;
    assert h'.s.word == h.s.word + pc.op.delta;
    assert Outstanding(h')[t] == Outstanding(h)[t] + pc.op.delta;
  }

  lemma OtherStepsKeepCount(h: Shared, h': Shared, t: nat, action: Action)
    requires |h.s.threads| == |h.held| && t < |h.held| && Conventional(h) && ZeroIsLast(h.s)
    requires h.s.word == Sum(Outstanding(h))
    requires Step(h.s, h'.s, t, action) && HeldStep(h, h', t, action) && !action.ExchangeDone?
    ensures |h'.s.threads| == |h'.held| && h'.s.word == Sum(Outstanding(h')) && ZeroIsLast(h'.s)
  {
    StepKeepsConventional(h, h', t, action);
    ShareMoves(h, h', t);
    QuietTrying(h, h', t, action);
    assert Outstanding(h')[t] == Outstanding(h)[t];
  }

  /** Only increments are under way, so no other step touches the word. */
  lemma QuietTrying(h: Shared, h': Shared, t: nat, action: Action)
    requires |h.s.threads| == |h.held| && t < |h.held| && Conventional(h)
    requires Step(h.s, h'.s, t, action) && HeldStep(h, h', t, action) && !action.ExchangeDone?
    ensures h'.s.word == h.s.word && h'.s.log == h.s.log
    ensures h'.held[t] + InFlight(h'.s.threads[t].pc) == h.held[t] + InFlight(h.s.threads[t].pc)
  {
  }

  lemma StepKeepsCount(h: Shared, h': Shared, t: nat, action: Action, init: int)
    requires RefInv(h, init) && BelowLimit(h) && t < |h.held|
    requires Step(h.s, h'.s, t, action) && HeldStep(h, h', t, action)
    ensures RefInv(h', init)
  {
    assert Inv(h'.s, init) by {
      StepKeeps(h.s, h'.s, t, action, init);
    }
    StepKeepsConventional(h, h', t, action);
    if action.ExchangeDone? {
      EffectMovesCount(h, h', t);
    } else {
      OtherStepsKeepCount(h, h', t, action);
    }
  }

  lemma HandOnKeepsCount(h: Shared, h': Shared, t: nat, u: nat, n: nat, init: int)
    requires RefInv(h, init) && HandOn(h, h', t, u, n)
    ensures RefInv(h', init)
  {
    var mid := Shared(h.s, h.held[t := h.held[t] - n]);
    ShareMoves(h, mid, t);
    ShareMoves(mid, h', u);
  }

  lemma {:induction false} RefRunKeeps(hs: seq<Shared>, init: int, n: nat)
    requires SharedRun(hs, init) && n < |hs|
    ensures RefInv(hs[n], init)
  {
    if n > 0 {
      RefRunKeeps(hs, init, n - 1);
      var h, h' := hs[n - 1], hs[n - 1 + 1];
      assert SharedStep(h, h');
      if t: nat, action :| t < |h.held| && Step(h.s, h'.s, t, action) && HeldStep(h, h', t, action) {
        StepKeepsCount(h, h', t, action, init);
      } else {
        var t: nat, u: nat, m: nat :| HandOn(h, h', t, u, m);
        HandOnKeepsCount(h, h', t, u, m, init);
      }
    }
  }

  // ---------------------------------------------------------------- main results

  /** The count is the number of outstanding references; it is zero exactly after a last decrement. */
  lemma CountIsOutstanding(hs: seq<Shared>, init: int, n: nat)
    requires SharedRun(hs, init) && n < |hs|
    ensures var h := hs[n];
      |h.s.threads| == |h.held| && h.s.word == Sum(Outstanding(h)) && ZeroIsLast(h.s)
  {
    RefRunKeeps(hs, init, n);
  }

  ghost predicate Released(s: State, c: nat) {
    c in s.done && s.done[c].op.Increment? && s.done[c].op.delta < 0 && !DecReturns(s.done[c])
  }

  /** Once every reference is given up, exactly one decrement has returned false, and its effect is the last. */
  lemma OneLastRelease(hs: seq<Shared>, init: int, n: nat) returns (c: nat)
    requires SharedRun(hs, init) && n < |hs|
    requires forall t :: 0 <= t < |hs[n].held| ==> hs[n].held[t] == 0 && hs[n].s.threads[t].pc.Idle?
    ensures Released(hs[n].s, c) && forall d :: Released(hs[n].s, d) ==> d == c
    ensures var log := hs[n].s.log; log != [] && log[|log| - 1].call == c
  {
    RefRunKeeps(hs, init, n);
    var h := hs[n];
    var s := h.s;
    SumOfZeros(Outstanding(h));
    var last := |s.log| - 1;
    c := s.log[last].call;
    assert Owned(s, c) && Linearized(s.log, c, s.done[c]);
    forall d | Released(s, d)
      ensures d == c
    {
      var e := s.done[d];
      assert Linearized(s.log, d, e);
      var m :| e.start <= m < e.finish <= |s.log| && EffectAt(s.log, m, d, e.op, e.result);
    }
  }

  /** AtomicRefCountIsOne seen by an idle holder: nobody else has a reference, held or under way. */
  lemma IsOneMeansExclusive(hs: seq<Shared>, init: int, n: nat, t: nat)
    requires SharedRun(hs, init) && n < |hs| && t < |hs[n].held|
    requires hs[n].held[t] >= 1 && hs[n].s.threads[t].pc.Idle? && hs[n].s.word == 1
    ensures hs[n].held[t] == 1
    ensures |hs[n].s.threads| == |hs[n].held|
    ensures forall u :: 0 <= u < |hs[n].held| && u != t ==>
              hs[n].held[u] == 0 && InFlight(hs[n].s.threads[u].pc) == 0
  {
    RefRunKeeps(hs, init, n);
    var o := Outstanding(hs[n]);
    var rest := o[t := 0];
    SumUpdate(o, t, 0);
    SumNonNegative(rest);
    SumZero(rest);
    forall u | 0 <= u < |o| && u != t
      ensures hs[n].held[u] == 0 && InFlight(hs[n].s.threads[u].pc) == 0
    {
      assert rest[u] == o[u] == hs[n].held[u] + InFlight(hs[n].s.threads[u].pc);
    }
  }
}

/**
 The ARM retry loops of base/atomicops_internals_arm_gcc.h on one 32-bit word, run by any
 number of threads whose reads and kernel compare-exchanges interleave freely. Each
 completed call behaves as if it had taken effect at one instant between its start and
 its return, as base/atomicops.h specifies.
 */
module AtomicOps {

  /** A value as a two's complement Atomic32. */
  function Wrap(v: int): (r: int)
    ensures -0x8000_0000 <= r < 0x8000_0000
    ensures -0x8000_0000 <= v < 0x8000_0000 ==> r == v
  {
    (v + 0x8000_0000) % 0x1_0000_0000 - 0x8000_0000
  }

  datatype Op =
    | CompareAndSwap(oldValue: int, newValue: int)
    | Exchange(newValue: int)
    | Increment(delta: int)

  // ---------------------------------------------------------------- the atomic specification

  /** The word after the operation. */
  function SpecNext(op: Op, word: int): int {
    match op
    case CompareAndSwap(o, n) => if word == o then n else word
    case Exchange(n) => n
    case Increment(d) => Wrap(word + d)
  }

  /** CompareAndSwap and Exchange return the previous value, Increment the new one. */
  function SpecResult(op: Op, word: int): int {
    if op.Increment? then SpecNext(op, word) else word
  }

  /** One effect: the call it belongs to, the operation and the value returned. */
  datatype Effect = Effect(call: nat, op: Op, result: int)

  function WordAfter(init: int, log: seq<Effect>): int {
    if log == [] then init else SpecNext(log[|log| - 1].op, WordAfter(init, log[..|log| - 1]))
  }

  /** The log is a sequential history of the specification. */
  ghost predicate Legal(init: int, log: seq<Effect>) {
    forall n :: 0 <= n < |log| ==> log[n].result == SpecResult(log[n].op, WordAfter(init, log[..n]))
  }

  // ---------------------------------------------------------------- the loops

  /**
   Where a thread is: before the read that opens a loop iteration, before the kernel
   compare-exchange, before the second read of CompareAndSwap, or about to return.
   */
  datatype PC =
    | Idle
    | Reading(op: Op)
    | Trying(op: Op, expected: int)
    | Rereading(op: Op)
    | Returning(op: Op, result: int)

  /** `start` is the number of effects that had happened when the call began. */
  datatype Thread = Thread(pc: PC, call: nat, start: nat)

  datatype Completed = Completed(op: Op, result: int, start: nat, finish: nat)

  datatype State = State(
    word: int, threads: seq<Thread>, log: seq<Effect>, done: map<nat, Completed>, calls: nat)

  /** What the loop asks the kernel to store. */
  function NewValue(op: Op, expected: int): int {
    match op
    case CompareAndSwap(_, n) => n
    case Exchange(n) => n
    case Increment(d) => Wrap(expected + d)
  }

  /** What the loop returns after a successful exchange. */
  function Success(op: Op, expected: int): int {
    match op
    case CompareAndSwap(o, _) => o
    case Exchange(_) => expected
    case Increment(_) => NewValue(op, expected)
  }

  ghost predicate Init(s: State, init: int) {
    && s.word == init && s.log == [] && s.done == map[] && s.calls == 0
    && forall t :: 0 <= t < |s.threads| ==> s.threads[t].pc == Idle
  }

  datatype Action = Invoke(op: Op) | Read | ExchangeDone | ExchangeRefused | Reread | Return

  function AtPC(s: State, t: nat, pc: PC): State
    requires t < |s.threads|
  {
    s.(threads := s.threads[t := s.threads[t].(pc := pc)])
  }

  function TakeEffect(s: State, t: nat, op: Op, result: int, word: int): State
    requires t < |s.threads|
  {
    AtPC(s, t, Returning(op, result)).(word := word, log := s.log + [Effect(s.threads[t].call, op, result)])
  }

  /** One step of thread `t`. The kernel may refuse an exchange even when the word matches. */
  ghost predicate Step(s: State, s': State, t: nat, action: Action)
    requires t < |s.threads|
  {
    var pc := s.threads[t].pc;
    match action
    case Invoke(op) =>
      && pc.Idle?
      && s' == s.(threads := s.threads[t := Thread(Reading(op), s.calls, |s.log|)], calls := s.calls + 1)
    case Read =>
      && pc.Reading?
      && s' == AtPC(s, t, Trying(pc.op, if pc.op.CompareAndSwap? then pc.op.oldValue else s.word))
    case ExchangeDone =>
      && pc.Trying? && s.word == pc.expected
      && s' == TakeEffect(s, t, pc.op, Success(pc.op, pc.expected), NewValue(pc.op, pc.expected))
    case ExchangeRefused =>
      && pc.Trying?
      && s' == AtPC(s, t, if pc.op.CompareAndSwap? then Rereading(pc.op) else Reading(pc.op))
    case Reread =>
      && pc.Rereading? && pc.op.CompareAndSwap?
      && s' == (if s.word == pc.op.oldValue then AtPC(s, t, Trying(pc.op, pc.op.oldValue))
                else TakeEffect(s, t, pc.op, s.word, s.word))
    case Return =>
      && pc.Returning?
      && s' == AtPC(s, t, Idle).(done := s.done[s.threads[t].call :=
                                   Completed(pc.op, pc.result, s.threads[t].start, |s.log|)])
  }

  ghost predicate Next(s: State, s': State) {
    exists t: nat, action :: t < |s.threads| && Step(s, s', t, action)
  }

  ghost predicate Run(states: seq<State>, init: int) {
    && states != [] && Init(states[0], init)
    && forall n :: 0 <= n < |states| - 1 ==> Next(states[n], states[n + 1])
  }

  // ---------------------------------------------------------------- linearizability

  /** Call `c` takes effect at position `n` of the log, and nowhere else. */
  ghost predicate EffectAt(log: seq<Effect>, n: int, c: nat, op: Op, result: int) {
    && 0 <= n < |log| && log[n] == Effect(c, op, result)
    && forall m :: 0 <= m < |log| && log[m].call == c ==> m == n
  }

  ghost predicate NoEffect(log: seq<Effect>, c: nat) {
    forall m :: 0 <= m < |log| ==> log[m].call != c
  }

  /** A completed call has exactly one effect, with its result, inside its own interval. */
  ghost predicate Linearized(log: seq<Effect>, c: nat, d: Completed) {
    exists n :: d.start <= n < d.finish <= |log| && EffectAt(log, n, c, d.op, d.result)
  }

  /** The effects so far of the call that a thread is running. */
  ghost predicate ThreadInv(s: State, th: Thread) {
    && (!th.pc.Idle? ==> th.call < s.calls && th.call !in s.done && th.start <= |s.log|)
    && (th.pc.Reading? || th.pc.Trying? || th.pc.Rereading? ==> NoEffect(s.log, th.call))
    && (th.pc.Trying? && th.pc.op.CompareAndSwap? ==> th.pc.expected == th.pc.op.oldValue)
    && (th.pc.Returning? ==>
          exists n :: th.start <= n < |s.log| && EffectAt(s.log, n, th.call, th.pc.op, th.pc.result))
  }

  /** An effect belongs to a completed call or to one that is about to return. */
  ghost predicate Owned(s: State, c: nat) {
    c in s.done || exists t :: 0 <= t < |s.threads| && s.threads[t].pc.Returning? && s.threads[t].call == c
  }

  ghost predicate Inv(s: State, init: int) {
    && s.word == WordAfter(init, s.log)
    && Legal(init, s.log)
    && (forall t :: 0 <= t < |s.threads| ==> ThreadInv(s, s.threads[t]))
    && (forall t, u :: 0 <= t < u < |s.threads| && !s.threads[t].pc.Idle? && !s.threads[u].pc.Idle? ==>
          s.threads[t].call != s.threads[u].call)
    && (forall c :: c in s.done ==> c < s.calls && Linearized(s.log, c, s.done[c]))
    && (forall n :: 0 <= n < |s.log| ==> s.log[n].call < s.calls && Owned(s, s.log[n].call))
  }

  lemma LegalExtends(init: int, log: seq<Effect>, e: Effect)
    requires Legal(init, log) && e.result == SpecResult(e.op, WordAfter(init, log))
    ensures Legal(init, log + [e]) && WordAfter(init, log + [e]) == SpecNext(e.op, WordAfter(init, log))
  {
    var l := log + [e];
    assert l[..|log|] == log;
    assert forall n :: 0 <= n < |log| ==> l[..n] == log[..n];
  }

  /** Appending the effect of a call that had none keeps everybody else's. */
  lemma EffectsExtend(log: seq<Effect>, e: Effect)
    requires NoEffect(log, e.call)
    ensures EffectAt(log + [e], |log|, e.call, e.op, e.result)
    ensures forall n, c, op, r :: c != e.call && EffectAt(log, n, c, op, r) ==> EffectAt(log + [e], n, c, op, r)
    ensures forall c :: c != e.call && NoEffect(log, c) ==> NoEffect(log + [e], c)
  {
  }

  lemma TakeEffectThread(s: State, t: nat, op: Op, result: int, word: int, init: int, u: nat)
    requires Inv(s, init) && t < |s.threads| && !s.threads[t].pc.Idle? && !s.threads[t].pc.Returning?
    requires u < |s.threads|
    ensures var s' := TakeEffect(s, t, op, result, word); ThreadInv(s', s'.threads[u])
  {
    var th := s.threads[t];
    assert ThreadInv(s, th) && ThreadInv(s, s.threads[u]);
    EffectsExtend(s.log, Effect(th.call, op, result));
    if u == t {
      assert EffectAt(TakeEffect(s, t, op, result, word).log, |s.log|, th.call, op, result);
    }
  }

  lemma TakeEffectCompleted(s: State, t: nat, op: Op, result: int, word: int, init: int, c: nat)
    requires Inv(s, init) && t < |s.threads| && !s.threads[t].pc.Idle? && !s.threads[t].pc.Returning?
    requires c in s.done
    ensures Linearized(TakeEffect(s, t, op, result, word).log, c, s.done[c])
  {
    var th := s.threads[t];
    assert ThreadInv(s, th);
    EffectsExtend(s.log, Effect(th.call, op, result));
    var d := s.done[c];
    assert Linearized(s.log, c, d);
    var n :| d.start <= n < d.finish <= |s.log| && EffectAt(s.log, n, c, d.op, d.result);
    assert EffectAt(TakeEffect(s, t, op, result, word).log, n, c, d.op, d.result);
  }

  lemma TakeEffectOwned(s: State, t: nat, op: Op, result: int, word: int, init: int, n: nat)
    requires Inv(s, init) && t < |s.threads| && !s.threads[t].pc.Idle? && !s.threads[t].pc.Returning?
    requires n <= |s.log|
    ensures var s' := TakeEffect(s, t, op, result, word); s'.log[n].call < s'.calls && Owned(s', s'.log[n].call)
  {
    var s' := TakeEffect(s, t, op, result, word);
    assert ThreadInv(s, s.threads[t]);
    if n < |s.log| {
      OwnedMoves(s, s', s.log[n].call, t);
    } else {
      assert s'.threads[t].pc.Returning?;
    }
  }

  lemma TakeEffectKeeps(s: State, t: nat, op: Op, result: int, word: int, init: int)
    requires Inv(s, init) && t < |s.threads| && !s.threads[t].pc.Idle? && !s.threads[t].pc.Returning?
    requires result == SpecResult(op, s.word) && word == SpecNext(op, s.word)
    ensures Inv(TakeEffect(s, t, op, result, word), init)
  {
    var s' := TakeEffect(s, t, op, result, word);
    LegalExtends(init, s.log, Effect(s.threads[t].call, op, result));
    forall u | 0 <= u < |s'.threads|
      ensures ThreadInv(s', s'.threads[u])
    {
      TakeEffectThread(s, t, op, result, word, init, u);
    }
    forall c | c in s'.done
      ensures c < s'.calls && Linearized(s'.log, c, s'.done[c])
    {
      TakeEffectCompleted(s, t, op, result, word, init, c);
    }
    forall n | 0 <= n < |s'.log|
      ensures s'.log[n].call < s'.calls && Owned(s', s'.log[n].call)
    {
      TakeEffectOwned(s, t, op, result, word, init, n);
    }
  }

  /** Changing a thread that was not about to return leaves the owners alone. */
  lemma OwnedMoves(s: State, s': State, c: nat, t: nat)
    requires Owned(s, c) && t < |s.threads| == |s'.threads| && !s.threads[t].pc.Returning?
    requires s'.done == s.done && forall u :: 0 <= u < |s.threads| && u != t ==> s'.threads[u] == s.threads[u]
    ensures Owned(s', c)
  {
    if c !in s.done {
      var u :| 0 <= u < |s.threads| && s.threads[u].pc.Returning? && s.threads[u].call == c;
      assert s'.threads[u].pc.Returning?;
    }
  }

  lemma ReturnKeeps(s: State, s': State, t: nat, init: int)
    requires Inv(s, init) && t < |s.threads| && Step(s, s', t, Return)
    ensures Inv(s', init)
  {
    var th := s.threads[t];
    assert ThreadInv(s, th);
    forall u | 0 <= u < |s'.threads|
      ensures ThreadInv(s', s'.threads[u])
    {
      assert ThreadInv(s, s.threads[u]);
    }
    forall n | 0 <= n < |s'.log|
      ensures Owned(s', s'.log[n].call)
    {
      ReturnOwns(s, s', t, s.log[n].call);
    }
  }

  lemma ReturnOwns(s: State, s': State, t: nat, c: nat)
    requires t < |s.threads| && Step(s, s', t, Return) && Owned(s, c)
    ensures Owned(s', c)
  {
    if c !in s'.done {
      var u :| 0 <= u < |s.threads| && s.threads[u].pc.Returning? && s.threads[u].call == c;
      assert s'.threads[u].pc.Returning?;
    }
  }

  /** The steps that touch neither the word nor the log. */
  lemma QuietKeeps(s: State, s': State, t: nat, action: Action, init: int)
    requires Inv(s, init) && t < |s.threads| && Step(s, s', t, action)
    requires s'.log == s.log && !action.Return?
    ensures Inv(s', init)
  {
    forall u | 0 <= u < |s'.threads|
      ensures ThreadInv(s', s'.threads[u])
    {
      assert ThreadInv(s, s.threads[u]);
    }
    forall n | 0 <= n < |s'.log|
      ensures Owned(s', s'.log[n].call)
    {
      OwnedMoves(s, s', s.log[n].call, t);
    }
  }

  lemma StepKeeps(s: State, s': State, t: nat, action: Action, init: int)
    requires Inv(s, init) && t < |s.threads| && Step(s, s', t, action)
    ensures Inv(s', init)
  {
    var pc := s.threads[t].pc;
    assert ThreadInv(s, s.threads[t]);
    match action
    case Return => ReturnKeeps(s, s', t, init);
    case ExchangeDone =>
      TakeEffectKeeps(s, t, pc.op, Success(pc.op, pc.expected), NewValue(pc.op, pc.expected), init);
    case Reread =>
      if s.word == pc.op.oldValue {
        QuietKeeps(s, s', t, action, init);
      } else {
        TakeEffectKeeps(s, t, pc.op, s.word, s.word, init);
      }
    case _ => QuietKeeps(s, s', t, action, init);
  }

  lemma {:induction false} RunKeeps(states: seq<State>, init: int, n: nat)
    requires Run(states, init) && n < |states|
    ensures Inv(states[n], init)
  {
    if n > 0 {
      RunKeeps(states, init, n - 1);
      var s, s' := states[n - 1], states[n - 1 + 1];
      assert Next(s, s');
      var t: nat, action :| t < |s.threads| && Step(s, s', t, action);
      StepKeeps(s, s', t, action, init);
    }
  }

  // ---------------------------------------------------------------- main results

  /**
   Linearizability of every run: the effects form a legal sequential history that explains
   the word, and every completed call has exactly one effect, inside its own interval.
   */
  lemma Linearizable(states: seq<State>, init: int, n: nat)
    requires Run(states, init) && n < |states|
    ensures var s := states[n];
      && Legal(init, s.log) && s.word == WordAfter(init, s.log)
      && (forall c :: c in s.done ==> Linearized(s.log, c, s.done[c]))
      && (forall m :: 0 <= m < |s.log| ==> Owned(s, s.log[m].call))
  {
    RunKeeps(states, init, n);
  }

  lemma FailedEffect(init: int, log: seq<Effect>, m: nat)
    requires Legal(init, log) && m < |log|
    requires log[m].op.CompareAndSwap? && log[m].result != log[m].op.oldValue
    ensures WordAfter(init, log[..m]) == log[m].result == WordAfter(init, log[..m + 1])
  {
    assert log[..m + 1][..m] == log[..m];
  }

  /** A CompareAndSwap that returns something else than `oldValue` read it from the word during the call, and wrote nothing. */
  lemma FailedCompareAndSwap(states: seq<State>, init: int, n: nat, c: nat) returns (m: nat)
    requires Run(states, init) && n < |states|
    requires c in states[n].done && states[n].done[c].op.CompareAndSwap?
    requires states[n].done[c].result != states[n].done[c].op.oldValue
    ensures var s := states[n]; var d := s.done[c];
      && d.start <= m < d.finish <= |s.log| && EffectAt(s.log, m, c, d.op, d.result)
      && WordAfter(init, s.log[..m]) == d.result == WordAfter(init, s.log[..m + 1])
  {
    Linearizable(states, init, n);
    var s := states[n];
    var d := s.done[c];
    assert Linearized(s.log, c, d);
    m :| d.start <= m < d.finish <= |s.log| && EffectAt(s.log, m, c, d.op, d.result);
    FailedEffect(init, s.log, m);
  }

  // ---------------------------------------------------------------- calls return

  /** The value is kept modulo 2^32. */
  lemma WrapIsModular(v: int)
    ensures (Wrap(v) - v) % 0x1_0000_0000 == 0
  {
    var q := (v + 0x8000_0000) / 0x1_0000_0000;
    assert Wrap(v) - v == -q * 0x1_0000_0000;
  }

  /** Steps of thread `t` alone. */
  ghost predicate OwnSteps(states: seq<State>, t: nat) {
    && states != [] && (forall n :: 0 <= n < |states| ==> t < |states[n].threads|)
    && forall n :: 0 <= n < |states| - 1 ==> OwnStep(states[n], states[n + 1], t)
  }

  ghost predicate OwnStep(s: State, s': State, t: nat)
    requires t < |s.threads|
  {
    exists action :: Step(s, s', t, action)
  }

  ghost predicate UnderWay(pc: PC) {
    pc.Reading? || pc.Trying? || pc.Rereading?
  }

  /** What the loops rely on: CompareAndSwap always expects its old value, and only it reads again. */
  ghost predicate Sane(pc: PC) {
    && (pc.Trying? && pc.op.CompareAndSwap? ==> pc.expected == pc.op.oldValue)
    && (pc.Rereading? ==> pc.op.CompareAndSwap?)
  }

  /** How many steps the call still needs when the word stays as it is. */
  function StepsLeft(pc: PC, word: int): nat {
    match pc
    case Trying(op, expected) => if expected == word then 1 else if op.CompareAndSwap? then 2 else 3
    case Rereading(op) => if op.CompareAndSwap? && word == op.oldValue then 2 else 1
    case Reading(op) => if op.CompareAndSwap? && op.oldValue != word then 3 else 2
    case _ => 0
  }

  /** The next step of a thread that runs alone, when the kernel refuses only what does not match. */
  lemma StepAlone(s: State, t: nat) returns (s': State)
    requires t < |s.threads| && UnderWay(s.threads[t].pc) && Sane(s.threads[t].pc)
    ensures OwnStep(s, s', t) && |s'.threads| == |s.threads|
    ensures s'.threads[t].call == s.threads[t].call && s'.threads[t].pc.op == s.threads[t].pc.op
    ensures if UnderWay(s'.threads[t].pc)
      then Sane(s'.threads[t].pc) && s'.word == s.word && s'.log == s.log
           && StepsLeft(s'.threads[t].pc, s.word) < StepsLeft(s.threads[t].pc, s.word)
      else var op := s.threads[t].pc.op;
           && s'.threads[t].pc == Returning(op, SpecResult(op, s.word)) && s'.word == SpecNext(op, s.word)
  {
    var pc := s.threads[t].pc;
    match pc
    case Reading(op) =>
      s' := AtPC(s, t, Trying(op, if op.CompareAndSwap? then op.oldValue else s.word));
      assert Step(s, s', t, Read);
    case Trying(op, expected) =>
      if s.word == expected {
        s' := TakeEffect(s, t, op, Success(op, expected), NewValue(op, expected));
        assert Step(s, s', t, ExchangeDone);
      } else {
        s' := AtPC(s, t, if op.CompareAndSwap? then Rereading(op) else Reading(op));
        assert Step(s, s', t, ExchangeRefused);
      }
    case Rereading(op) =>
      s' := if s.word == op.oldValue then AtPC(s, t, Trying(op, op.oldValue)) else TakeEffect(s, t, op, s.word, s.word);
      assert Step(s, s', t, Reread);
  }

  lemma {:induction false} FinishesAlone(s: State, t: nat) returns (states: seq<State>)
    requires t < |s.threads| && UnderWay(s.threads[t].pc) && Sane(s.threads[t].pc)
    ensures OwnSteps(states, t) && states[0] == s && |states| <= 1 + StepsLeft(s.threads[t].pc, s.word)
    ensures var last, op := states[|states| - 1], s.threads[t].pc.op;
      && last.threads[t].pc == Returning(op, SpecResult(op, s.word)) && last.word == SpecNext(op, s.word)
      && last.threads[t].call == s.threads[t].call
    decreases StepsLeft(s.threads[t].pc, s.word)
  {
    var s' := StepAlone(s, t);
    hide Step, Sane, SpecResult, SpecNext, StepsLeft;
    if UnderWay(s'.threads[t].pc) {
      var more := FinishesAlone(s', t);
      states := [s] + more;
      forall n | 0 <= n < |states| - 1 ensures OwnStep(states[n], states[n + 1], t) {
        assert n > 0 ==> states[n] == more[n - 1] && states[n + 1] == more[n - 1 + 1];
      }
    } else {
      states := [s, s'];
    }
  }

  /**
   From every reachable state a call that is under way is at most three steps of its own thread from
   its effect, which is what the specification says for the word as it is; then it returns.
   */
  lemma CallFinishesAlone(states: seq<State>, init: int, n: nat, t: nat) returns (own: seq<State>)
    requires Run(states, init) && n < |states| && t < |states[n].threads| && UnderWay(states[n].threads[t].pc)
    ensures OwnSteps(own, t) && own[0] == states[n] && |own| <= 4
    ensures var s, last, op := states[n], own[|own| - 1], states[n].threads[t].pc.op;
      && last.threads[t].pc == Returning(op, SpecResult(op, s.word)) && last.word == SpecNext(op, s.word)
    ensures var last := own[|own| - 1]; exists s' :: Step(last, s', t, Return) && s'.threads[t].pc.Idle?
  {
    RunIsSane(states, init, n);
    own := FinishesAlone(states[n], t);
    var last := own[|own| - 1];
    var pc := last.threads[t].pc;
    var s' := AtPC(last, t, Idle).(done := last.done[last.threads[t].call :=
                                     Completed(pc.op, pc.result, last.threads[t].start, |last.log|)]);
    assert Step(last, s', t, Return);
  }

  lemma {:induction false} RunIsSane(states: seq<State>, init: int, n: nat)
    requires Run(states, init) && n < |states|
    ensures forall t :: 0 <= t < |states[n].threads| ==> Sane(states[n].threads[t].pc)
  {
    if n > 0 {
      RunIsSane(states, init, n - 1);
      var s, s' := states[n - 1], states[n - 1 + 1];
      assert Next(s, s');
      var t: nat, action :| t < |s.threads| && Step(s, s', t, action);
      assert forall u :: 0 <= u < |s.threads| && u != t ==> s'.threads[u] == s.threads[u];
    }
  }

  /** Every operation can be called by every idle thread. */
  lemma CallCanStart(s: State, t: nat, op: Op) returns (s': State)
    requires t < |s.threads| && s.threads[t].pc.Idle?
    ensures Step(s, s', t, Invoke(op)) && s'.threads[t].pc == Reading(op) && s'.word == s.word && s'.log == s.log
  {
    s' := s.(threads := s.threads[t := Thread(Reading(op), s.calls, |s.log|)], calls := s.calls + 1);
  }

  /**
   What a completed call did, at one instant between its start and its return. CompareAndSwap stores its
   new value if the word was its old one, Exchange always does, and both return the word as it was;
   Increment adds modulo 2^32 and returns the sum.
   */
  lemma CallByValues(states: seq<State>, init: int, n: nat, c: nat) returns (m: nat)
    requires Run(states, init) && n < |states| && c in states[n].done
    ensures var log, d := states[n].log, states[n].done[c];
      && d.start <= m < d.finish <= |log| && log[m].call == c
      && DoesAsSaid(d.op, d.result, WordAfter(init, log[..m]), WordAfter(init, log[..m + 1]))
  {
    hide DoesAsSaid, Run;
    Linearizable(states, init, n);
    var log, d := states[n].log, states[n].done[c];
    assert Linearized(log, c, d);
    m :| d.start <= m < d.finish <= |log| && EffectAt(log, m, c, d.op, d.result);
    EffectByValues(init, log, m);
  }

  ghost predicate DoesAsSaid(op: Op, result: int, before: int, after: int) {
    match op
    case CompareAndSwap(o, v) => result == before && after == if before == o then v else before
    case Exchange(v) => result == before && after == v
    case Increment(delta) =>
      result == after && -0x8000_0000 <= after < 0x8000_0000 && (after - (before + delta)) % 0x1_0000_0000 == 0
  }

  lemma EffectByValues(init: int, log: seq<Effect>, m: nat)
    requires Legal(init, log) && m < |log|
    ensures DoesAsSaid(log[m].op, log[m].result, WordAfter(init, log[..m]), WordAfter(init, log[..m + 1]))
  {
    assert log[..m + 1][..m] == log[..m];
    var before := WordAfter(init, log[..m]);
    assert WordAfter(init, log[..m + 1]) == SpecNext(log[m].op, before);
    if log[m].op.Increment? {
      WrapIsModular(before + log[m].op.delta);
    }
  }
}

/**
 LazyInstance::Pointer (base/lazy_instance.h, base/lazy_instance.cc) called by any number of
 threads over a weak memory.

 The state word is a history of stores. A load may return any store that is not older than
 the last one its thread has seen; only the compare-and-swap is bound to the newest. The
 buffer is a set of cells written one by one. A thread sees a cell when it wrote it itself
 or when an acquire load read a release store whose thread saw it.
 */
module LazyInstance {

  /** The state word as an unsigned number. */
  type Word = nat

  const CREATING: Word := 1

  /** Some bit of the created mask is set, that is, some bit other than the lowest. */
  predicate Created(v: Word) {
    v / 2 != 0
  }

  /** Which of the three synchronising accesses carry a barrier; the source has all of them. */
  datatype Barriers = Barriers(fastAcquire: bool, spinAcquire: bool, release: bool)

  /** `instance` is the address of the buffer, `cells` its size. */
  datatype Config = Config(instance: Word, cells: nat, registersExit: bool, barriers: Barriers)

  /** A store to the state word: its value, and the cells it publishes. */
  datatype Store = Store(value: Word, view: set<nat>)

  datatype PC =
    | Idle
    | FastLoad            // Acquire_Load in Pointer
    | Swap                // NoBarrier_CompareAndSwap in NeedsLazyInstance
    | Spin                // Acquire_Load in the waiting loop
    | Construct(next: nat) // Traits::New
    | Publish             // Release_Store in CompleteLazyInstance
    | Register            // AtExitManager::RegisterCallback
    | FinalLoad           // NoBarrier_Load in instance()
    | Returned(result: Word)

  /** `seen` is the newest store that the thread has read or written. */
  datatype Thread = Thread(pc: PC, seen: nat, view: set<nat>)

  /** `creators` lists the threads that won the swap, `registered` counts exit callbacks. */
  datatype State = State(word: seq<Store>, threads: seq<Thread>, creators: seq<nat>, registered: nat)

  /** The whole constructed buffer is visible. */
  ghost predicate SeesBuffer(c: Config, view: set<nat>) {
    forall i: nat :: i < c.cells ==> i in view
  }

  ghost predicate Init(s: State) {
    && s.word == [Store(0, {})] && s.creators == [] && s.registered == 0
    && forall t :: 0 <= t < |s.threads| ==> s.threads[t] == Thread(Idle, 0, {})
  }

  /** Thread `th` reads store `i`; with acquire order it also sees what that store publishes. */
  function Load(s: State, th: Thread, i: nat, acquire: bool, pc: PC): Thread
    requires i < |s.word|
  {
    Thread(pc, i, if acquire then th.view + s.word[i].view else th.view)
  }

  function Put(s: State, t: nat, th: Thread): State
    requires t < |s.threads|
  {
    s.(threads := s.threads[t := th])
  }

  function Append(s: State, t: nat, pc: PC, store: Store): State
    requires t < |s.threads|
  {
    Put(s, t, Thread(pc, |s.word|, s.threads[t].view)).(word := s.word + [store])
  }

  /** One step of thread `t`; `i` is the store that a load returns. */
  ghost predicate Step(c: Config, s: State, s': State, t: nat, i: nat)
    requires t < |s.threads|
  {
    var th := s.threads[t];
    var readable := th.seen <= i < |s.word|;
    match th.pc
    case Idle => s' == Put(s, t, th.(pc := FastLoad))
    case Returned(_) => s' == Put(s, t, th.(pc := FastLoad))
    case FastLoad =>
      && readable
      && s' == Put(s, t, Load(s, th, i, c.barriers.fastAcquire, if Created(s.word[i].value) then FinalLoad else Swap))
    case Swap =>
      if s.word != [] && i == |s.word| - 1 && s.word[i].value == 0
      then s' == Append(s, t, Construct(0), Store(CREATING, {})).(creators := s.creators + [t])
      else readable && s.word[i].value != 0 && s' == Put(s, t, Load(s, th, i, false, Spin))
    case Spin =>
      && readable
      && s' == Put(s, t, Load(s, th, i, c.barriers.spinAcquire, if s.word[i].value == CREATING then Spin else FinalLoad))
    case Construct(n) =>
      s' == Put(s, t, if n < c.cells then th.(pc := Construct(n + 1), view := th.view + {n}) else th.(pc := Publish))
    case Publish =>
      s' == Append(s, t, if c.registersExit then Register else FinalLoad,
                   Store(c.instance, if c.barriers.release then th.view else {}))
    case Register => s' == Put(s, t, th.(pc := FinalLoad)).(registered := s.registered + 1)
    case FinalLoad => readable && s' == Put(s, t, Load(s, th, i, false, Returned(s.word[i].value)))
  }

  ghost predicate Next(c: Config, s: State, s': State) {
    exists t: nat, i: nat :: t < |s.threads| && Step(c, s, s', t, i)
  }

  ghost predicate Run(c: Config, states: seq<State>) {
    && states != [] && Init(states[0])
    && forall n :: 0 <= n < |states| - 1 ==> Next(c, states[n], states[n + 1])
  }

  // ---------------------------------------------------------------- the protocol

  /** The values that the word goes through, in this order. */
  function Values(c: Config): seq<Word> {
    [0, CREATING, c.instance]
  }

  ghost predicate Creating(pc: PC) {
    pc.Construct? || pc.Publish?
  }

  ghost predicate ThreadInv(c: Config, s: State, t: nat)
    requires t < |s.threads|
  {
    var th := s.threads[t];
    && th.seen < |s.word|
    && (Creating(th.pc) ==> |s.word| == 2 && s.creators == [t])
    && (th.pc.Construct? ==> forall i: nat :: i < th.pc.next && i < c.cells ==> i in th.view)
    && (th.pc.Publish? || th.pc.Register? ==> SeesBuffer(c, th.view))
    && (th.pc.Register? ==> |s.word| == 3 && th.seen == 2 && s.creators == [t] && s.registered == 0)
    && (th.pc.Spin? ==> th.seen >= 1)
    && (th.pc.FinalLoad? ==> th.seen == 2)
    && (th.pc.Returned? ==> th.seen == 2 && th.pc.result == c.instance)
  }

  ghost predicate Inv(c: Config, s: State) {
    && 1 <= |s.word| <= 3 && s.word[0].value == 0
    && (|s.word| > 1 ==> s.word[1].value == CREATING) && (|s.word| > 2 ==> s.word[2].value == c.instance)
    && (|s.word| == 1 ==> s.creators == []) && (|s.word| > 1 ==> |s.creators| == 1)
    && s.registered <= 1 && (s.registered == 1 ==> |s.word| == 3)
    && forall t :: 0 <= t < |s.threads| ==> ThreadInv(c, s, t)
  }

  lemma CreatedValues(c: Config)
    requires Created(c.instance)
    ensures !Created(0) && !Created(CREATING) && c.instance != 0 && c.instance != CREATING
  {
  }

  lemma StepKeepsOther(c: Config, s: State, s': State, t: nat, i: nat, u: nat)
    requires Created(c.instance) && Inv(c, s) && t < |s.threads| && Step(c, s, s', t, i)
    requires u < |s'.threads| == |s.threads| && u != t
    ensures ThreadInv(c, s', u)
  {
    assert ThreadInv(c, s, t) && ThreadInv(c, s, u);
    assert s'.threads[u] == s.threads[u] && |s'.word| >= |s.word|;
  }

  lemma StepKeepsSelf(c: Config, s: State, s': State, t: nat, i: nat)
    requires Created(c.instance) && Inv(c, s) && t < |s.threads| && Step(c, s, s', t, i)
    ensures |s'.threads| == |s.threads| && ThreadInv(c, s', t)
  {
    CreatedValues(c);
    assert ThreadInv(c, s, t);
  }

  lemma StepKeeps(c: Config, s: State, s': State, t: nat, i: nat)
    requires Created(c.instance) && Inv(c, s) && t < |s.threads| && Step(c, s, s', t, i)
    ensures Inv(c, s')
    ensures s.word <= s'.word && s.creators <= s'.creators && s.registered <= s'.registered
  {
    CreatedValues(c);
    assert ThreadInv(c, s, t);
    forall u | 0 <= u < |s'.threads|
      ensures ThreadInv(c, s', u)
    {
      if u == t {
        StepKeepsSelf(c, s, s', t, i);
      } else {
        StepKeepsOther(c, s, s', t, i, u);
      }
    }
  }

  lemma {:induction false} RunKeeps(c: Config, states: seq<State>, n: nat)
    requires Created(c.instance) && Run(c, states) && n < |states|
    ensures Inv(c, states[n])
    ensures n > 0 ==>
              && states[n - 1].word <= states[n].word && states[n - 1].creators <= states[n].creators
              && states[n - 1].registered <= states[n].registered
  {
    if n > 0 {
      RunKeeps(c, states, n - 1);
      var s, s' := states[n - 1], states[n - 1 + 1];
      assert Next(c, s, s');
      var t: nat, i: nat :| t < |s.threads| && Step(c, s, s', t, i);
      StepKeeps(c, s, s', t, i);
    }
  }

  // ---------------------------------------------------------------- visibility

  ghost predicate Full(b: Barriers) {
    b.fastAcquire && b.spinAcquire && b.release
  }

  /** The published store carries the whole buffer, and whoever is past the loop sees it. */
  ghost predicate Visible(c: Config, s: State) {
    && (|s.word| == 3 ==> SeesBuffer(c, s.word[2].view))
    && forall t :: 0 <= t < |s.threads| && (s.threads[t].pc.FinalLoad? || s.threads[t].pc.Returned?) ==>
         SeesBuffer(c, s.threads[t].view)
  }

  lemma StepKeepsVisible(c: Config, s: State, s': State, t: nat, i: nat)
    requires Created(c.instance) && Full(c.barriers) && Inv(c, s) && Visible(c, s)
    requires t < |s.threads| && Step(c, s, s', t, i)
    ensures Visible(c, s')
  {
    CreatedValues(c);
    assert ThreadInv(c, s, t);
    assert forall u :: 0 <= u < |s.threads| && u != t ==> s'.threads[u] == s.threads[u];
  }

  lemma {:induction false} RunKeepsVisible(c: Config, states: seq<State>, n: nat)
    requires Created(c.instance) && Full(c.barriers) && Run(c, states) && n < |states|
    ensures Visible(c, states[n])
  {
    if n > 0 {
      RunKeepsVisible(c, states, n - 1);
      RunKeeps(c, states, n - 1);
      var s, s' := states[n - 1], states[n - 1 + 1];
      assert Next(c, s, s');
      var t: nat, i: nat :| t < |s.threads| && Step(c, s, s', t, i);
      StepKeepsVisible(c, s, s', t, i);
    }
  }

  // ---------------------------------------------------------------- main results

  /**
   In every run: the word goes through 0, CREATING, instance in this order and never back,
   one thread at most is the creator and the exit callback is registered at most once.
   */
  lemma WordOnlyMovesForward(c: Config, states: seq<State>, m: nat, n: nat)
    requires Created(c.instance) && Run(c, states) && m <= n < |states|
    ensures var s := states[n];
      && 1 <= |s.word| <= 3 && (forall k :: 0 <= k < |s.word| ==> s.word[k].value == Values(c)[k])
      && |s.creators| <= 1 && s.registered <= 1
    ensures states[m].word <= states[n].word && states[m].creators <= states[n].creators
    decreases n - m
  {
    RunKeeps(c, states, n);
    if m < n {
      RunKeeps(c, states, m + 1);
      WordOnlyMovesForward(c, states, m + 1, n);
    }
  }

  /** A call that returns: New ran exactly once, the result is the instance and the buffer is visible. */
  lemma ReturnedPointer(c: Config, states: seq<State>, n: nat, t: nat)
    requires Created(c.instance) && Full(c.barriers) && Run(c, states) && n < |states|
    requires t < |states[n].threads| && states[n].threads[t].pc.Returned?
    ensures states[n].threads[t].pc.result == c.instance
    ensures |states[n].creators| == 1
    ensures SeesBuffer(c, states[n].threads[t].view)
  {
    RunKeeps(c, states, n);
    RunKeepsVisible(c, states, n);
    assert ThreadInv(c, states[n], t);
  }

  // ---------------------------------------------------------------- no barrier can be left out

  /** The second thread waits while the first one, the creator, has come to `pc`. */
  function Pair(word: seq<Store>, pc: PC, seen: nat, view: set<nat>, waiting: Thread): State {
    State(word, [Thread(pc, seen, view), waiting], if |word| > 1 then [0] else [], 0)
  }

  const CLAIMED: seq<Store> := [Store(0, {}), Store(CREATING, {})]

  function Cells(n: nat): set<nat> {
    if n == 0 then {} else Cells(n - 1) + {n - 1}
  }

  ghost predicate Chain(c: Config, states: seq<State>) {
    states != [] && forall n :: 0 <= n < |states| - 1 ==> Next(c, states[n], states[n + 1])
  }

  lemma Link(c: Config, states: seq<State>, s: State, t: nat, i: nat)
    requires Chain(c, states)
    requires t < |states[|states| - 1].threads| && Step(c, states[|states| - 1], s, t, i)
    ensures Chain(c, states + [s])
  {
    hide Step;
    assert Next(c, states[|states| - 1], s);
  }

  /** The creator claims the word and constructs the first `n` cells. */
  lemma {:induction false} Constructs(c: Config, waiting: Thread, n: nat) returns (states: seq<State>)
    requires Created(c.instance) && n <= c.cells
    ensures Chain(c, states)
    ensures states[0] == Pair([Store(0, {})], FastLoad, 0, {}, waiting)
    ensures states[|states| - 1] == Pair(CLAIMED, Construct(n), 1, Cells(n), waiting)
  {
    var s := Pair(CLAIMED, Construct(n), 1, Cells(n), waiting);
    if n == 0 {
      var none: set<nat> := {};
      assert none + none == none;
      var s0 := Pair([Store(0, {})], FastLoad, 0, {}, waiting);
      var s1 := Pair([Store(0, {})], Swap, 0, {}, waiting);
      assert Step(c, s0, s1, 0, 0) && Step(c, s1, s, 0, 0);
      states := [s0, s1, s];
    } else {
      var before := Constructs(c, waiting, n - 1);
      Link(c, before, s, 0, 0);
      states := before + [s];
    }
  }

  /** The state in which the creator has published the instance. */
  function Published(c: Config, waiting: Thread): State {
    var made := Store(c.instance, if c.barriers.release then Cells(c.cells) else {});
    Pair(CLAIMED + [made], if c.registersExit then Register else FinalLoad, 2, Cells(c.cells), waiting)
  }

  /** The first thread creates the instance while the second one waits at some point. */
  lemma CreatorRuns(c: Config, waiting: Thread) returns (states: seq<State>)
    requires Created(c.instance)
    ensures Chain(c, states)
    ensures states[0] == Pair([Store(0, {})], FastLoad, 0, {}, waiting)
    ensures states[|states| - 1] == Published(c, waiting)
  {
    states := Constructs(c, waiting, c.cells);
    var ready := Pair(CLAIMED, Publish, 1, Cells(c.cells), waiting);
    Link(c, states, ready, 0, 0);
    states := states + [ready];
    Link(c, states, Published(c, waiting), 0, 0);
    states := states + [Published(c, waiting)];
  }

  /** One more step at the end of a run. */
  lemma Extend(c: Config, states: seq<State>, s: State, t: nat, i: nat)
    requires Run(c, states)
    requires t < |states[|states| - 1].threads| && Step(c, states[|states| - 1], s, t, i)
    ensures Run(c, states + [s])
  {
  }

  lemma Join(c: Config, states: seq<State>, more: seq<State>)
    requires Run(c, states) && Chain(c, more) && more[0] == states[|states| - 1]
    ensures Run(c, states + more[1..])
  {
    var all := states + more[1..];
    forall n | 0 <= n < |all| - 1
      ensures Next(c, all[n], all[n + 1])
    {
      if n >= |states| - 1 {
        var m := n - (|states| - 1);
        assert all[n] == more[m] && all[n + 1] == more[m + 1];
      }
    }
  }

  /**
   Two threads and a buffer that is not empty: with any of the three barriers missing there is
   a run in which the second thread returns without seeing any of its cells.
   */
  lemma BarriersAreNeeded(c: Config) returns (states: seq<State>)
    requires Created(c.instance) && c.cells > 0 && !Full(c.barriers)
    ensures Run(c, states)
    ensures var s := states[|states| - 1];
      |s.threads| == 2 && s.threads[1] == Thread(Returned(c.instance), 2, {}) && !SeesBuffer(c, s.threads[1].view)
  {
    CreatedValues(c);
    var none: set<nat> := {};
    assert none + none == none;
    // When only the spin load lacks its barrier, the second thread first loads 0.
    var slow := c.barriers.fastAcquire && c.barriers.release;
    var waiting := if slow then Thread(Swap, 0, {}) else Thread(FastLoad, 0, {});
    var start := Thread(Idle, 0, {});
    var s0 := State([Store(0, {})], [start, start], [], 0);
    var s1 := Put(s0, 1, Thread(FastLoad, 0, {}));
    Extend(c, [s0], s1, 1, 0);
    states := [s0] + [s1];
    if slow {
      Extend(c, states, Put(s1, 1, waiting), 1, 0);
      states := states + [Put(s1, 1, waiting)];
    }
    var s2 := Pair([Store(0, {})], FastLoad, 0, {}, waiting);
    Extend(c, states, s2, 0, 0);
    states := states + [s2];
    var creation := CreatorRuns(c, waiting);
    Join(c, states, creation);
    states := states + creation[1..];
    var made := Published(c, waiting);
    if slow {
      Extend(c, states, Put(made, 1, Thread(Spin, 1, {})), 1, 1);
      states := states + [Put(made, 1, Thread(Spin, 1, {}))];
    }
    var past := Put(made, 1, Thread(FinalLoad, 2, {}));
    Extend(c, states, past, 1, 2);
    states := states + [past];
    var end := Put(made, 1, Thread(Returned(c.instance), 2, {}));
    Extend(c, states, end, 1, 2);
    states := states + [end];
    assert 0 !in end.threads[1].view;
  }

  /** Whoever has returned sees the whole buffer. */
  ghost predicate ReturnedSee(c: Config, s: State) {
    forall t :: 0 <= t < |s.threads| && s.threads[t].pc.Returned? ==> SeesBuffer(c, s.threads[t].view)
  }

  /** The three barriers are exactly what makes the buffer visible in every run of any number of threads. */
  lemma BarriersExactly(c: Config)
    requires Created(c.instance)
    ensures c.cells == 0 || Full(c.barriers) <==>
            forall states: seq<State> :: Run(c, states) ==> ReturnedSee(c, states[|states| - 1])
  {
    if c.cells > 0 && !Full(c.barriers) {
      var states := BarriersAreNeeded(c);
      assert Run(c, states) && !ReturnedSee(c, states[|states| - 1]);
    } else {
      forall states: seq<State> | Run(c, states)
        ensures ReturnedSee(c, states[|states| - 1])
      {
        if c.cells > 0 {
          var s := states[|states| - 1];
          forall t | 0 <= t < |s.threads| && s.threads[t].pc.Returned?
            ensures SeesBuffer(c, s.threads[t].view)
          {
            ReturnedPointer(c, states, |states| - 1, t);
          }
        }
      }
    }
  }
}

/**
 What the descriptor shuffle leaves open: how many temporaries a run takes, and which of them are still
 there at the end. The source remembers sixteen.
 */
module FileDescriptorShuffleLeak {
  import opened FileDescriptorShuffle
  import opened FileDescriptorShuffleProof
  import opened FileDescriptorShuffleExact
  import opened FileDescriptorShuffleSafe

  // ---------------------------------------------------------------- how many temporaries there are

  /** One arc takes one temporary if it overwrites what a later arc reads, and none otherwise. */
  lemma ArcTakes(a: seq<Arc>, t0: map<int, File>, i: nat, w: Work)
    requires i < |a| && SourcesOpen(a, t0) && InjectiveDests(a) && Inv(a, t0, i, w)
    requires |w.taken| == RedirectsBefore(a, i)
    requires var p := PrepareArc(w, i, i + 1, -1); p.ok && NoneIsDest(a, p.work.taken)
    ensures |PrepareArc(w, i, i + 1, -1).work.taken| == RedirectsBefore(a, i + 1)
  {
    EnterInner(a, t0, i, w);
    InnerLoop(a, t0, i, i + 1, w, -1);
    InnerCounts(w, i, i + 1, -1);
  }

  lemma {:induction false} RunTakes(a: seq<Arc>, t0: map<int, File>, i: nat, w: Work)
    requires i <= |a| && SourcesOpen(a, t0) && InjectiveDests(a) && Inv(a, t0, i, w)
    requires |w.taken| == RedirectsBefore(a, i)
    requires RunArcs(w, i).ok && NoneIsDest(a, RunArcs(w, i).work.taken)
    ensures |RunArcs(w, i).work.taken| == RedirectsBefore(a, |a|)
    decreases |a| - i
  {
    if i < |a| {
      var w' := RunUnfolds(a, w, i);
      ArcTakes(a, t0, i, w);
      hide PrepareArc, CarryOutArc, Inv, NoneIsDest, RedirectsBefore;
      ArcStep(a, t0, i, w);
      CarryOutTakesNone(PrepareArc(w, i, i + 1, -1).work, i);
      RunTakes(a, t0, i + 1, w');
    }
  }

  lemma CarryOutTakesNone(w: Work, i: nat)
    requires i < |w.arcs|
    ensures CarryOutArc(w, i).work.taken == w.taken
  {
  }

  // ---------------------------------------------------------------- what is open at the end

  /** The temporaries that the source forgets: all after the sixteenth. */
  ghost predicate Forgotten(taken: seq<int>, fd: int) {
    exists n :: 16 <= n < |taken| && taken[n] == fd
  }

  lemma ForgottenIsLeaked(taken: seq<int>, fd: int)
    ensures Forgotten(taken, fd) <==> fd in Leaked(taken)
  {
    if fd in Leaked(taken) {
      var m :| 0 <= m < |Leaked(taken)| && Leaked(taken)[m] == fd;
      assert taken[16 + m] == fd;
    }
    if Forgotten(taken, fd) {
      var n :| 16 <= n < |taken| && taken[n] == fd;
      assert Leaked(taken)[n - 16] == fd;
    }
  }

  /** A forgotten temporary survives the final loop, and holds what it was made from. */
  lemma ForgottenStays(a: seq<Arc>, t0: map<int, File>, w: Work, fd: int)
    requires SourcesOpen(a, t0) && Temporaries(a, t0, |a|, w) && fd in Leaked(w.taken)
    ensures fd in CloseAll(w.kernel, Recorded(w.taken)).open
  {
    RecordedOf(w.taken);
    assert fd !in Recorded(w.taken) && fd in w.kernel.open by {
      var m :| 0 <= m < |Leaked(w.taken)| && Leaked(w.taken)[m] == fd;
      assert w.taken[|Recorded(w.taken)| + m] == fd;
      assert forall n :: 0 <= n < |Recorded(w.taken)| ==> Recorded(w.taken)[n] == w.taken[n];
    }
    CloseAllKeeps(w.kernel, Recorded(w.taken));
  }

  /**
   The descriptors that nobody asked for, after a successful call in which no temporary is a dest: a call
   takes one temporary for every redirecting arc, it closes the first sixteen, and leaves the others open.
   */
  lemma WhatIsLeft(a: seq<Arc>, k: Kernel, fd: int)
    requires InjectiveDests(a) && SourcesOpen(a, k.open) && !k.misclosed
    requires Shuffle(a, k).ok && NoneIsDest(a, Shuffle(a, k).work.taken)
    ensures var w := Shuffle(a, k).work;
      && |w.taken| == RedirectsBefore(a, |a|)
      && (!IsDest(a, fd) ==>
            (fd in w.kernel.open <==> (fd in k.open && !AsksClose(a, fd, 0)) || Forgotten(w.taken, fd)))
  {
    var start := Work(a, k, [], map[]);
    StartHolds(a, k);
    RunTakes(a, k.open, 0, start);
    OuterLoop(a, k.open, 0, start);
    var w := RunArcs(start, 0).work;
    ForgottenIsLeaked(w.taken, fd);
    hide RunArcs, CloseAll, Forgotten, Leaked;
    if fd in Leaked(w.taken) {
      ForgottenStays(a, k.open, w, fd);
    } else if !IsDest(a, fd) {
      ShuffleFrame(a, k, fd);
    }
  }

  /** The call leaves no descriptor open that was not open before and is no dest. */
  ghost predicate LeavesNothing(a: seq<Arc>, t0: map<int, File>, t: map<int, File>) {
    forall fd :: fd in t ==> fd in t0 || IsDest(a, fd)
  }

  /** With at most sixteen redirecting arcs nothing is left behind. */
  lemma NothingLeft(a: seq<Arc>, k: Kernel)
    requires InjectiveDests(a) && SourcesOpen(a, k.open) && !k.misclosed
    requires Shuffle(a, k).ok && NoneIsDest(a, Shuffle(a, k).work.taken) && RedirectsBefore(a, |a|) <= 16
    ensures LeavesNothing(a, k.open, Shuffle(a, k).work.kernel.open)
  {
    hide Shuffle, RedirectsBefore;
    forall fd | fd in Shuffle(a, k).work.kernel.open ensures fd in k.open || IsDest(a, fd) {
      WhatIsLeft(a, k, fd);
    }
  }

  /** With more there are answers with which the call succeeds and leaves a temporary open. */
  lemma SomethingLeft(a: seq<Arc>, t0: map<int, File>) returns (answers: seq<int>)
    requires InjectiveDests(a) && SourcesOpen(a, t0) && RedirectsBefore(a, |a|) > 16
    ensures var o := Shuffle(a, Kernel(t0, answers, false));
      o.ok && NoneIsDest(a, o.work.taken) && !LeavesNothing(a, t0, o.work.kernel.open)
  {
    var b := BoundAll(a, Kernel(t0, [], false));
    assert SourcesAreOpen(Start(a, t0, []), 0);
    hide SourcesAreOpen, RunArcs, RedirectsBefore, CloseAll;
    answers := FreshRun(Start(a, t0, []), 0, b);
    assert WithAnswers(Start(a, t0, []), answers) == Start(a, t0, answers);
    var k := Kernel(t0, answers, false);
    var w := RunArcs(Start(a, t0, answers), 0).work;
    assert NoneIsDest(a, w.taken);
    assert Shuffle(a, k).ok && Shuffle(a, k).work.taken == w.taken;
    hide Shuffle;
    WhatIsLeft(a, k, b);
    var fd := w.taken[16];
    WhatIsLeft(a, k, fd);
    assert Forgotten(w.taken, fd);
    assert fd >= b && fd !in t0 && !IsDest(a, fd);
  }

  /** The outcome with these answers leaves nothing behind, if the call succeeds and no temporary is a dest. */
  ghost predicate CleanWith(a: seq<Arc>, t0: map<int, File>, answers: seq<int>) {
    var o := Shuffle(a, Kernel(t0, answers, false));
    o.ok && NoneIsDest(a, o.work.taken) ==> LeavesNothing(a, t0, o.work.kernel.open)
  }

  /** Sixteen redirecting arcs are exactly what a call may have without leaving a descriptor open. */
  lemma CleanExactly(a: seq<Arc>, t0: map<int, File>)
    requires InjectiveDests(a) && SourcesOpen(a, t0)
    ensures RedirectsBefore(a, |a|) <= 16 <==> forall answers :: CleanWith(a, t0, answers)
  {
    hide Shuffle, RedirectsBefore, LeavesNothing;
    if RedirectsBefore(a, |a|) <= 16 {
      forall answers ensures CleanWith(a, t0, answers) {
        var k := Kernel(t0, answers, false);
        if Shuffle(a, k).ok && NoneIsDest(a, Shuffle(a, k).work.taken) {
          NothingLeft(a, k);
        }
      }
    } else {
      var answers := SomethingLeft(a, t0);
      assert !CleanWith(a, t0, answers);
    }
  }

  // ---------------------------------------------------------------- failed calls

  /** All temporaries are open, and nothing has been closed that was not. */
  ghost predicate Holding(w: Work) {
    !w.kernel.misclosed && forall n :: 0 <= n < |w.taken| ==> w.taken[n] in w.kernel.open
  }

  lemma {:induction false} PrepareHolds(w: Work, i: nat, j: nat, temp: int)
    requires i < j <= |w.arcs| && Holding(w)
    ensures Holding(PrepareArc(w, i, j, temp).work)
    decreases |w.arcs| - j
  {
    if j < |w.arcs| {
      var o := Redirect(w, i, j, temp);
      assert Holding(o.work) && Holding(o.work.(arcs := PassClose(o.work.arcs, i, j)));
      if o.ok {
        hide Redirect, Holding;
        PrepareHolds(o.work.(arcs := PassClose(o.work.arcs, i, j)), i, j + 1, o.temp);
      }
    }
  }

  lemma InvHolds(a: seq<Arc>, t0: map<int, File>, i: nat, w: Work)
    requires i <= |a| && SourcesOpen(a, t0) && Inv(a, t0, i, w)
    ensures Holding(w) && |w.arcs| == |a|
  {
  }

  lemma FailedMove(w: Work, i: nat)
    requires i < |w.arcs| && Holding(w) && !CarryOutArc(w, i).ok
    ensures Holding(CarryOutArc(w, i).work) && CarryOutArc(w, i).work.taken == w.taken
  {
  }

  lemma {:induction false} RunFails(a: seq<Arc>, t0: map<int, File>, i: nat, w: Work)
    requires i <= |a| && SourcesOpen(a, t0) && InjectiveDests(a) && Inv(a, t0, i, w)
    requires |w.arcs| == |a| && !RunArcs(w, i).ok && NoneIsDest(a, RunArcs(w, i).work.taken)
    ensures Holding(RunArcs(w, i).work)
    decreases |a| - i
  {
    var p := PrepareArc(w, i, i + 1, -1);
    InvHolds(a, t0, i, w);
    PrepareHolds(w, i, i + 1, -1);
    hide PrepareArc, CarryOutArc, Inv, NoneIsDest, Holding;
    if p.ok {
      var c := CarryOutArc(p.work, i);
      if c.ok {
        RunGrows(c.work, i + 1);
        CarryOutTakesNone(p.work, i);
        NoneIsDestPrefix(a, p.work.taken, RunArcs(w, i).work.taken);
        ArcStep(a, t0, i, w);
        InvHolds(a, t0, i + 1, c.work);
        RunFails(a, t0, i + 1, c.work);
      } else {
        FailedMove(p.work, i);
      }
    }
  }

  /** A call that fails returns at once: every temporary it has taken is still open, and nothing was closed wrongly. */
  lemma FailedCallHolds(a: seq<Arc>, k: Kernel)
    requires InjectiveDests(a) && SourcesOpen(a, k.open) && !k.misclosed
    requires !Shuffle(a, k).ok && NoneIsDest(a, Shuffle(a, k).work.taken)
    ensures Holding(Shuffle(a, k).work)
  {
    StartHolds(a, k);
    RunFails(a, k.open, 0, Work(a, k, [], map[]));
  }
}

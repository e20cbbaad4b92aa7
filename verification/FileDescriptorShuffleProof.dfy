/**
 What the descriptor shuffle computes: the exact final table, and exactly when it is the
 simultaneous assignment that the arcs describe.
 */
module FileDescriptorShuffleProof {
  import opened FileDescriptorShuffle

  // ---------------------------------------------------------------- what the caller asks for

  ghost predicate InjectiveDests(a: seq<Arc>) {
    forall p, q :: 0 <= p < q < |a| ==> a[p].dest != a[q].dest
  }

  ghost predicate SourcesOpen(a: seq<Arc>, t0: map<int, File>) {
    forall p :: 0 <= p < |a| ==> a[p].source in t0
  }

  predicate IsDest(a: seq<Arc>, fd: int) {
    exists p :: 0 <= p < |a| && a[p].dest == fd
  }

  ghost predicate NoneIsDest(a: seq<Arc>, fds: seq<int>) {
    forall n :: 0 <= n < |fds| ==> !IsDest(a, fds[n])
  }

  /** Every dest holds the file that its source held before the call. */
  ghost predicate Assigned(a: seq<Arc>, t0: map<int, File>, t: map<int, File>)
    requires SourcesOpen(a, t0)
  {
    forall p :: 0 <= p < |a| ==> a[p].dest in t && t[a[p].dest] == t0[a[p].source]
  }

  ghost predicate AsksClose(a: seq<Arc>, fd: int, from: int) {
    exists p :: 0 <= p < |a| && from <= p && a[p].source == fd && a[p].close
  }

  /** An identity arc is followed by an arc that reads the same descriptor, and one of them or a later sharer closes it. */
  ghost predicate ClobbersIdentity(a: seq<Arc>, k: nat)
    requires k < |a|
  {
    && a[k].Identity()
    && (exists j :: k < j < |a| && a[j].source == a[k].dest)
    && AsksClose(a, a[k].dest, k)
  }

  ghost predicate Clobbered(a: seq<Arc>) {
    exists k :: 0 <= k < |a| && ClobbersIdentity(a, k)
  }

  // ---------------------------------------------------------------- the table, arc by arc

  ghost predicate SourceIn(a: seq<Arc>, fd: int, lo: int, hi: int) {
    exists p :: 0 <= p < |a| && lo <= p < hi && a[p].source == fd
  }

  ghost predicate DestIn(a: seq<Arc>, fd: int, lo: int, hi: int) {
    exists p :: 0 <= p < |a| && lo <= p < hi && a[p].dest == fd
  }

  /** Arc `l` asked for a close that is still in force just before arc `j`. */
  ghost predicate CloseReaches(a: seq<Arc>, l: nat, j: nat)
    requires l < |a| && j < |a|
  {
    a[l].source == a[j].source && a[l].close && !DestIn(a, a[j].source, l + 1, j + 1)
  }

  /** The close flag of arc `j` once the arcs before `i` are done. */
  ghost predicate Flag(a: seq<Arc>, i: nat, j: nat)
    requires i <= j < |a|
  {
    || a[j].close
    || (!SourceIn(a, a[j].source, i, j) && exists l :: 0 <= l < i && CloseReaches(a, l, j))
  }

  /** An arc before `i` overwrites `fd`. */
  ghost predicate Overwritten(a: seq<Arc>, i: nat, fd: int) {
    exists k :: 0 <= k < |a| && k < i && !a[k].Identity() && a[k].dest == fd
  }

  ghost predicate LastUse(a: seq<Arc>, i: nat, j: nat)
    requires i < |a|
  {
    !SourceIn(a, a[i].source, i + 1, j) && !DestIn(a, a[i].source, i + 1, j)
  }

  ghost predicate ClosesAt(a: seq<Arc>, i: nat)
    requires i < |a|
  {
    && !a[i].Identity()
    && !Overwritten(a, i, a[i].source)
    && Flag(a, i, i)
    && LastUse(a, i, |a|)
  }

  ghost function TableAt(a: seq<Arc>, t0: map<int, File>, i: nat): map<int, File>
    requires i <= |a| && SourcesOpen(a, t0)
  {
    if i == 0 then t0 else
    var t := TableAt(a, t0, i - 1);
    var t' := if a[i - 1].Identity() then t else t[a[i - 1].dest := t0[a[i - 1].source]];
    if ClosesAt(a, i - 1) then t' - {a[i - 1].source} else t'
  }

  ghost predicate ClosedBefore(a: seq<Arc>, i: nat, fd: int) {
    exists j :: 0 <= j < |a| && j < i && ClosesAt(a, j) && a[j].source == fd
  }

  /** The closed form of the table: overwritten, closed or untouched. */
  lemma {:induction false} TableEntry(a: seq<Arc>, t0: map<int, File>, i: nat, fd: int)
    requires i <= |a| && SourcesOpen(a, t0) && InjectiveDests(a)
    ensures forall k :: 0 <= k < i && !a[k].Identity() && a[k].dest == fd ==>
              fd in TableAt(a, t0, i) && TableAt(a, t0, i)[fd] == t0[a[k].source]
    ensures ClosedBefore(a, i, fd) ==> fd !in TableAt(a, t0, i)
    ensures !Overwritten(a, i, fd) && !ClosedBefore(a, i, fd) ==>
              (fd in TableAt(a, t0, i) <==> fd in t0) && (fd in t0 ==> TableAt(a, t0, i)[fd] == t0[fd])
  {
    if i > 0 {
      TableEntry(a, t0, i - 1, fd);
      if ClosesAt(a, i - 1) && a[i - 1].source == fd {
        assert !Overwritten(a, i, fd);
      }
    }
  }

  // ---------------------------------------------------------------- the invariant

  /** Arc `j` as the run holds it once the arcs before `i` are done. */
  ghost function ArcAt(a: seq<Arc>, moved: map<int, int>, i: nat, j: nat): Arc
    requires i <= j < |a|
  {
    if a[j].source in moved then Arc(moved[a[j].source], a[j].dest, false)
    else Arc(a[j].source, a[j].dest, Flag(a, i, j))
  }

  /** The temporaries are open, distinct, hold the right file and are nobody else's descriptor. */
  ghost predicate Temporaries(a: seq<Arc>, t0: map<int, File>, i: nat, w: Work)
    requires i <= |a| && SourcesOpen(a, t0)
  {
    && (forall n :: 0 <= n < |w.taken| ==>
          w.taken[n] in w.kernel.open && w.taken[n] !in TableAt(a, t0, i) && !IsDest(a, w.taken[n]))
    && (forall m, n :: 0 <= m < n < |w.taken| ==> w.taken[m] != w.taken[n])
    && (forall d :: d in w.moved ==>
          && d in t0 && w.moved[d] in w.taken
          && w.moved[d] in w.kernel.open && w.kernel.open[w.moved[d]] == t0[d])
    && (forall fd :: fd !in w.taken ==>
          && (fd in w.kernel.open <==> fd in TableAt(a, t0, i))
          && (fd in w.kernel.open ==> w.kernel.open[fd] == TableAt(a, t0, i)[fd]))
  }

  ghost predicate Inv(a: seq<Arc>, t0: map<int, File>, i: nat, w: Work)
    requires i <= |a| && SourcesOpen(a, t0)
  {
    && |w.arcs| == |a| && !w.kernel.misclosed
    && Temporaries(a, t0, i, w)
    && (forall j :: i <= j < |a| ==> w.arcs[j] == ArcAt(a, w.moved, i, j))
    && (forall j :: i <= j < |a| ==> (a[j].source in w.moved <==> Overwritten(a, i, a[j].source)))
    && (forall d :: d in w.moved ==> Overwritten(a, i, d))
  }

  /** The arcs inside the inner loop of arc `i`, at arc `j`. */
  ghost predicate InnerArcs(a: seq<Arc>, i: nat, j: nat, arcs: seq<Arc>, moved: map<int, int>)
    requires i < j <= |a|
  {
    var before := moved - {a[i].dest};
    && |arcs| == |a|
    && (forall q :: i < q < j ==> arcs[q] == ArcAt(a, moved, i + 1, q))
    && (forall q :: j <= q < |a| ==> arcs[q] == ArcAt(a, before, i, q))
    && arcs[i] == ArcAt(a, before, i, i).(close := ArcAt(a, before, i, i).close && LastUse(a, i, j))
  }

  /** Which descriptors have a temporary inside the inner loop. */
  ghost predicate InnerMoved(a: seq<Arc>, i: nat, j: nat, moved: map<int, int>, temp: int)
    requires i < j <= |a|
  {
    var d := a[i].dest;
    && (forall q :: i <= q < |a| ==> (a[q].source in moved - {d} <==> Overwritten(a, i, a[q].source)))
    && (forall e :: e in moved - {d} ==> Overwritten(a, i, e))
    && (temp != -1 <==> d in moved)
    && (temp != -1 ==> temp == moved[d])
    && (d in moved <==> !a[i].Identity() && SourceIn(a, d, i + 1, j))
  }

  ghost predicate InnerInv(a: seq<Arc>, t0: map<int, File>, i: nat, j: nat, w: Work, temp: int)
    requires i < j <= |a| && SourcesOpen(a, t0)
  {
    && !w.kernel.misclosed
    && Temporaries(a, t0, i, w)
    && InnerArcs(a, i, j, w.arcs, w.moved)
    && InnerMoved(a, i, j, w.moved, temp)
  }

  /** A descriptor that a pending arc still reads is open with its first file. */
  lemma PendingSource(a: seq<Arc>, t0: map<int, File>, i: nat, q: nat)
    requires i <= q < |a| && SourcesOpen(a, t0) && InjectiveDests(a)
    requires !Overwritten(a, i, a[q].source)
    ensures a[q].source in TableAt(a, t0, i) && TableAt(a, t0, i)[a[q].source] == t0[a[q].source]
  {
    TableEntry(a, t0, i, a[q].source);
    forall j | 0 <= j < i && ClosesAt(a, j)
      ensures a[j].source != a[q].source
    {
      assert LastUse(a, j, |a|);
    }
  }

  lemma FlagPasses(a: seq<Arc>, i: nat, j: nat)
    requires i < j < |a|
    ensures a[j].source != a[i].source ==> Flag(a, i + 1, j) == Flag(a, i, j)
    ensures a[j].source == a[i].source ==>
              Flag(a, i + 1, j) == (Flag(a, i, j) || (Flag(a, i, i) && LastUse(a, i, j) && a[i].source != a[j].dest))
  {
    var x := a[i].source;
    if a[j].source == x {
      if Flag(a, i, i) && LastUse(a, i, j) && x != a[j].dest {
        if a[i].close {
          assert CloseReaches(a, i, j);
        } else {
          var l :| 0 <= l < i && CloseReaches(a, l, i);
          assert CloseReaches(a, l, j);
        }
      }
      if !SourceIn(a, x, i + 1, j) && exists l :: 0 <= l < i + 1 && CloseReaches(a, l, j) {
        var l :| 0 <= l < i + 1 && CloseReaches(a, l, j);
        assert l == i || CloseReaches(a, l, i);
        assert LastUse(a, i, j);
      }
    } else {
      assert SourceIn(a, a[j].source, i, j) == SourceIn(a, a[j].source, i + 1, j);
    }
  }

  lemma RedirectKeeps(a: seq<Arc>, t0: map<int, File>, i: nat, j: nat, w: Work, temp: int)
    requires i < j < |a| && SourcesOpen(a, t0) && InjectiveDests(a)
    requires InnerInv(a, t0, i, j, w, temp)
    requires Redirect(w, i, j, temp).ok && NoneIsDest(a, Redirect(w, i, j, temp).work.taken)
    ensures var o := Redirect(w, i, j, temp);
      && !o.work.kernel.misclosed && Temporaries(a, t0, i, o.work)
  {
    if !w.arcs[i].Identity() && w.arcs[i].dest == w.arcs[j].source {
      assert a[j].source == a[i].dest;
      PendingSource(a, t0, i, j);
    }
  }

  /** The tests of the inner loop, in terms of the arcs as given. */
  lemma Comparisons(a: seq<Arc>, t0: map<int, File>, i: nat, j: nat, w: Work, temp: int)
    requires i < j < |a| && SourcesOpen(a, t0) && InjectiveDests(a)
    requires InnerInv(a, t0, i, j, w, temp)
    ensures w.arcs[i].Identity() == a[i].Identity() && w.arcs[i].dest == a[i].dest && w.arcs[j].dest == a[j].dest
    ensures w.arcs[i].dest == w.arcs[j].source <==> a[i].dest == a[j].source
    ensures w.arcs[i].close ==> w.arcs[i].source == a[i].source && a[i].source !in w.taken
    ensures w.arcs[i].close ==> (a[i].source == w.arcs[j].source <==> a[i].source == a[j].source)
    ensures a[i].source == a[j].source && !w.arcs[i].close ==>
              a[i].source in w.moved - {a[i].dest} || !(Flag(a, i, i) && LastUse(a, i, j))
  {
    if !Overwritten(a, i, a[i].source) {
      PendingSource(a, t0, i, i);
    }
    assert !Overwritten(a, i, a[i].dest);
  }

  /** What the step does to arcs `i` and `j`. */
  lemma StepArcs(a: seq<Arc>, t0: map<int, File>, i: nat, j: nat, w: Work, temp: int)
    requires i < j < |a| && SourcesOpen(a, t0) && InjectiveDests(a)
    requires InnerInv(a, t0, i, j, w, temp)
    requires Redirect(w, i, j, temp).ok && NoneIsDest(a, Redirect(w, i, j, temp).work.taken)
    ensures var o := Redirect(w, i, j, temp).work; var r := PassClose(o.arcs, i, j);
      && r[j] == ArcAt(a, o.moved, i + 1, j)
      && r[i] == w.arcs[i].(close := w.arcs[i].close && a[i].source != a[j].source && a[i].source != a[j].dest)
      && (forall q :: 0 <= q < |a| && q != i && q != j ==> r[q] == w.arcs[q])
  {
    RedirectKeeps(a, t0, i, j, w, temp);
    Comparisons(a, t0, i, j, w, temp);
    FlagPasses(a, i, j);
    var o := Redirect(w, i, j, temp).work;
    if !a[i].Identity() && a[i].dest == a[j].source {
      assert o.arcs[j].source in o.taken;
      if a[i].source !in w.moved - {a[i].dest} {
        PendingSource(a, t0, i, i);
      }
    }
  }

  lemma ExtendArcs(a: seq<Arc>, i: nat, j: nat, arcs: seq<Arc>, moved: map<int, int>, arcs': seq<Arc>,
                   moved': map<int, int>)
    requires i < j < |a| && InnerArcs(a, i, j, arcs, moved) && |arcs'| == |a|
    requires moved' == moved || (moved' - {a[i].dest} == moved - {a[i].dest} && !SourceIn(a, a[i].dest, i + 1, j))
    requires arcs'[j] == ArcAt(a, moved', i + 1, j)
    requires arcs'[i] == arcs[i].(close := arcs[i].close && a[i].source != a[j].source && a[i].source != a[j].dest)
    requires forall q :: 0 <= q < |a| && q != i && q != j ==> arcs'[q] == arcs[q]
    ensures InnerArcs(a, i, j + 1, arcs', moved')
  {
    assert moved' - {a[i].dest} == moved - {a[i].dest};
    forall q | i < q < j
      ensures arcs'[q] == ArcAt(a, moved', i + 1, q)
    {
      if moved' != moved {
        assert a[q].source != a[i].dest;
        assert a[q].source in moved <==> a[q].source in moved - {a[i].dest};
        assert a[q].source in moved' <==> a[q].source in moved' - {a[i].dest};
      }
    }
  }

  lemma ExtendMoved(a: seq<Arc>, i: nat, j: nat, moved: map<int, int>, temp: int, moved': map<int, int>, temp': int)
    requires i < j < |a| && InnerMoved(a, i, j, moved, temp)
    requires moved' - {a[i].dest} == moved - {a[i].dest}
    requires if !a[i].Identity() && a[i].dest == a[j].source
             then temp' != -1 && a[i].dest in moved' && moved'[a[i].dest] == temp'
             else moved' == moved && temp' == temp
    ensures InnerMoved(a, i, j + 1, moved', temp')
  {
  }

  lemma InnerStep(a: seq<Arc>, t0: map<int, File>, i: nat, j: nat, w: Work, temp: int)
    requires i < j < |a| && SourcesOpen(a, t0) && InjectiveDests(a)
    requires InnerInv(a, t0, i, j, w, temp)
    requires Redirect(w, i, j, temp).ok && NoneIsDest(a, Redirect(w, i, j, temp).work.taken)
    ensures var o := Redirect(w, i, j, temp);
      InnerInv(a, t0, i, j + 1, o.work.(arcs := PassClose(o.work.arcs, i, j)), o.temp)
  {
    var o := Redirect(w, i, j, temp);
    RedirectKeeps(a, t0, i, j, w, temp);
    Comparisons(a, t0, i, j, w, temp);
    StepArcs(a, t0, i, j, w, temp);
    assert o.work.moved - {a[i].dest} == w.moved - {a[i].dest};
    ExtendMoved(a, i, j, w.moved, temp, o.work.moved, o.temp);
    ExtendArcs(a, i, j, w.arcs, w.moved, PassClose(o.work.arcs, i, j), o.work.moved);
  }

  lemma NoneIsDestPrefix(a: seq<Arc>, shorter: seq<int>, longer: seq<int>)
    requires shorter <= longer && NoneIsDest(a, longer)
    ensures NoneIsDest(a, shorter)
  {
    assert forall n :: 0 <= n < |shorter| ==> shorter[n] == longer[n];
  }

  lemma {:induction false} PrepareGrows(w: Work, i: nat, j: nat, temp: int)
    requires i < j <= |w.arcs|
    ensures w.taken <= PrepareArc(w, i, j, temp).work.taken
    decreases |w.arcs| - j
  {
    if j < |w.arcs| {
      var o := Redirect(w, i, j, temp);
      if o.ok {
        PrepareGrows(o.work.(arcs := PassClose(o.work.arcs, i, j)), i, j + 1, o.temp);
      }
    }
  }

  lemma {:induction false} RunGrows(w: Work, i: nat)
    requires i <= |w.arcs|
    ensures w.taken <= RunArcs(w, i).work.taken
    decreases |w.arcs| - i
  {
    if i < |w.arcs| {
      PrepareGrows(w, i, i + 1, -1);
      var p := PrepareArc(w, i, i + 1, -1);
      if p.ok && CarryOutArc(p.work, i).ok {
        RunGrows(CarryOutArc(p.work, i).work, i + 1);
      }
    }
  }

  lemma {:induction false} InnerLoop(a: seq<Arc>, t0: map<int, File>, i: nat, j: nat, w: Work, temp: int)
    requires i < j <= |a| && SourcesOpen(a, t0) && InjectiveDests(a)
    requires InnerInv(a, t0, i, j, w, temp)
    requires PrepareArc(w, i, j, temp).ok && NoneIsDest(a, PrepareArc(w, i, j, temp).work.taken)
    ensures InnerInv(a, t0, i, |a|, PrepareArc(w, i, j, temp).work, PrepareArc(w, i, j, temp).temp)
    decreases |a| - j
  {
    if j < |a| {
      var o := Redirect(w, i, j, temp);
      var w' := o.work.(arcs := PassClose(o.work.arcs, i, j));
      PrepareGrows(w', i, j + 1, o.temp);
      NoneIsDestPrefix(a, w'.taken, PrepareArc(w, i, j, temp).work.taken);
      InnerStep(a, t0, i, j, w, temp);
      InnerLoop(a, t0, i, j + 1, w', o.temp);
    }
  }

  lemma EnterInner(a: seq<Arc>, t0: map<int, File>, i: nat, w: Work)
    requires i < |a| && SourcesOpen(a, t0) && InjectiveDests(a) && Inv(a, t0, i, w)
    ensures InnerInv(a, t0, i, i + 1, w, -1)
  {
    assert !Overwritten(a, i, a[i].dest);
    assert w.moved - {a[i].dest} == w.moved;
  }

  /** Move and close take the table to the next one. */
  lemma CarryOutTable(a: seq<Arc>, t0: map<int, File>, i: nat, w: Work, temp: int)
    requires i < |a| && SourcesOpen(a, t0) && InjectiveDests(a)
    requires InnerInv(a, t0, i, |a|, w, temp) && CarryOutArc(w, i).ok
    ensures !CarryOutArc(w, i).work.kernel.misclosed
    ensures Temporaries(a, t0, i + 1, CarryOutArc(w, i).work)
  {
    var x := a[i].source;
    assert !Overwritten(a, i, a[i].dest);
    if Overwritten(a, i, x) {
      assert w.arcs[i].source in w.taken && !w.arcs[i].close;
    } else {
      PendingSource(a, t0, i, i);
      assert w.arcs[i].source == x && x !in w.taken;
    }
    assert IsDest(a, a[i].dest);
    assert !a[i].Identity() ==> w.kernel.open[w.arcs[i].source] == t0[x];
    assert w.arcs[i].Identity() == a[i].Identity();
    assert !a[i].Identity() ==> (ClosesAt(a, i) <==> w.arcs[i].close);
  }

  lemma LeaveInner(a: seq<Arc>, t0: map<int, File>, i: nat, w: Work, temp: int)
    requires i < |a| && SourcesOpen(a, t0) && InjectiveDests(a)
    requires InnerInv(a, t0, i, |a|, w, temp) && CarryOutArc(w, i).ok
    ensures Inv(a, t0, i + 1, CarryOutArc(w, i).work)
  {
    CarryOutTable(a, t0, i, w, temp);
    forall d | d in w.moved
      ensures Overwritten(a, i + 1, d)
    {
      assert d == a[i].dest || d in w.moved - {a[i].dest};
    }
  }

  /** One whole arc. */
  lemma ArcStep(a: seq<Arc>, t0: map<int, File>, i: nat, w: Work)
    requires i < |a| && SourcesOpen(a, t0) && InjectiveDests(a) && Inv(a, t0, i, w)
    requires var p := PrepareArc(w, i, i + 1, -1);
      p.ok && NoneIsDest(a, p.work.taken) && CarryOutArc(p.work, i).ok
    ensures Inv(a, t0, i + 1, CarryOutArc(PrepareArc(w, i, i + 1, -1).work, i).work)
  {
    var p := PrepareArc(w, i, i + 1, -1);
    EnterInner(a, t0, i, w);
    InnerLoop(a, t0, i, i + 1, w, -1);
    LeaveInner(a, t0, i, p.work, p.temp);
  }

  lemma RunUnfolds(a: seq<Arc>, w: Work, i: nat) returns (w': Work)
    requires i < |w.arcs| && RunArcs(w, i).ok && NoneIsDest(a, RunArcs(w, i).work.taken)
    ensures var p := PrepareArc(w, i, i + 1, -1);
      && p.ok && CarryOutArc(p.work, i).ok && w' == CarryOutArc(p.work, i).work
      && RunArcs(w, i) == RunArcs(w', i + 1) && NoneIsDest(a, p.work.taken)
  {
    var p := PrepareArc(w, i, i + 1, -1);
    w' := CarryOutArc(p.work, i).work;
    RunGrows(w', i + 1);
    NoneIsDestPrefix(a, p.work.taken, RunArcs(w, i).work.taken);
  }

  lemma {:induction false} OuterLoop(a: seq<Arc>, t0: map<int, File>, i: nat, w: Work)
    requires i <= |a| && SourcesOpen(a, t0) && InjectiveDests(a) && Inv(a, t0, i, w)
    requires RunArcs(w, i).ok && NoneIsDest(a, RunArcs(w, i).work.taken)
    ensures Inv(a, t0, |a|, RunArcs(w, i).work)
    decreases |a| - i
  {
    if i < |a| {
      var w' := RunUnfolds(a, w, i);
      hide PrepareArc, CarryOutArc, Inv, NoneIsDest;
      ArcStep(a, t0, i, w);
      OuterLoop(a, t0, i + 1, w');
    }
  }

  // ---------------------------------------------------------------- dests never lose their file, unless clobbered

  lemma ClosedDestIsClobbered(a: seq<Arc>, j: nat, p: nat)
    requires j < |a| && p < |a| && ClosesAt(a, j) && a[p].dest == a[j].source
    ensures ClobbersIdentity(a, p)
  {
    assert !DestIn(a, a[j].source, j + 1, |a|);
    assert p < j && a[p].Identity();
    if !a[j].close {
      var l :| 0 <= l < j && CloseReaches(a, l, j);
      assert p <= l;
    }
  }

  lemma {:induction false} LastReader(a: seq<Arc>, x: int, j: nat) returns (last: nat)
    requires j < |a| && a[j].source == x
    ensures j <= last < |a| && a[last].source == x && !SourceIn(a, x, last + 1, |a|)
    decreases |a| - j
  {
    if SourceIn(a, x, j + 1, |a|) {
      var q :| 0 <= q < |a| && j + 1 <= q && a[q].source == x;
      last := LastReader(a, x, q);
    } else {
      last := j;
    }
  }

  /** The last sharer of a clobbered identity descriptor closes it. */
  lemma ClobberedIsClosed(a: seq<Arc>, k: nat)
    requires k < |a| && InjectiveDests(a) && ClobbersIdentity(a, k)
    ensures ClosedBefore(a, |a|, a[k].dest)
  {
    var x := a[k].dest;
    var j :| k < j < |a| && a[j].source == x;
    var last := LastReader(a, x, j);
    var l :| 0 <= l < |a| && k <= l && a[l].source == x && a[l].close;
    assert l == last || CloseReaches(a, l, last);
    assert ClosesAt(a, last);
  }

  lemma UnsharedClose(a: seq<Arc>, fd: int)
    requires !IsDest(a, fd)
    ensures ClosedBefore(a, |a|, fd) <==> AsksClose(a, fd, 0)
  {
    if AsksClose(a, fd, 0) {
      var l :| 0 <= l < |a| && a[l].source == fd && a[l].close;
      var last := LastReader(a, fd, l);
      assert l == last || CloseReaches(a, l, last);
      assert ClosesAt(a, last);
    }
    if ClosedBefore(a, |a|, fd) {
      var j :| 0 <= j < |a| && ClosesAt(a, j) && a[j].source == fd;
      if !a[j].close {
        var l :| 0 <= l < j && CloseReaches(a, l, j);
      }
    }
  }

  // ---------------------------------------------------------------- the temporaries at the end

  lemma {:induction false} CloseAllCloses(k: Kernel, fds: seq<int>)
    ensures forall n :: 0 <= n < |fds| ==> fds[n] !in CloseAll(k, fds).open
    ensures forall fd :: fd in CloseAll(k, fds).open ==> fd in k.open
    decreases |fds|
  {
    if fds != [] {
      CloseAllCloses(Close(k, fds[0]), fds[1..]);
      assert forall n :: 0 < n < |fds| ==> fds[n] == fds[1..][n - 1];
    }
  }

  lemma {:induction false} CloseAllKeeps(k: Kernel, fds: seq<int>)
    requires forall n :: 0 <= n < |fds| ==> fds[n] in k.open
    requires forall m, n :: 0 <= m < n < |fds| ==> fds[m] != fds[n]
    ensures CloseAll(k, fds).misclosed == k.misclosed
    ensures forall fd :: fd !in fds ==>
              && (fd in CloseAll(k, fds).open <==> fd in k.open)
              && (fd in k.open ==> CloseAll(k, fds).open[fd] == k.open[fd])
    decreases |fds|
  {
    if fds != [] {
      CloseAllKeeps(Close(k, fds[0]), fds[1..]);
      assert fds == [fds[0]] + fds[1..];
    }
  }

  /** The temporaries that no longer fit extra_fds stay open. */
  function Leaked(taken: seq<int>): seq<int> {
    if |taken| <= MAX_EXTRA_FDS then [] else taken[MAX_EXTRA_FDS..]
  }

  lemma CloseRecorded(a: seq<Arc>, t0: map<int, File>, w: Work)
    requires SourcesOpen(a, t0) && Temporaries(a, t0, |a|, w)
    ensures var k := CloseAll(w.kernel, Recorded(w.taken));
      && k.misclosed == w.kernel.misclosed
      && forall fd :: fd !in Leaked(w.taken) ==>
            && (fd in k.open <==> fd in TableAt(a, t0, |a|))
            && (fd in k.open ==> k.open[fd] == TableAt(a, t0, |a|)[fd])
  {
    var k := CloseAll(w.kernel, Recorded(w.taken));
    CloseAllCloses(w.kernel, Recorded(w.taken));
    CloseAllKeeps(w.kernel, Recorded(w.taken));
    forall fd | fd !in Leaked(w.taken)
      ensures fd in k.open <==> fd in TableAt(a, t0, |a|)
      ensures fd in k.open ==> k.open[fd] == TableAt(a, t0, |a|)[fd]
    {
      if fd !in Recorded(w.taken) {
        assert w.taken == Recorded(w.taken) + Leaked(w.taken);
        assert fd !in w.taken;
      }
    }
  }

  /** The exact final table, leaked temporaries apart. */
  lemma FinalTable(a: seq<Arc>, k: Kernel)
    requires InjectiveDests(a) && SourcesOpen(a, k.open) && !k.misclosed
    requires Shuffle(a, k).ok && NoneIsDest(a, Shuffle(a, k).work.taken)
    ensures var w := Shuffle(a, k).work;
      && !w.kernel.misclosed
      && forall fd :: fd !in Leaked(w.taken) ==>
            && (fd in w.kernel.open <==> fd in TableAt(a, k.open, |a|))
            && (fd in w.kernel.open ==> w.kernel.open[fd] == TableAt(a, k.open, |a|)[fd])
  {
    var start := Work(a, k, [], map[]);
    StartHolds(a, k);
    OuterLoop(a, k.open, 0, start);
    CloseRecorded(a, k.open, RunArcs(start, 0).work);
  }

  lemma StartHolds(a: seq<Arc>, k: Kernel)
    requires InjectiveDests(a) && SourcesOpen(a, k.open) && !k.misclosed
    ensures Inv(a, k.open, 0, Work(a, k, [], map[]))
  {
  }

  // ---------------------------------------------------------------- main results

  /** With no temporary among the dests only a clobbered identity arc loses its file. */
  lemma AssignsUnlessClobbered(a: seq<Arc>, k: Kernel)
    requires InjectiveDests(a) && SourcesOpen(a, k.open) && !k.misclosed && Shuffle(a, k).ok
    ensures var w := Shuffle(a, k).work;
      && (NoneIsDest(a, w.taken) ==> (Assigned(a, k.open, w.kernel.open) <==> !Clobbered(a)))
      && (|w.taken| <= MAX_EXTRA_FDS ==>
            (Assigned(a, k.open, w.kernel.open) <==> NoneIsDest(a, w.taken) && !Clobbered(a)))
  {
    var w := Shuffle(a, k).work;
    if NoneIsDest(a, w.taken) {
      FinalTable(a, k);
      forall p | 0 <= p < |a|
        ensures a[p].dest !in Leaked(w.taken)
      {
        assert IsDest(a, a[p].dest);
      }
      if Clobbered(a) {
        var c :| 0 <= c < |a| && ClobbersIdentity(a, c);
        ClobberedIsClosed(a, c);
        TableEntry(a, k.open, |a|, a[c].dest);
      } else {
        forall p | 0 <= p < |a|
          ensures a[p].dest in w.kernel.open && w.kernel.open[a[p].dest] == k.open[a[p].source]
        {
          DestKeepsFile(a, k.open, p);
        }
      }
    } else if |w.taken| <= MAX_EXTRA_FDS {
      var n :| 0 <= n < |w.taken| && IsDest(a, w.taken[n]);
      CloseAllCloses(RunArcs(Work(a, k, [], map[]), 0).work.kernel, w.taken);
    }
  }

  lemma DestKeepsFile(a: seq<Arc>, t0: map<int, File>, p: nat)
    requires InjectiveDests(a) && SourcesOpen(a, t0) && p < |a| && !Clobbered(a)
    ensures a[p].dest in TableAt(a, t0, |a|) && TableAt(a, t0, |a|)[a[p].dest] == t0[a[p].source]
  {
    var d := a[p].dest;
    TableEntry(a, t0, |a|, d);
    if a[p].Identity() {
      if ClosedBefore(a, |a|, d) {
        var j :| 0 <= j < |a| && ClosesAt(a, j) && a[j].source == d;
        ClosedDestIsClobbered(a, j, p);
      }
      assert !Overwritten(a, |a|, d);
    }
  }

  /** What happens to the descriptors that are nobody's dest, and that nothing is closed twice. */
  lemma ShuffleFrame(a: seq<Arc>, k: Kernel, fd: int)
    requires InjectiveDests(a) && SourcesOpen(a, k.open) && !k.misclosed
    requires Shuffle(a, k).ok && NoneIsDest(a, Shuffle(a, k).work.taken)
    requires !IsDest(a, fd) && fd !in Leaked(Shuffle(a, k).work.taken)
    ensures var w := Shuffle(a, k).work;
      && !w.kernel.misclosed
      && (fd in w.kernel.open <==> fd in k.open && !AsksClose(a, fd, 0))
      && (fd in w.kernel.open ==> w.kernel.open[fd] == k.open[fd])
  {
    FinalTable(a, k);
    TableEntry(a, k.open, |a|, fd);
    UnsharedClose(a, fd);
  }

  // ---------------------------------------------------------------- the two ways to go wrong

  /** dup may hand out a dest that is not open yet; the final close then loses it. */
  lemma TemporaryMayBeALaterDest()
    ensures var a := [Arc(3, 4, false), Arc(4, 5, false)];
      var k := Kernel(map[3 := 30, 4 := 40], [5, 0, 0], false);
      && InjectiveDests(a) && SourcesOpen(a, k.open) && Shuffle(a, k).ok
      && !Clobbered(a) && Shuffle(a, k).work.taken == [5]
      && !Assigned(a, k.open, Shuffle(a, k).work.kernel.open)
  {
    var a := [Arc(3, 4, false), Arc(4, 5, false)];
    var k := Kernel(map[3 := 30, 4 := 40], [5, 0, 0], false);
    var start := Work(a, k, [], map[]);
    var p := PrepareArc(start, 0, 1, -1);
    assert Redirect(start, 0, 1, -1).work.taken == [5];
    assert p.ok && p.work.taken == [5] && p.work.arcs == [Arc(3, 4, false), Arc(5, 5, false)];
    var c := CarryOutArc(p.work, 0);
    assert c.ok && c.work.taken == [5];
    assert PrepareArc(c.work, 1, 2, -1) == Outcome(true, c.work, -1);
    assert RunArcs(c.work, 1) == RunArcs(c.work, 2);
    assert IsDest(a, [5][0]) by { assert a[1].dest == 5; }
    AssignsUnlessClobbered(a, k);
  }

  /** An identity arc that hands its close flag on loses its own dest. */
  lemma IdentityMayBeClobbered()
    ensures var a := [Arc(3, 3, true), Arc(3, 4, false)];
      var k := Kernel(map[3 := 30], [0], false);
      && InjectiveDests(a) && SourcesOpen(a, k.open) && Shuffle(a, k).ok
      && Shuffle(a, k).work.taken == []
      && !Assigned(a, k.open, Shuffle(a, k).work.kernel.open)
  {
    var a := [Arc(3, 3, true), Arc(3, 4, false)];
    var k := Kernel(map[3 := 30], [0], false);
    var start := Work(a, k, [], map[]);
    var p := PrepareArc(start, 0, 1, -1);
    assert Redirect(start, 0, 1, -1) == Outcome(true, start, -1);
    assert p.ok && p.work.taken == [] && p.work.kernel == k && p.work.arcs == [Arc(3, 3, false), Arc(3, 4, true)];
    var c := CarryOutArc(p.work, 0);
    assert PrepareArc(c.work, 1, 2, -1) == Outcome(true, c.work, -1);
    assert CarryOutArc(c.work, 1).ok;
    assert RunArcs(c.work, 1) == RunArcs(CarryOutArc(c.work, 1).work, 2);
    assert ClobbersIdentity(a, 0) by { assert a[1].source == 3 && a[0].close; }
    AssignsUnlessClobbered(a, k);
  }
}

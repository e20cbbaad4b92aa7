/**
 Exactly which calls of the descriptor shuffle are safe, in terms of the arcs and of the descriptors
 that are open before the call: the safe ones end in the assignment whatever the kernel answers, and
 for each of the others there are answers with which the call succeeds and a dest is lost.
 */
module FileDescriptorShuffleSafe {
  import opened FileDescriptorShuffle
  import opened FileDescriptorShuffleProof
  import opened FileDescriptorShuffleExact

  /** Arc `i` overwrites a descriptor that a later arc reads, so that a duplicate is needed. */
  ghost predicate Redirects(a: seq<Arc>, i: nat)
    requires i < |a|
  {
    !a[i].Identity() && SourceIn(a, a[i].dest, i + 1, |a|)
  }

  /** How many of the arcs before `i` need a duplicate. */
  ghost function RedirectsBefore(a: seq<Arc>, i: nat): nat
    requires i <= |a|
  {
    if i == 0 then 0 else RedirectsBefore(a, i - 1) + if Redirects(a, i - 1) then 1 else 0
  }

  /** A duplicate that will be remembered is taken while a later dest is free, so that dup may return it. */
  ghost predicate ExposedAt(a: seq<Arc>, t0: map<int, File>, i: nat, p: nat) {
    && i < p < |a| && Redirects(a, i) && RedirectsBefore(a, i) < MAX_EXTRA_FDS
    && 0 <= a[p].dest && a[p].dest !in t0
  }

  ghost predicate Exposed(a: seq<Arc>, t0: map<int, File>) {
    exists i: nat, p: nat :: ExposedAt(a, t0, i, p)
  }

  /** What a caller can check before the call. */
  ghost predicate DestsSafe(a: seq<Arc>, t0: map<int, File>) {
    !Exposed(a, t0) && !Clobbered(a)
  }

  // ---------------------------------------------------------------- safe calls

  lemma SafeDestIsOpen(a: seq<Arc>, t0: map<int, File>, i: nat, p: nat)
    requires i <= |a| && p < |a| && SourcesOpen(a, t0) && InjectiveDests(a) && !Clobbered(a)
    requires p < i || a[p].dest in t0
    ensures a[p].dest in TableAt(a, t0, i)
  {
    TableEntry(a, t0, i, a[p].dest);
    if ClosedBefore(a, i, a[p].dest) {
      var j :| 0 <= j < i && ClosesAt(a, j) && a[j].source == a[p].dest;
      ClosedDestIsClobbered(a, j, p);
    }
    assert a[p].Identity() ==> a[p].dest in t0;
  }

  /** While a remembered duplicate is taken every dest is open, negative numbers apart. */
  lemma SafeRedirect(a: seq<Arc>, t0: map<int, File>, i: nat, j: nat, w: Work, temp: int)
    requires i < j < |a| && SourcesOpen(a, t0) && InjectiveDests(a) && DestsSafe(a, t0)
    requires InnerInv(a, t0, i, j, w, temp) && RedirectsBefore(a, i) < MAX_EXTRA_FDS && NoneIsDest(a, w.taken)
    ensures NoneIsDest(a, Redirect(w, i, j, temp).work.taken)
  {
    Comparisons(a, t0, i, j, w, temp);
    if Redirect(w, i, j, temp).work.taken != w.taken {
      assert Redirects(a, i);
      forall p | 0 <= p < |a| && 0 <= a[p].dest ensures a[p].dest in w.kernel.open {
        assert !ExposedAt(a, t0, i, p);
        assert a[i].dest in t0;
        SafeDestIsOpen(a, t0, i, p);
        assert IsDest(a, a[p].dest);
      }
    }
  }

  lemma {:induction false} SafeInner(a: seq<Arc>, t0: map<int, File>, i: nat, j: nat, w: Work, temp: int)
    requires i < j <= |a| && SourcesOpen(a, t0) && InjectiveDests(a) && DestsSafe(a, t0)
    requires InnerInv(a, t0, i, j, w, temp) && RedirectsBefore(a, i) < MAX_EXTRA_FDS && NoneIsDest(a, w.taken)
    ensures NoneIsDest(a, PrepareArc(w, i, j, temp).work.taken)
    decreases |a| - j
  {
    assert |w.arcs| == |a|;
    hide InnerInv, DestsSafe, Redirect, SourcesOpen, InjectiveDests, NoneIsDest, RedirectsBefore;
    if j < |a| {
      var o := Redirect(w, i, j, temp);
      SafeRedirect(a, t0, i, j, w, temp);
      if o.ok {
        InnerStep(a, t0, i, j, w, temp);
        SafeInner(a, t0, i, j + 1, o.work.(arcs := PassClose(o.work.arcs, i, j)), o.temp);
      }
    }
  }

  /** The inner loop takes at most one temporary, and says which in `temp`. */
  lemma {:induction false} InnerCounts(w: Work, i: nat, j: nat, temp: int)
    requires i < j <= |w.arcs| && PrepareArc(w, i, j, temp).ok
    ensures var p := PrepareArc(w, i, j, temp);
      && |p.work.taken| == |w.taken| + (if temp == -1 && p.temp != -1 then 1 else 0)
      && (temp != -1 ==> p.temp == temp)
    decreases |w.arcs| - j
  {
    if j < |w.arcs| {
      var o := Redirect(w, i, j, temp);
      InnerCounts(o.work.(arcs := PassClose(o.work.arcs, i, j)), i, j + 1, o.temp);
    }
  }

  lemma SafeArc(a: seq<Arc>, t0: map<int, File>, i: nat, w: Work)
    requires i < |a| && SourcesOpen(a, t0) && InjectiveDests(a) && DestsSafe(a, t0) && Inv(a, t0, i, w)
    requires |w.taken| == RedirectsBefore(a, i) < MAX_EXTRA_FDS && NoneIsDest(a, w.taken)
    ensures var p := PrepareArc(w, i, i + 1, -1);
      NoneIsDest(a, p.work.taken) && (p.ok ==> |p.work.taken| == RedirectsBefore(a, i + 1))
  {
    EnterInner(a, t0, i, w);
    SafeInner(a, t0, i, i + 1, w, -1);
    var p := PrepareArc(w, i, i + 1, -1);
    if p.ok {
      InnerLoop(a, t0, i, i + 1, w, -1);
      InnerCounts(w, i, i + 1, -1);
    }
  }

  lemma RecordedPrefix(a: seq<Arc>, some: seq<int>, all: seq<int>)
    requires some <= all && NoneIsDest(a, some) && |some| >= MAX_EXTRA_FDS
    ensures NoneIsDest(a, Recorded(all))
  {
    assert forall n :: 0 <= n < |Recorded(all)| ==> Recorded(all)[n] == some[n];
  }

  lemma {:induction false} SafeOuter(a: seq<Arc>, t0: map<int, File>, i: nat, w: Work)
    requires i <= |a| && SourcesOpen(a, t0) && InjectiveDests(a) && DestsSafe(a, t0) && Inv(a, t0, i, w)
    requires |w.taken| == RedirectsBefore(a, i) && NoneIsDest(a, w.taken)
    ensures NoneIsDest(a, Recorded(RunArcs(w, i).work.taken))
    decreases |a| - i
  {
    if |w.taken| >= MAX_EXTRA_FDS {
      RunGrows(w, i);
      RecordedPrefix(a, w.taken, RunArcs(w, i).work.taken);
    } else if i < |a| {
      var p := PrepareArc(w, i, i + 1, -1);
      SafeArc(a, t0, i, w);
      hide PrepareArc, DestsSafe, RedirectsBefore;
      if p.ok && CarryOutArc(p.work, i).ok {
        ArcStep(a, t0, i, w);
        SafeOuter(a, t0, i + 1, CarryOutArc(p.work, i).work);
      } else {
        RecordedOf(p.work.taken);
        NoneIsDestPrefix(a, Recorded(p.work.taken), p.work.taken);
      }
    }
  }

  /** A safe call that succeeds is the assignment, whatever the kernel answers, and closes nothing that is not open. */
  lemma SafeCallAssigns(a: seq<Arc>, k: Kernel)
    requires InjectiveDests(a) && SourcesOpen(a, k.open) && !k.misclosed && DestsSafe(a, k.open) && Shuffle(a, k).ok
    ensures Assigned(a, k.open, Shuffle(a, k).work.kernel.open) && !Shuffle(a, k).work.kernel.misclosed
  {
    StartHolds(a, k);
    SafeOuter(a, k.open, 0, Work(a, k, [], map[]));
    ShuffleAssigns(a, k);
  }

  // ---------------------------------------------------------------- which answers a run uses

  function WithAnswers(w: Work, answers: seq<int>): Work {
    w.(kernel := w.kernel.(answers := answers))
  }

  /** An arc from `j` on reads what arc `i` is going to overwrite. */
  ghost predicate Needs(w: Work, i: nat, j: nat)
    requires i < j <= |w.arcs|
  {
    !w.arcs[i].Identity() && exists q :: j <= q < |w.arcs| && w.arcs[q].source == w.arcs[i].dest
  }

  /** Further answers behind those that a loop uses change nothing. */
  lemma {:induction false} PrepareExtends(w: Work, i: nat, j: nat, temp: int, rest: seq<int>)
    requires i < j <= |w.arcs| && PrepareArc(w, i, j, temp).ok
    ensures var p := PrepareArc(w, i, j, temp);
      PrepareArc(WithAnswers(w, w.kernel.answers + rest), i, j, temp) ==
      Outcome(true, WithAnswers(p.work, p.work.kernel.answers + rest), p.temp)
    decreases |w.arcs| - j
  {
    if j < |w.arcs| {
      var o := Redirect(w, i, j, temp);
      var o' := Redirect(WithAnswers(w, w.kernel.answers + rest), i, j, temp);
      assert w.kernel.answers != [] ==> (w.kernel.answers + rest)[1..] == w.kernel.answers[1..] + rest;
      assert o'.ok && o'.temp == o.temp && o'.work == WithAnswers(o.work, o.work.kernel.answers + rest);
      PrepareExtends(o.work.(arcs := PassClose(o.work.arcs, i, j)), i, j + 1, o.temp, rest);
    }
  }

  /** A loop that has its temporary, or needs none, asks for nothing. */
  lemma {:induction false} PrepareAsksNothing(w: Work, i: nat, j: nat, temp: int)
    requires i < j <= |w.arcs| && (temp != -1 || !Needs(w, i, j))
    ensures var p := PrepareArc(w, i, j, temp); p.ok && p.work.kernel == w.kernel && p.work.taken == w.taken
    decreases |w.arcs| - j
  {
    if j < |w.arcs| {
      var o := Redirect(w, i, j, temp);
      var next := o.work.(arcs := PassClose(o.work.arcs, i, j));
      assert temp == -1 ==> !Needs(next, i, j + 1) by {
        assert forall q :: j < q < |w.arcs| ==> next.arcs[q] == w.arcs[q];
      }
      PrepareAsksNothing(next, i, j + 1, o.temp);
    }
  }

  /** A loop that needs a temporary takes the first answer. */
  lemma {:induction false} PrepareTakes(w: Work, i: nat, j: nat, x: int, rest: seq<int>)
    requires i < j <= |w.arcs| && Needs(w, i, j) && w.arcs[i].dest in w.kernel.open
    requires w.kernel.answers == [x] + rest && 0 <= x && x !in w.kernel.open
    ensures var p := PrepareArc(w, i, j, -1);
      && p.ok && p.work.taken == w.taken + [x]
      && p.work.kernel == w.kernel.(open := w.kernel.open[x := w.kernel.open[w.arcs[i].dest]], answers := rest)
    decreases |w.arcs| - j
  {
    var o := Redirect(w, i, j, -1);
    var next := o.work.(arcs := PassClose(o.work.arcs, i, j));
    if w.arcs[j].source == w.arcs[i].dest {
      PrepareAsksNothing(next, i, j + 1, x);
    } else {
      assert Needs(next, i, j + 1) by {
        var q :| j <= q < |w.arcs| && w.arcs[q].source == w.arcs[i].dest;
        assert next.arcs[q] == w.arcs[q];
      }
      PrepareTakes(next, i, j + 1, x, rest);
    }
  }

  lemma NeededIsOpen(w: Work, i: nat)
    requires i < |w.arcs| && SourcesAreOpen(w, i) && Needs(w, i, i + 1)
    ensures w.arcs[i].dest in w.kernel.open
  {
  }

  /** The answers that one arc uses: a temporary if it needs one, and a go-ahead for the move. */
  ghost function ArcAnswers(w: Work, i: nat, x: int): seq<int>
    requires i < |w.arcs|
  {
    (if Needs(w, i, i + 1) then [x] else []) + (if w.arcs[i].Identity() then [] else [0])
  }

  function MoveAnswers(w: Work, i: nat): seq<int>
    requires i < |w.arcs|
  {
    if w.arcs[i].Identity() then [] else [0]
  }

  /** The inner loop uses the answer for the temporary and leaves the go-ahead. */
  lemma ArcPrepares(w: Work, i: nat, x: int)
    requires i < |w.arcs| && SourcesAreOpen(w, i) && 0 <= x && x !in w.kernel.open
    ensures var v := WithAnswers(w, ArcAnswers(w, i, x));
      var p := PrepareArc(v, i, i + 1, -1);
      && p.ok && p.work.kernel.answers == MoveAnswers(w, i)
      && p.work.taken == w.taken + (if Needs(w, i, i + 1) then [x] else [])
      && (forall fd :: fd in p.work.kernel.open ==> fd in w.kernel.open || (Needs(w, i, i + 1) && fd == x))
  {
    var v := WithAnswers(w, ArcAnswers(w, i, x));
    hide PrepareArc;
    if Needs(w, i, i + 1) {
      NeededIsOpen(w, i);
      PrepareTakes(v, i, i + 1, x, MoveAnswers(w, i));
    } else {
      assert v.kernel.answers == MoveAnswers(w, i);
      PrepareAsksNothing(v, i, i + 1, -1);
    }
  }

  /** The whole arc uses its answers up. */
  lemma ArcUses(w: Work, i: nat, x: int)
    requires i < |w.arcs| && SourcesAreOpen(w, i) && 0 <= x && x !in w.kernel.open
    ensures var v := WithAnswers(w, ArcAnswers(w, i, x));
      var p := PrepareArc(v, i, i + 1, -1);
      var o := CarryOutArc(p.work, i);
      && p.ok && o.ok && o.work.kernel.answers == [] && o.work.taken == p.work.taken
      && p.work.arcs[i].Identity() == w.arcs[i].Identity()
      && (forall fd :: fd in o.work.kernel.open ==> fd in p.work.kernel.open || fd == w.arcs[i].dest)
  {
    var v := WithAnswers(w, ArcAnswers(w, i, x));
    ArcPrepares(w, i, x);
    assert SourcesAreOpen(v, i);
    Prepared(v, i);
    assert v.arcs[i].source in v.kernel.open;
    hide PrepareArc, SourcesAreOpen;
    var p := PrepareArc(v, i, i + 1, -1);
    assert p.work.arcs[i].source == w.arcs[i].source && p.work.arcs[i].dest == w.arcs[i].dest;
    assert p.work.arcs[i].source in p.work.kernel.open;
  }

  /** The arc with its answers in front of others. */
  lemma ArcSucceeds(w: Work, i: nat, x: int, rest: seq<int>)
    requires i < |w.arcs| && SourcesAreOpen(w, i) && 0 <= x && x !in w.kernel.open
    ensures var p := PrepareArc(WithAnswers(w, ArcAnswers(w, i, x) + rest), i, i + 1, -1);
      p.ok && CarryOutArc(p.work, i).ok && CarryOutArc(p.work, i).work == WithAnswers(ArcResult(w, i, x), rest)
  {
    var v := WithAnswers(w, ArcAnswers(w, i, x));
    ArcPrepares(w, i, x);
    ArcUses(w, i, x);
    PrepareExtends(v, i, i + 1, -1, rest);
    hide PrepareArc, SourcesAreOpen, ArcAnswers;
    assert WithAnswers(v, v.kernel.answers + rest) == WithAnswers(w, ArcAnswers(w, i, x) + rest);
    var p := PrepareArc(v, i, i + 1, -1);
    assert !p.work.arcs[i].Identity() ==> ([0] + rest)[1..] == rest;
  }

  /** What the arc leaves, without answers. */
  ghost function ArcResult(w: Work, i: nat, x: int): Work
    requires i < |w.arcs|
  {
    CarryOutArc(PrepareArc(WithAnswers(w, ArcAnswers(w, i, x)), i, i + 1, -1).work, i).work
  }

  lemma ArcResultIs(w: Work, i: nat, x: int)
    requires i < |w.arcs| && SourcesAreOpen(w, i) && 0 <= x && x !in w.kernel.open
    ensures var next := ArcResult(w, i, x);
      && |next.arcs| == |w.arcs| && SourcesAreOpen(next, i + 1)
      && next.taken == w.taken + (if Needs(w, i, i + 1) then [x] else [])
      && (forall fd :: fd in next.kernel.open ==> fd in w.kernel.open || fd == w.arcs[i].dest || fd == x)
      && (forall q :: 0 <= q < |w.arcs| ==> next.arcs[q].dest == w.arcs[q].dest)
  {
    var v := WithAnswers(w, ArcAnswers(w, i, x));
    assert SourcesAreOpen(v, i);
    ArcPrepares(w, i, x);
    ArcUses(w, i, x);
    hide PrepareArc, CarryOutArc, SourcesAreOpen, ArcAnswers;
    SourcesStayOpen(v, i);
    DestsStay(v, i);
  }

  lemma SourcesStayOpen(v: Work, i: nat)
    requires i < |v.arcs| && SourcesAreOpen(v, i)
    requires var p := PrepareArc(v, i, i + 1, -1); p.ok && CarryOutArc(p.work, i).ok
    ensures SourcesAreOpen(CarryOutArc(PrepareArc(v, i, i + 1, -1).work, i).work, i + 1)
  {
    ArcIsDone(v, i);
    var p := PrepareArc(v, i, i + 1, -1);
    var w := CarryOutArc(p.work, i).work;
    hide PrepareArc, CarryOutArc, ArcDone;
    forall j | i < j < |w.arcs| ensures w.arcs[j].source in w.kernel.open {
      LaterSource(v, i, p.work, p.temp, w, j);
    }
  }

  lemma DestsStay(v: Work, i: nat)
    requires i < |v.arcs| && PrepareArc(v, i, i + 1, -1).ok
    ensures forall q :: 0 <= q < |v.arcs| ==> CarryOutArc(PrepareArc(v, i, i + 1, -1).work, i).work.arcs[q].dest == v.arcs[q].dest
  {
    PrepareKeepsDests(v, i, i + 1, -1);
  }

  lemma {:induction false} PrepareKeepsDests(w: Work, i: nat, j: nat, temp: int)
    requires i < j <= |w.arcs|
    ensures forall q :: 0 <= q < |w.arcs| ==> PrepareArc(w, i, j, temp).work.arcs[q].dest == w.arcs[q].dest
    decreases |w.arcs| - j
  {
    if j < |w.arcs| {
      var o := Redirect(w, i, j, temp);
      if o.ok {
        PrepareKeepsDests(o.work.(arcs := PassClose(o.work.arcs, i, j)), i, j + 1, o.temp);
      }
    }
  }

  // ---------------------------------------------------------------- runs that succeed

  /** Every descriptor in use or to be used is below `b`. */
  ghost predicate Below(w: Work, b: int) {
    && 0 <= b && (forall fd :: fd in w.kernel.open ==> fd < b)
    && (forall q :: 0 <= q < |w.arcs| ==> w.arcs[q].dest < b)
  }

  lemma RunGoesOn(w: Work, i: nat, x: int, rest: seq<int>)
    requires i < |w.arcs| && SourcesAreOpen(w, i) && 0 <= x && x !in w.kernel.open
    ensures |ArcResult(w, i, x).arcs| == |w.arcs|
    ensures RunArcs(WithAnswers(w, ArcAnswers(w, i, x) + rest), i) == RunArcs(WithAnswers(ArcResult(w, i, x), rest), i + 1)
  {
    ArcSucceeds(w, i, x, rest);
    ArcResultIs(w, i, x);
    hide PrepareArc, CarryOutArc, ArcResult, ArcAnswers, SourcesAreOpen;
  }

  lemma TakenGrows(x: seq<int>, y: seq<int>, z: seq<int>, b: int)
    requires (y == x + [b] || y == x) && y <= z && forall n :: |y| <= n < |z| ==> b + 1 <= z[n]
    ensures x <= z && forall n :: |x| <= n < |z| ==> b <= z[n]
  {
    assert |y| > |x| ==> z[|x|] == b;
  }

  /** From any point on there are answers with which the run succeeds and takes only descriptors from `b` on. */
  lemma {:induction false} FreshRun(w: Work, i: nat, b: int) returns (answers: seq<int>)
    requires i <= |w.arcs| && SourcesAreOpen(w, i) && Below(w, b)
    ensures var r := RunArcs(WithAnswers(w, answers), i);
      r.ok && w.taken <= r.work.taken && forall n :: |w.taken| <= n < |r.work.taken| ==> b <= r.work.taken[n]
    decreases |w.arcs| - i
  {
    answers := [];
    if i < |w.arcs| {
      assert b !in w.kernel.open && Below(w, b + 1);
      hide *;
      var next := ArcResult(w, i, b);
      ArcResultIs(w, i, b);
      BelowAfter(w, next, i, b, b + 1);
      var rest := FreshRun(next, i + 1, b + 1);
      RunGoesOn(w, i, b, rest);
      answers := ArcAnswers(w, i, b) + rest;
      TakenGrows(w.taken, next.taken, RunArcs(WithAnswers(next, rest), i + 1).work.taken, b);
    }
  }

  /** The tests of the loops, in terms of the arcs as given. */
  lemma NeedsIs(a: seq<Arc>, t0: map<int, File>, i: nat, w: Work)
    requires i < |a| && SourcesOpen(a, t0) && InjectiveDests(a) && Inv(a, t0, i, w)
    ensures |w.arcs| == |a| && w.arcs[i].dest == a[i].dest
    ensures Needs(w, i, i + 1) <==> Redirects(a, i)
  {
    assert IsDest(a, a[i].dest);
    assert !Overwritten(a, i, a[i].dest);
    forall q | i <= q < |a| ensures w.arcs[q].source == a[i].dest <==> a[q].source == a[i].dest {
      assert w.arcs[q] == ArcAt(a, w.moved, i, q);
      if a[q].source in w.moved {
        assert w.moved[a[q].source] in w.taken;
        assert Overwritten(a, i, a[q].source);
      }
    }
    if Redirects(a, i) {
      var q :| 0 <= q < |a| && i + 1 <= q && a[q].source == a[i].dest;
      assert w.arcs[q].source == w.arcs[i].dest;
    }
  }

  /** A run that has taken no dest so far, with everything in use below `b`. */
  ghost predicate Ready(a: seq<Arc>, t0: map<int, File>, i: nat, w: Work, b: int)
    requires i <= |a| && SourcesOpen(a, t0)
  {
    && Inv(a, t0, i, w) && NoneIsDest(a, w.taken) && |w.taken| == RedirectsBefore(a, i)
    && SourcesAreOpen(w, i) && Below(w, b) && (forall q :: 0 <= q < |a| ==> a[q].dest < b)
  }

  /** One arc with a temporary that is no dest. */
  lemma FreshArc(a: seq<Arc>, t0: map<int, File>, i: nat, w: Work, b: int)
    requires i < |a| && SourcesOpen(a, t0) && InjectiveDests(a) && Ready(a, t0, i, w, b)
    ensures Ready(a, t0, i + 1, ArcResult(w, i, b), b + 1)
  {
    var next := ArcResult(w, i, b);
    ReadyHas(a, t0, i, w, b);
    ReadyNeeds(a, t0, i, w, b);
    ArcResultIs(w, i, b);
    assert NoneIsDest(a, next.taken) && |next.taken| == RedirectsBefore(a, i + 1);
    assert Below(w, b + 1);
    BelowAfter(w, next, i, b, b + 1);
    hide PrepareArc, CarryOutArc, Inv, SourcesAreOpen, Needs, Redirects, ArcAnswers, RedirectsBefore, NoneIsDest, Below;
    FreshInv(a, t0, i, w, b);
  }

  lemma FreshInv(a: seq<Arc>, t0: map<int, File>, i: nat, w: Work, b: int)
    requires i < |a| && SourcesOpen(a, t0) && InjectiveDests(a) && Inv(a, t0, i, w) && |w.arcs| == |a|
    requires SourcesAreOpen(w, i) && 0 <= b && b !in w.kernel.open && NoneIsDest(a, ArcResult(w, i, b).taken)
    ensures Inv(a, t0, i + 1, ArcResult(w, i, b))
  {
    var v := WithAnswers(w, ArcAnswers(w, i, b));
    assert Inv(a, t0, i, v);
    ArcUses(w, i, b);
    hide PrepareArc, CarryOutArc, Inv, SourcesAreOpen, Needs, ArcAnswers, NoneIsDest;
    ArcStep(a, t0, i, v);
  }

  /** The run when the duplicate for arc `i` is a given free descriptor. */
  lemma BadArc(a: seq<Arc>, t0: map<int, File>, i: nat, w: Work, bad: int, b: int) returns (answers: seq<int>)
    requires i < |a| && SourcesOpen(a, t0) && InjectiveDests(a) && Ready(a, t0, i, w, b) && Redirects(a, i)
    requires 0 <= bad < b && bad !in w.kernel.open
    ensures |w.arcs| == |a|
    ensures var r := RunArcs(WithAnswers(w, answers), i);
      r.ok && |r.work.taken| > |w.taken| && r.work.taken[|w.taken|] == bad
  {
    hide *;
    ReadyHas(a, t0, i, w, b);
    ReadyNeeds(a, t0, i, w, b);
    var next := ArcResult(w, i, bad);
    ArcResultIs(w, i, bad);
    BelowAfter(w, next, i, bad, b);
    var rest := FreshRun(next, i + 1, b);
    RunGoesOn(w, i, bad, rest);
    answers := ArcAnswers(w, i, bad) + rest;
    assert next.taken == w.taken + [bad];
    assert next.taken[|w.taken|] == bad;
  }

  lemma ReadyNeeds(a: seq<Arc>, t0: map<int, File>, i: nat, w: Work, b: int)
    requires i < |a| && SourcesOpen(a, t0) && InjectiveDests(a) && Ready(a, t0, i, w, b)
    ensures |w.arcs| == |a| && (Needs(w, i, i + 1) <==> Redirects(a, i))
  {
    hide Inv, RedirectsBefore, SourcesAreOpen, NoneIsDest, Below, Needs, Redirects;
    NeedsIs(a, t0, i, w);
  }

  lemma BelowAfter(w: Work, next: Work, i: nat, x: int, b: int)
    requires Below(w, b) && x < b && i < |w.arcs| == |next.arcs|
    requires forall fd :: fd in next.kernel.open ==> fd in w.kernel.open || fd == w.arcs[i].dest || fd == x
    requires forall q :: 0 <= q < |w.arcs| ==> next.arcs[q].dest == w.arcs[q].dest
    ensures Below(next, b)
  {
  }

  /** Answers with which the run succeeds and the duplicate for arc `target` is `bad`. */
  lemma {:induction false} BadRun(a: seq<Arc>, t0: map<int, File>, i: nat, w: Work, target: nat, bad: int, b: int)
    returns (answers: seq<int>)
    requires i <= target < |a| && SourcesOpen(a, t0) && InjectiveDests(a) && Ready(a, t0, i, w, b) && Redirects(a, target)
    requires 0 <= bad < b && bad !in w.kernel.open && forall q :: i <= q <= target ==> a[q].dest != bad
    ensures |w.arcs| == |a|
    ensures var r := RunArcs(WithAnswers(w, answers), i);
      r.ok && |r.work.taken| > RedirectsBefore(a, target) && r.work.taken[RedirectsBefore(a, target)] == bad
    decreases target - i
  {
    hide *;
    ReadyHas(a, t0, i, w, b);
    if i == target {
      answers := BadArc(a, t0, i, w, bad, b);
    } else {
      FreshArc(a, t0, i, w, b);
      ArcResultIs(w, i, b);
      var rest := BadRun(a, t0, i + 1, ArcResult(w, i, b), target, bad, b + 1);
      RunGoesOn(w, i, b, rest);
      answers := ArcAnswers(w, i, b) + rest;
    }
  }

  lemma ReadyHas(a: seq<Arc>, t0: map<int, File>, i: nat, w: Work, b: int)
    requires i <= |a| && SourcesOpen(a, t0) && Ready(a, t0, i, w, b)
    ensures |w.arcs| == |a| && SourcesAreOpen(w, i) && 0 <= b && b !in w.kernel.open && |w.taken| == RedirectsBefore(a, i)
    ensures Below(w, b)
    ensures forall q :: i <= q < |a| ==> w.arcs[q].dest == a[q].dest
  {
    hide RedirectsBefore;
  }

  lemma {:induction false} Bound(fds: set<int>) returns (b: int)
    ensures 0 <= b && forall fd :: fd in fds ==> fd < b
    decreases |fds|
  {
    b := 0;
    if fds != {} {
      assert (forall x :: x !in fds) ==> fds == {};
      var x :| x in fds;
      b := Bound(fds - {x});
      b := if x < b then b else x + 1;
      assert forall fd :: fd in fds ==> fd == x || fd in fds - {x};
    }
  }

  lemma BoundAll(a: seq<Arc>, k: Kernel) returns (b: int)
    ensures Below(Work(a, k, [], map[]), b)
  {
    var dests := set q | 0 <= q < |a| :: a[q].dest;
    b := Bound(k.open.Keys + dests);
    forall q | 0 <= q < |a| ensures a[q].dest < b {
      assert a[q].dest in dests;
    }
  }

  // ---------------------------------------------------------------- unsafe calls

  function Start(a: seq<Arc>, t0: map<int, File>, answers: seq<int>): Work {
    Work(a, Kernel(t0, answers, false), [], map[])
  }

  lemma ExposedIsLost(a: seq<Arc>, t0: map<int, File>, i: nat, p: nat) returns (answers: seq<int>)
    requires InjectiveDests(a) && SourcesOpen(a, t0) && ExposedAt(a, t0, i, p)
    ensures var o := Shuffle(a, Kernel(t0, answers, false)); o.ok && !Assigned(a, t0, o.work.kernel.open)
  {
    var k := Kernel(t0, [], false);
    var b := BoundAll(a, k);
    StartHolds(a, k);
    assert SourcesAreOpen(Start(a, t0, []), 0);
    assert Ready(a, t0, 0, Start(a, t0, []), b);
    hide Ready, Inv, SourcesAreOpen, Redirects, RunArcs, Assigned;
    answers := BadRun(a, t0, 0, Start(a, t0, []), i, a[p].dest, b);
    var w := RunArcs(Start(a, t0, answers), 0).work;
    assert WithAnswers(Start(a, t0, []), answers) == Start(a, t0, answers);
    assert IsDest(a, a[p].dest);
    assert !NoneIsDest(a, Recorded(w.taken)) by {
      assert Recorded(w.taken)[RedirectsBefore(a, i)] == a[p].dest;
    }
    RecordedDestIsLost(a, Kernel(t0, answers, false));
  }

  lemma ClobberedIsLost(a: seq<Arc>, t0: map<int, File>) returns (answers: seq<int>)
    requires InjectiveDests(a) && SourcesOpen(a, t0) && Clobbered(a)
    ensures var o := Shuffle(a, Kernel(t0, answers, false)); o.ok && !Assigned(a, t0, o.work.kernel.open)
  {
    var b := BoundAll(a, Kernel(t0, [], false));
    assert SourcesAreOpen(Start(a, t0, []), 0);
    hide SourcesAreOpen, RunArcs, Assigned, Clobbered;
    answers := FreshRun(Start(a, t0, []), 0, b);
    assert WithAnswers(Start(a, t0, []), answers) == Start(a, t0, answers);
    var w := RunArcs(Start(a, t0, answers), 0).work;
    assert NoneIsDest(a, w.taken);
    AssignsUnlessClobbered(a, Kernel(t0, answers, false));
  }

  /** The outcome with these answers is the assignment, if the call succeeds. */
  ghost predicate AssignsWith(a: seq<Arc>, t0: map<int, File>, answers: seq<int>)
    requires SourcesOpen(a, t0)
  {
    var o := Shuffle(a, Kernel(t0, answers, false));
    o.ok ==> Assigned(a, t0, o.work.kernel.open)
  }

  /** A call is the simultaneous assignment whatever the kernel answers if and only if it is safe. */
  lemma SafeExactly(a: seq<Arc>, t0: map<int, File>)
    requires InjectiveDests(a) && SourcesOpen(a, t0)
    ensures DestsSafe(a, t0) <==> forall answers :: AssignsWith(a, t0, answers)
  {
    hide Shuffle, Assigned, Clobbered, ExposedAt;
    if DestsSafe(a, t0) {
      forall answers ensures AssignsWith(a, t0, answers) {
        var k := Kernel(t0, answers, false);
        if Shuffle(a, k).ok {
          SafeCallAssigns(a, k);
        }
      }
    } else if Exposed(a, t0) {
      var i: nat, p: nat :| ExposedAt(a, t0, i, p);
      var answers := ExposedIsLost(a, t0, i, p);
      assert !AssignsWith(a, t0, answers);
    } else {
      var answers := ClobberedIsLost(a, t0);
      assert !AssignsWith(a, t0, answers);
    }
  }

  // ---------------------------------------------------------------- the public entry point

  /** Runs the shuffle on a copy of the arcs. */
  method PerformInjectiveMultimap(arcs: seq<Arc>, table: DescriptorTable) returns (ok: bool)
    requires InjectiveDests(arcs) && SourcesOpen(arcs, table.state.open) && !table.state.misclosed
    modifies table
    ensures ok && DestsSafe(arcs, old(table.state.open)) ==>
              Assigned(arcs, old(table.state.open), table.state.open) && !table.state.misclosed
    ensures ok == Shuffle(arcs, old(table.state)).ok && table.state == Shuffle(arcs, old(table.state)).work.kernel
  {
    var m := new Arc[|arcs|](n requires 0 <= n < |arcs| => arcs[n]);
    assert m[..] == arcs;
    ghost var k := table.state;
    ok := PerformInjectiveMultimapDestructive(m, table);
    if ok && DestsSafe(arcs, k.open) {
      SafeCallAssigns(arcs, k);
    }
  }
}

/**
 What the descriptor shuffle does whatever descriptors dup hands out, and exactly which calls are
 safe: a condition on the arcs and on the descriptors open before the call, which a caller can check.
 */
module FileDescriptorShuffleExact {
  import opened FileDescriptorShuffle
  import opened FileDescriptorShuffleProof

  // ---------------------------------------------------------------- one inner loop

  /** How the inner loop of arc `i` has changed the arcs when it is at arc `j`. */
  ghost predicate Rewritten(before: seq<Arc>, i: nat, j: nat, after: seq<Arc>, temp: int)
    requires i < j <= |before|
  {
    var arc := before[i];
    && |after| == |before|
    && (forall q :: j <= q < |before| ==> after[q] == before[q])
    && after[i].source == arc.source && after[i].dest == arc.dest
    && (after[i].close ==>
          arc.close && forall q :: i < q < j ==> after[q].source != arc.source && before[q].dest != arc.source)
    && (forall q :: i < q < j ==> RewrittenAt(before, i, q, after[q], temp))
  }

  /** What has become of arc `q`: sent to the temporary, or with its own source and perhaps the close flag of arc `i`. */
  ghost predicate RewrittenAt(before: seq<Arc>, i: nat, q: nat, now: Arc, temp: int)
    requires i < q < |before|
  {
    var arc := before[i];
    && now.dest == before[q].dest
    && if !arc.Identity() && before[q].source == arc.dest then
         temp != -1 && now.source == temp && !now.close
       else
         && now.source == before[q].source
         && (before[q].close ==> now.close)
         && (now.close && !before[q].close ==>
               arc.close && before[q].source == arc.source && forall r :: i < r <= q ==> before[r].dest != arc.source)
  }

  /** The inner loop of arc `i`, entered with `v`, is at arc `j` with `w`. */
  ghost predicate Inner(v: Work, i: nat, j: nat, w: Work, temp: int) {
    && i < j <= |v.arcs| && Rewritten(v.arcs, i, j, w.arcs, temp)
    && w.kernel.misclosed == v.kernel.misclosed
    && if temp == -1 then w.taken == v.taken && w.kernel.open == v.kernel.open
       else
         && w.taken == v.taken + [temp] && 0 <= temp && temp !in v.kernel.open && v.arcs[i].dest in v.kernel.open
         && w.kernel.open == v.kernel.open[temp := v.kernel.open[v.arcs[i].dest]]
  }

  ghost predicate SourcesAreOpen(w: Work, i: nat) {
    forall j :: i <= j < |w.arcs| ==> w.arcs[j].source in w.kernel.open
  }

  lemma RedirectAt(v: Work, i: nat, j: nat, w: Work, temp: int)
    requires Inner(v, i, j, w, temp) && j < |v.arcs| && SourcesAreOpen(v, i) && Redirect(w, i, j, temp).ok
    ensures var o := Redirect(w, i, j, temp);
      && |o.work.arcs| == |v.arcs| && o.work.arcs[i] == w.arcs[i]
      && (forall q :: 0 <= q < |v.arcs| && q != j ==> o.work.arcs[q] == w.arcs[q])
      && o.work.arcs[j].dest == v.arcs[j].dest
      && (if !v.arcs[i].Identity() && v.arcs[j].source == v.arcs[i].dest
          then o.temp != -1 && o.work.arcs[j].source == o.temp && !o.work.arcs[j].close && o.temp != v.arcs[i].source
          else o.work.arcs[j] == v.arcs[j] && o.temp == temp)
      && (temp != -1 ==> o.temp == temp)
  {
  }

  lemma InnerGoes(v: Work, i: nat, j: nat, w: Work, temp: int)
    requires Inner(v, i, j, w, temp) && j < |v.arcs| && SourcesAreOpen(v, i) && Redirect(w, i, j, temp).ok
    ensures var o := Redirect(w, i, j, temp);
      Inner(v, i, j + 1, o.work.(arcs := PassClose(o.work.arcs, i, j)), o.temp)
  {
    var o := Redirect(w, i, j, temp);
    RedirectAt(v, i, j, w, temp);
    var r := PassClose(o.work.arcs, i, j);
    assert forall q :: 0 <= q < |r| && q != i && q != j ==> r[q] == w.arcs[q];
    assert RewrittenAt(v.arcs, i, j, r[j], o.temp);
    forall q | i < q < j ensures RewrittenAt(v.arcs, i, q, r[q], o.temp) {
      assert RewrittenAt(v.arcs, i, q, w.arcs[q], temp);
    }
  }

  lemma {:induction false} InnerEnds(v: Work, i: nat, j: nat, w: Work, temp: int)
    requires Inner(v, i, j, w, temp) && SourcesAreOpen(v, i) && PrepareArc(w, i, j, temp).ok
    ensures var p := PrepareArc(w, i, j, temp); Inner(v, i, |v.arcs|, p.work, p.temp)
    decreases |v.arcs| - j
  {
    if j < |v.arcs| {
      var o := Redirect(w, i, j, temp);
      InnerGoes(v, i, j, w, temp);
      hide Inner, SourcesAreOpen, Redirect;
      InnerEnds(v, i, j + 1, o.work.(arcs := PassClose(o.work.arcs, i, j)), o.temp);
    }
  }

  lemma Prepared(w: Work, i: nat)
    requires i < |w.arcs| && SourcesAreOpen(w, i) && PrepareArc(w, i, i + 1, -1).ok
    ensures var p := PrepareArc(w, i, i + 1, -1); Inner(w, i, |w.arcs|, p.work, p.temp)
  {
    InnerEnds(w, i, i + 1, w, -1);
  }

  // ---------------------------------------------------------------- every pending arc reads the right file

  /** A pending arc reads the file that its source held before the call, through that source or a temporary. */
  ghost predicate Reads(a: seq<Arc>, t0: map<int, File>, w: Work, j: nat)
    requires j < |a| == |w.arcs| && SourcesOpen(a, t0)
  {
    var arc := w.arcs[j];
    && arc.dest == a[j].dest
    && arc.source in w.kernel.open && w.kernel.open[arc.source] == t0[a[j].source]
    && (if arc.source in w.taken then !arc.close else arc.source == a[j].source)
  }

  /** The dest of a finished arc holds its file, and no pending arc is going to close it. */
  ghost predicate Settled(a: seq<Arc>, t0: map<int, File>, i: nat, w: Work, p: nat)
    requires p < |a| == |w.arcs| && i <= |a| && SourcesOpen(a, t0)
  {
    && a[p].dest in w.kernel.open && w.kernel.open[a[p].dest] == t0[a[p].source]
    && forall j :: i <= j < |a| && w.arcs[j].source == a[p].dest ==> !w.arcs[j].close
  }

  /** The descriptor of an identity arc that is still to come: nothing has happened to it or to its later readers. */
  ghost predicate Untouched(a: seq<Arc>, w: Work, k: nat)
    requires k < |a| == |w.arcs|
  {
    a[k].Identity() ==>
      && a[k].source !in w.taken
      && forall j :: k <= j < |a| && a[j].source == a[k].source ==> w.arcs[j] == a[j]
  }

  ghost predicate TempsOpen(w: Work) {
    && (forall n :: 0 <= n < |w.taken| ==> w.taken[n] in w.kernel.open)
    && (forall m, n :: 0 <= m < n < |w.taken| ==> w.taken[m] != w.taken[n])
  }

  ghost predicate Track(a: seq<Arc>, t0: map<int, File>, i: nat, w: Work)
    requires i <= |a| && SourcesOpen(a, t0)
  {
    && |w.arcs| == |a| && !w.kernel.misclosed && TempsOpen(w)
    && (forall j :: i <= j < |a| ==> Reads(a, t0, w, j) && Untouched(a, w, j))
    && (forall p :: 0 <= p < i ==> Settled(a, t0, i, w, p))
  }

  /** The situation after arc `i`: `v` before it, `p` after its inner loop, `w` after its move and close. */
  ghost predicate ArcDone(v: Work, i: nat, p: Work, temp: int, w: Work) {
    && Inner(v, i, |v.arcs|, p, temp) && w.arcs == p.arcs && w.taken == p.taken
    && p.arcs[i].source in p.kernel.open
    && (if p.arcs[i].Identity() then w.kernel.open == p.kernel.open && w.kernel.misclosed == p.kernel.misclosed
        else
          var moved := p.kernel.open[p.arcs[i].dest := p.kernel.open[p.arcs[i].source]];
          && w.kernel.open == (if p.arcs[i].close then moved - {p.arcs[i].source} else moved)
          && w.kernel.misclosed == p.kernel.misclosed)
  }

  lemma ArcIsDone(v: Work, i: nat)
    requires i < |v.arcs| && SourcesAreOpen(v, i)
    requires var p := PrepareArc(v, i, i + 1, -1); p.ok && CarryOutArc(p.work, i).ok
    ensures var p := PrepareArc(v, i, i + 1, -1); ArcDone(v, i, p.work, p.temp, CarryOutArc(p.work, i).work)
  {
    Prepared(v, i);
    hide PrepareArc;
    var p := PrepareArc(v, i, i + 1, -1);
    assert v.arcs[i].source in v.kernel.open;
  }

  /** Descriptors that stay as they are through arc `i`: not the new temporary, not its dest, not what it closes. */
  lemma StaysOpen(v: Work, i: nat, p: Work, temp: int, w: Work, fd: int)
    requires ArcDone(v, i, p, temp, w) && fd in v.kernel.open && fd != v.arcs[i].dest
    requires fd == v.arcs[i].source ==> !p.arcs[i].close
    ensures fd in w.kernel.open && w.kernel.open[fd] == v.kernel.open[fd]
  {
  }

  lemma TempHolds(v: Work, i: nat, p: Work, temp: int, w: Work)
    requires ArcDone(v, i, p, temp, w) && temp != -1 && v.arcs[i].source in v.kernel.open
    ensures temp in w.kernel.open && w.kernel.open[temp] == v.kernel.open[v.arcs[i].dest]
  {
  }

  /** Arc `q` behind arc `i`, after it. */
  lemma LaterArc(v: Work, i: nat, p: Work, temp: int, w: Work, q: nat)
    requires ArcDone(v, i, p, temp, w) && i < q < |v.arcs|
    ensures RewrittenAt(v.arcs, i, q, w.arcs[q], temp)
    ensures p.arcs[i].close ==> v.arcs[i].close && w.arcs[q].source != v.arcs[i].source
  {
  }

  /** Where an arc reads after arc `i`: from the temporary, or where it read before. */
  lemma LaterSource(v: Work, i: nat, p: Work, temp: int, w: Work, q: nat)
    requires ArcDone(v, i, p, temp, w) && i < q < |v.arcs| && SourcesAreOpen(v, i)
    ensures var s := w.arcs[q].source;
      && s in w.kernel.open && w.kernel.open[s] == v.kernel.open[v.arcs[q].source]
      && (if !v.arcs[i].Identity() && v.arcs[q].source == v.arcs[i].dest then s == temp && temp != -1 else s == v.arcs[q].source)
  {
    LaterArc(v, i, p, temp, w, q);
    assert v.arcs[q].source in v.kernel.open && v.arcs[i].source in v.kernel.open;
    hide RewrittenAt, Rewritten;
    if !v.arcs[i].Identity() && v.arcs[q].source == v.arcs[i].dest {
      TempHolds(v, i, p, temp, w);
    } else if v.arcs[q].source != v.arcs[i].dest {
      StaysOpen(v, i, p, temp, w, v.arcs[q].source);
    }
  }

  lemma TrackSources(a: seq<Arc>, t0: map<int, File>, i: nat, v: Work)
    requires i <= |a| && SourcesOpen(a, t0) && Track(a, t0, i, v)
    ensures SourcesAreOpen(v, i)
  {
    forall j | i <= j < |v.arcs| ensures v.arcs[j].source in v.kernel.open {
      assert Reads(a, t0, v, j);
    }
  }

  lemma ReadsKept(a: seq<Arc>, t0: map<int, File>, i: nat, v: Work, p: Work, temp: int, w: Work, j: nat)
    requires i < j < |a| && SourcesOpen(a, t0) && Track(a, t0, i, v) && ArcDone(v, i, p, temp, w)
    ensures Reads(a, t0, w, j)
  {
    TrackSources(a, t0, i, v);
    assert Reads(a, t0, v, j) && Reads(a, t0, v, i);
    hide Track;
    LaterSource(v, i, p, temp, w, j);
    LaterArc(v, i, p, temp, w, j);
  }

  lemma UntouchedKept(a: seq<Arc>, t0: map<int, File>, i: nat, v: Work, p: Work, temp: int, w: Work, k: nat)
    requires i < k < |a| && SourcesOpen(a, t0) && InjectiveDests(a) && Track(a, t0, i, v) && ArcDone(v, i, p, temp, w)
    ensures Untouched(a, w, k)
  {
    if a[k].Identity() {
      var x := a[k].source;
      assert Untouched(a, v, k) && Reads(a, t0, v, k) && Reads(a, t0, v, i);
      assert v.arcs[i].dest != x;
      forall j | k <= j < |a| && a[j].source == x ensures w.arcs[j] == a[j] {
        assert Reads(a, t0, v, j);
        LaterArc(v, i, p, temp, w, j);
        assert v.arcs[k].dest == x;
      }
    }
  }

  lemma SettledKept(a: seq<Arc>, t0: map<int, File>, i: nat, v: Work, p: Work, temp: int, w: Work, q: nat)
    requires q < i < |a| && SourcesOpen(a, t0) && InjectiveDests(a) && Track(a, t0, i, v) && ArcDone(v, i, p, temp, w)
    ensures Settled(a, t0, i + 1, w, q)
  {
    var d := a[q].dest;
    assert Settled(a, t0, i, v, q) && Reads(a, t0, v, i);
    StaysOpen(v, i, p, temp, w, d);
    forall j | i < j < |a| && w.arcs[j].source == d ensures !w.arcs[j].close {
      LaterArc(v, i, p, temp, w, j);
    }
  }

  /** The dest of arc `i` itself. Only a clobbered identity arc leaves a reader behind that closes it. */
  lemma SettledNow(a: seq<Arc>, t0: map<int, File>, i: nat, v: Work, p: Work, temp: int, w: Work)
    requires i < |a| && SourcesOpen(a, t0) && Track(a, t0, i, v) && ArcDone(v, i, p, temp, w) && !ClobbersIdentity(a, i)
    ensures Settled(a, t0, i + 1, w, i)
  {
    var d := a[i].dest;
    assert Reads(a, t0, v, i) && Untouched(a, v, i);
    assert d in w.kernel.open && w.kernel.open[d] == t0[a[i].source];
    forall j | i < j < |a| && w.arcs[j].source == d ensures !w.arcs[j].close {
      LaterArc(v, i, p, temp, w, j);
      assert Reads(a, t0, v, j);
      assert v.arcs[i].Identity() && v.arcs[j].source == d;
      if d !in v.taken {
        assert a[j].source == d && a[i].Identity();
      }
    }
  }

  lemma TempsKept(a: seq<Arc>, t0: map<int, File>, i: nat, v: Work, p: Work, temp: int, w: Work)
    requires i < |a| && SourcesOpen(a, t0) && Track(a, t0, i, v) && ArcDone(v, i, p, temp, w)
    ensures TempsOpen(w)
  {
    assert Reads(a, t0, v, i);
    hide Rewritten;
    if temp != -1 {
      TempHolds(v, i, p, temp, w);
    }
    forall n | 0 <= n < |v.taken| ensures v.taken[n] in w.kernel.open {
      if v.taken[n] != v.arcs[i].dest {
        StaysOpen(v, i, p, temp, w, v.taken[n]);
      }
    }
  }

  lemma TrackArc(a: seq<Arc>, t0: map<int, File>, i: nat, v: Work)
    requires i < |a| && SourcesOpen(a, t0) && InjectiveDests(a) && !Clobbered(a) && Track(a, t0, i, v)
    requires var p := PrepareArc(v, i, i + 1, -1); p.ok && CarryOutArc(p.work, i).ok
    ensures Track(a, t0, i + 1, CarryOutArc(PrepareArc(v, i, i + 1, -1).work, i).work)
  {
    TrackSources(a, t0, i, v);
    assert !ClobbersIdentity(a, i);
    ArcIsDone(v, i);
    var p := PrepareArc(v, i, i + 1, -1);
    var w := CarryOutArc(p.work, i).work;
    assert |w.arcs| == |a| && !w.kernel.misclosed;
    hide PrepareArc, CarryOutArc, ArcDone, Clobbered, ClobbersIdentity, Reads, Untouched, Settled;
    forall j | i < j < |a| ensures Reads(a, t0, w, j) && Untouched(a, w, j) {
      ReadsKept(a, t0, i, v, p.work, p.temp, w, j);
      UntouchedKept(a, t0, i, v, p.work, p.temp, w, j);
    }
    var next := i + 1;
    forall q | 0 <= q < i ensures Settled(a, t0, next, w, q) {
      SettledKept(a, t0, i, v, p.work, p.temp, w, q);
    }
    SettledNow(a, t0, i, v, p.work, p.temp, w);
    TempsKept(a, t0, i, v, p.work, p.temp, w);
  }

  lemma {:induction false} TrackRun(a: seq<Arc>, t0: map<int, File>, i: nat, w: Work)
    requires i <= |a| && SourcesOpen(a, t0) && InjectiveDests(a) && !Clobbered(a) && Track(a, t0, i, w)
    requires |w.arcs| == |a| && RunArcs(w, i).ok
    ensures Track(a, t0, |a|, RunArcs(w, i).work)
    decreases |a| - i
  {
    if i < |a| {
      TrackArc(a, t0, i, w);
      hide Track, Clobbered, PrepareArc, CarryOutArc;
      TrackRun(a, t0, i + 1, CarryOutArc(PrepareArc(w, i, i + 1, -1).work, i).work);
    }
  }

  // ---------------------------------------------------------------- when the result is the assignment

  lemma TrackStarts(a: seq<Arc>, k: Kernel)
    requires SourcesOpen(a, k.open) && !k.misclosed
    ensures Track(a, k.open, 0, Work(a, k, [], map[]))
  {
  }

  lemma RecordedOf(taken: seq<int>)
    ensures Recorded(taken) <= taken && taken == Recorded(taken) + Leaked(taken)
  {
  }

  /** A remembered temporary that is a dest is closed at the end. */
  lemma RecordedDestIsLost(a: seq<Arc>, k: Kernel)
    requires SourcesOpen(a, k.open) && Shuffle(a, k).ok && !NoneIsDest(a, Recorded(Shuffle(a, k).work.taken))
    ensures !Assigned(a, k.open, Shuffle(a, k).work.kernel.open)
  {
    var w := RunArcs(Work(a, k, [], map[]), 0).work;
    var n :| 0 <= n < |Recorded(w.taken)| && IsDest(a, Recorded(w.taken)[n]);
    CloseAllCloses(w.kernel, Recorded(w.taken));
    hide RunArcs, CloseAll;
    var q :| 0 <= q < |a| && a[q].dest == Recorded(w.taken)[n];
    assert a[q].dest !in Shuffle(a, k).work.kernel.open;
  }

  lemma UnclobberedIsAssigned(a: seq<Arc>, k: Kernel)
    requires InjectiveDests(a) && SourcesOpen(a, k.open) && !k.misclosed && Shuffle(a, k).ok && !Clobbered(a)
    ensures !Shuffle(a, k).work.kernel.misclosed
    ensures NoneIsDest(a, Recorded(Shuffle(a, k).work.taken)) ==> Assigned(a, k.open, Shuffle(a, k).work.kernel.open)
  {
    var start := Work(a, k, [], map[]);
    TrackStarts(a, k);
    TrackRun(a, k.open, 0, start);
    var w := RunArcs(start, 0).work;
    RecordedOf(w.taken);
    assert forall n :: 0 <= n < |Recorded(w.taken)| ==> Recorded(w.taken)[n] == w.taken[n];
    CloseAllKeeps(w.kernel, Recorded(w.taken));
    hide RunArcs, CloseAll, Clobbered, Recorded;
    if NoneIsDest(a, Recorded(w.taken)) {
      forall q | 0 <= q < |a|
        ensures a[q].dest in Shuffle(a, k).work.kernel.open && Shuffle(a, k).work.kernel.open[a[q].dest] == k.open[a[q].source]
      {
        assert Settled(a, k.open, |a|, w, q);
        assert IsDest(a, a[q].dest);
      }
    }
  }

  /**
   Whatever dup hands out and however many duplicates are needed: with no clobbered identity arc the
   shuffle is the simultaneous assignment if and only if no remembered temporary is a dest. With one,
   it is not, unless a leaked temporary happens to be a dest.
   */
  lemma ShuffleAssigns(a: seq<Arc>, k: Kernel)
    requires InjectiveDests(a) && SourcesOpen(a, k.open) && !k.misclosed && Shuffle(a, k).ok
    ensures var w := Shuffle(a, k).work;
      && (!Clobbered(a) ==>
            !w.kernel.misclosed && (Assigned(a, k.open, w.kernel.open) <==> NoneIsDest(a, Recorded(w.taken))))
      && (NoneIsDest(a, Leaked(w.taken)) ==>
            (Assigned(a, k.open, w.kernel.open) <==> NoneIsDest(a, Recorded(w.taken)) && !Clobbered(a)))
  {
    hide Shuffle, Clobbered, Assigned;
    var w := Shuffle(a, k).work;
    if !NoneIsDest(a, Recorded(w.taken)) {
      RecordedDestIsLost(a, k);
    }
    if !Clobbered(a) {
      UnclobberedIsAssigned(a, k);
    } else if NoneIsDest(a, Leaked(w.taken)) && NoneIsDest(a, Recorded(w.taken)) {
      RecordedOf(w.taken);
      assert NoneIsDest(a, w.taken) by {
        forall n | 0 <= n < |w.taken| ensures !IsDest(a, w.taken[n]) {
          assert w.taken[n] in Recorded(w.taken) || w.taken[n] in Leaked(w.taken);
        }
      }
      AssignsUnlessClobbered(a, k);
    }
  }
}

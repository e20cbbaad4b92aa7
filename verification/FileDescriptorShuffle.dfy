/**
 The descriptor shuffle of base/file_descriptor_shuffle.cc: a list of arcs
 `source -> dest` carried out one after the other with dup, dup2 and close, so that the
 net effect should be one simultaneous assignment.

 The kernel's choices are an input: `answers` holds the values that the coming dup and
 dup2 calls return, negative for a failure.
 */
module FileDescriptorShuffle {

  /** An open file description, named by a number. */
  type File = nat

  datatype Arc = Arc(source: int, dest: int, close: bool) {
    predicate Identity() { source == dest }
  }

  /** `misclosed` records whether some close call named a descriptor that was not open. */
  datatype Kernel = Kernel(open: map<int, File>, answers: seq<int>, misclosed: bool)

  const MAX_EXTRA_FDS := 16

  // ---------------------------------------------------------------- the delegate

  function Tail(answers: seq<int>): seq<int> {
    if answers == [] then [] else answers[1..]
  }

  /** dup: a descriptor that was not open, or -1. */
  function Duplicate(k: Kernel, fd: int): (Kernel, int) {
    if fd in k.open && k.answers != [] && k.answers[0] >= 0 && k.answers[0] !in k.open
    then (k.(open := k.open[k.answers[0] := k.open[fd]], answers := Tail(k.answers)), k.answers[0])
    else (k.(answers := Tail(k.answers)), -1)
  }

  /** dup2. */
  function Move(k: Kernel, source: int, dest: int): (Kernel, bool) {
    if source in k.open && k.answers != [] && k.answers[0] >= 0
    then (k.(open := k.open[dest := k.open[source]], answers := Tail(k.answers)), true)
    else (k.(answers := Tail(k.answers)), false)
  }

  function Close(k: Kernel, fd: int): Kernel {
    if fd in k.open then k.(open := k.open - {fd}) else k.(misclosed := true)
  }

  function CloseAll(k: Kernel, fds: seq<int>): Kernel
    decreases |fds|
  {
    if fds == [] then k else CloseAll(Close(k, fds[0]), fds[1..])
  }

  // ---------------------------------------------------------------- the algorithm on values

  /**
   The state of the shuffle. `taken` lists the temporaries in the order they were taken;
   `moved` says which descriptor each of them stands for.
   */
  datatype Work = Work(arcs: seq<Arc>, kernel: Kernel, taken: seq<int>, moved: map<int, int>)

  datatype Outcome = Outcome(ok: bool, work: Work, temp: int)

  /** A later arc that reads what arc `i` is about to overwrite is sent to a duplicate. */
  function Redirect(w: Work, i: nat, j: nat, temp: int): (o: Outcome)
    requires i < j < |w.arcs|
    ensures |o.work.arcs| == |w.arcs|
  {
    if w.arcs[i].Identity() || w.arcs[i].dest != w.arcs[j].source then
      Outcome(true, w, temp)
    else if temp != -1 then
      Outcome(true, w.(arcs := w.arcs[j := Arc(temp, w.arcs[j].dest, false)]), temp)
    else
      var (k, t) := Duplicate(w.kernel, w.arcs[i].dest);
      if t == -1 then Outcome(false, w.(kernel := k), t) else
      Outcome(true,
              Work(w.arcs[j := Arc(t, w.arcs[j].dest, false)], k, w.taken + [t],
                   w.moved[w.arcs[i].dest := t]), t)
  }

  /** The close flag of arc `i` is dropped at a later dest and handed on to a later sharer. */
  function PassClose(arcs: seq<Arc>, i: nat, j: nat): (r: seq<Arc>)
    requires i < j < |arcs|
    ensures |r| == |arcs|
  {
    var keep := arcs[i].close && arcs[i].source != arcs[j].dest;
    if keep && arcs[i].source == arcs[j].source
    then arcs[i := arcs[i].(close := false)][j := arcs[j].(close := true)]
    else arcs[i := arcs[i].(close := keep)]
  }

  function PrepareArc(w: Work, i: nat, j: nat, temp: int): (o: Outcome)
    requires i < j <= |w.arcs|
    ensures |o.work.arcs| == |w.arcs|
    decreases |w.arcs| - j
  {
    if j == |w.arcs| then Outcome(true, w, temp) else
    var o := Redirect(w, i, j, temp);
    if !o.ok then o else
    PrepareArc(o.work.(arcs := PassClose(o.work.arcs, i, j)), i, j + 1, o.temp)
  }

  function CarryOutArc(w: Work, i: nat): (o: Outcome)
    requires i < |w.arcs|
    ensures |o.work.arcs| == |w.arcs|
  {
    if w.arcs[i].Identity() then Outcome(true, w, -1) else
    var (k, ok) := Move(w.kernel, w.arcs[i].source, w.arcs[i].dest);
    if ok && w.arcs[i].close
    then Outcome(true, w.(kernel := Close(k, w.arcs[i].source)), -1)
    else Outcome(ok, w.(kernel := k), -1)
  }

  function RunArcs(w: Work, i: nat): (o: Outcome)
    requires i <= |w.arcs|
    ensures |o.work.arcs| == |w.arcs|
    decreases |w.arcs| - i
  {
    if i == |w.arcs| then Outcome(true, w, -1) else
    var p := PrepareArc(w, i, i + 1, -1);
    if !p.ok then p else
    var o := CarryOutArc(p.work, i);
    if !o.ok then o else RunArcs(o.work, i + 1)
  }

  /** Only the first MAX_EXTRA_FDS temporaries are remembered, and closed at the end. */
  function Recorded(taken: seq<int>): seq<int> {
    if |taken| <= MAX_EXTRA_FDS then taken else taken[..MAX_EXTRA_FDS]
  }

  function Shuffle(arcs: seq<Arc>, k: Kernel): Outcome {
    var o := RunArcs(Work(arcs, k, [], map[]), 0);
    if !o.ok then o
    else o.(work := o.work.(kernel := CloseAll(o.work.kernel, Recorded(o.work.taken))))
  }

  // ---------------------------------------------------------------- the algorithm in place

  /** The process's descriptor table, changed through dup, dup2 and close. */
  class DescriptorTable {
    var state: Kernel

    constructor (k: Kernel)
      ensures state == k
    {
      state := k;
    }

    /** A duplicate holds the same file under a number that was free; every other descriptor stays as it was. */
    method DuplicateFd(fd: int) returns (result: int)
      modifies this
      ensures result != -1 ==>
        && fd in old(state.open) && 0 <= result && result !in old(state.open)
        && state.open == old(state.open)[result := old(state.open)[fd]]
      ensures result == -1 ==> state.open == old(state.open)
      ensures fd in old(state.open) && old(state.answers) != [] && 0 <= old(state.answers)[0] && old(state.answers)[0] !in old(state.open)
        ==> result == old(state.answers)[0]
      ensures state.misclosed == old(state.misclosed)
      ensures (state, result) == Duplicate(old(state), fd)
    {
      var (k, t) := Duplicate(state, fd);
      state, result := k, t;
    }

    /** The dest holds the source's file afterwards, whatever it held before; the source stays open. */
    method MoveFd(source: int, dest: int) returns (ok: bool)
      modifies this
      ensures ok ==> source in old(state.open) && state.open == old(state.open)[dest := old(state.open)[source]]
      ensures !ok ==> state.open == old(state.open)
      ensures ok <==> source in old(state.open) && old(state.answers) != [] && 0 <= old(state.answers)[0]
      ensures state.misclosed == old(state.misclosed)
      ensures (state, ok) == Move(old(state), source, dest)
    {
      var (k, b) := Move(state, source, dest);
      state, ok := k, b;
    }

    /** The descriptor is free afterwards and no other one has changed; closing one that was not open is remembered. */
    method CloseFd(fd: int)
      modifies this
      ensures fd !in state.open
      ensures forall other :: other != fd ==>
        && (other in state.open <==> other in old(state.open))
        && (other in state.open ==> state.open[other] == old(state.open)[other])
      ensures state.misclosed == (old(state.misclosed) || fd !in old(state.open)) && state.answers == old(state.answers)
      ensures state == Close(old(state), fd)
    {
      state := Close(state, fd);
    }
  }

  /** Lines 36-50 of the inner loop. */
  method RedirectInPlace(m: array<Arc>, i: nat, j: nat, temp: int, table: DescriptorTable, extraFds: array<int>,
                         nextExtraFd: nat, ghost w: Work)
    returns (ok: bool, tempFd: int, next: nat)
    requires i < j < m.Length && extraFds.Length == MAX_EXTRA_FDS
    requires w.arcs == m[..] && w.kernel == table.state
    requires nextExtraFd == |Recorded(w.taken)| && extraFds[..nextExtraFd] == Recorded(w.taken)
    modifies m, table, extraFds
    ensures ok == Redirect(w, i, j, temp).ok && tempFd == Redirect(w, i, j, temp).temp
    ensures table.state == Redirect(w, i, j, temp).work.kernel
    ensures ok ==> m[..] == Redirect(w, i, j, temp).work.arcs
    ensures ok ==> next == |Recorded(Redirect(w, i, j, temp).work.taken)|
    ensures ok ==> extraFds[..next] == Recorded(Redirect(w, i, j, temp).work.taken)
  {
    ok, tempFd, next := true, temp, nextExtraFd;
    if m[i].source != m[i].dest && m[i].dest == m[j].source {
      if tempFd == -1 {
        tempFd := table.DuplicateFd(m[i].dest);
        if tempFd == -1 {
          ok := false;
          return;
        }
        if next < MAX_EXTRA_FDS {
          extraFds[next] := tempFd;
          next := next + 1;
        }
      }
      m[j] := Arc(tempFd, m[j].dest, false);
    }
  }

  /** Lines 52-58 of the inner loop. */
  method PassCloseInPlace(m: array<Arc>, i: nat, j: nat)
    requires i < j < m.Length
    modifies m
    ensures m[..] == PassClose(old(m[..]), i, j)
  {
    if m[i].close && m[i].source == m[j].dest {
      m[i] := m[i].(close := false);
    }
    if m[i].close && m[i].source == m[j].source {
      m[i] := m[i].(close := false);
      m[j] := m[j].(close := true);
    }
  }

  /** The inner loop for arc `i`: redirect the readers of its dest, settle its close flag. */
  method PrepareInPlace(m: array<Arc>, i: nat, table: DescriptorTable, extraFds: array<int>, nextExtraFd: nat,
                        ghost before: Work)
    returns (ok: bool, next: nat, ghost outcome: Outcome)
    requires i < m.Length && extraFds.Length == MAX_EXTRA_FDS
    requires before.arcs == m[..] && before.kernel == table.state
    requires nextExtraFd == |Recorded(before.taken)| && extraFds[..nextExtraFd] == Recorded(before.taken)
    modifies m, table, extraFds
    ensures outcome == PrepareArc(before, i, i + 1, -1)
    ensures ok == outcome.ok && table.state == outcome.work.kernel
    ensures ok ==> m[..] == outcome.work.arcs
    ensures ok ==> next == |Recorded(outcome.work.taken)| && extraFds[..next] == Recorded(outcome.work.taken)
  {
    ok, next := true, nextExtraFd;
    var tempFd := -1;
    ghost var w := before;
    outcome := PrepareArc(before, i, i + 1, -1);
    var j := i + 1;
    while j < m.Length
      invariant i < j <= m.Length
      invariant w.arcs == m[..] && w.kernel == table.state
      invariant next == |Recorded(w.taken)| && extraFds[..next] == Recorded(w.taken)
      invariant PrepareArc(w, i, j, tempFd) == outcome
    {
      ghost var o := Redirect(w, i, j, tempFd);
      ok, tempFd, next := RedirectInPlace(m, i, j, tempFd, table, extraFds, next, w);
      if !ok {
        return;
      }
      PassCloseInPlace(m, i, j);
      w := o.work.(arcs := PassClose(o.work.arcs, i, j));
      j := j + 1;
    }
    ok := true;
  }

  /** base/file_descriptor_shuffle.cc in its own form: arcs rewritten in place. */
  method PerformInjectiveMultimapDestructive(m: array<Arc>, table: DescriptorTable) returns (ok: bool)
    modifies m, table
    ensures ok == Shuffle(old(m[..]), old(table.state)).ok
    ensures table.state == Shuffle(old(m[..]), old(table.state)).work.kernel
  {
    var extraFds := new int[MAX_EXTRA_FDS];
    var nextExtraFd := 0;
    ghost var start := Work(m[..], table.state, [], map[]);
    ghost var w := start;
    var i := 0;
    while i < m.Length
      invariant 0 <= i <= m.Length
      invariant w.arcs == m[..] && w.kernel == table.state
      invariant nextExtraFd == |Recorded(w.taken)| && extraFds[..nextExtraFd] == Recorded(w.taken)
      invariant RunArcs(w, i) == RunArcs(start, 0)
    {
      ghost var p;
      ok, nextExtraFd, p := PrepareInPlace(m, i, table, extraFds, nextExtraFd, w);
      if !ok {
        return;
      }
      w := CarryOutArc(p.work, i).work;
      if m[i].source != m[i].dest {
        ok := table.MoveFd(m[i].source, m[i].dest);
        if !ok {
          return;
        }
        if m[i].close {
          table.CloseFd(m[i].source);
        }
      }
      i := i + 1;
    }
    var e := 0;
    ghost var last := table.state;
    while e < nextExtraFd
      invariant 0 <= e <= nextExtraFd
      invariant CloseAll(table.state, extraFds[e..nextExtraFd]) == CloseAll(last, Recorded(w.taken))
    {
      assert extraFds[e..nextExtraFd][1..] == extraFds[e + 1..nextExtraFd];
      table.CloseFd(extraFds[e]);
      e := e + 1;
    }
    ok := true;
  }
}

/** How many retired snapshots survive a reclaim: per slot the two it could protect when the
    swap happened, and one for each old address that a stale load returned since then. */
module HazardBound {
  import opened Hazard
  import opened HazardInvariant
  import opened HazardReader
  import opened HazardSafety
  import opened HazardProgress

  /** A load of `CURRENT` that returns an old version. */
  predicate IsStale(s: State, a: Action) {
    a.LoadCurrent? && a.v < |s.versions| - 1
  }

  /** The addresses that stale loads have returned since the last swap before `t`. */
  ghost function StaleSince(run: seq<State>, acts: seq<Action>, t: nat): set<Addr>
    requires IsRun(run, acts) && t < |run|
  {
    if t == 0 || acts[t - 1].Swap? then {}
    else StaleSince(run, acts, t - 1) + StaleAddr(run[t - 1], acts[t - 1])
  }

  function StaleAddr(s: State, a: Action): set<Addr> {
    if IsStale(s, a) then {s.versions[a.v].addr} else {}
  }

  function Mark(s: State, i: nat): set<Addr> {
    if i < |s.marks| then s.marks[i] else {}
  }

  /** What slot `i` may show: nothing, the current snapshot, what it could already publish
      when the last swap happened, or what a stale load returned since (`x`). */
  ghost predicate HazardsMarked(s: State, x: set<Addr>) {
    forall i :: 0 <= i < |s.slots| ==> s.slots[i].hazard in Mark(s, i) + {0, s.current} + x
  }

  ghost predicate PendingMarked(s: State, x: set<Addr>) {
    forall c :: c in s.calls && s.calls[c].Storing? ==>
      s.calls[c].p in Mark(s, s.calls[c].claim.slot) + {s.current} + x
  }

  /** Some slot could publish `p` when the last swap happened, or a stale load returned it. */
  ghost predicate Saved(s: State, x: set<Addr>, p: Addr) {
    p in x || exists i :: 0 <= i < |s.marks| && p in s.marks[i]
  }

  /** How much of the retired list has survived the reclaim of the last swap. */
  function Survivors(s: State): nat {
    match s.writer
    case Swapped(_) => 0
    case Retaining(k) => k
    case Scan(k, _, _) => k
    case Freeing(k) => k
    case _ => |s.retired|
  }

  ghost predicate SurvivorsSaved(s: State, x: set<Addr>) {
    forall j :: 0 <= j < Survivors(s) && j < |s.retired| ==> Saved(s, x, s.retired[j])
  }

  ghost predicate MarksSmall(s: State) {
    |s.marks| <= |s.slots| && forall i :: 0 <= i < |s.marks| ==> |s.marks[i]| <= 2
  }

  ghost predicate BoundInv(s: State, x: set<Addr>) {
    HazardsMarked(s, x) && PendingMarked(s, x) && SurvivorsSaved(s, x) && MarksSmall(s)
  }

  /** What a step other than a swap does to hazards and pending stores. */
  ghost predicate Tame(s: State, a: Action, s': State) {
    && s'.current == s.current && s'.marks == s.marks && |s.slots| <= |s'.slots|
    && (forall i :: 0 <= i < |s.slots| ==>
          || s'.slots[i].hazard == s.slots[i].hazard || s'.slots[i].hazard == 0
          || (a.StoreHazard? && a.c in s.calls && s.calls[a.c].Storing?
              && i == SlotOf(s.calls[a.c]) && s'.slots[i].hazard == s.calls[a.c].p))
    && (forall i :: |s.slots| <= i < |s'.slots| ==> s'.slots[i].hazard == 0)
    && (forall c :: c in s'.calls && s'.calls[c].Storing? ==>
          || (c in s.calls && s.calls[c] == s'.calls[c])
          || (a.LoadCurrent? && a.v < |s.versions| && s'.calls[c].p == s.versions[a.v].addr))
  }

  predicate Acquires(a: Action) {
    || a.BeginInit? || a.ClaimStep? || a.Bump? || a.LoadCurrent? || a.StoreHazard? || a.Recheck?
    || a.StoreNull? || a.Install?
  }

  lemma AcquireIsTame(s: State, a: Action)
    requires Enabled(s, a) && Acquires(a)
    ensures Tame(s, a, Next(s, a))
  {
  }

  lemma OtherIsTame(s: State, a: Action)
    requires Enabled(s, a) && !Acquires(a) && !a.Swap?
    ensures Tame(s, a, Next(s, a))
  {
  }

  lemma TameKeepsMarked(s: State, a: Action, s': State, x: set<Addr>)
    requires HazardsMarked(s, x) && PendingMarked(s, x) && Tame(s, a, s')
    requires s.versions[|s.versions| - 1].addr == s.current
    ensures HazardsMarked(s', x + StaleAddr(s, a)) && PendingMarked(s', x + StaleAddr(s, a))
  {
    forall i | 0 <= i < |s'.slots|
      ensures s'.slots[i].hazard in Mark(s', i) + {0, s'.current} + (x + StaleAddr(s, a))
    {
      assert i < |s.slots| ==> s.slots[i].hazard in Mark(s, i) + {0, s.current} + x;
    }
  }

  /** A retired snapshot that a scan found hazarded is neither null nor current, so the
      slot it was found in could publish it before the swap, or a stale load returned it. */
  lemma ScanSaves(s: State, x: set<Addr>)
    requires HeapOk(s) && HazardsMarked(s, x) && SurvivorsSaved(s, x) && Enabled(s, ScanStep)
    ensures SurvivorsSaved(Next(s, ScanStep), x)
  {
    if s.writer.seen && s.slots[s.writer.at].hazard == s.retired[s.writer.k] {
      var p := s.retired[s.writer.k];
      assert p in RetiredSet(s);
      assert s.slots[s.writer.at].hazard in Mark(s, s.writer.at) + {0, s.current} + x;
      assert Saved(s, x, p);
    }
    var s' := Next(s, ScanStep);
    assert forall p :: Saved(s, x, p) ==> Saved(s', x, p);
  }

  lemma OtherSurvivors(s: State, a: Action, x: set<Addr>, x': set<Addr>)
    requires ScanOk(s) && SurvivorsSaved(s, x) && x <= x' && Enabled(s, a) && !a.Swap? && !a.ScanStep?
    ensures SurvivorsSaved(Next(s, a), x')
  {
    var s' := Next(s, a);
    assert s'.marks == s.marks;
    assert forall p :: Saved(s, x, p) ==> Saved(s', x', p);
    if !(a.Push? || a.NextRetired? || a.Free?) {
      assert s'.retired == s.retired && Survivors(s') == Survivors(s);
    }
  }

  lemma SwapMarks(s: State)
    requires SlotsOk(s) && CallsOk(s) && Enabled(s, Swap)
    ensures BoundInv(Next(s, Swap), {})
  {
    SwapPending(s);
  }

  lemma SwapPending(s: State)
    requires SlotsOk(s) && CallsOk(s) && Enabled(s, Swap)
    ensures PendingMarked(Next(s, Swap), {})
  {
    var s' := Next(s, Swap);
    forall c | c in s.calls && s.calls[c].Storing?
      ensures s.calls[c].p in Mark(s', s.calls[c].claim.slot)
    {
      OwnerFacts(s, c);
    }
  }

  lemma KeepBoundInv(s: State, a: Action, x: set<Addr>)
    requires Inv(s) && BoundInv(s, x) && Enabled(s, a)
    ensures BoundInv(Next(s, a), if a.Swap? then {} else x + StaleAddr(s, a))
  {
    if a.Swap? {
      SwapMarks(s);
    } else {
      KeepMarked(s, a, x);
      if a.ScanStep? {
        ScanSaves(s, x);
        assert x + StaleAddr(s, a) == x;
      } else {
        OtherSurvivors(s, a, x, x + StaleAddr(s, a));
      }
    }
  }

  lemma KeepMarked(s: State, a: Action, x: set<Addr>)
    requires BoundInv(s, x) && Enabled(s, a) && !a.Swap? && s.versions[|s.versions| - 1].addr == s.current
    ensures var s', x' := Next(s, a), x + StaleAddr(s, a);
      HazardsMarked(s', x') && PendingMarked(s', x') && MarksSmall(s')
  {
    if Acquires(a) {
      AcquireIsTame(s, a);
    } else {
      OtherIsTame(s, a);
    }
    TameKeepsMarked(s, a, Next(s, a), x);
  }

  lemma {:induction false} RunBound(run: seq<State>, acts: seq<Action>, t: nat)
    requires IsRun(run, acts) && t < |run| && NoWrap(run[t])
    ensures BoundInv(run[t], StaleSince(run, acts, t))
    decreases t
  {
    if t > 0 {
      NoWrapBefore(run, acts, t);
      RunBound(run, acts, t - 1);
      RunInv(run, acts, t - 1);
      assert StepAt(run, acts, t - 1);
      KeepBoundInv(run[t - 1], acts[t - 1], StaleSince(run, acts, t - 1));
    }
  }

  lemma NoWrapBefore(run: seq<State>, acts: seq<Action>, t: nat)
    requires IsRun(run, acts) && 0 < t < |run| && NoWrap(run[t])
    ensures NoWrap(run[t - 1])
  {
    assert StepAt(run, acts, t - 1);
    StepLater(run[t - 1], acts[t - 1]);
    LaterNoWrap(run[t - 1], run[t]);
  }

  // ---------------------------------------------------------------------------- counting

  function UnionOf(m: seq<set<Addr>>): set<Addr> {
    if m == [] then {} else m[0] + UnionOf(m[1..])
  }

  function NonEmpty(m: seq<set<Addr>>): nat {
    if m == [] then 0 else (if m[0] == {} then 0 else 1) + NonEmpty(m[1..])
  }

  lemma {:induction false} UnionBound(m: seq<set<Addr>>)
    requires forall i :: 0 <= i < |m| ==> |m[i]| <= 2
    ensures |UnionOf(m)| <= 2 * NonEmpty(m)
  {
    if m != [] {
      UnionBound(m[1..]);
      var rest := UnionOf(m[1..]);
      assert m[0] + rest == rest + (m[0] - rest);
      Subset(m[0] - rest, m[0]);
    }
  }

  lemma {:induction false} Subset(a: set<Addr>, b: set<Addr>)
    requires a <= b
    ensures |a| <= |b|
  {
    assert b == a + (b - a);
  }

  lemma {:induction false} InUnion(m: seq<set<Addr>>, i: nat, p: Addr)
    requires i < |m| && p in m[i]
    ensures p in UnionOf(m)
  {
    if i > 0 {
      assert m[1..][i - 1] == m[i];
      InUnion(m[1..], i - 1, p);
    }
  }

  /** Distinct members of `u` are at most as many as `u`. */
  lemma {:induction false} DistinctFit(l: seq<Addr>, u: set<Addr>)
    requires Distinct(l) && forall i :: 0 <= i < |l| ==> l[i] in u
    ensures |l| <= |u|
    decreases |l|
  {
    if l != [] {
      DistinctFit(l[1..], u - {l[0]});
    }
  }

  lemma {:induction false} MarkedAreInUse(m: seq<set<Addr>>, slots: seq<Slot>)
    requires |m| == |slots| && forall i :: 0 <= i < |m| && m[i] != {} ==> slots[i].inUse
    ensures NonEmpty(m) <= InUse(slots)
  {
    if m != [] {
      MarkedAreInUse(m[1..], slots[1..]);
    }
  }

  lemma RetiredBound(s: State, x: set<Addr>)
    requires HeapOk(s) && BoundInv(s, x) && Survivors(s) == |s.retired|
    ensures |s.retired| <= 2 * NonEmpty(s.marks) + |x|
  {
    forall j | 0 <= j < |s.retired| ensures s.retired[j] in UnionOf(s.marks) + x {
      assert Saved(s, x, s.retired[j]);
      if s.retired[j] !in x {
        var i :| 0 <= i < |s.marks| && s.retired[j] in s.marks[i];
        InUnion(s.marks, i, s.retired[j]);
      }
    }
    DistinctFit(s.retired, UnionOf(s.marks) + x);
    UnionBound(s.marks);
    UnionSize(UnionOf(s.marks), x);
  }

  lemma UnionSize(a: set<Addr>, b: set<Addr>)
    ensures |a + b| <= |a| + |b|
  {
    assert a + b == a + (b - a);
    Subset(b - a, b);
  }

  lemma {:induction false} MarksSinceSwap(run: seq<State>, acts: seq<Action>, t0: nat, t: nat)
    requires IsRun(run, acts) && t0 < t < |run|
    requires acts[t0] == Swap && forall i :: t0 < i < t ==> acts[i] != Swap
    ensures run[t].marks == run[t0 + 1].marks
    decreases t
  {
    if t0 + 1 < t {
      MarksSinceSwap(run, acts, t0, t - 1);
      assert StepAt(run, acts, t - 1);
      assert Next(run[t - 1], acts[t - 1]).marks == run[t - 1].marks;
    }
  }

  /** In every run, after the reclaim that follows a swap, at most two retired snapshots survive
      per slot that was in use at the swap (the one its hazard showed, and the one its owner had
      loaded but not yet stored) and one per old address that a stale load returned since. With
      no slot in use and no stale load the retired list ends empty. */
  lemma RetiredAfterWriter(run: seq<State>, acts: seq<Action>, t0: nat, t: nat)
    requires IsRun(run, acts) && t0 < t < |run| && NoWrap(run[t])
    requires acts[t0] == Swap && forall i :: t0 < i < t ==> acts[i] != Swap
    requires run[t].writer.Idle?
    ensures |run[t].retired| <= 2 * InUse(run[t0].slots) + |StaleSince(run, acts, t)|
    ensures (forall i :: t0 < i < t ==> !IsStale(run[i], acts[i])) ==> |run[t].retired| <= 2 * InUse(run[t0].slots)
  {
    RunBound(run, acts, t);
    RunInv(run, acts, t);
    RetiredBound(run[t], StaleSince(run, acts, t));
    MarksSinceSwap(run, acts, t0, t);
    MarksInUse(run, acts, t0, t);
    if forall i :: t0 < i < t ==> !IsStale(run[i], acts[i]) {
      NoneStale(run, acts, t0, t);
    }
  }

  lemma MarksInUse(run: seq<State>, acts: seq<Action>, t0: nat, t: nat)
    requires IsRun(run, acts) && t0 < t < |run| && NoWrap(run[t]) && acts[t0] == Swap
    ensures NonEmpty(run[t0 + 1].marks) <= InUse(run[t0].slots)
  {
    assert StepAt(run, acts, t0);
    RunLater(run, acts, t0, t);
    LaterNoWrap(run[t0], run[t]);
    RunInv(run, acts, t0);
    var s := run[t0];
    forall i | 0 <= i < |s.slots| && MarksOf(s, i) != {} ensures s.slots[i].inUse {
      assert SlotOk(s.calls, i, s.slots[i]);
    }
    MarkedAreInUse(run[t0 + 1].marks, s.slots);
  }

  lemma {:induction false} NoneStale(run: seq<State>, acts: seq<Action>, t0: nat, t: nat)
    requires IsRun(run, acts) && t0 < t < |run| && acts[t0] == Swap
    requires forall i :: t0 < i < t ==> !IsStale(run[i], acts[i])
    ensures StaleSince(run, acts, t) == {}
    decreases t
  {
    if t0 + 1 < t {
      NoneStale(run, acts, t0, t - 1);
    }
  }
}

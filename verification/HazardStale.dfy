/** Why the bound on retired snapshots counts stale loads: a run in which no slot is in use at
    the swap, and one stale load keeps the replaced snapshot through the reclaim. */
module HazardStale {
  import opened Hazard
  import opened HazardSafety
  import opened HazardProgress
  import opened HazardWrap

  function Last(run: seq<State>): State
    requires run != []
  {
    run[|run| - 1]
  }

  /** The last swap of the run was its t0-th action. */
  ghost predicate Since(run: seq<State>, acts: seq<Action>, t0: nat) {
    IsRun(run, acts) && t0 < |acts| && acts[t0] == Swap && forall i :: t0 < i < |acts| ==> acts[i] != Swap
  }

  lemma Go(run: seq<State>, acts: seq<Action>, t0: nat, a: Action) returns (run': seq<State>, acts': seq<Action>)
    requires Since(run, acts, t0) && Enabled(Last(run), a) && a != Swap
    ensures Since(run', acts', t0) && run'[t0] == run[t0] && Last(run') == Next(Last(run), a)
  {
    ExtendRun(run, acts, a);
    run', acts' := run + [Next(Last(run), a)], acts + [a];
  }

  /** One published snapshot, one built, and a pool that was never used. */
  ghost predicate Ready(s: State) {
    && s.slots == seq(16, _ => FRESH_SLOT) && s.calls == map[] && s.current == 1 && s.retired == []
    && 2 in s.heap && s.writer.Boxed? && s.writer.box == 2 && |s.versions| == 2 && s.versions[1].addr == 1
  }

  lemma BeforeSwap() returns (s: State)
    ensures Can(s) && Ready(s)
  {
    var s0 := Publish();
    CanStep(s0, Lock([]));
    var s1 := Next(s0, Lock([]));
    CanStep(s1, LoadForClone);
    var s2 := Next(s1, LoadForClone);
    CanStep(s2, Build(2));
    s := Next(s2, Build(2));
  }

  /** After the swap, before the old snapshot is retired; slot 0 may be in use. */
  ghost predicate Replaced(s: State) {
    && |s.slots| == 16 && (forall i :: 0 <= i < 16 ==> s.slots[i].log.bumps <= 1)
    && s.current == 2 && s.retired == [] && s.writer == Swapped(1) && |s.versions| == 3 && s.versions[1].addr == 1
  }

  lemma SwapIt() returns (run: seq<State>, acts: seq<Action>, t0: nat)
    ensures Since(run, acts, t0) && Ready(run[t0]) && Replaced(Last(run))
    ensures Last(run).calls == map[] && Last(run).slots[0] == FRESH_SLOT
  {
    var s := BeforeSwap();
    var run0, acts0 :| IsRun(run0, acts0) && run0[|run0| - 1] == s;
    ExtendRun(run0, acts0, Swap);
    run, acts, t0 := run0 + [Next(s, Swap)], acts0 + [Swap], |acts0|;
  }

  /** A reader's own step, on slot 0. */
  lemma Read(run: seq<State>, acts: seq<Action>, t0: nat, a: Action, call: Call, sl: Slot)
      returns (run': seq<State>, acts': seq<Action>)
    requires Since(run, acts, t0) && Replaced(Last(run)) && Enabled(Last(run), a) && a != Swap && sl.log.bumps <= 1
    requires var s := Last(run);
      Next(s, a) == GotoSet(s, 0, call, 0, sl) || (Next(s, a) == Goto(s, 0, call) && sl == s.slots[0])
    ensures Since(run', acts', t0) && run'[t0] == run[t0] && Replaced(Last(run'))
    ensures 0 in Last(run').calls && Last(run').calls[0] == call && Last(run').slots[0] == sl
  {
    run', acts' := Go(run, acts, t0, a);
  }

  /** A reader claims slot 0. */
  lemma Claim() returns (run: seq<State>, acts: seq<Action>, t0: nat)
    ensures Since(run, acts, t0) && Ready(run[t0]) && Replaced(Last(run))
    ensures 0 in Last(run).calls && Last(run).calls[0].Loading? && Last(run).calls[0].claim.slot == 0
  {
    run, acts, t0 := SwapIt();
    run, acts := Read(run, acts, t0, BeginInit(0), Scanning(0, false), FRESH_SLOT);
    run, acts := Read(run, acts, t0, ClaimStep(0), Scanning(0, true), FRESH_SLOT);
    var s := Next(Last(run), ClaimStep(0));
    run, acts := Read(run, acts, t0, ClaimStep(0), s.calls[0], s.slots[0]);
    s := Next(Last(run), Bump(0));
    run, acts := Read(run, acts, t0, Bump(0), s.calls[0], s.slots[0]);
  }

  /** Its first load is stale, and it publishes the old address. */
  lemma PublishOld() returns (run: seq<State>, acts: seq<Action>, t0: nat)
    ensures Since(run, acts, t0) && Ready(run[t0]) && Replaced(Last(run)) && Last(run).slots[0].hazard == 1
  {
    run, acts, t0 := Claim();
    var s := Next(Last(run), LoadCurrent(0, 1));
    run, acts := Read(run, acts, t0, LoadCurrent(0, 1), s.calls[0], s.slots[0]);
    s := Next(Last(run), StoreHazard(0));
    run, acts := Read(run, acts, t0, StoreHazard(0), s.calls[0], s.slots[0]);
  }

  /** With no slot in use at the swap, one stale load keeps the replaced snapshot: two per slot in
      use is not a bound, and the term for stale loads is needed. */
  lemma StaleLoadKeepsRetired() returns (run: seq<State>, acts: seq<Action>, t0: nat)
    ensures Since(run, acts, t0) && InUse(run[t0].slots) == 0
    ensures Last(run).writer.Idle? && NoWrap(Last(run)) && Last(run).retired == [1]
  {
    run, acts, t0 := PublishOld();
    NoneInUse(run[t0].slots);
    run, acts := Go(run, acts, t0, Push);
    run, acts := Go(run, acts, t0, NextRetired);
    run, acts := Go(run, acts, t0, ScanStep);
    run, acts := Go(run, acts, t0, ScanStep);
    run, acts := Go(run, acts, t0, NextRetired);
  }

  lemma {:induction false} NoneInUse(slots: seq<Slot>)
    requires forall i :: 0 <= i < |slots| ==> !slots[i].inUse
    ensures InUse(slots) == 0
  {
    if slots != [] {
      NoneInUse(slots[1..]);
    }
  }
}

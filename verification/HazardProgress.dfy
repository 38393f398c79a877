/** Readers make progress on their own, and slots are accounted for. */
module HazardProgress {
  import opened Limits
  import opened Hazard
  import opened HazardInvariant
  import opened HazardReader
  import opened HazardSafety

  predicate Acquiring(call: Call) {
    call.Loading? || call.Storing? || call.Rechecking? || call.Validated? || call.Walking?
  }

  // ---------------------------------------------------------------------------- retries

  /** Under read-read coherence each retry but the first, which a stale first load may cost, used
      up a distinct swap made during the acquire: it went round at most twice more than there were
      swaps, and at most once more if its first load was not stale. Counted from the version that
      the first load returned, every retry used one up. */
  lemma RetriesConsumeSwaps(s: State, c: CallId)
    requires Reachable(s) && c in s.calls && Acquiring(s.calls[c]) && s.calls[c].claim.loop.coherent
    ensures var l := s.calls[c].claim.loop;
      && l.tries <= |s.versions| - 1 - l.start + 1
      && (l.start <= l.first ==> l.tries <= |s.versions| - 1 - l.start)
      && l.tries <= |s.versions| - 1 - l.first
    ensures s.calls[c].Walking? ==>
      var l, v := s.calls[c].claim.loop, s.calls[c].ver;
      && l.tries <= v - l.start + 1
      && (l.start <= l.first ==> l.tries <= v - l.start)
      && l.tries <= v - l.first
  {
    ReachableInv(s);
    assert AcquireOk(s.versions, s.calls[c]);
  }

  // -------------------------------------------------------------------------- solo runs

  /** The call of cursor_init has returned. */
  predicate Returned(call: Call) {
    call.Walking? || call.Exhausted? || call.Ended?
  }

  /** `c` is inside cursor_init (a call of cursor_fini has its own, shorter path). */
  predicate InInit(call: Call) {
    !(call.Releasing? && !call.own)
  }

  /** Which version the loads of `CURRENT` return, by the number of retries before. */
  type Picks = nat -> nat

  /** What the load of an acquire iteration returns: any version not older than what the loop has
      observed. (A pick out of that range stands for the current one.) */
  function Picked(s: State, l: Loop, pick: Picks): nat {
    if l.seen <= pick(l.tries) < |s.versions| then pick(l.tries) else |s.versions| - 1
  }

  /** The next step of `c` itself. */
  function OwnAction(s: State, c: CallId, pick: Picks): Action
    requires c in s.calls && !Returned(s.calls[c])
  {
    match s.calls[c]
    case Scanning(_, _) => ClaimStep(c)
    case Won(_) => Bump(c)
    case Loading(cl) => LoadCurrent(c, Picked(s, cl.loop, pick))
    case Storing(_, _) => StoreHazard(c)
    case Rechecking(_, _) => Recheck(c)
    case Validated(_, _, _) => Install(c)
    case StoringNull(_) => StoreNull(c)
    case Releasing(_, _, _) => ReleaseCas(c)
    case ClearingHazard(_, _) => ClearHazard(c)
    case ClearingSnapshot(_, _) => ClearSnapshot(c)
    case ClearingInUse(_, _) => ClearInUse(c)
  }

  /** How many more steps of its own the call needs at most. */
  function Rank(s: State, c: CallId): nat
    requires c in s.calls
  {
    match s.calls[c]
    case Scanning(at, seen) =>
      if at < |s.slots| then 2 * (|s.slots| - at) + 10 - (if seen then 1 else 0) else 10
    case Won(_) => 10
    case Loading(cl) => if cl.loop.seen == |s.versions| - 1 then 6 else 9
    case Storing(_, p) => if p == s.current then 3 else 8
    case Rechecking(_, p) => if p == s.current then 2 else 7
    case Validated(_, _, _) => 1
    case StoringNull(_) => 5
    case Releasing(_, _, _) => 4
    case ClearingHazard(_, _) => 3
    case ClearingSnapshot(_, _) => 2
    case ClearingInUse(_, _) => 1
    case _ => 0
  }

  /** A reader's next step is always enabled, whatever every other call is suspended in. */
  lemma NeverBlocked(s: State, c: CallId, pick: Picks)
    requires CallsOk(s) && c in s.calls && !Returned(s.calls[c])
    ensures Enabled(s, OwnAction(s, c, pick))
  {
    assert CallOk(s, c, s.calls[c]);
  }

  /** And it brings the call closer to its end. */
  lemma Progresses(s: State, c: CallId, pick: Picks)
    requires PoolOk(s) && s.versions[|s.versions| - 1].addr == s.current
    requires c in s.calls && !Returned(s.calls[c]) && Enabled(s, OwnAction(s, c, pick))
    ensures var s' := Next(s, OwnAction(s, c, pick)); c in s'.calls && Rank(s', c) < Rank(s, c)
  {
    if s.calls[c].Scanning? {
      ScanProgresses(s, c);
    }
  }

  lemma ScanProgresses(s: State, c: CallId)
    requires PoolOk(s) && Enabled(s, ClaimStep(c))
    ensures var s' := Next(s, ClaimStep(c)); c in s'.calls && Rank(s', c) < Rank(s, c)
  {
    var at, seen := s.calls[c].at, s.calls[c].seen;
    if seen && (at + 1) % SLOT_CHUNK != 0 {
      NextInChunk(s, at);
    }
  }

  /** Bumps the call may still make to the slot it is at. */
  function Pending(call: Call): nat {
    if call.Scanning? || call.Won? then 2
    else if call.ClearingHazard? || call.ClearingSnapshot? || call.ClearingInUse? || Returned(call) then 0
    else 1
  }

  /** The bumps that `c` may still make will not wrap any sequence. */
  ghost predicate Room(s: State, c: CallId)
    requires c in s.calls
  {
    && NoWrap(s)
    && forall i :: 0 <= i < |s.slots| && (s.calls[c].Scanning? || i == SlotOf(s.calls[c])) ==>
         s.slots[i].log.bumps + Pending(s.calls[c]) <= U64 + 1
  }

  /** A step that writes only the slot `c` is at, and stays there. */
  ghost predicate IsLocal(s: State, s': State, c: CallId)
    requires c in s.calls
  {
    var i := SlotOf(s.calls[c]);
    && c in s'.calls && !s'.calls[c].Scanning? && InInit(s'.calls[c]) && |s'.slots| == |s.slots|
    && (s'.calls[c].Ended? || SlotOf(s'.calls[c]) == i)
    && (forall j :: 0 <= j < |s.slots| && j != i ==> s'.slots[j] == s.slots[j])
    && (i < |s.slots| ==> s'.slots[i].log.bumps + Pending(s'.calls[c]) <= s.slots[i].log.bumps + Pending(s.calls[c]))
  }

  predicate Releases(call: Call) {
    call.Releasing? || call.ClearingHazard? || call.ClearingSnapshot? || call.ClearingInUse?
  }

  lemma ReleaseIsLocal(s: State, c: CallId, pick: Picks)
    requires c in s.calls && Releases(s.calls[c]) && Enabled(s, OwnAction(s, c, pick))
    ensures IsLocal(s, Next(s, OwnAction(s, c, pick)), c)
  {
    if s.calls[c].Releasing? {
      assert Next(s, ReleaseCas(c)) == ReleaseNext(s, c);
    }
  }

  lemma AcquireIsLocal(s: State, c: CallId, pick: Picks)
    requires c in s.calls && !Releases(s.calls[c]) && !Returned(s.calls[c]) && !s.calls[c].Scanning?
    requires Enabled(s, OwnAction(s, c, pick))
    ensures IsLocal(s, Next(s, OwnAction(s, c, pick)), c)
  {
    if s.calls[c].Loading? {
      assert Next(s, OwnAction(s, c, pick)) == LoadNext(s, c, Picked(s, s.calls[c].claim.loop, pick));
    } else if s.calls[c].Rechecking? {
      assert Next(s, OwnAction(s, c, pick)) == RecheckNext(s, c);
    }
  }

  lemma OwnStepIsLocal(s: State, c: CallId, pick: Picks)
    requires c in s.calls && !Returned(s.calls[c]) && !s.calls[c].Scanning? && Enabled(s, OwnAction(s, c, pick))
    ensures IsLocal(s, Next(s, OwnAction(s, c, pick)), c)
  {
    if Releases(s.calls[c]) {
      ReleaseIsLocal(s, c, pick);
    } else {
      AcquireIsLocal(s, c, pick);
    }
  }

  lemma RoomStays(s: State, c: CallId, pick: Picks)
    requires c in s.calls && !Returned(s.calls[c]) && Enabled(s, OwnAction(s, c, pick)) && Room(s, c)
    ensures var s' := Next(s, OwnAction(s, c, pick)); c in s'.calls && Room(s', c)
  {
    if s.calls[c].Scanning? {
      ScanRoom(s, c);
    } else {
      OwnStepIsLocal(s, c, pick);
      LocalRoom(s, Next(s, OwnAction(s, c, pick)), c);
    }
  }

  lemma LocalRoom(s: State, s': State, c: CallId)
    requires c in s.calls && Room(s, c) && IsLocal(s, s', c)
    ensures Room(s', c)
  {
  }

  lemma ScanRoom(s: State, c: CallId)
    requires Enabled(s, ClaimStep(c)) && Room(s, c)
    ensures var s' := Next(s, ClaimStep(c)); c in s'.calls && Room(s', c)
  {
  }

  lemma SoloStep(s: State, c: CallId, pick: Picks)
    requires Inv(s) && c in s.calls && Room(s, c) && !Returned(s.calls[c])
    ensures Enabled(s, OwnAction(s, c, pick))
    ensures var s' := Next(s, OwnAction(s, c, pick));
      Inv(s') && c in s'.calls && Room(s', c) && Rank(s', c) < Rank(s, c) && |s'.slots| == |s.slots|
  {
    NeverBlocked(s, c, pick);
    Progresses(s, c, pick);
    SoloKeeps(s, c, pick);
  }

  lemma SoloKeeps(s: State, c: CallId, pick: Picks)
    requires Inv(s) && c in s.calls && Room(s, c) && !Returned(s.calls[c]) && Enabled(s, OwnAction(s, c, pick))
    ensures var s' := Next(s, OwnAction(s, c, pick));
      Inv(s') && c in s'.calls && Room(s', c) && |s'.slots| == |s.slots|
  {
    RoomStays(s, c, pick);
    KeepStep(s, OwnAction(s, c, pick));
    SameSize(s, OwnAction(s, c, pick));
  }

  lemma SameSize(s: State, a: Action)
    requires Enabled(s, a) && !a.Grow?
    ensures |Next(s, a).slots| == |s.slots|
  {
  }

  /** The state after `c` has run alone, every other call and the writer suspended, and the
      number of steps that took. */
  ghost function Solo(s: State, c: CallId, pick: Picks): (r: (State, nat))
    requires Inv(s) && c in s.calls && Room(s, c)
    ensures Inv(r.0) && c in r.0.calls
    decreases Rank(s, c)
  {
    if Returned(s.calls[c]) then (s, 0)
    else
      SoloStep(s, c, pick);
      var (s', n) := Solo(Next(s, OwnAction(s, c, pick)), c, pick);
      (s', n + 1)
  }

  lemma RankBound(s: State, c: CallId)
    requires c in s.calls
    ensures Rank(s, c) <= 2 * |s.slots| + 10
  {
  }

  /** From any reachable state, cursor_init or cursor_fini run alone returns within 2n + 10
      steps, n being the pool size, whichever versions its loads return: it waits for no suspended
      writer or interrupted reader. */
  lemma {:induction false} SoloReturns(s: State, c: CallId, pick: Picks)
    requires Inv(s) && c in s.calls && Room(s, c)
    ensures Returned(Solo(s, c, pick).0.calls[c])
    ensures Solo(s, c, pick).1 <= Rank(s, c) <= 2 * |s.slots| + 10
    decreases Rank(s, c)
  {
    RankBound(s, c);
    if !Returned(s.calls[c]) {
      SoloStep(s, c, pick);
      SoloReturns(Next(s, OwnAction(s, c, pick)), c, pick);
    }
  }

  // ----------------------------------------------------------------- cursor_init's result

  datatype Code = Walks | NoSlot | NoSnapshot

  ghost predicate FreeFrom(s: State, at: nat) {
    exists i :: at <= i < |s.slots| && !s.slots[i].inUse
  }

  /** The version that the first load of a call returns. */
  function FirstLoad(s: State, pick: Picks): nat {
    if pick(0) < |s.versions| then pick(0) else |s.versions| - 1
  }

  /** The result that the state of a call inside cursor_init already determines. */
  ghost function Predict(s: State, c: CallId, pick: Picks): Code
    requires c in s.calls
  {
    var first := if FirstLoad(s, pick) == 0 then NoSnapshot else Walks;
    match s.calls[c]
    case Scanning(at, _) => if FreeFrom(s, at) then first else NoSlot
    case Won(_) => first
    case Loading(cl) => if Picked(s, cl.loop, pick) == 0 then NoSnapshot else Walks
    case Storing(_, _) => Walks
    case Rechecking(_, _) => Walks
    case Validated(_, _, _) => Walks
    case Walking(_, _, _) => Walks
    case Exhausted => NoSlot
    case _ => NoSnapshot
  }

  lemma ScanPredicts(s: State, c: CallId, pick: Picks)
    requires Enabled(s, ClaimStep(c))
    ensures var s' := Next(s, ClaimStep(c)); c in s'.calls && Predict(s', c, pick) == Predict(s, c, pick)
  {
    var at, s' := s.calls[c].at, Next(s, ClaimStep(c));
    if s.calls[c].seen && s.slots[at].inUse {
      assert s'.slots == s.slots && (FreeFrom(s, at) <==> FreeFrom(s', at + 1));
    } else if !s.calls[c].seen {
      assert s'.slots == s.slots && (FreeFrom(s, at) <==> FreeFrom(s', at));
    }
  }

  lemma AcquirePredicts(s: State, c: CallId, pick: Picks)
    requires AcquiresOk(s) && FreedOk(s) && s.current == s.versions[|s.versions| - 1].addr
    requires s.versions[0].addr == 0
    requires c in s.calls && !Returned(s.calls[c]) && !s.calls[c].Scanning? && InInit(s.calls[c])
    requires Enabled(s, OwnAction(s, c, pick))
    ensures var s' := Next(s, OwnAction(s, c, pick)); c in s'.calls && Predict(s', c, pick) == Predict(s, c, pick)
  {
    if Releases(s.calls[c]) {
      ReleasePredicts(s, c, pick);
    } else {
      assert AcquireOk(s.versions, s.calls[c]);
      HoldingPredicts(s, c, pick);
    }
  }

  lemma ReleasePredicts(s: State, c: CallId, pick: Picks)
    requires c in s.calls && Releases(s.calls[c]) && Enabled(s, OwnAction(s, c, pick))
    ensures var s' := Next(s, OwnAction(s, c, pick)); c in s'.calls && Predict(s', c, pick) == Predict(s, c, pick)
  {
    if s.calls[c].Releasing? {
      assert Next(s, ReleaseCas(c)) == ReleaseNext(s, c);
    }
  }

  lemma HoldingPredicts(s: State, c: CallId, pick: Picks)
    requires s.current == s.versions[|s.versions| - 1].addr && c in s.calls && AcquireOk(s.versions, s.calls[c])
    requires !Returned(s.calls[c]) && !s.calls[c].Scanning? && !Releases(s.calls[c]) && Enabled(s, OwnAction(s, c, pick))
    requires s.versions[0].addr == 0 && forall v :: 1 <= v < |s.versions| ==> s.versions[v].addr != 0
    ensures var s' := Next(s, OwnAction(s, c, pick)); c in s'.calls && Predict(s', c, pick) == Predict(s, c, pick)
  {
  }

  lemma {:induction false} SoloPredicted(s: State, c: CallId, pick: Picks)
    requires Inv(s) && c in s.calls && Room(s, c) && InInit(s.calls[c])
    ensures Predict(Solo(s, c, pick).0, c, pick) == Predict(s, c, pick)
    decreases Rank(s, c)
  {
    if !Returned(s.calls[c]) {
      SoloStep(s, c, pick);
      if s.calls[c].Scanning? {
        ScanPredicts(s, c, pick);
      } else {
        AcquirePredicts(s, c, pick);
      }
      InitStays(s, c, pick);
      SoloPredicted(Next(s, OwnAction(s, c, pick)), c, pick);
    }
  }

  lemma InitStays(s: State, c: CallId, pick: Picks)
    requires c in s.calls && !Returned(s.calls[c]) && Enabled(s, OwnAction(s, c, pick)) && InInit(s.calls[c])
    ensures var s' := Next(s, OwnAction(s, c, pick)); c in s'.calls && InInit(s'.calls[c])
  {
    if !s.calls[c].Scanning? {
      OwnStepIsLocal(s, c, pick);
    }
  }

  /** Run alone, cursor_init returns -1 exactly if no slot is free; else it starts a walk exactly
      if its first load is not of the null version, and returns -2 otherwise. If that load is not
      stale, it starts a walk exactly if a snapshot is published. */
  lemma SoloResult(s: State, c: CallId, pick: Picks)
    requires Inv(s) && c in s.calls && Room(s, c) && s.calls[c] == Scanning(0, false)
    ensures var call := Solo(s, c, pick).0.calls[c];
      && (call.Exhausted? <==> !FreeFrom(s, 0))
      && (call.Walking? <==> FreeFrom(s, 0) && FirstLoad(s, pick) != 0)
      && (call.Ended? <==> FreeFrom(s, 0) && FirstLoad(s, pick) == 0)
    ensures FirstLoad(s, pick) == |s.versions| - 1 ==> (FirstLoad(s, pick) != 0 <==> s.current != 0)
  {
    SoloReturns(s, c, pick);
    SoloPredicted(s, c, pick);
    ResultFrom(s, Solo(s, c, pick).0, c, pick);
  }

  lemma ResultFrom(s: State, s': State, c: CallId, pick: Picks)
    requires c in s.calls && s.calls[c] == Scanning(0, false)
    requires c in s'.calls && Returned(s'.calls[c]) && Predict(s', c, pick) == Predict(s, c, pick)
    ensures s'.calls[c].Exhausted? <==> !FreeFrom(s, 0)
    ensures s'.calls[c].Walking? <==> FreeFrom(s, 0) && FirstLoad(s, pick) != 0
    ensures s'.calls[c].Ended? <==> FreeFrom(s, 0) && FirstLoad(s, pick) == 0
  {
  }

  // -------------------------------------------------------------------- slot accounting

  ghost predicate SameCell(a: Slot, b: Slot) {
    a.inUse == b.inUse && a.hazard == b.hazard && a.snapshot == b.snapshot
  }

  /** Apart from the slot that `c` holds, which was free, the pool is as it was at `s0`. */
  ghost predicate Touched(s0: State, s: State, c: CallId) {
    && |s.slots| == |s0.slots|
    && forall i :: 0 <= i < |s.slots| ==>
         if OwnedBy(s.slots[i], c) then !s0.slots[i].inUse else SameCell(s0.slots[i], s.slots[i])
  }

  lemma TouchedStays(s0: State, s: State, c: CallId, pick: Picks)
    requires Inv(s0) && Inv(s) && Touched(s0, s, c)
    requires c in s.calls && !Returned(s.calls[c]) && Enabled(s, OwnAction(s, c, pick)) && InInit(s.calls[c])
    ensures var s' := Next(s, OwnAction(s, c, pick)); Touched(s0, s', c) && c in s'.calls && InInit(s'.calls[c])
  {
    if s.calls[c].Scanning? {
      ScanTouches(s0, s, c);
    } else {
      OwnerFacts(s, c);
      OwnStepIsLocal(s, c, pick);
      OwnStepOwns(s, c, pick);
      var i := SlotOf(s.calls[c]);
      assert SlotOk(s0.calls, i, s0.slots[i]);
    }
  }

  lemma OwnStepOwns(s: State, c: CallId, pick: Picks)
    requires c in s.calls && Holds(s.calls[c]) && Enabled(s, OwnAction(s, c, pick))
    requires var i := SlotOf(s.calls[c]); i < |s.slots| && OwnedBy(s.slots[i], c) && OwnerOk(i, s.slots[i], s.calls[c])
    requires s.slots[SlotOf(s.calls[c])].claimSeq == s.slots[SlotOf(s.calls[c])].log.bumps % U64
    ensures var s', i := Next(s, OwnAction(s, c, pick)), SlotOf(s.calls[c]);
      && c in s'.calls && InInit(s'.calls[c]) && i < |s'.slots|
      && (OwnedBy(s'.slots[i], c) || (!s'.slots[i].inUse && Clear(s'.slots[i])))
  {
  }

  lemma ScanTouches(s0: State, s: State, c: CallId)
    requires SlotsOk(s) && Touched(s0, s, c) && Enabled(s, ClaimStep(c))
    ensures var s' := Next(s, ClaimStep(c)); Touched(s0, s', c) && c in s'.calls && InInit(s'.calls[c])
  {
    IdleSlots(s, c, s.calls[c]);
  }

  lemma {:induction false} FailureRestores(s0: State, s: State, c: CallId, pick: Picks)
    requires Inv(s0) && Inv(s) && c in s.calls && Room(s, c) && InInit(s.calls[c])
    requires Touched(s0, s, c)
    ensures var s' := Solo(s, c, pick).0;
      || s'.calls[c].Walking?
      || (|s'.slots| == |s0.slots| && forall i :: 0 <= i < |s0.slots| ==> SameCell(s0.slots[i], s'.slots[i]))
    decreases Rank(s, c)
  {
    if !Returned(s.calls[c]) {
      SoloStep(s, c, pick);
      TouchedStays(s0, s, c, pick);
      FailureRestores(s0, Next(s, OwnAction(s, c, pick)), c, pick);
    } else if !s.calls[c].Walking? {
      IdleSlots(s, c, s.calls[c]);
    }
  }

  /** A cursor_init that fails, on either path, leaves the pool as it found it: run alone
      from its start it ends with a walk, or with every cell of the pool as before. */
  lemma FailedInitLeavesPool(s: State, c: CallId, pick: Picks)
    requires Inv(s) && c in s.calls && Room(s, c) && s.calls[c] == Scanning(0, false)
    ensures var s' := Solo(s, c, pick).0;
      || s'.calls[c].Walking?
      || (|s'.slots| == |s.slots| && forall i :: 0 <= i < |s.slots| ==> SameCell(s.slots[i], s'.slots[i]))
  {
    IdleSlots(s, c, s.calls[c]);
    FailureRestores(s, s, c, pick);
  }

  // ---------------------------------------------- a failing init among other calls and writers

  /** The call has returned, or holds slot `i`. */
  ghost predicate ReturnedOrAt(call: Call, i: nat) {
    Returned(call) || (Holds(call) && SlotOf(call) == i)
  }

  lemma StaysAt(s: State, a: Action, c: CallId, i: nat)
    requires Enabled(s, a) && c in s.calls && ReturnedOrAt(s.calls[c], i)
    ensures c in Next(s, a).calls && ReturnedOrAt(Next(s, a).calls[c], i)
    ensures Returned(s.calls[c]) ==> Next(s, a).calls[c] == s.calls[c]
  {
    if IsBy(a, c) && Releases(s.calls[c]) {
      ReleaseStaysAt(s, a, c, i);
    } else if IsBy(a, c) {
      AcquireStaysAt(s, a, c, i);
    } else {
      OthersLeaveCall(s, a, c);
    }
  }

  predicate IsBy(a: Action, c: CallId) {
    IsReaders(a) && a.c == c
  }

  lemma OthersLeaveCall(s: State, a: Action, c: CallId)
    requires Enabled(s, a) && c in s.calls && !IsBy(a, c)
    ensures c in Next(s, a).calls && Next(s, a).calls[c] == s.calls[c]
  {
    if IsReaders(a) {
      OtherReadersLeaveCall(s, a, c);
    } else {
      WritersLeaveCalls(s, a);
    }
  }

  lemma WritersLeaveCalls(s: State, a: Action)
    requires Enabled(s, a) && !IsReaders(a)
    ensures Next(s, a).calls == s.calls
  {
  }

  lemma OtherReadersLeaveCall(s: State, a: Action, c: CallId)
    requires Enabled(s, a) && c in s.calls && IsReaders(a) && a.c != c
    ensures c in Next(s, a).calls && Next(s, a).calls[c] == s.calls[c]
  {
  }

  lemma ReleaseStaysAt(s: State, a: Action, c: CallId, i: nat)
    requires Enabled(s, a) && c in s.calls && ReturnedOrAt(s.calls[c], i) && IsBy(a, c) && Releases(s.calls[c])
    ensures c in Next(s, a).calls && ReturnedOrAt(Next(s, a).calls[c], i)
  {
  }

  lemma AcquireStaysAt(s: State, a: Action, c: CallId, i: nat)
    requires Enabled(s, a) && c in s.calls && ReturnedOrAt(s.calls[c], i) && IsBy(a, c) && !Releases(s.calls[c])
    ensures c in Next(s, a).calls && ReturnedOrAt(Next(s, a).calls[c], i)
    ensures Returned(s.calls[c]) ==> Next(s, a).calls[c] == s.calls[c]
  {
  }

  /** While a call holds a slot, no other call and no writer changes it. */
  lemma OthersLeaveSlot(s: State, a: Action, c: CallId)
    requires SlotsOk(s) && CallsOk(s) && c in s.calls && Holds(s.calls[c]) && Enabled(s, a) && NoWrap(Next(s, a))
    ensures var i := SlotOf(s.calls[c]);
      i < |s.slots| && i < |Next(s, a).slots| && (Next(s, a).slots[i] != s.slots[i] ==> IsBy(a, c))
  {
    OwnerFacts(s, c);
    StepLater(s, a);
    var i := SlotOf(s.calls[c]);
    if Next(s, a).slots[i] != s.slots[i] {
      ChangesOwnSlot(s, a, i);
      assert CallOk(s, a.c, s.calls[a.c]);
    }
  }

  lemma {:induction false} HeldSince(run: seq<State>, acts: seq<Action>, t0: nat, t: nat, c: CallId, i: nat)
    requires IsRun(run, acts) && t0 < t < |run| && c in run[t0 + 1].calls && ReturnedOrAt(run[t0 + 1].calls[c], i)
    ensures c in run[t].calls && ReturnedOrAt(run[t].calls[c], i)
    decreases t
  {
    if t0 + 1 < t {
      HeldSince(run, acts, t0, t - 1, c, i);
      assert StepAt(run, acts, t - 1);
      StaysAt(run[t - 1], acts[t - 1], c, i);
    }
  }

  lemma {:induction false} ReturnedStays(run: seq<State>, acts: seq<Action>, t: nat, t1: nat, c: CallId)
    requires IsRun(run, acts) && t <= t1 < |run| && c in run[t].calls && Returned(run[t].calls[c])
    ensures c in run[t1].calls && Returned(run[t1].calls[c])
    decreases t1
  {
    if t < t1 {
      ReturnedStays(run, acts, t, t1 - 1, c);
      assert StepAt(run, acts, t1 - 1);
      StaysAt(run[t1 - 1], acts[t1 - 1], c, 0);
    }
  }

  /** In any run, a cursor_init that claimed slot `i` at `t0` and gives it back at `t1`: the slot
      is then as it was before the claim, nobody else changed it in between, and the call itself
      changed no other slot. */
  lemma FailedInitRestores(run: seq<State>, acts: seq<Action>, t0: nat, t1: nat, c: CallId, i: nat)
    requires IsRun(run, acts) && t0 < t1 < |acts| && NoWrap(run[t1 + 1])
    requires acts[t0] == ClaimStep(c) && c in run[t0 + 1].calls && run[t0 + 1].calls[c] == Won(i)
    requires acts[t1] == ClearInUse(c)
    ensures i < |run[t0].slots| <= |run[t1 + 1].slots| && SameCell(run[t0].slots[i], run[t1 + 1].slots[i])
    ensures forall t :: t0 < t <= t1 ==> OnlyBy(run, acts, t, c, i)
  {
    RunLater(run, acts, t0, t1 + 1);
    assert StepAt(run, acts, t0) && StepAt(run, acts, t1);
    ClaimedWasClear(run, acts, t0, t1, c, i);
    HeldBetween(run, acts, t0, t1, t1, c, i);
    ReleasedIsClear(run[t1], c, i);
    forall t | t0 < t <= t1 ensures OnlyBy(run, acts, t, c, i) {
      HeldBetween(run, acts, t0, t, t1, c, i);
      RunLater(run, acts, t + 1, t1 + 1);
      LaterNoWrap(run[t + 1], run[t1 + 1]);
      HeldStep(run, acts, t, c, i);
    }
  }

  lemma ClaimedWasClear(run: seq<State>, acts: seq<Action>, t0: nat, t1: nat, c: CallId, i: nat)
    requires IsRun(run, acts) && t0 < t1 < |acts| && NoWrap(run[t1 + 1])
    requires acts[t0] == ClaimStep(c) && c in run[t0 + 1].calls && run[t0 + 1].calls[c] == Won(i)
    ensures i < |run[t0].slots| && !run[t0].slots[i].inUse && Clear(run[t0].slots[i])
  {
    assert StepAt(run, acts, t0);
    StableBefore(run, acts, t0, t1 + 1);
    assert SlotOk(run[t0].calls, i, run[t0].slots[i]);
  }

  lemma ReleasedIsClear(s: State, c: CallId, i: nat)
    requires SlotsOk(s) && CallsOk(s) && Enabled(s, ClearInUse(c)) && SlotOf(s.calls[c]) == i
    ensures var s' := Next(s, ClearInUse(c)); i < |s'.slots| && !s'.slots[i].inUse && Clear(s'.slots[i])
  {
    OwnerFacts(s, c);
  }

  /** From its claim until it gives the slot back, the call holds it. */
  lemma HeldBetween(run: seq<State>, acts: seq<Action>, t0: nat, t: nat, t1: nat, c: CallId, i: nat)
    requires IsRun(run, acts) && t0 < t <= t1 < |acts| && NoWrap(run[t1 + 1])
    requires c in run[t0 + 1].calls && run[t0 + 1].calls[c] == Won(i) && acts[t1] == ClearInUse(c)
    ensures SlotsOk(run[t]) && CallsOk(run[t])
    ensures c in run[t].calls && Holds(run[t].calls[c]) && SlotOf(run[t].calls[c]) == i
  {
    HeldSince(run, acts, t0, t, c, i);
    assert StepAt(run, acts, t1);
    if Returned(run[t].calls[c]) {
      ReturnedStays(run, acts, t, t1, c);
    }
    StableBefore(run, acts, t, t1 + 1);
  }

  lemma StableBefore(run: seq<State>, acts: seq<Action>, t: nat, u: nat)
    requires IsRun(run, acts) && t <= u < |run| && NoWrap(run[u])
    ensures Inv(run[t])
  {
    RunLater(run, acts, t, u);
    LaterNoWrap(run[t], run[u]);
    RunInv(run, acts, t);
  }

  /** The t-th step changes slot `i` only if it is by `c`, and if it is by `c` no other slot. */
  ghost predicate OnlyBy(run: seq<State>, acts: seq<Action>, t: nat, c: CallId, i: nat)
    requires |run| == |acts| + 1 && t < |acts|
  {
    && |run[t].slots| <= |run[t + 1].slots|
    && forall j :: 0 <= j < |run[t].slots| && run[t + 1].slots[j] != run[t].slots[j] ==> (j == i <==> IsBy(acts[t], c))
  }

  lemma HeldStep(run: seq<State>, acts: seq<Action>, t: nat, c: CallId, i: nat)
    requires IsRun(run, acts) && t < |acts| && SlotsOk(run[t]) && CallsOk(run[t]) && NoWrap(run[t + 1])
    requires c in run[t].calls && Holds(run[t].calls[c]) && SlotOf(run[t].calls[c]) == i
    ensures OnlyBy(run, acts, t, c, i)
  {
    assert StepAt(run, acts, t);
    StepLater(run[t], acts[t]);
    OthersLeaveSlot(run[t], acts[t], c);
    forall j | 0 <= j < |run[t].slots| && run[t + 1].slots[j] != run[t].slots[j]
      ensures j == i <==> IsBy(acts[t], c)
    {
      ChangesOwnSlot(run[t], acts[t], j);
    }
  }

  // ------------------------------------------------------------------------- counting slots

  function InUse(slots: seq<Slot>): nat {
    if slots == [] then 0 else (if slots[0].inUse then 1 else 0) + InUse(slots[1..])
  }

  function Inits(slots: seq<Slot>): nat {
    if slots == [] then 0 else slots[0].log.inits + Inits(slots[1..])
  }

  function Finis(slots: seq<Slot>): nat {
    if slots == [] then 0 else slots[0].log.finis + Finis(slots[1..])
  }

  /** A free slot shows no pointer. */
  lemma FreeSlotIsClear(s: State, i: nat)
    requires Reachable(s) && i < |s.slots| && !s.slots[i].inUse
    ensures s.slots[i].hazard == 0 && s.slots[i].snapshot == 0
  {
    ReachableInv(s);
    assert SlotOk(s.calls, i, s.slots[i]);
  }

  /** When no call is in flight, slots in use are successful inits less effective finis. */
  lemma SlotsAccountedFor(s: State)
    requires Reachable(s) && forall c :: c in s.calls ==> Returned(s.calls[c])
    ensures InUse(s.slots) == Inits(s.slots) - Finis(s.slots)
  {
    ReachableInv(s);
    forall i | 0 <= i < |s.slots|
      ensures s.slots[i].log.inits == s.slots[i].log.finis + if s.slots[i].inUse then 1 else 0
    {
      assert SlotOk(s.calls, i, s.slots[i]);
    }
    SumsAgree(s.slots);
  }

  lemma {:induction false} SumsAgree(slots: seq<Slot>)
    requires forall i :: 0 <= i < |slots| ==>
      slots[i].log.inits == slots[i].log.finis + if slots[i].inUse then 1 else 0
    ensures InUse(slots) == Inits(slots) - Finis(slots)
  {
    if slots != [] {
      SumsAgree(slots[1..]);
    }
  }
}

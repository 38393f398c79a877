/** Every step of a reader's call keeps the invariant. */
module HazardReader {
  import opened Limits
  import opened Hazard
  import opened HazardInvariant

  /** A call that refers to slot `i` owns no other slot. */
  lemma OwnsOnlyItsSlot(s: State, c: CallId, j: nat)
    requires SlotsOk(s) && c in s.calls && j < |s.slots| && OwnedBy(s.slots[j], c)
    ensures SlotOf(s.calls[c]) == j
  {
    assert OwnerOk(j, s.slots[j], s.calls[c]);
  }

  /** The slots a step of `c` does not write stay as they should be. */
  lemma OtherSlots(s: State, c: CallId, call: Call, i: nat, sl: Slot)
    requires SlotsOk(s) && c in s.calls && SlotOf(s.calls[c]) == i < |s.slots|
    requires SlotOk(s.calls[c := call], i, sl)
    ensures SlotsOk(GotoSet(s, c, call, i, sl))
  {
    forall j | 0 <= j < |s.slots| && j != i ensures SlotOk(s.calls[c := call], j, s.slots[j]) {
      assert SlotOk(s.calls, j, s.slots[j]);
      if OwnedBy(s.slots[j], c) {
        OwnsOnlyItsSlot(s, c, j);
      }
    }
  }

  /** Calls other than `c` are undisturbed if those on slot `i` are. */
  lemma OtherCalls(s: State, c: CallId, call: Call, i: nat, sl: Slot)
    requires SlotsOk(s) && CallsOk(s) && c in s.calls && SlotOf(s.calls[c]) == i < |s.slots|
    requires CallOk(GotoSet(s, c, call, i, sl), c, call)
    requires forall d :: d in s.calls && d != c && SlotOf(s.calls[d]) == i ==>
               CallOk(GotoSet(s, c, call, i, sl), d, s.calls[d])
    ensures CallsOk(GotoSet(s, c, call, i, sl))
  {
    var s' := GotoSet(s, c, call, i, sl);
    forall d | d in s.calls && d != c && SlotOf(s.calls[d]) != i ensures CallOk(s', d, s.calls[d]) {
      assert CallOk(s, d, s.calls[d]);
      var j := SlotOf(s.calls[d]);
      if j < |s.slots| && OwnedBy(s.slots[j], c) {
        OwnsOnlyItsSlot(s, c, j);
      }
    }
  }

  /** The rest of the invariant, for a step that writes one slot. */
  lemma OtherParts(s: State, c: CallId, call: Call, i: nat, sl: Slot)
    requires AcquiresOk(s) && GuardsOk(s) && ScanOk(s) && HeapOk(s) && FreedOk(s) && SerialOk(s)
    requires i < |s.slots| && AcquireOk(s.versions, call) && GuardOk(s.heap, sl)
    requires sl.log.view != 0 ==> sl.hazard == s.current || (s.slots[i].log.view != 0 && sl.hazard == s.slots[i].hazard)
    ensures var s' := GotoSet(s, c, call, i, sl);
      AcquiresOk(s') && GuardsOk(s') && ScanOk(s') && HeapOk(s') && FreedOk(s') && SerialOk(s')
  {
    MemoryPart(s, GotoSet(s, c, call, i, sl));
  }

  /** A step by the call that owns slot `i`, before and after, and that is not a walk. */
  lemma OwnerStep(s: State, c: CallId, call: Call, i: nat, sl: Slot)
    requires Inv(s) && c in s.calls && Holds(s.calls[c]) && SlotOf(s.calls[c]) == i == SlotOf(call)
    requires i < |s.slots| && OwnedBy(sl, c) && SlotOk(s.calls[c := call], i, sl)
    requires AcquireOk(s.versions, call) && GuardOk(s.heap, sl)
    requires Holds(call) || (call.Walking? && CursorOk(sl, c, call))
    requires var was := s.slots[i].log;
      || (sl.log.bumps == was.bumps && (sl.log.view == 0 || was.bumps % 2 == 1 || (sl.log.view == was.view && sl.hazard == s.slots[i].hazard)))
      || (sl.log.bumps == was.bumps + 1 && sl.log.view == 0)
    requires sl.log.view != 0 ==> sl.hazard == s.current || (s.slots[i].log.view != 0 && sl.hazard == s.slots[i].hazard)
    ensures Inv(GotoSet(s, c, call, i, sl))
  {
    var s' := GotoSet(s, c, call, i, sl);
    assert CallOk(s, c, s.calls[c]);
    OtherSlots(s, c, call, i, sl);
    forall d | d in s.calls && d != c && SlotOf(s.calls[d]) == i ensures CallOk(s', d, s.calls[d]) {
      assert CallOk(s, d, s.calls[d]);
    }
    OtherCalls(s, c, call, i, sl);
    OtherParts(s, c, call, i, sl);
  }

  lemma GotoOnly(s: State, c: CallId, call: Call, i: nat)
    requires i < |s.slots|
    ensures GotoSet(s, c, call, i, s.slots[i]) == Goto(s, c, call)
  {
    assert s.slots[i := s.slots[i]] == s.slots;
  }

  /** The facts about a call that holds a slot, and about that slot. */
  lemma OwnerFacts(s: State, c: CallId)
    requires SlotsOk(s) && CallsOk(s) && c in s.calls && Holds(s.calls[c])
    ensures var i := SlotOf(s.calls[c]);
      i < |s.slots| && OwnedBy(s.slots[i], c) && SlotOk(s.calls, i, s.slots[i]) && OwnerOk(i, s.slots[i], s.calls[c])
  {
    assert CallOk(s, c, s.calls[c]);
  }

  lemma BumpWraps(b: nat)
    ensures (b % U64 + 1) % U64 == (b + 1) % U64
    ensures b % 2 == 0 ==> (b + 1) % U64 % 2 == 1
  {
  }

  lemma KeepBump(s: State, c: CallId)
    requires Inv(s) && Enabled(s, Bump(c))
    ensures Inv(Next(s, Bump(c)))
  {
    OwnerFacts(s, c);
    var s' := Next(s, Bump(c));
    var i := SlotOf(s.calls[c]);
    BumpWraps(s.slots[i].log.bumps);
    OwnerStep(s, c, s'.calls[c], i, s'.slots[i]);
  }

  lemma KeepLoadCurrent(s: State, c: CallId, v: nat)
    requires Inv(s) && Enabled(s, LoadCurrent(c, v))
    ensures Inv(Next(s, LoadCurrent(c, v)))
  {
    OwnerFacts(s, c);
    assert AcquireOk(s.versions, s.calls[c]);
    var s' := Next(s, LoadCurrent(c, v));
    var i := SlotOf(s.calls[c]);
    GotoOnly(s, c, s'.calls[c], i);
    OwnerStep(s, c, s'.calls[c], i, s.slots[i]);
  }

  lemma KeepStoreHazard(s: State, c: CallId)
    requires Inv(s) && Enabled(s, StoreHazard(c))
    ensures Inv(Next(s, StoreHazard(c)))
  {
    OwnerFacts(s, c);
    assert AcquireOk(s.versions, s.calls[c]);
    var s' := Next(s, StoreHazard(c));
    var i := SlotOf(s.calls[c]);
    OwnerStep(s, c, s'.calls[c], i, s'.slots[i]);
  }

  lemma KeepRecheck(s: State, c: CallId)
    requires Inv(s) && Enabled(s, Recheck(c))
    ensures Inv(Next(s, Recheck(c)))
  {
    OwnerFacts(s, c);
    assert AcquireOk(s.versions, s.calls[c]);
    var s' := Next(s, Recheck(c));
    var i := SlotOf(s.calls[c]);
    if s.current != s.calls[c].p {
      GotoOnly(s, c, s'.calls[c], i);
    }
    OwnerStep(s, c, s'.calls[c], i, s'.slots[i]);
  }

  lemma KeepStoreNull(s: State, c: CallId)
    requires Inv(s) && Enabled(s, StoreNull(c))
    ensures Inv(Next(s, StoreNull(c)))
  {
    OwnerFacts(s, c);
    var s' := Next(s, StoreNull(c));
    var i := SlotOf(s.calls[c]);
    OwnerStep(s, c, s'.calls[c], i, s'.slots[i]);
  }

  lemma KeepInstall(s: State, c: CallId)
    requires Inv(s) && Enabled(s, Install(c))
    ensures Inv(Next(s, Install(c)))
  {
    OwnerFacts(s, c);
    assert AcquireOk(s.versions, s.calls[c]);
    var s' := Next(s, Install(c));
    var i := SlotOf(s.calls[c]);
    assert GuardOk(s.heap, s.slots[i]);
    OwnerStep(s, c, s'.calls[c], i, s'.slots[i]);
  }

  lemma KeepClearHazard(s: State, c: CallId)
    requires Inv(s) && Enabled(s, ClearHazard(c))
    ensures Inv(Next(s, ClearHazard(c)))
  {
    OwnerFacts(s, c);
    var s' := Next(s, ClearHazard(c));
    var i := SlotOf(s.calls[c]);
    OwnerStep(s, c, s'.calls[c], i, s'.slots[i]);
  }

  lemma KeepClearSnapshot(s: State, c: CallId)
    requires Inv(s) && Enabled(s, ClearSnapshot(c))
    ensures Inv(Next(s, ClearSnapshot(c)))
  {
    OwnerFacts(s, c);
    var s' := Next(s, ClearSnapshot(c));
    var i := SlotOf(s.calls[c]);
    OwnerStep(s, c, s'.calls[c], i, s'.slots[i]);
  }

  lemma KeepClearInUse(s: State, c: CallId)
    requires Inv(s) && Enabled(s, ClearInUse(c))
    ensures Inv(Next(s, ClearInUse(c)))
  {
    OwnerFacts(s, c);
    var s' := Next(s, ClearInUse(c));
    var i := SlotOf(s.calls[c]);
    OtherSlots(s, c, Ended, i, s'.slots[i]);
    forall d | d in s.calls && d != c && SlotOf(s.calls[d]) == i ensures CallOk(s', d, s.calls[d]) {
      assert CallOk(s, d, s.calls[d]);
    }
    OtherCalls(s, c, Ended, i, s'.slots[i]);
    OtherParts(s, c, Ended, i, s'.slots[i]);
  }

  predicate OwnsNothing(call: Call) {
    call.Scanning? || call.Ended? || call.Exhausted? || (call.Releasing? && !call.own)
  }

  lemma IdleSlots(s: State, c: CallId, call: Call)
    requires SlotsOk(s) && (c in s.calls ==> OwnsNothing(s.calls[c]))
    ensures SlotsOk(Goto(s, c, call))
    ensures forall i :: 0 <= i < |s.slots| && s.slots[i].inUse ==> s.slots[i].log.owner != c
  {
    forall j | 0 <= j < |s.slots|
      ensures SlotOk(s.calls[c := call], j, s.slots[j])
      ensures s.slots[j].inUse ==> s.slots[j].log.owner != c
    {
      assert SlotOk(s.calls, j, s.slots[j]);
    }
  }

  lemma IdleCalls(s: State, c: CallId, call: Call)
    requires CallsOk(s) && CallOk(Goto(s, c, call), c, call)
    requires forall i :: 0 <= i < |s.slots| && s.slots[i].inUse ==> s.slots[i].log.owner != c
    ensures CallsOk(Goto(s, c, call))
  {
    forall d | d in s.calls && d != c ensures CallOk(Goto(s, c, call), d, s.calls[d]) {
      assert CallOk(s, d, s.calls[d]);
    }
  }

  /** A call that owns nothing moves on to something that owns nothing. */
  lemma IdleStep(s: State, c: CallId, call: Call)
    requires Inv(s) && (c in s.calls ==> OwnsNothing(s.calls[c]))
    requires OwnsNothing(call) && CallOk(Goto(s, c, call), c, call)
    ensures Inv(Goto(s, c, call))
  {
    IdleSlots(s, c, call);
    IdleCalls(s, c, call);
    MemoryPart(s, Goto(s, c, call));
  }

  lemma KeepClaimStep(s: State, c: CallId)
    requires Inv(s) && Enabled(s, ClaimStep(c))
    ensures Inv(Next(s, ClaimStep(c)))
  {
    if s.calls[c].seen && !s.slots[s.calls[c].at].inUse {
      ClaimWins(s, c);
    } else {
      ClaimMovesOn(s, c);
    }
  }

  lemma ClaimMovesOn(s: State, c: CallId)
    requires Inv(s) && Enabled(s, ClaimStep(c)) && (s.calls[c].seen ==> s.slots[s.calls[c].at].inUse)
    ensures Inv(ClaimNext(s, c))
  {
    var at, seen := s.calls[c].at, s.calls[c].seen;
    if !seen && |s.slots| <= at {
      assert ClaimNext(s, c) == Goto(s, c, Exhausted);
      IdleStep(s, c, Exhausted);
    } else {
      var at', seen' := ScanTarget(s, at, seen);
      assert ClaimNext(s, c) == Goto(s, c, Scanning(at', seen'));
      ScanMoves(s, c, at', seen');
    }
  }

  /** Where a scan that does not stop at `at` continues. */
  lemma ScanTarget(s: State, at: nat, seen: bool) returns (at': nat, seen': bool)
    requires PoolOk(s) && at < |s.slots|
    ensures seen' ==> at' < |s.slots|
    ensures at' == if seen then at + 1 else at
    ensures seen' == (!seen || (at + 1) % SLOT_CHUNK != 0)
  {
    at' := if seen then at + 1 else at;
    seen' := !seen || (at + 1) % SLOT_CHUNK != 0;
    if seen && seen' {
      NextInChunk(s, at);
    }
  }

  lemma ScanMoves(s: State, c: CallId, at: nat, seen: bool)
    requires Inv(s) && c in s.calls && s.calls[c].Scanning? && (seen ==> at < |s.slots|)
    ensures Inv(Goto(s, c, Scanning(at, seen)))
  {
    IdleStep(s, c, Scanning(at, seen));
  }

  lemma ClaimWins(s: State, c: CallId)
    requires Inv(s) && Enabled(s, ClaimStep(c)) && s.calls[c].seen && !s.slots[s.calls[c].at].inUse
    ensures Inv(Next(s, ClaimStep(c)))
  {
    var s' := Next(s, ClaimStep(c));
    var i := s.calls[c].at;
    assert SlotOk(s.calls, i, s.slots[i]);
    OtherSlots(s, c, Won(i), i, s'.slots[i]);
    forall d | d in s.calls && d != c && SlotOf(s.calls[d]) == i ensures CallOk(s', d, s.calls[d]) {
      assert CallOk(s, d, s.calls[d]);
    }
    OtherCalls(s, c, Won(i), i, s'.slots[i]);
    OtherParts(s, c, Won(i), i, s'.slots[i]);
  }

  lemma KeepReleaseCas(s: State, c: CallId)
    requires Inv(s) && Enabled(s, ReleaseCas(c)) && NoWrap(Next(s, ReleaseCas(c)))
    ensures Inv(Next(s, ReleaseCas(c)))
  {
    var i := SlotOf(s.calls[c]);
    if s.calls[c].own {
      OwnReleaseWins(s, c);
    } else if s.slots[i].claimSeq == s.calls[c].nonce {
      FiniWins(s, c);
    } else {
      IdleStep(s, c, Ended);
    }
  }

  lemma OwnReleaseWins(s: State, c: CallId)
    requires Inv(s) && Enabled(s, ReleaseCas(c)) && NoWrap(Next(s, ReleaseCas(c))) && s.calls[c].own
    ensures Inv(Next(s, ReleaseCas(c)))
  {
    var s', i := Next(s, ReleaseCas(c)), SlotOf(s.calls[c]);
    OwnerFacts(s, c);
    WinsGrow(s, s', i, c);
    OwnerStep(s, c, s'.calls[c], i, s'.slots[i]);
  }

  lemma WinsGrow(s: State, s': State, i: nat, c: CallId)
    requires Enabled(s, ReleaseCas(c)) && s' == Next(s, ReleaseCas(c)) && i == SlotOf(s.calls[c])
    requires NoWrap(s') && SlotsOk(s) && s.slots[i].claimSeq == s.calls[c].nonce && s.calls[c].nonce % 2 == 1
    ensures s.slots[i].log.bumps < U64 && s'.slots[i].claimSeq == s'.slots[i].log.bumps % U64
    ensures s'.slots[i].log.wins == Odds(s'.slots[i].log.bumps / 2)
  {
    assert SlotOk(s.calls, i, s.slots[i]);
    assert s'.slots[i].log.bumps <= U64 + 1;
  }

  /** The winning fini takes the slot over from the walk, whose view stays guarded. */
  lemma FiniWins(s: State, c: CallId)
    requires Inv(s) && Enabled(s, ReleaseCas(c)) && NoWrap(Next(s, ReleaseCas(c)))
    requires !s.calls[c].own && s.slots[SlotOf(s.calls[c])].claimSeq == s.calls[c].nonce
    ensures Inv(Next(s, ReleaseCas(c)))
  {
    var s' := Next(s, ReleaseCas(c));
    var i := SlotOf(s.calls[c]);
    assert CallOk(s, c, s.calls[c]);
    assert SlotOk(s.calls, i, s.slots[i]);
    WinsGrow(s, s', i, c);
    assert GuardOk(s.heap, s.slots[i]);
    OtherSlots(s, c, s'.calls[c], i, s'.slots[i]);
    FiniSparesCalls(s, c);
    OtherParts(s, c, s'.calls[c], i, s'.slots[i]);
  }

  lemma FiniSparesCalls(s: State, c: CallId)
    requires SlotsOk(s) && CallsOk(s) && Enabled(s, ReleaseCas(c)) && NoWrap(Next(s, ReleaseCas(c)))
    requires !s.calls[c].own && s.slots[SlotOf(s.calls[c])].claimSeq == s.calls[c].nonce
    ensures CallsOk(Next(s, ReleaseCas(c)))
  {
    var s' := Next(s, ReleaseCas(c));
    var i := SlotOf(s.calls[c]);
    assert CallOk(s, c, s.calls[c]) && SlotOk(s.calls, i, s.slots[i]);
    WinsGrow(s, s', i, c);
    forall d | d in s.calls && d != c && SlotOf(s.calls[d]) == i ensures CallOk(s', d, s.calls[d]) {
      assert CallOk(s, d, s.calls[d]);
    }
    OtherCalls(s, c, s'.calls[c], i, s'.slots[i]);
  }

  lemma KeepBeginInit(s: State, c: CallId)
    requires Inv(s) && Enabled(s, BeginInit(c))
    ensures Inv(Next(s, BeginInit(c)))
  {
    IdleStep(s, c, Scanning(0, false));
  }

  lemma KeepBeginFini(s: State, c: CallId, w: CallId)
    requires Inv(s) && Enabled(s, BeginFini(c, w))
    ensures Inv(Next(s, BeginFini(c, w)))
  {
    assert CallOk(s, w, s.calls[w]);
    IdleStep(s, c, Releasing(s.calls[w].claim.slot, s.calls[w].claim.nonce, false));
  }

  lemma KeepWalkRead(s: State, c: CallId)
    requires Inv(s) && Enabled(s, WalkRead(c))
    ensures Inv(Next(s, WalkRead(c)))
  {
    var i := SlotOf(s.calls[c]);
    assert CallOk(s, c, s.calls[c]);
    assert SlotOk(s.calls, i, s.slots[i]) && GuardOk(s.heap, s.slots[i]);
    assert AcquireOk(s.versions, s.calls[c]);
  }
}

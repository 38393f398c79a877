/** Why the theorems bound the bumps of a claim sequence, and why just there: after 2^63 claims of
    one slot the next has a nonce that a long dead cursor also has, so that both are live, and the
    fini of the dead one, which makes 2^64 + 2 bumps, releases a slot that another claim holds.
    This builds the run. */
module HazardWrap {
  import opened Limits
  import opened Hazard
  import opened HazardSafety

  lemma CanStep(s: State, a: Action)
    requires Can(s) && Enabled(s, a)
    ensures Can(Next(s, a))
  {
    var run, acts :| IsRun(run, acts) && run[|run| - 1] == s;
    ExtendRun(run, acts, a);
    var run' := run + [Next(s, a)];
    assert IsRun(run', acts + [a]) && run'[|run'| - 1] == Next(s, a);
  }

  lemma CanInit()
    ensures Can(INIT)
  {
    assert IsRun([INIT], []);
  }

  /** One chunk of slots, one published snapshot at address 1, an idle writer, and the cursor
      of call 0, which claimed slot 0 first. Only slot 0 is ever used. */
  ghost predicate Stage(s: State) {
    && |s.slots| == 16 && (forall j :: 1 <= j < 16 ==> s.slots[j].hazard == 0 && s.slots[j].log.bumps == 0)
    && s.current == 1 && s.retired == [] && s.heap.Keys == {1} && s.writer == Idle && !s.fault
    && |s.versions| == 2 && s.versions[0].addr == 0 && s.versions[1].addr == 1
    && 0 in s.calls && s.calls[0].Walking? && s.calls[0].claim.slot == 0 && s.calls[0].claim.nonce == 1
  }

  /** A step of a call other than 0 that touches slot 0 at most. */
  lemma Do(s: State, a: Action, c: CallId, call: Call, sl: Slot) returns (s': State)
    requires Can(s) && Stage(s) && Enabled(s, a) && c != 0
    requires Next(s, a) == GotoSet(s, c, call, 0, sl) || (Next(s, a) == Goto(s, c, call) && sl == s.slots[0])
    ensures Can(s') && Stage(s') && c in s'.calls && s'.calls[c] == call && s'.slots[0] == sl
    ensures forall d :: d in s.calls && d != c ==> d in s'.calls && s'.calls[d] == s.calls[d]
  {
    s' := Next(s, a);
    CanStep(s, a);
  }

  /** Slot 0 is free and its sequence is `v`, after `b` bumps. */
  ghost predicate FreeAt(s: State, v: nat, b: nat) {
    && |s.slots| > 0 && !s.slots[0].inUse && s.slots[0].hazard == 0
    && s.slots[0].claimSeq == v < U64 && s.slots[0].log.bumps == b
  }

  /** A call that claims slot 0 and bumps its sequence. */
  lemma ClaimZero(s: State, c: CallId, v: nat, b: nat) returns (s': State)
    requires Can(s) && Stage(s) && FreeAt(s, v, b) && c !in s.calls
    ensures Can(s') && Stage(s') && c in s'.calls && s'.calls[c].Loading?
    ensures s'.calls[c].claim.slot == 0 && s'.calls[c].claim.nonce == (v + 1) % U64
    ensures s'.slots[0].inUse && s'.slots[0].hazard == 0 && s'.slots[0].claimSeq == (v + 1) % U64
    ensures s'.slots[0].log.bumps == b + 1
    ensures forall d :: d in s.calls ==> d in s'.calls && s'.calls[d] == s.calls[d]
  {
    var s1 := Do(s, BeginInit(c), c, Scanning(0, false), s.slots[0]);
    var s2 := Do(s1, ClaimStep(c), c, Scanning(0, true), s1.slots[0]);
    var s3 := Do(s2, ClaimStep(c), c, Won(0), Next(s2, ClaimStep(c)).slots[0]);
    s' := Do(s3, Bump(c), c, Next(s3, Bump(c)).calls[c], Next(s3, Bump(c)).slots[0]);
  }

  /** From a won release compare-exchange to the free slot. */
  lemma FinishRelease(s: State, c: CallId, v: nat, b: nat) returns (s': State)
    requires Can(s) && Stage(s) && c != 0 && c in s.calls && s.calls[c].ClearingHazard? && s.calls[c].slot == 0
    requires s.slots[0].claimSeq == v < U64 && s.slots[0].log.bumps == b
    ensures Can(s') && Stage(s') && FreeAt(s', v, b)
  {
    var n := s.calls[c].nonce;
    var s1 := Do(s, ClearHazard(c), c, ClearingSnapshot(0, n), Next(s, ClearHazard(c)).slots[0]);
    s' := FreeSlot(s1, c, n, v, b);
  }

  lemma FreeSlot(s: State, c: CallId, n: nat, v: nat, b: nat) returns (s': State)
    requires Can(s) && Stage(s) && c != 0 && c in s.calls && s.calls[c] == ClearingSnapshot(0, n)
    requires s.slots[0].claimSeq == v < U64 && s.slots[0].log.bumps == b && s.slots[0].hazard == 0
    ensures Can(s') && Stage(s') && FreeAt(s', v, b)
  {
    var s1 := Do(s, ClearSnapshot(c), c, ClearingInUse(0, n), Next(s, ClearSnapshot(c)).slots[0]);
    s' := Do(s1, ClearInUse(c), c, Ended, Next(s1, ClearInUse(c)).slots[0]);
  }

  lemma SeeNull(s: State, c: CallId, n: nat) returns (s': State)
    requires Can(s) && Stage(s) && c != 0 && c in s.calls && s.calls[c].Loading?
    requires s.calls[c].claim.slot == 0 && s.calls[c].claim.nonce == n == s.slots[0].claimSeq
    ensures Can(s') && Stage(s') && c in s'.calls && s'.calls[c] == Releasing(0, n, true)
    ensures s'.slots[0].claimSeq == n && s'.slots[0].log.bumps == s.slots[0].log.bumps
  {
    var call := Next(s, LoadCurrent(c, 0)).calls[c];
    var s2 := Do(s, LoadCurrent(c, 0), c, call, s.slots[0]);
    s' := Do(s2, StoreNull(c), c, Releasing(0, n, true), Next(s2, StoreNull(c)).slots[0]);
  }

  /** A stale load finds null, and the call releases its own claim. */
  lemma GiveUp(s: State, c: CallId, n: nat) returns (s': State)
    requires Can(s) && Stage(s) && c != 0 && c in s.calls && s.calls[c].Loading?
    requires s.calls[c].claim.slot == 0 && s.calls[c].claim.nonce == n == s.slots[0].claimSeq
    ensures Can(s') && Stage(s') && c in s'.calls && s'.calls[c] == ClearingHazard(0, n)
    ensures s'.slots[0].claimSeq == (n + 1) % U64 && s'.slots[0].log.bumps == s.slots[0].log.bumps + 1
  {
    var s3 := SeeNull(s, c, n);
    s' := Do(s3, ReleaseCas(c), c, ClearingHazard(0, n), Next(s3, ReleaseCas(c)).slots[0]);
  }

  /** One claim and release of slot 0. */
  lemma Cycle(s: State, v: nat, b: nat) returns (s': State)
    requires Can(s) && Stage(s) && FreeAt(s, v, b)
    ensures Can(s') && Stage(s') && FreeAt(s', (v + 2) % U64, b + 2)
  {
    var c := FreshId(s.calls);
    var s1 := ClaimZero(s, c, v, b);
    var n := (v + 1) % U64;
    var s2 := GiveUp(s1, c, n);
    assert (n + 1) % U64 == (v + 2) % U64;
    s' := FinishRelease(s2, c, (v + 2) % U64, b + 2);
  }

  lemma FreshId(calls: map<CallId, Call>) returns (c: CallId)
    ensures c !in calls && c != 0
  {
    c := 1 + Above(calls.Keys);
  }

  ghost function Above(s: set<CallId>): (n: nat)
    ensures forall c :: c in s ==> c <= n
  {
    if s == {} then 0
    else
      var c :| c in s;
      var n := Above(s - {c});
      assert forall d :: d in s ==> d == c || d in s - {c};
      if c < n then n else c
  }

  lemma {:induction false} Cycles(s: State, v: nat, b: nat, n: nat) returns (s': State)
    requires Can(s) && Stage(s) && FreeAt(s, v, b)
    ensures Can(s') && Stage(s') && FreeAt(s', (v + 2 * n) % U64, b + 2 * n)
    decreases n
  {
    if n == 0 {
      s' := s;
    } else {
      var s1 := Cycle(s, v, b);
      s' := Cycles(s1, (v + 2) % U64, b + 2, n - 1);
      WrapTwice(v, n);
    }
  }

  lemma WrapTwice(v: nat, n: nat)
    requires n > 0 && v < U64
    ensures ((v + 2) % U64 + 2 * (n - 1)) % U64 == (v + 2 * n) % U64
  {
    if v + 2 < U64 {
      assert (v + 2) % U64 == v + 2;
    } else {
      assert (v + 2) % U64 == v + 2 - U64;
    }
  }

  // --------------------------------------------------------------------------- the first claim

  /** One chunk of slots, and a first snapshot that is built and not yet published. */
  lemma Prepare() returns (s: State)
    ensures Can(s) && s.slots == seq(16, _ => FRESH_SLOT) && s.calls == map[] && s.current == 0
    ensures s.retired == [] && s.heap.Keys == {1} && s.writer.Boxed? && s.writer.box == 1 && !s.fault
    ensures s.versions == INIT.versions
  {
    var s3 := FirstLoad();
    CanStep(s3, Build(1));
    s := Next(s3, Build(1));
  }

  lemma FirstLoad() returns (s: State)
    ensures Can(s) && s == INIT.(slots := seq(16, _ => FRESH_SLOT), writer := Loaded([], 0))
  {
    CanInit();
    CanStep(INIT, Grow);
    var s1 := Next(INIT, Grow);
    CanStep(s1, Lock([]));
    var s2 := Next(s1, Lock([]));
    CanStep(s2, LoadForClone);
    s := Next(s2, LoadForClone);
    assert s.slots == seq(16, _ => FRESH_SLOT);
  }

  /** Before any claim: one chunk and one published snapshot. */
  lemma Publish() returns (s: State)
    ensures Can(s) && s.slots == seq(16, _ => FRESH_SLOT) && s.calls == map[] && s.current == 1
    ensures s.retired == [] && s.heap.Keys == {1} && s.writer == Idle && !s.fault
    ensures |s.versions| == 2 && s.versions[0].addr == 0 && s.versions[1].addr == 1
  {
    var s4 := Prepare();
    CanStep(s4, Swap);
    var s5 := Next(s4, Swap);
    CanStep(s5, Push);
    var s6 := Next(s5, Push);
    CanStep(s6, NextRetired);
    s := Next(s6, NextRetired);
  }

  /** As `Do`, before call 0 has a cursor. */
  ghost predicate Prologue(s: State) {
    && |s.slots| == 16 && (forall j :: 1 <= j < 16 ==> s.slots[j].hazard == 0 && s.slots[j].log.bumps == 0)
    && s.current == 1 && s.retired == [] && s.heap.Keys == {1} && s.writer == Idle && !s.fault
    && |s.versions| == 2 && s.versions[0].addr == 0 && s.versions[1].addr == 1
  }

  lemma DoFirst(s: State, a: Action, call: Call, sl: Slot) returns (s': State)
    requires Can(s) && Prologue(s) && Enabled(s, a)
    requires Next(s, a) == GotoSet(s, 0, call, 0, sl) || (Next(s, a) == Goto(s, 0, call) && sl == s.slots[0])
    ensures Can(s') && Prologue(s') && 0 in s'.calls && s'.calls[0] == call && s'.slots[0] == sl
  {
    s' := Next(s, a);
    CanStep(s, a);
  }

  lemma FirstClaim() returns (s: State)
    ensures Can(s) && Prologue(s) && 0 in s.calls && s.calls[0].Loading?
    ensures s.calls[0].claim.slot == 0 && s.calls[0].claim.nonce == 1
    ensures s.slots[0].claimSeq == 1 && s.slots[0].log.bumps == 1
  {
    var s0 := Publish();
    var s1 := DoFirst(s0, BeginInit(0), Scanning(0, false), s0.slots[0]);
    var s2 := DoFirst(s1, ClaimStep(0), Scanning(0, true), s1.slots[0]);
    var s3 := DoFirst(s2, ClaimStep(0), Won(0), Next(s2, ClaimStep(0)).slots[0]);
    s := DoFirst(s3, Bump(0), Next(s3, Bump(0)).calls[0], Next(s3, Bump(0)).slots[0]);
  }

  lemma FirstHazard() returns (s: State)
    ensures Can(s) && Prologue(s) && 0 in s.calls && s.calls[0].Rechecking? && s.calls[0].p == 1
    ensures s.calls[0].claim.slot == 0 && s.calls[0].claim.nonce == 1
    ensures s.slots[0].claimSeq == 1 && s.slots[0].log.bumps == 1
  {
    var s0 := FirstClaim();
    var s1 := DoFirst(s0, LoadCurrent(0, 1), Next(s0, LoadCurrent(0, 1)).calls[0], s0.slots[0]);
    s := DoFirst(s1, StoreHazard(0), Next(s1, StoreHazard(0)).calls[0], Next(s1, StoreHazard(0)).slots[0]);
  }

  lemma FirstCursor() returns (s: State)
    ensures Can(s) && Stage(s) && s.slots[0].claimSeq == 1 && s.slots[0].log.bumps == 1
  {
    var s2 := FirstHazard();
    var s3 := DoFirst(s2, Recheck(0), Next(s2, Recheck(0)).calls[0], Next(s2, Recheck(0)).slots[0]);
    s := DoFirst(s3, Install(0), Next(s3, Install(0)).calls[0], Next(s3, Install(0)).slots[0]);
  }

  lemma StartFini(s: State, c: CallId) returns (s': State)
    requires Can(s) && Stage(s) && c !in s.calls
    ensures Can(s') && Stage(s') && c in s'.calls && s'.calls[c] == Releasing(0, 1, false) && s'.slots[0] == s.slots[0]
    ensures forall d :: d in s.calls ==> d in s'.calls && s'.calls[d] == s.calls[d]
  {
    s' := Do(s, BeginFini(c, 0), c, Releasing(0, 1, false), s.slots[0]);
  }

  /** The cursor of call 0 is finished by call `c`, as long as slot 0 shows its nonce. */
  lemma Fini(s: State, c: CallId) returns (s': State)
    requires Can(s) && Stage(s) && c !in s.calls && s.slots[0].claimSeq == 1
    ensures Can(s') && Stage(s') && c in s'.calls && s'.calls[c] == ClearingHazard(0, 1)
    ensures s'.slots[0].claimSeq == 2 && s'.slots[0].log.bumps == s.slots[0].log.bumps + 1
    ensures forall d :: d in s.calls ==> d in s'.calls && s'.calls[d] == s.calls[d]
  {
    var s1 := StartFini(s, c);
    s' := Do(s1, ReleaseCas(c), c, ClearingHazard(0, 1), Next(s1, ReleaseCas(c)).slots[0]);
  }

  // ------------------------------------------------------------------------------ the last claim

  /** A claim with nonce 1, validated, while the cursor of call 0 has that nonce too. */
  lemma Repeat() returns (s: State, d: CallId)
    ensures Can(s) && Stage(s) && d != 0 && d in s.calls && s.calls[d].Validated? && s.calls[d].p == 1
    ensures s.calls[d].claim.slot == 0 && s.slots[0].claimSeq == 1 && s.slots[0].log.bumps == U64 + 1
  {
    var s0 := FirstCursor();
    var c := FreshId(s0.calls);
    var s1 := Fini(s0, c);
    var s2 := FinishRelease(s1, c, 2, 2);
    var half := 0x7fff_ffff_ffff_ffff;
    var s3 := Cycles(s2, 2, 2, half);
    assert (2 + 2 * half) % U64 == 0;
    d := FreshId(s3.calls);
    var s4 := ClaimZero(s3, d, 0, U64);
    s := Revalidate(s4, d);
  }

  /** With one claim more than there are nonces, a slot has two owners. */
  lemma WrapBreaksOwnership()
    ensures exists s, c, d :: Reachable(s) && c != d && Owns(s, c, 0) && Owns(s, d, 0)
  {
    var s, d := Repeat();
    assert Reachable(s) && Owns(s, 0, 0) && Owns(s, d, 0);
  }

  /** The same claim, after the stale fini of call 0's cursor cleared its hazard. */
  lemma Unguard() returns (s: State, d: CallId)
    ensures Can(s) && Stage(s) && d in s.calls && s.calls[d].Validated? && s.calls[d].p == 1
    ensures s.calls[d].claim.slot == 0 && s.slots[0].hazard == 0 && s.slots[0].log.bumps == U64 + 2
  {
    var s5;
    s5, d := Repeat();
    var f := FreshId(s5.calls);
    var s6 := Fini(s5, f);
    s := Do(s6, ClearHazard(f), f, ClearingSnapshot(0, 1), Next(s6, ClearHazard(f)).slots[0]);
  }

  lemma Revalidate(s: State, d: CallId) returns (s': State)
    requires Can(s) && Stage(s) && d != 0 && d in s.calls && s.calls[d].Loading?
    requires s.calls[d].claim.slot == 0 && s.slots[0].claimSeq == 1
    ensures Can(s') && Stage(s') && d in s'.calls && s'.calls[d].Validated? && s'.calls[d].p == 1
    ensures s'.calls[d].claim.slot == 0 && s'.slots[0].claimSeq == 1
    ensures s'.slots[0].log.bumps == s.slots[0].log.bumps
  {
    var s1 := Do(s, LoadCurrent(d, 1), d, Next(s, LoadCurrent(d, 1)).calls[d], s.slots[0]);
    var s2 := Do(s1, StoreHazard(d), d, Next(s1, StoreHazard(d)).calls[d], Next(s1, StoreHazard(d)).slots[0]);
    s' := Do(s2, Recheck(d), d, Next(s2, Recheck(d)).calls[d], Next(s2, Recheck(d)).slots[0]);
  }

  /** A writer replaces and retires the snapshot at address 1. */
  lemma Replace(s: State) returns (s': State)
    requires Can(s) && Stage(s)
    ensures Can(s') && s'.slots == s.slots && s'.calls == s.calls
    ensures s'.retired == [1] && s'.writer == Scan(0, 0, false) && !s'.fault
  {
    CanStep(s, Lock([]));
    var s1 := Next(s, Lock([]));
    CanStep(s1, LoadForClone);
    var s2 := Next(s1, LoadForClone);
    CanStep(s2, Build(2));
    var s3 := Next(s2, Build(2));
    CanStep(s3, Swap);
    var s4 := Next(s3, Swap);
    CanStep(s4, Push);
    var s5 := Next(s4, Push);
    CanStep(s5, NextRetired);
    s' := Next(s5, NextRetired);
  }

  /** With no hazard shown, the scan finds nothing. */
  lemma {:induction false} ScanAll(s: State, at: nat, seen: bool) returns (s': State)
    requires Can(s) && |s.slots| == 16 && s.retired == [1] && s.writer == Scan(0, at, seen)
    requires at <= 16 && (seen ==> at < 16) && (!seen ==> at % 16 == 0)
    requires forall j :: 0 <= j < 16 ==> s.slots[j].hazard == 0
    ensures Can(s') && s' == s.(writer := Freeing(0))
    decreases 16 - at, if seen then 0 else 1
  {
    CanStep(s, ScanStep);
    var s1 := Next(s, ScanStep);
    if !seen && at == 16 {
      s' := s1;
    } else if !seen {
      s' := ScanAll(s1, at, true);
    } else {
      s' := ScanAll(s1, at + 1, (at + 1) % 16 != 0);
    }
  }

  /** One bump more than the theorems allow and memory safety fails: a run in which no slot was
      bumped more than 2^64 + 2 times ends with a reader using a snapshot that was freed. */
  lemma WrapBreaksSafety()
    ensures exists s :: Can(s) && s.fault && forall i :: 0 <= i < |s.slots| ==> s.slots[i].log.bumps <= U64 + 2
  {
    var s0, d := Unguard();
    var s1 := Replace(s0);
    var s2 := ScanAll(s1, 0, false);
    CanStep(s2, Free);
    var s3 := Next(s2, Free);
    CanStep(s3, Install(d));
    var s4 := Next(s3, Install(d));
    assert s4.fault && forall i :: 0 <= i < |s4.slots| ==> s4.slots[i].log.bumps <= U64 + 2;
  }
}

/** What holds along every run of the snapshot protocol: memory safety, conservation of
    snapshots, serialised views, exclusive slot ownership. */
module HazardSafety {
  import opened Limits
  import opened ModuleList
  import opened Hazard
  import opened HazardInvariant
  import opened HazardReader
  import opened HazardWriter

  /** Steps of cursor_init and cursor_fini calls. */
  predicate IsReaders(a: Action) {
    || a.BeginInit? || a.ClaimStep? || a.Bump? || a.LoadCurrent? || a.StoreHazard? || a.Recheck?
    || a.StoreNull? || a.Install? || a.WalkRead? || a.BeginFini? || a.ReleaseCas? || a.ClearHazard?
    || a.ClearSnapshot? || a.ClearInUse?
  }

  lemma KeepReaderStep(s: State, a: Action)
    requires Inv(s) && Enabled(s, a) && NoWrap(Next(s, a)) && IsReaders(a)
    ensures Inv(Next(s, a))
  {
    match a
    case BeginInit(c) => KeepBeginInit(s, c);
    case ClaimStep(c) => KeepClaimStep(s, c);
    case Bump(c) => KeepBump(s, c);
    case LoadCurrent(c, v) => KeepLoadCurrent(s, c, v);
    case StoreHazard(c) => KeepStoreHazard(s, c);
    case Recheck(c) => KeepRecheck(s, c);
    case StoreNull(c) => KeepStoreNull(s, c);
    case Install(c) => KeepInstall(s, c);
    case WalkRead(c) => KeepWalkRead(s, c);
    case BeginFini(c, w) => KeepBeginFini(s, c, w);
    case ReleaseCas(c) => KeepReleaseCas(s, c);
    case ClearHazard(c) => KeepClearHazard(s, c);
    case ClearSnapshot(c) => KeepClearSnapshot(s, c);
    case ClearInUse(c) => KeepClearInUse(s, c);
  }

  lemma KeepWriterStep(s: State, a: Action)
    requires Inv(s) && Enabled(s, a) && !IsReaders(a)
    ensures Inv(Next(s, a))
  {
    match a
    case Lock(u) => KeepLock(s, u);
    case LoadForClone => KeepLoadForClone(s);
    case Build(p) => KeepBuild(s, p);
    case Swap => KeepSwap(s);
    case Push => KeepPush(s);
    case NextRetired => KeepNextRetired(s);
    case ScanStep => KeepScanStep(s);
    case Free => KeepFree(s);
    case Grow => KeepGrow(s);
  }

  lemma KeepStep(s: State, a: Action)
    requires Inv(s) && Enabled(s, a) && NoWrap(Next(s, a))
    ensures Inv(Next(s, a))
  {
    if IsReaders(a) {
      KeepReaderStep(s, a);
    } else {
      KeepWriterStep(s, a);
    }
  }

  /** What no step takes back: slots, sequence numbers, versions, freed versions. */
  ghost predicate Later(s: State, s': State) {
    && |s.slots| <= |s'.slots|
    && (forall i :: 0 <= i < |s.slots| ==> s.slots[i].log.bumps <= s'.slots[i].log.bumps)
    && |s.versions| <= |s'.versions| && s'.versions[..|s.versions|] == s.versions
    && s.freed <= s'.freed
    && (forall c :: c in s.calls ==> c in s'.calls && (s.calls[c].Walking? ==> s'.calls[c] == s.calls[c]))
  }

  lemma GotoLater(s: State, c: CallId, call: Call, i: nat, sl: Slot)
    requires c in s.calls && !s.calls[c].Walking? && i < |s.slots| && s.slots[i].log.bumps <= sl.log.bumps
    ensures Later(s, GotoSet(s, c, call, i, sl)) && Later(s, Goto(s, c, call))
  {
  }

  lemma StepLater(s: State, a: Action)
    requires Enabled(s, a)
    ensures Later(s, Next(s, a))
  {
    if a.ClaimStep? || a.Bump? || a.LoadCurrent? || a.StoreHazard? || a.Recheck? || a.StoreNull?
       || a.ReleaseCas? || a.ClearHazard? || a.ClearSnapshot? || a.ClearInUse?
    {
      OwnSlotLater(s, a);
    }
  }

  lemma OwnSlotLater(s: State, a: Action)
    requires Enabled(s, a)
    requires a.ClaimStep? || a.Bump? || a.LoadCurrent? || a.StoreHazard? || a.Recheck? || a.StoreNull?
             || a.ReleaseCas? || a.ClearHazard? || a.ClearSnapshot? || a.ClearInUse?
    ensures Later(s, Next(s, a))
  {
    var s', c := Next(s, a), a.c;
    var i := SlotOf(s.calls[c]);
    OwnSlotOnly(s, a);
    if i < |s.slots| {
      GotoLater(s, c, s'.calls[c], i, s'.slots[i]);
    }
  }

  /** Call `c` moves on, and writes at most the slot it is at, without taking back a bump. */
  ghost predicate MovesOnly(s: State, s': State, c: CallId) {
    && c in s.calls && c in s'.calls && |s'.slots| == |s.slots|
    && var i := SlotOf(s.calls[c]);
    if i < |s.slots| then s' == GotoSet(s, c, s'.calls[c], i, s'.slots[i]) && s.slots[i].log.bumps <= s'.slots[i].log.bumps
    else s' == Goto(s, c, s'.calls[c])
  }

  lemma OwnSlotOnly(s: State, a: Action)
    requires Enabled(s, a)
    requires a.ClaimStep? || a.Bump? || a.LoadCurrent? || a.StoreHazard? || a.Recheck? || a.StoreNull?
             || a.ReleaseCas? || a.ClearHazard? || a.ClearSnapshot? || a.ClearInUse?
    ensures MovesOnly(s, Next(s, a), a.c)
  {
    if a.LoadCurrent? || a.Recheck? || a.ReleaseCas? || a.ClaimStep? {
      LoopsOnly(s, a);
    }
  }

  /** The same for the steps with an outcome to decide. */
  lemma LoopsOnly(s: State, a: Action)
    requires Enabled(s, a) && (a.LoadCurrent? || a.Recheck? || a.ReleaseCas? || a.ClaimStep?)
    ensures MovesOnly(s, Next(s, a), a.c)
  {
    match a
    case LoadCurrent(c, v) => assert Next(s, a) == LoadNext(s, c, v);
    case Recheck(c) => assert Next(s, a) == RecheckNext(s, c);
    case ReleaseCas(c) => assert Next(s, a) == ReleaseNext(s, c);
    case ClaimStep(c) => assert Next(s, a) == ClaimNext(s, c);
  }

  lemma LaterTransitive(s: State, t: State, u: State)
    requires Later(s, t) && Later(t, u)
    ensures Later(s, u)
  {
    assert u.versions[..|s.versions|] == u.versions[..|t.versions|][..|s.versions|];
  }

  lemma LaterNoWrap(s: State, t: State)
    requires Later(s, t) && NoWrap(t)
    ensures NoWrap(s)
  {
  }

  lemma {:induction false} RunLater(run: seq<State>, acts: seq<Action>, i: nat, j: nat)
    requires IsRun(run, acts) && i <= j < |run|
    ensures Later(run[i], run[j])
    decreases j
  {
    if i < j {
      RunLater(run, acts, i, j - 1);
      assert StepAt(run, acts, j - 1);
      StepLater(run[j - 1], acts[j - 1]);
      LaterTransitive(run[i], run[j - 1], run[j]);
    }
  }

  /** A run whose last state has not wrapped keeps the invariant throughout. */
  lemma {:induction false} RunInv(run: seq<State>, acts: seq<Action>, i: nat)
    requires IsRun(run, acts) && i < |run| && NoWrap(run[i])
    ensures Inv(run[i])
    decreases i
  {
    if i == 0 {
      InitInv();
    } else {
      assert StepAt(run, acts, i - 1);
      StepLater(run[i - 1], acts[i - 1]);
      LaterNoWrap(run[i - 1], run[i]);
      RunInv(run, acts, i - 1);
      KeepStep(run[i - 1], acts[i - 1]);
    }
  }

  lemma ExtendRun(run: seq<State>, acts: seq<Action>, a: Action)
    requires IsRun(run, acts) && Enabled(run[|run| - 1], a)
    ensures IsRun(run + [Next(run[|run| - 1], a)], acts + [a])
  {
    var run', acts' := run + [Next(run[|run| - 1], a)], acts + [a];
    forall i | 0 <= i < |acts'| ensures StepAt(run', acts', i) {
      if i < |acts| {
        assert StepAt(run, acts, i);
      }
    }
  }

  /** Some run ends in `s`. */
  ghost predicate Can(s: State) {
    exists run, acts :: IsRun(run, acts) && run[|run| - 1] == s
  }

  ghost predicate Reachable(s: State) {
    NoWrap(s) && Can(s)
  }

  lemma ReachableInv(s: State)
    requires Reachable(s)
    ensures Inv(s)
  {
    var run, acts :| IsRun(run, acts) && run[|run| - 1] == s;
    RunInv(run, acts, |run| - 1);
  }

  /** No reader, clone or free ever touches an address that is not allocated. */
  lemma NoUseAfterFree(s: State)
    requires Reachable(s)
    ensures !s.fault
  {
    ReachableInv(s);
  }

  // ------------------------------------------------------------------ hazard protection

  /** Slot `i` shows the view `v` of the claim that its n-th bump made. */
  ghost predicate Shows(s: State, i: nat, n: nat, v: nat) {
    && i < |s.slots| && v != 0 && s.slots[i].log.view == v
    && (s.slots[i].log.bumps == n || s.slots[i].log.bumps == n + 1)
  }

  /** `a` is the step that clears the hazard of the claim (i, n). */
  ghost predicate ClearsHazardOf(s: State, a: Action, i: nat, n: nat) {
    a.ClearHazard? && a.c in s.calls && s.calls[a.c] == ClearingHazard(i, n)
  }

  /** A call changes no slot but the one it is at. */
  lemma ChangesOwnSlot(s: State, a: Action, i: nat)
    requires Enabled(s, a) && i < |s.slots| && Next(s, a).slots[i] != s.slots[i]
    ensures IsReaders(a) && a.c in s.calls && SlotOf(s.calls[a.c]) == i
  {
  }

  lemma ShowsUntilCleared(s: State, a: Action, i: nat, n: nat, v: nat)
    requires SlotsOk(s) && CallsOk(s) && Enabled(s, a) && Shows(s, i, n, v) && n % 2 == 1
    requires !ClearsHazardOf(s, a, i, n % U64) && NoWrap(s) && NoWrap(Next(s, a))
    ensures Shows(Next(s, a), i, n, v)
  {
    StepLater(s, a);
    var log, log' := s.slots[i].log, Next(s, a).slots[i].log;
    if log'.view != log.view || log'.bumps != log.bumps {
      ChangesLog(s, a, i);
      if a.ReleaseCas? {
        ReleaseStillShows(s, a.c, i, n, v);
      } else {
        HolderHidesOrClears(s, a.c, i, n, v);
      }
    }
  }

  /** The winning fini leaves the view shown. */
  lemma ReleaseStillShows(s: State, c: CallId, i: nat, n: nat, v: nat)
    requires SlotsOk(s) && CallsOk(s) && Enabled(s, ReleaseCas(c)) && SlotOf(s.calls[c]) == i
    requires Shows(s, i, n, v) && n % 2 == 1 && NoWrap(Next(s, ReleaseCas(c)))
    ensures Shows(Next(s, ReleaseCas(c)), i, n, v)
  {
    assert Next(s, ReleaseCas(c)) == ReleaseNext(s, c);
    assert SlotOk(s.calls, i, s.slots[i]) && CallOk(s, c, s.calls[c]);
  }

  /** A call about to bump, recheck or clear holds a slot that shows a view only if it is the
      release of that very claim. */
  lemma HolderHidesOrClears(s: State, c: CallId, i: nat, n: nat, v: nat)
    requires SlotsOk(s) && CallsOk(s) && NoWrap(s) && c in s.calls && SlotOf(s.calls[c]) == i
    requires s.calls[c].Won? || s.calls[c].Rechecking? || s.calls[c].ClearingHazard?
    requires Shows(s, i, n, v) && n % 2 == 1
    ensures s.calls[c] == ClearingHazard(i, n % U64)
  {
    OwnerFacts(s, c);
  }

  /** Only four steps change what is recorded of a slot's view and bumps, each by a call at it. */
  lemma ChangesLog(s: State, a: Action, i: nat)
    requires Enabled(s, a) && i < |s.slots| && i < |Next(s, a).slots|
    requires var log, log' := s.slots[i].log, Next(s, a).slots[i].log; log'.view != log.view || log'.bumps != log.bumps
    ensures a.Bump? || a.Recheck? || a.ClearHazard? || a.ReleaseCas?
    ensures a.c in s.calls && SlotOf(s.calls[a.c]) == i
  {
  }

  lemma ShownIsAlive(s: State, i: nat, n: nat, v: nat)
    requires Inv(s) && Shows(s, i, n, v)
    ensures v !in s.freed
  {
    assert GuardOk(s.heap, s.slots[i]);
    var p := s.slots[i].hazard;
    assert CellOk(s, p);
    assert v < |s.versions| ==> Alive(s, v);
  }

  lemma {:induction false} ShownAlong(run: seq<State>, acts: seq<Action>, t1: nat, t2: nat, i: nat, n: nat, v: nat)
    requires IsRun(run, acts) && t1 <= t2 < |run| && NoWrap(run[t2]) && n % 2 == 1
    requires Shows(run[t1], i, n, v)
    requires forall t :: t1 <= t < t2 ==> !ClearsHazardOf(run[t], acts[t], i, n % U64)
    ensures Shows(run[t2], i, n, v)
    decreases t2
  {
    if t1 < t2 {
      assert StepAt(run, acts, t2 - 1);
      StepLater(run[t2 - 1], acts[t2 - 1]);
      LaterNoWrap(run[t2 - 1], run[t2]);
      ShownAlong(run, acts, t1, t2 - 1, i, n, v);
      RunInv(run, acts, t2 - 1);
      ShowsUntilCleared(run[t2 - 1], acts[t2 - 1], i, n, v);
    }
  }

  /** In every interleaving: if a recheck of `c` at `t1` succeeds, and the version it
      validated has been freed by `t2`, then between the two the hazard of that very claim
      was cleared. */
  lemma NeverFreedUnderHazard(run: seq<State>, acts: seq<Action>, t1: nat, t2: nat, c: CallId)
    requires IsRun(run, acts) && t1 < t2 < |run| && NoWrap(run[t2])
    requires acts[t1] == Recheck(c) && c in run[t1].calls && run[t1].calls[c].Rechecking?
    requires c in run[t1 + 1].calls && run[t1 + 1].calls[c].Validated?
    requires run[t1 + 1].calls[c].ver in run[t2].freed
    ensures var cl := run[t1].calls[c].claim;
      exists t :: t1 < t < t2 && ClearsHazardOf(run[t], acts[t], cl.slot, cl.nonce)
  {
    var cl, v := run[t1].calls[c].claim, run[t1 + 1].calls[c].ver;
    RunLater(run, acts, t1 + 1, t2);
    LaterNoWrap(run[t1 + 1], run[t2]);
    var n := ValidatedShows(run, acts, t1, c);
    if forall t :: t1 < t < t2 ==> !ClearsHazardOf(run[t], acts[t], cl.slot, cl.nonce) {
      ShownAlong(run, acts, t1 + 1, t2, cl.slot, n, v);
      RunInv(run, acts, t2);
      ShownIsAlive(run[t2], cl.slot, n, v);
      assert false;
    }
  }

  lemma ValidatedShows(run: seq<State>, acts: seq<Action>, t: nat, c: CallId) returns (n: nat)
    requires IsRun(run, acts) && t < |acts| && NoWrap(run[t + 1]) && acts[t] == Recheck(c)
    requires c in run[t].calls && run[t].calls[c].Rechecking? && c in run[t + 1].calls && run[t + 1].calls[c].Validated?
    ensures var cl := run[t].calls[c].claim;
      Shows(run[t + 1], cl.slot, n, run[t + 1].calls[c].ver) && n % 2 == 1 && cl.nonce == n % U64
  {
    assert StepAt(run, acts, t);
    RunInv(run, acts, t + 1);
    HolderShows(run[t + 1], c);
    n := run[t + 1].slots[run[t].calls[c].claim.slot].log.bumps;
  }

  lemma HolderShows(s: State, c: CallId)
    requires SlotsOk(s) && CallsOk(s) && AcquiresOk(s) && c in s.calls && s.calls[c].Validated?
    ensures var cl := s.calls[c].claim;
      && cl.slot < |s.slots| && cl.nonce == s.slots[cl.slot].log.bumps % U64 && cl.nonce % 2 == 1
      && Shows(s, cl.slot, s.slots[cl.slot].log.bumps, s.calls[c].ver)
  {
    OwnerFacts(s, c);
    assert AcquireOk(s.versions, s.calls[c]);
  }

  /** When a scan found no hazard, every claim that holds a view, on any slot, including
      slots published after the scan's chunk walk ended, holds another snapshot. */
  lemma GrowthHidesNoReader(s: State, i: nat)
    requires Reachable(s) && s.writer.Freeing? && s.writer.k < |s.retired|
    requires i < |s.slots| && s.slots[i].log.view != 0
    ensures s.retired[s.writer.k] in s.heap
    ensures s.slots[i].hazard != s.retired[s.writer.k]
    ensures s.slots[i].log.view != s.heap[s.retired[s.writer.k]].ver
  {
    ReachableInv(s);
    assert s.retired[s.writer.k] in RetiredSet(s);
    assert GuardOk(s.heap, s.slots[i]);
    assert CellOk(s, s.slots[i].hazard) && CellOk(s, s.retired[s.writer.k]);
  }

  // ------------------------------------------------------------------------ conservation

  ghost predicate IsRetired(s: State, v: nat) {
    exists k :: 0 <= k < |s.retired| && s.retired[k] in s.heap && s.heap[s.retired[k]].ver == v
  }

  ghost predicate IsInHand(s: State, v: nat) {
    s.writer.Swapped? && s.writer.prev in s.heap && s.heap[s.writer.prev].ver == v
  }

  /** Every published snapshot is exactly one of current, just replaced, retired, freed;
      and allocated exactly while it is not freed. */
  lemma Conservation(s: State, v: nat)
    requires Reachable(s) && 1 <= v < |s.versions|
    ensures v in s.freed <==> !Alive(s, v)
    ensures v in s.freed <==> !(v == |s.versions| - 1 || IsInHand(s, v) || IsRetired(s, v))
    ensures v == |s.versions| - 1 ==> !IsInHand(s, v) && !IsRetired(s, v)
    ensures !(IsInHand(s, v) && IsRetired(s, v))
    ensures s.current !in s.retired && Distinct(s.retired)
  {
    ReachableInv(s);
    ConservedIn(s, v);
  }

  lemma ConservedIn(s: State, v: nat)
    requires HeapOk(s) && FreedOk(s) && SerialOk(s) && 1 <= v < |s.versions|
    ensures v in s.freed <==> !Alive(s, v)
    ensures v in s.freed <==> !(v == |s.versions| - 1 || IsInHand(s, v) || IsRetired(s, v))
    ensures v == |s.versions| - 1 ==> !IsInHand(s, v) && !IsRetired(s, v)
    ensures !(IsInHand(s, v) && IsRetired(s, v))
  {
    var p := s.versions[v].addr;
    assert v in s.freed <==> !Alive(s, v);
    assert forall q :: q in s.heap ==> CellOk(s, q);
    assert forall q :: q in s.retired ==> q in RetiredSet(s);
    if Alive(s, v) {
      assert CellOk(s, p);
      if p in s.retired {
        var k :| 0 <= k < |s.retired| && s.retired[k] == p;
        assert IsRetired(s, v);
      }
    }
  }

  function One(b: bool): nat {
    if b then 1 else 0
  }

  /** How often `p` is the box not yet published, the current snapshot, the one just replaced or
      a retired one. */
  function Roles(s: State, p: Addr): nat {
    One(s.writer.Boxed? && s.writer.box == p) + One(s.current == p != 0)
    + One(s.writer.Swapped? && s.writer.prev == p != 0) + multiset(s.retired)[p]
  }

  /** Every allocation, also one not yet published, plays exactly one of the roles, and what
      plays a role is allocated: nothing leaks and nothing is freed too early. */
  lemma EachAllocationOneRole(s: State, p: Addr)
    requires Reachable(s)
    ensures Roles(s, p) == One(p in s.heap)
  {
    ReachableInv(s);
    RetiredOnce(s.retired, p);
    assert p in s.retired <==> p in RetiredSet(s);
    assert s.writer.Boxed? && s.writer.box == p <==> s.writer.Boxed? && p in InHand(s.writer);
  }

  lemma {:induction false} RetiredOnce(l: seq<Addr>, p: Addr)
    requires Distinct(l)
    ensures multiset(l)[p] == One(p in l)
  {
    if l != [] {
      assert l == [l[0]] + l[1..];
      RetiredOnce(l[1..], p);
    }
  }

  /** Each free releases a retired, allocated snapshot whose version was not freed before. */
  lemma FreedAtMostOnce(s: State)
    requires Reachable(s) && Enabled(s, Free)
    ensures var p := s.retired[s.writer.k];
      p in s.heap && p != s.current && s.heap[p].ver !in s.freed && s.heap[p].ver in Next(s, Free).freed
  {
    ReachableInv(s);
    FreeHeap(s);
    FreeOnce(s);
    assert s.retired[s.writer.k] in RetiredSet(s);
  }

  // ------------------------------------------------------------------- serialised views

  /** All updates that went into version `v`, in the order of their swaps. */
  function UpdatesUpTo(versions: Versions, v: nat): seq<ModOp>
    requires v < |versions|
  {
    if v == 0 then [] else UpdatesUpTo(versions, v - 1) + versions[v].update
  }

  /** Writers lose no update: a version is the result of every update up to it. */
  lemma {:induction false} VersionIsSerialPrefix(s: State, v: nat)
    requires Reachable(s) && v < |s.versions|
    ensures s.versions[v].mods == ApplyAll([], UpdatesUpTo(s.versions, v))
    decreases v
  {
    ReachableInv(s);
    if v > 0 {
      VersionIsSerialPrefix(s, v - 1);
      ApplyAllConcat([], UpdatesUpTo(s.versions, v - 1), s.versions[v].update);
    }
  }

  /** What a live cursor reads at `t2` is the module set of one version: a prefix of the
      serialised updates, current at an instant after its acquire began, and the same one
      that any earlier read of the walk (at `t1`) saw, whatever was registered meanwhile. */
  lemma WalkSeesOneModuleSet(run: seq<State>, acts: seq<Action>, t1: nat, t2: nat, c: CallId)
    requires IsRun(run, acts) && t1 <= t2 < |run| && NoWrap(run[t2])
    requires c in run[t1].calls && run[t1].calls[c].Walking?
    requires c in run[t2].calls && Enabled(run[t2], WalkRead(c)) && NoncesFresh(run[t2], SlotOf(run[t2].calls[c]))
    ensures run[t2].calls[c] == run[t1].calls[c]
    ensures var call := run[t2].calls[c];
      var p := run[t2].slots[call.claim.slot].snapshot;
      && call.claim.loop.start <= call.ver < |run[t1].versions| <= |run[t2].versions|
      && p != 0 && p in run[t2].heap
      && run[t2].heap[p].mods == run[t1].versions[call.ver].mods
      && run[t2].heap[p].mods == ApplyAll([], UpdatesUpTo(run[t2].versions, call.ver))
  {
    RunLater(run, acts, t1, t2);
    RunInv(run, acts, t2);
    LaterNoWrap(run[t1], run[t2]);
    RunInv(run, acts, t1);
    assert AcquireOk(run[t1].versions, run[t1].calls[c]);
    WalkReadsVersion(run[t2], c);
    LastReachable(run, acts, t2);
    VersionIsSerialPrefix(run[t2], run[t2].calls[c].ver);
  }

  /** A live cursor's snapshot is the version that its acquire validated. */
  lemma WalkReadsVersion(s: State, c: CallId)
    requires SlotsOk(s) && CallsOk(s) && AcquiresOk(s) && GuardsOk(s) && HeapOk(s)
    requires Enabled(s, WalkRead(c)) && NoncesFresh(s, SlotOf(s.calls[c]))
    ensures var call := s.calls[c];
      var p := s.slots[call.claim.slot].snapshot;
      && p != 0 && p in s.heap && call.claim.loop.start <= call.ver < |s.versions|
      && s.heap[p].mods == s.versions[call.ver].mods
  {
    var call := s.calls[c];
    var i := call.claim.slot;
    assert CallOk(s, c, call) && SlotOk(s.calls, i, s.slots[i]) && GuardOk(s.heap, s.slots[i]);
    assert AcquireOk(s.versions, call) && CellOk(s, call.p);
  }

  lemma LastReachable(run: seq<State>, acts: seq<Action>, t: nat)
    requires IsRun(run, acts) && t < |run| && NoWrap(run[t])
    ensures Reachable(run[t])
  {
    var run', acts' := run[..t + 1], acts[..t];
    forall i | 0 <= i < |acts'| ensures StepAt(run', acts', i) {
      assert StepAt(run, acts, i);
    }
    assert IsRun(run', acts');
  }

  // --------------------------------------------------------------------- slot ownership

  /** `c` may touch the inner state of slot `i`. */
  ghost predicate Owns(s: State, c: CallId, i: nat) {
    && c in s.calls && i < |s.slots| && SlotOf(s.calls[c]) == i
    && (Holds(s.calls[c]) || (s.calls[c].Walking? && s.calls[c].claim.nonce == s.slots[i].claimSeq))
  }

  lemma OneOwner(s: State, c: CallId, d: CallId, i: nat)
    requires Reachable(s) && Owns(s, c, i) && Owns(s, d, i) && NoncesFresh(s, i)
    ensures c == d && s.slots[i].inUse
  {
    ReachableInv(s);
    OwnsMeansOwner(s, c, i);
    OwnsMeansOwner(s, d, i);
  }

  lemma OwnsMeansOwner(s: State, c: CallId, i: nat)
    requires SlotsOk(s) && CallsOk(s) && Owns(s, c, i) && NoncesFresh(s, i)
    ensures OwnedBy(s.slots[i], c)
  {
    assert CallOk(s, c, s.calls[c]) && SlotOk(s.calls, i, s.slots[i]);
  }

  /** Between the bump of a claim and the release compare-exchange. */
  ghost predicate Claimed(call: Call, i: nat, n: nat) {
    || ((call.Loading? || call.Storing? || call.Rechecking? || call.Validated? || call.Walking? || call.StoringNull?)
        && call.claim.slot == i && call.claim.nonce == n)
    || (call.Releasing? && call.own && call.slot == i && call.nonce == n)
  }

  /** A slot's sequence is odd exactly while a claim holds it, and is that claim's nonce. */
  lemma OddWhileClaimed(s: State, i: nat)
    requires Reachable(s) && i < |s.slots|
    ensures s.slots[i].claimSeq % 2 == 1 <==>
      exists c :: c in s.calls && Owns(s, c, i) && Claimed(s.calls[c], i, s.slots[i].claimSeq)
  {
    ReachableInv(s);
    assert SlotOk(s.calls, i, s.slots[i]);
    var c := s.slots[i].log.owner;
    if s.slots[i].claimSeq % 2 == 1 {
      assert Owns(s, c, i) && Claimed(s.calls[c], i, s.slots[i].claimSeq);
    }
    forall d | d in s.calls && Owns(s, d, i) && Claimed(s.calls[d], i, s.slots[i].claimSeq)
      ensures s.slots[i].claimSeq % 2 == 1
    {
      assert CallOk(s, d, s.calls[d]);
    }
  }

  /** However many finis race, the nonces of a slot are released once each, in the order
      1, 3, 5, ..., and a claim's nonce is spent exactly when the bumps have passed it, which are
      the sequence itself up to its wrap. */
  lemma OneEffectiveRelease(s: State, i: nat, n: nat)
    requires Reachable(s) && i < |s.slots| && n % 2 == 1
    ensures s.slots[i].log.wins == Odds(s.slots[i].log.bumps / 2)
    ensures multiset(s.slots[i].log.wins)[n] == if n < s.slots[i].log.bumps then 1 else 0
    ensures s.slots[i].claimSeq == s.slots[i].log.bumps % U64
  {
    ReachableInv(s);
    assert SlotOk(s.calls, i, s.slots[i]);
    OddsOnce(s.slots[i].log.bumps / 2, n);
  }

  lemma {:induction false} OddsOnce(m: nat, n: nat)
    requires n % 2 == 1
    ensures multiset(Odds(m))[n] == if n < 2 * m then 1 else 0
  {
    if m > 0 {
      OddsOnce(m - 1, n);
      assert Odds(m) == Odds(m - 1) + [2 * m - 1];
    }
  }
}

/** The inductive invariant of the snapshot protocol. */
module HazardInvariant {
  import opened Limits
  import opened ModuleList
  import opened Hazard

  /** The first `n` odd numbers: the nonces of the first `n` claims of a slot. */
  function Odds(n: nat): seq<nat> {
    seq(n, k requires 0 <= k => 2 * k + 1)
  }

  /** The nonce of the claim that holds the slot: odd, and the slot's present sequence. */
  ghost predicate LiveNonce(i: nat, sl: Slot, slot: nat, nonce: nat) {
    slot == i && nonce == sl.log.bumps % U64 && nonce % 2 == 1
  }

  /** The nonce of the claim whose release is under way. */
  ghost predicate SpentNonce(i: nat, sl: Slot, slot: nat, nonce: nat) {
    slot == i && nonce + 1 == sl.log.bumps && nonce % 2 == 1
  }

  ghost predicate Clear(sl: Slot) {
    sl.hazard == 0 && sl.snapshot == 0
  }

  ghost predicate NoView(sl: Slot) {
    sl.log.view == 0 && sl.log.inits == sl.log.finis
  }

  /** What slot `i` looks like while `call` holds it. */
  ghost predicate OwnerOk(i: nat, sl: Slot, call: Call) {
    match call
    case Won(j) => j == i && sl.log.bumps % 2 == 0 && Clear(sl) && NoView(sl)
    case Loading(cl) => LiveNonce(i, sl, cl.slot, cl.nonce) && sl.snapshot == 0 && NoView(sl)
    case Storing(cl, p) => LiveNonce(i, sl, cl.slot, cl.nonce) && sl.snapshot == 0 && NoView(sl)
    case Rechecking(cl, p) =>
      LiveNonce(i, sl, cl.slot, cl.nonce) && sl.hazard == p && sl.snapshot == 0 && NoView(sl)
    case Validated(cl, p, v) =>
      && LiveNonce(i, sl, cl.slot, cl.nonce) && sl.hazard == p && sl.snapshot == 0
      && sl.log.view == v && sl.log.inits == sl.log.finis
    case Walking(cl, p, v) =>
      && LiveNonce(i, sl, cl.slot, cl.nonce) && sl.hazard == p && sl.snapshot == p
      && sl.log.view == v && sl.log.inits == sl.log.finis + 1
    case StoringNull(cl) => LiveNonce(i, sl, cl.slot, cl.nonce) && sl.snapshot == 0 && NoView(sl)
    case Releasing(j, n, own) => own && LiveNonce(i, sl, j, n) && Clear(sl) && NoView(sl)
    case ClearingHazard(j, n) => SpentNonce(i, sl, j, n) && sl.log.inits == sl.log.finis
    case ClearingSnapshot(j, n) => SpentNonce(i, sl, j, n) && sl.hazard == 0 && NoView(sl)
    case ClearingInUse(j, n) => SpentNonce(i, sl, j, n) && Clear(sl) && NoView(sl)
    case _ => false
  }

  ghost predicate SlotOk(calls: map<CallId, Call>, i: nat, sl: Slot) {
    && sl.claimSeq == sl.log.bumps % U64
    && sl.log.wins == Odds(sl.log.bumps / 2)
    && (!sl.inUse ==> Clear(sl) && NoView(sl) && sl.log.bumps % 2 == 0)
    && (sl.inUse ==> sl.log.owner in calls && OwnerOk(i, sl, calls[sl.log.owner]))
  }

  ghost predicate SlotsOk(s: State) {
    forall i :: 0 <= i < |s.slots| ==> SlotOk(s.calls, i, s.slots[i])
  }

  /** Calls that hold the slot they refer to whatever its sequence number is. */
  predicate Holds(call: Call) {
    || call.Won? || call.Loading? || call.Storing? || call.Rechecking? || call.Validated?
    || call.StoringNull? || call.ClearingHazard? || call.ClearingSnapshot? || call.ClearingInUse?
    || (call.Releasing? && call.own)
  }

  ghost predicate OwnedBy(sl: Slot, c: CallId) {
    sl.inUse && sl.log.owner == c
  }

  /** A cursor's nonce is current only while the cursor's call owns the slot. Until the
      winning release clears the hazard, the slot still shows that cursor's view. */
  ghost predicate CursorOk(sl: Slot, c: CallId, call: Call)
    requires call.Walking?
  {
    var n := call.claim.nonce;
    && n % 2 == 1 && n <= sl.log.bumps && call.ver != 0
    && (n == sl.log.bumps ==> OwnedBy(sl, c))
    && (n + 1 == sl.log.bumps && sl.log.view != 0 ==> sl.hazard == call.p && sl.log.view == call.ver)
  }

  /** A fini that can still win races only the walk of its own cursor. */
  ghost predicate FiniOk(calls: map<CallId, Call>, sl: Slot, nonce: nat) {
    && nonce % 2 == 1 && nonce <= sl.log.bumps
    && (nonce == sl.log.bumps ==> sl.inUse && sl.log.owner in calls && calls[sl.log.owner].Walking?)
  }

  ghost predicate CallOk(s: State, c: CallId, call: Call) {
    var i := SlotOf(call);
    && (Holds(call) ==> i < |s.slots| && OwnedBy(s.slots[i], c))
    && (call.Walking? ==> i < |s.slots| && CursorOk(s.slots[i], c, call))
    && (call.Releasing? && !call.own ==> i < |s.slots| && FiniOk(s.calls, s.slots[i], call.nonce))
    && (call.Scanning? && call.seen ==> i < |s.slots|)
  }

  ghost predicate CallsOk(s: State) {
    forall c :: c in s.calls ==> CallOk(s, c, s.calls[c])
  }

  /** The acquire loop's bookkeeping. */
  ghost predicate LoopOk(l: Loop, n: nat) {
    && l.start < n && l.seen < n
    && (l.coherent ==> l.first + l.tries <= l.seen)
    && (l.coherent && l.tries > 0 ==> l.start + l.tries <= l.seen + 1)
  }

  /** A validated pointer was current, as version `v`, no earlier than the call began. */
  ghost predicate ViewOk(versions: Versions, l: Loop, p: Addr, v: nat) {
    && LoopOk(l, |versions|)
    && p != 0 && v != 0 && l.start <= v && l.seen <= v < |versions| && versions[v].addr == p
  }

  ghost predicate AcquireOk(versions: Versions, call: Call) {
    match call
    case Loading(cl) => LoopOk(cl.loop, |versions|)
    case Storing(cl, p) => LoopOk(cl.loop, |versions|) && p != 0 && versions[cl.loop.seen].addr == p
    case Rechecking(cl, p) => LoopOk(cl.loop, |versions|) && p != 0 && versions[cl.loop.seen].addr == p
    case Validated(cl, p, v) => ViewOk(versions, cl.loop, p, v)
    case Walking(cl, p, v) => ViewOk(versions, cl.loop, p, v)
    case _ => true
  }

  ghost predicate AcquiresOk(s: State) {
    forall c :: c in s.calls ==> AcquireOk(s.versions, s.calls[c])
  }

  /** While a slot shows a view, its hazard is the address of that very version. */
  ghost predicate GuardOk(heap: map<Addr, Cell>, sl: Slot) {
    sl.log.view != 0 ==> sl.hazard in heap && heap[sl.hazard].ver == sl.log.view
  }

  ghost predicate GuardsOk(s: State) {
    forall i :: 0 <= i < |s.slots| ==> GuardOk(s.heap, s.slots[i])
  }

  /** None of the first `n` slots guards `p`. */
  ghost predicate Unguarded(s: State, n: nat, p: Addr) {
    forall i :: 0 <= i < n && i < |s.slots| && s.slots[i].log.view != 0 ==> s.slots[i].hazard != p
  }

  /** A scan has not passed a slot that guards the address it looks for. */
  ghost predicate ScanOk(s: State) {
    match s.writer
    case Retaining(k) => k <= |s.retired|
    case Scan(k, at, seen) =>
      k < |s.retired| && (seen ==> at < |s.slots|) && Unguarded(s, at, s.retired[k])
    case Freeing(k) => k < |s.retired| && Unguarded(s, |s.slots|, s.retired[k])
    case _ => true
  }

  /** The allocation only the writer knows: the box before, the old snapshot after the swap. */
  function InHand(w: Writer): set<Addr> {
    match w
    case Boxed(_, p) => {p}
    case Swapped(p) => {p} - {0}
    case _ => {}
  }

  function CurrentSet(s: State): set<Addr> {
    {s.current} - {0}
  }

  function RetiredSet(s: State): set<Addr> {
    set p | p in s.retired
  }

  ghost predicate Distinct<T>(l: seq<T>) {
    forall i, j :: 0 <= i < j < |l| ==> l[i] != l[j]
  }

  /** Version `v` is still allocated. */
  ghost predicate Alive(s: State, v: nat)
    requires v < |s.versions|
  {
    s.versions[v].addr in s.heap && s.heap[s.versions[v].addr].ver == v
  }

  ghost predicate CellOk(s: State, p: Addr)
    requires p in s.heap
  {
    var v := s.heap[p].ver;
    if s.writer.Boxed? && p == s.writer.box then v == |s.versions|
    else 1 <= v < |s.versions| && s.versions[v].addr == p && s.versions[v].mods == s.heap[p].mods
  }

  /** Every allocation is current, retired or in the writer's hand, and only one of them. */
  ghost predicate HeapOk(s: State) {
    && 0 !in s.heap
    && s.heap.Keys == CurrentSet(s) + RetiredSet(s) + InHand(s.writer)
    && s.current !in s.retired
    && CurrentSet(s) !! InHand(s.writer) && RetiredSet(s) !! InHand(s.writer)
    && Distinct(s.retired)
    && (forall p :: p in s.heap ==> CellOk(s, p))
  }

  /** Exactly the published versions that are no longer allocated were freed. */
  ghost predicate FreedOk(s: State) {
    && (forall v :: 1 <= v < |s.versions| ==> s.versions[v].addr != 0 && (v in s.freed <==> !Alive(s, v)))
    && (forall v :: v in s.freed ==> 1 <= v < |s.versions|)
  }

  /** Each version is its predecessor with one writer's update applied. */
  ghost predicate SerialOk(s: State) {
    && s.versions[0] == Version(0, [], [])
    && s.current == s.versions[|s.versions| - 1].addr
    && (s.current != 0 ==> s.current in s.heap && s.heap[s.current].ver == |s.versions| - 1)
    && (forall v :: 1 <= v < |s.versions| ==>
          s.versions[v].mods == ApplyAll(s.versions[v - 1].mods, s.versions[v].update))
    && (s.writer.Loaded? ==> s.writer.cur == s.current)
    && (s.writer.Boxed? ==>
          && s.writer.box in s.heap
          && s.heap[s.writer.box].mods == ApplyAll(s.versions[|s.versions| - 1].mods, s.writer.update))
  }

  ghost predicate PoolOk(s: State) {
    |s.slots| % SLOT_CHUNK == 0 && |s.slots| <= MAX_SLOTS
  }

  ghost predicate Inv(s: State) {
    && !s.fault && PoolOk(s)
    && SlotsOk(s) && CallsOk(s) && AcquiresOk(s)
    && GuardsOk(s) && ScanOk(s)
    && HeapOk(s) && FreedOk(s) && SerialOk(s)
  }

  lemma InitInv()
    ensures Inv(INIT)
  {
  }

  /** The readers' part of the invariant does not depend on the writer's program counter. */
  lemma ReaderPart(s: State, s': State)
    requires s'.slots == s.slots && s'.calls == s.calls
    requires SlotsOk(s) && CallsOk(s)
    ensures SlotsOk(s') && CallsOk(s')
  {
    forall c | c in s'.calls ensures CallOk(s', c, s'.calls[c]) {
      assert CallOk(s, c, s.calls[c]);
    }
  }

  /** The memory part of the invariant does not depend on slots and calls. */
  lemma MemoryPart(s: State, s': State)
    requires s'.heap == s.heap && s'.current == s.current && s'.retired == s.retired
    requires s'.versions == s.versions && s'.freed == s.freed && InHand(s.writer) == InHand(s'.writer)
    requires s'.writer == s.writer ||
      (!s.writer.Boxed? && !s'.writer.Boxed? && (s'.writer.Loaded? ==> s'.writer.cur == s.current))
    requires HeapOk(s) && FreedOk(s) && SerialOk(s)
    ensures HeapOk(s') && FreedOk(s') && SerialOk(s')
  {
    forall p | p in s'.heap ensures CellOk(s', p) {
      assert CellOk(s, p);
    }
    forall v | 1 <= v < |s'.versions| ensures Alive(s', v) == Alive(s, v) {
    }
  }

  /** Inside a chunk the next slot is published too. */
  lemma NextInChunk(s: State, at: nat)
    requires PoolOk(s) && at < |s.slots| && (at + 1) % SLOT_CHUNK != 0
    ensures at + 1 < |s.slots|
  {
  }
}

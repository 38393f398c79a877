/** The snapshot protocol of src/state.rs as a labelled transition system.

    Every action is one access to shared memory: an atomic load, store, compare-exchange
    or swap, or one use of memory that only the acting call may touch.  Any number of calls
    interleave, in any order, at any point; a signal handler is just another call.

    - Addresses are reused: `Build` may return any address that is not allocated now, so a
      pointer comparison can succeed against a different snapshot than the one first seen.
    - `LoadCurrent` may return any version ever published, however old (or null).
    - The reclaim scan reads one hazard per action while readers and pool growth proceed.
    - A cursor, or any stale copy of it, may be finished at any time, by any call.

    Fields under "history" record what happened; no guard reads them. */
module Hazard {
  import opened Limits
  import opened ModuleList

  /** An address; 0 is the null pointer. */
  type Addr = nat
  type CallId = nat

  /** History of one slot: the call that holds it, how often `claimSeq` was bumped, the
      nonces whose release compare-exchange won, successful inits and effective finis, and
      the version its claim validated (0 if none) until that claim's hazard is cleared. */
  datatype SlotLog = SlotLog(owner: CallId, bumps: nat, wins: seq<nat>, inits: nat, finis: nat, view: nat)

  datatype Slot = Slot(inUse: bool, claimSeq: nat, hazard: Addr, snapshot: Addr, log: SlotLog)

  const FRESH_SLOT := Slot(false, 0, 0, 0, SlotLog(0, 0, [], 0, 0, 0))

  /** An allocated snapshot: its content and the number of the version it was built as. */
  datatype Cell = Cell(ver: nat, mods: seq<Mod>)

  /** One value that `CURRENT` held: version 0 is null, version v the v-th published. */
  datatype Version = Version(addr: Addr, mods: seq<Mod>, update: seq<ModOp>)

  type Versions = v: seq<Version> | |v| > 0 witness [Version(0, [], [])]

  /** History of one acquire loop: the version that was current when it began, the first
      and the last version it observed, how often it retried, and whether its loads of
      `CURRENT` never went back behind an earlier one (read-read coherence). */
  datatype Loop = Loop(start: nat, first: nat, seen: nat, tries: nat, coherent: bool)

  datatype Claim = Claim(slot: nat, nonce: nat, loop: Loop)

  /** The program counter and locals of one call of cursor_init or cursor_fini. */
  datatype Call =
    | Scanning(at: nat, seen: bool)            // claim_slot: next slot; is its chunk loaded?
    | Won(slot: nat)                           // won in_use, seq not yet bumped
    | Loading(claim: Claim)                    // top of the acquire loop
    | Storing(claim: Claim, p: Addr)           // loaded p, hazard not yet stored
    | Rechecking(claim: Claim, p: Addr)        // hazard stored
    | Validated(claim: Claim, p: Addr, ver: nat)
    | Walking(claim: Claim, p: Addr, ver: nat) // cursor_init returned 0
    | StoringNull(claim: Claim)                // loaded null
    | Releasing(slot: nat, nonce: nat, own: bool) // before the release compare-exchange
    | ClearingHazard(slot: nat, nonce: nat)
    | ClearingSnapshot(slot: nat, nonce: nat)
    | ClearingInUse(slot: nat, nonce: nat)
    | Exhausted                                // cursor_init returned -1
    | Ended                                    // -2, or cursor_fini returned

  /** The program counter and locals of with_writer; `Idle` while `WRITER` is unlocked. */
  datatype Writer =
    | Idle
    | Locked(update: seq<ModOp>)
    | Loaded(update: seq<ModOp>, cur: Addr)
    | Boxed(update: seq<ModOp>, box: Addr)
    | Swapped(prev: Addr)
    | Retaining(k: nat)                        // retired[..k] are kept
    | Scan(k: nat, at: nat, seen: bool)        // is_hazarded(retired[k]), next slot
    | Freeing(k: nat)                          // not hazarded

  datatype State = State(
    slots: seq<Slot>,
    current: Addr,
    retired: seq<Addr>,
    heap: map<Addr, Cell>,
    writer: Writer,
    calls: map<CallId, Call>,
    // history
    versions: Versions,
    freed: set<nat>,
    fault: bool,            // an address that is not allocated was read or freed
    marks: seq<set<Addr>>)  // per slot: what it could still protect at the last swap

  const INIT := State([], 0, [], map[], Idle, map[], [Version(0, [], [])], {}, false, [])

  datatype Action =
    | BeginInit(c: CallId)
    | ClaimStep(c: CallId)
    | Bump(c: CallId)
    | LoadCurrent(c: CallId, v: nat)
    | StoreHazard(c: CallId)
    | Recheck(c: CallId)
    | StoreNull(c: CallId)
    | Install(c: CallId)
    | WalkRead(c: CallId)
    | BeginFini(c: CallId, cursor: CallId)
    | ReleaseCas(c: CallId)
    | ClearHazard(c: CallId)
    | ClearSnapshot(c: CallId)
    | ClearInUse(c: CallId)
    | Lock(update: seq<ModOp>)
    | LoadForClone
    | Build(box: Addr)
    | Swap
    | Push
    | NextRetired
    | ScanStep
    | Free
    | Grow

  /** The slot a call refers to, if any. */
  function SlotOf(call: Call): nat {
    match call
    case Won(i) => i
    case Loading(cl) => cl.slot
    case Storing(cl, _) => cl.slot
    case Rechecking(cl, _) => cl.slot
    case Validated(cl, _, _) => cl.slot
    case Walking(cl, _, _) => cl.slot
    case StoringNull(cl) => cl.slot
    case Releasing(i, _, _) => i
    case ClearingHazard(i, _) => i
    case ClearingSnapshot(i, _) => i
    case ClearingInUse(i, _) => i
    case Scanning(at, _) => at
    case _ => 0
  }

  predicate Enabled(s: State, a: Action) {
    match a
    case BeginInit(c) => c !in s.calls
    case ClaimStep(c) =>
      c in s.calls && s.calls[c].Scanning? && (s.calls[c].seen ==> s.calls[c].at < |s.slots|)
    case Bump(c) => c in s.calls && s.calls[c].Won? && SlotOf(s.calls[c]) < |s.slots|
    case LoadCurrent(c, v) => c in s.calls && s.calls[c].Loading? && v < |s.versions|
    case StoreHazard(c) => c in s.calls && s.calls[c].Storing? && SlotOf(s.calls[c]) < |s.slots|
    case Recheck(c) => c in s.calls && s.calls[c].Rechecking? && SlotOf(s.calls[c]) < |s.slots|
    case StoreNull(c) => c in s.calls && s.calls[c].StoringNull? && SlotOf(s.calls[c]) < |s.slots|
    case Install(c) => c in s.calls && s.calls[c].Validated? && SlotOf(s.calls[c]) < |s.slots|
    case WalkRead(c) =>
      && c in s.calls && s.calls[c].Walking? && SlotOf(s.calls[c]) < |s.slots|
      && s.slots[SlotOf(s.calls[c])].claimSeq == s.calls[c].claim.nonce   // is_live
    case BeginFini(c, w) => c !in s.calls && w in s.calls && s.calls[w].Walking?
    case ReleaseCas(c) => c in s.calls && s.calls[c].Releasing? && SlotOf(s.calls[c]) < |s.slots|
    case ClearHazard(c) => c in s.calls && s.calls[c].ClearingHazard? && SlotOf(s.calls[c]) < |s.slots|
    case ClearSnapshot(c) => c in s.calls && s.calls[c].ClearingSnapshot? && SlotOf(s.calls[c]) < |s.slots|
    case ClearInUse(c) => c in s.calls && s.calls[c].ClearingInUse? && SlotOf(s.calls[c]) < |s.slots|
    case Lock(_) => s.writer.Idle?
    case LoadForClone => s.writer.Locked?
    case Build(p) => s.writer.Loaded? && p != 0 && p !in s.heap
    case Swap => s.writer.Boxed? && s.writer.box in s.heap
    case Push => s.writer.Swapped?
    case NextRetired => s.writer.Retaining?
    case ScanStep =>
      && s.writer.Scan? && s.writer.k < |s.retired|
      && (s.writer.seen ==> s.writer.at < |s.slots|)
    case Free => s.writer.Freeing? && s.writer.k < |s.retired|
    case Grow => |s.slots| + SLOT_CHUNK <= MAX_SLOTS
  }

  /** `call` becomes the program counter of `c`. */
  function Goto(s: State, c: CallId, call: Call): State {
    s.(calls := s.calls[c := call])
  }

  /** As `Goto`, and slot `i` becomes `sl`. */
  function GotoSet(s: State, c: CallId, call: Call, i: nat, sl: Slot): State
    requires i < |s.slots|
  {
    s.(calls := s.calls[c := call], slots := s.slots[i := sl])
  }

  function Next(s: State, a: Action): State
    requires Enabled(s, a)
  {
    match a
    case BeginInit(c) => Goto(s, c, Scanning(0, false))
    case ClaimStep(c) => ClaimNext(s, c)
    case Bump(c) =>
      var i := s.calls[c].slot;
      var sl := s.slots[i];
      var nonce := (sl.claimSeq + 1) % U64;
      GotoSet(s, c, Loading(Claim(i, nonce, Loop(|s.versions| - 1, 0, 0, 0, true))),
              i, sl.(claimSeq := nonce, log := sl.log.(bumps := sl.log.bumps + 1)))
    case LoadCurrent(c, v) => LoadNext(s, c, v)
    case StoreHazard(c) =>
      var call := s.calls[c];
      GotoSet(s, c, Rechecking(call.claim, call.p), call.claim.slot,
              s.slots[call.claim.slot].(hazard := call.p))
    case Recheck(c) => RecheckNext(s, c)
    case StoreNull(c) =>
      var cl := s.calls[c].claim;
      GotoSet(s, c, Releasing(cl.slot, cl.nonce, true), cl.slot, s.slots[cl.slot].(hazard := 0))
    case Install(c) =>
      var call := s.calls[c];
      var i := call.claim.slot;
      var sl := s.slots[i];
      Deref(GotoSet(s, c, Walking(call.claim, call.p, call.ver), i,
                    sl.(snapshot := call.p, log := sl.log.(inits := sl.log.inits + 1))), call.p)
    case WalkRead(c) =>
      var p := s.slots[s.calls[c].claim.slot].snapshot;
      if p == 0 then s else Deref(s, p)
    case BeginFini(c, w) =>
      Goto(s, c, Releasing(s.calls[w].claim.slot, s.calls[w].claim.nonce, false))
    case ReleaseCas(c) => ReleaseNext(s, c)
    case ClearHazard(c) =>
      var call := s.calls[c];
      GotoSet(s, c, ClearingSnapshot(call.slot, call.nonce), call.slot,
              s.slots[call.slot].(hazard := 0, log := s.slots[call.slot].log.(view := 0)))
    case ClearSnapshot(c) =>
      var call := s.calls[c];
      GotoSet(s, c, ClearingInUse(call.slot, call.nonce), call.slot,
              s.slots[call.slot].(snapshot := 0))
    case ClearInUse(c) =>
      var call := s.calls[c];
      GotoSet(s, c, Ended, call.slot, s.slots[call.slot].(inUse := false))
    case Lock(u) => s.(writer := Locked(u))
    case LoadForClone => s.(writer := Loaded(s.writer.update, s.current))
    case Build(p) =>
      var w := s.writer;
      var base := if w.cur in s.heap then s.heap[w.cur].mods else [];
      s.(heap := s.heap[p := Cell(|s.versions|, ApplyAll(base, w.update))],
         writer := Boxed(w.update, p),
         fault := s.fault || (w.cur != 0 && w.cur !in s.heap))
    case Swap =>
      var w := s.writer;
      s.(current := w.box, writer := Swapped(s.current),
         versions := s.versions + [Version(w.box, s.heap[w.box].mods, w.update)],
         marks := seq(|s.slots|, i requires 0 <= i < |s.slots| => MarksOf(s, i)))
    case Push =>
      s.(retired := if s.writer.prev == 0 then s.retired else s.retired + [s.writer.prev],
         writer := Retaining(0))
    case NextRetired =>
      s.(writer := if s.writer.k < |s.retired| then Scan(s.writer.k, 0, false) else Idle)
    case ScanStep => ScanNext(s)
    case Free =>
      var k := s.writer.k;
      var p := s.retired[k];
      s.(retired := s.retired[..k] + s.retired[k + 1..],
         heap := s.heap - {p},
         writer := Retaining(k),
         freed := s.freed + (if p in s.heap then {s.heap[p].ver} else {}),
         fault := s.fault || p !in s.heap)
    case Grow => s.(slots := s.slots + seq(SLOT_CHUNK, _ => FRESH_SLOT))
  }

  /** A read through `p` is a fault unless `p` is allocated. */
  function Deref(s: State, p: Addr): State {
    s.(fault := s.fault || p !in s.heap)
  }

  /** claim_slot: at a chunk boundary load the chunk pointer, else compare-exchange in_use. */
  function ClaimNext(s: State, c: CallId): State
    requires Enabled(s, ClaimStep(c))
  {
    var i := s.calls[c].at;
    if !s.calls[c].seen then
      Goto(s, c, if i < |s.slots| then Scanning(i, true) else Exhausted)
    else if !s.slots[i].inUse then
      GotoSet(s, c, Won(i), i, s.slots[i].(inUse := true, log := s.slots[i].log.(owner := c)))
    else
      Goto(s, c, Scanning(i + 1, (i + 1) % SLOT_CHUNK != 0))
  }

  /** The first load of an acquire iteration returns version `v`, possibly an old one. */
  function LoadNext(s: State, c: CallId, v: nat): State
    requires Enabled(s, LoadCurrent(c, v))
  {
    var cl := s.calls[c].claim;
    var l := cl.loop;
    var l' := Loop(l.start, if l.tries == 0 then v else l.first, v, l.tries,
                   l.coherent && l.seen <= v);
    var cl' := cl.(loop := l');
    var p := s.versions[v].addr;
    Goto(s, c, if p == 0 then StoringNull(cl') else Storing(cl', p))
  }

  /** The recheck reads `CURRENT` itself. */
  function RecheckNext(s: State, c: CallId): State
    requires Enabled(s, Recheck(c))
  {
    var call := s.calls[c];
    var now := |s.versions| - 1;
    var i := call.claim.slot;
    var sl := s.slots[i];
    var l := call.claim.loop;
    if s.current == call.p then
      GotoSet(s, c, Validated(call.claim, call.p, now), i, sl.(log := sl.log.(view := now)))
    else
      Goto(s, c, Loading(call.claim.(loop := l.(seen := now, tries := l.tries + 1))))
  }

  /** release_slot: only the first compare-exchange from `nonce` wins. */
  function ReleaseNext(s: State, c: CallId): State
    requires Enabled(s, ReleaseCas(c))
  {
    var call := s.calls[c];
    var sl := s.slots[call.slot];
    if sl.claimSeq != call.nonce then Goto(s, c, Ended)
    else
      GotoSet(s, c, ClearingHazard(call.slot, call.nonce), call.slot,
              sl.(claimSeq := (call.nonce + 1) % U64,
                  log := sl.log.(owner := c, bumps := sl.log.bumps + 1,
                                 wins := sl.log.wins + [call.nonce],
                                 finis := sl.log.finis + if call.own then 0 else 1)))
  }

  /** is_hazarded: at a chunk boundary load the chunk pointer, else load one hazard. */
  function ScanNext(s: State): State
    requires Enabled(s, ScanStep)
  {
    var w := s.writer;
    s.(writer :=
       if !w.seen then
         (if w.at < |s.slots| then Scan(w.k, w.at, true) else Freeing(w.k))
       else if s.slots[w.at].hazard == s.retired[w.k] then Retaining(w.k + 1)
       else Scan(w.k, w.at + 1, (w.at + 1) % SLOT_CHUNK != 0))
  }

  /** The addresses slot `i` may publish without loading `CURRENT` again: its hazard, and
      what its owner has loaded but not yet stored. */
  function MarksOf(s: State, i: nat): set<Addr>
    requires i < |s.slots|
  {
    var sl := s.slots[i];
    (if sl.hazard == 0 then {} else {sl.hazard}) +
    (if sl.inUse && sl.log.owner in s.calls && s.calls[sl.log.owner].Storing?
     then {s.calls[sl.log.owner].p} else {})
  }

  ghost predicate StepAt(run: seq<State>, acts: seq<Action>, i: nat)
    requires |run| == |acts| + 1 && i < |acts|
  {
    Enabled(run[i], acts[i]) && run[i + 1] == Next(run[i], acts[i])
  }

  /** `acts` leads from the initial state through every state of `run`. */
  ghost predicate IsRun(run: seq<State>, acts: seq<Action>) {
    && |run| == |acts| + 1
    && run[0] == INIT
    && forall i :: 0 <= i < |acts| ==> StepAt(run, acts, i)
  }

  /** No slot's claim sequence was bumped more than 2^64 + 1 times: of the claims of a slot at most
      one has a nonce that an earlier claim had, and it is not released yet. */
  ghost predicate NoWrap(s: State) {
    forall i :: 0 <= i < |s.slots| ==> s.slots[i].log.bumps <= U64 + 1
  }

  /** No claim of slot `i` has a nonce that an earlier one had. */
  ghost predicate NoncesFresh(s: State, i: nat)
    requires i < |s.slots|
  {
    s.slots[i].log.bumps <= U64
  }
}

/** The slot pool of src/state.rs: a table of chunk pointers that only grows. */
module SlotPool {
  import opened Wrappers
  import opened Limits

  const DEFAULT_SLOTS: nat := 16
  const SLOTS_PER_THREAD: nat := 2

  /** A slot is the `offset`-th of the chunk at address `chunk`. */
  datatype SlotRef = SlotRef(chunk: nat, offset: nat)

  function Min(a: nat, b: nat): nat {
    if a < b then a else b
  }

  function Max(a: nat, b: nat): nat {
    if a < b then b else a
  }

  function RoundUp(n: nat): nat {
    (n + SLOT_CHUNK - 1) / SLOT_CHUNK * SLOT_CHUNK
  }

  /** slot_chunk: the chunk pointer, or None past the end or where it is null. */
  function SlotChunk(table: seq<nat>, i: nat): Option<nat> {
    if i < |table| && table[i] != 0 then Some(table[i]) else None
  }

  /** slot: lookup by index. */
  function SlotAt(table: seq<nat>, idx: nat): Option<SlotRef> {
    match SlotChunk(table, idx / SLOT_CHUNK)
    case None => None
    case Some(c) => Some(SlotRef(c, idx % SLOT_CHUNK))
  }

  /** slots: the chunks from the i-th up to the first null one, flattened. */
  function SlotsFrom(table: seq<nat>, i: nat): seq<SlotRef>
    decreases |table| - i
  {
    match SlotChunk(table, i)
    case None => []
    case Some(c) => seq(SLOT_CHUNK, k requires 0 <= k => SlotRef(c, k)) + SlotsFrom(table, i + 1)
  }

  /** `size` slots are published, in whole chunks, as a prefix of the table. */
  ghost predicate IsPrefix(table: seq<nat>, size: nat) {
    && |table| == MAX_SLOT_CHUNKS && size <= MAX_SLOTS && size % SLOT_CHUNK == 0
    && forall i :: 0 <= i < |table| ==> (table[i] != 0 <==> i * SLOT_CHUNK < size)
  }

  lemma {:induction false} SlotsFromAt(table: seq<nat>, size: nat, i: nat, k: nat)
    requires IsPrefix(table, size) && i * SLOT_CHUNK <= size
    ensures |SlotsFrom(table, i)| == size - i * SLOT_CHUNK
    ensures k < |SlotsFrom(table, i)| ==> SlotAt(table, i * SLOT_CHUNK + k) == Some(SlotsFrom(table, i)[k])
    decreases MAX_SLOT_CHUNKS - i
  {
    if i < |table| && table[i] != 0 {
      SlotsFromAt(table, size, i + 1, if SLOT_CHUNK <= k then k - SLOT_CHUNK else 0);
      assert (i * SLOT_CHUNK + k) / SLOT_CHUNK == i + k / SLOT_CHUNK;
      assert (i * SLOT_CHUNK + k) % SLOT_CHUNK == k % SLOT_CHUNK;
    } else {
      assert size == i * SLOT_CHUNK;
    }
  }

  /** The i-th slot of the flattened scan is `slot(i)`, and nothing lies beyond it. */
  lemma FlatScanIsLookup(table: seq<nat>, size: nat, i: nat)
    requires IsPrefix(table, size)
    ensures |SlotsFrom(table, 0)| == size
    ensures SlotAt(table, i) == if i < size then Some(SlotsFrom(table, 0)[i]) else None
  {
    SlotsFromAt(table, size, 0, i);
    if size <= i {
      assert size <= i / SLOT_CHUNK * SLOT_CHUNK;
    }
  }

  // ------------------------------------------------------------- growth, one call at a time

  class Pool {
    const chunks: array<nat>
    var size: nat
    var nextChunk: nat   // the allocator's next chunk address

    ghost predicate Valid()
      reads this, chunks
    {
      IsPrefix(chunks[..], size) && nextChunk > 0
    }

    constructor ()
      ensures Valid() && size == 0 && fresh(chunks)
    {
      chunks := new nat[MAX_SLOT_CHUNKS](_ => 0);
      size, nextChunk := 0, 1;
    }

    /** ensure_slots: grow to at least `n` slots, in whole chunks, up to the maximum. */
    method EnsureSlots(n: nat)
      requires Valid()
      modifies this, chunks
      ensures Valid()
      ensures size == Max(old(size), Min(MAX_SLOTS, RoundUp(n)))
      ensures forall i :: 0 <= i < MAX_SLOT_CHUNKS && old(chunks[i]) != 0 ==> chunks[i] == old(chunks[i])
    {
      while size < n && size < MAX_SLOTS
        invariant Valid() && old(size) <= size <= Max(old(size), Min(MAX_SLOTS, RoundUp(n)))
        invariant forall i :: 0 <= i < MAX_SLOT_CHUNKS && old(chunks[i]) != 0 ==> chunks[i] == old(chunks[i])
        decreases MAX_SLOTS - size
      {
        chunks[size / SLOT_CHUNK] := nextChunk;
        nextChunk := nextChunk + 1;
        size := size + SLOT_CHUNK;
      }
    }
  }

  // ------------------------------------------------- growth, registrations interleaved freely

  /** A call of thread_registered (`ticket` is its count of threads) or of init (ticket 0),
      between its fetch_add and its return. */
  datatype Grower =
    | Waiting(ticket: nat, target: nat)
    | Growing(ticket: nat, target: nat)   // holds SLOTS_ALLOCATED, at the loop head
    | Stored(ticket: nat, target: nat)    // has stored a chunk pointer, count not yet raised
    | Done(ticket: nat, target: nat)

  datatype State = State(
    table: seq<nat>, size: nat, nextChunk: nat, threads: nat,
    holder: Option<nat>, calls: map<nat, Grower>)

  function Empty(): State {
    State(seq(MAX_SLOT_CHUNKS, _ => 0), 0, 1, 0, None, map[])
  }

  datatype Action =
    | Register(c: nat)             // fetch_add on REGISTERED_THREADS
    | Init(c: nat, slots: nat)
    | Acquire(c: nat)
    | Publish(c: nat)              // store one chunk pointer
    | Count(c: nat)                // raise the count under the lock
    | Finish(c: nat)

  predicate Enabled(s: State, a: Action) {
    match a
    case Register(c) => c !in s.calls
    case Init(c, _) => c !in s.calls
    case Acquire(c) => c in s.calls && s.calls[c].Waiting? && s.holder.None?
    case Publish(c) =>
      && c in s.calls && s.calls[c].Growing?
      && s.size < s.calls[c].target && s.size < MAX_SLOTS && |s.table| == MAX_SLOT_CHUNKS
    case Count(c) => c in s.calls && s.calls[c].Stored?
    case Finish(c) =>
      c in s.calls && s.calls[c].Growing? && !(s.size < s.calls[c].target && s.size < MAX_SLOTS)
  }

  function Next(s: State, a: Action): State
    requires Enabled(s, a)
  {
    match a
    case Register(c) =>
      var ticket := s.threads + 1;
      s.(threads := ticket,
         calls := s.calls[c := Waiting(ticket, DEFAULT_SLOTS + SLOTS_PER_THREAD * ticket)])
    case Init(c, n) => s.(calls := s.calls[c := Waiting(0, if n == 0 then DEFAULT_SLOTS else n)])
    case Acquire(c) =>
      s.(holder := Some(c), calls := s.calls[c := Growing(s.calls[c].ticket, s.calls[c].target)])
    case Publish(c) =>
      s.(table := s.table[s.size / SLOT_CHUNK := s.nextChunk], nextChunk := s.nextChunk + 1,
         calls := s.calls[c := Stored(s.calls[c].ticket, s.calls[c].target)])
    case Count(c) =>
      s.(size := s.size + SLOT_CHUNK,
         calls := s.calls[c := Growing(s.calls[c].ticket, s.calls[c].target)])
    case Finish(c) =>
      s.(holder := None, calls := s.calls[c := Done(s.calls[c].ticket, s.calls[c].target)])
  }

  ghost predicate StepAt(run: seq<State>, acts: seq<Action>, i: nat)
    requires |run| == |acts| + 1 && i < |acts|
  {
    Enabled(run[i], acts[i]) && run[i + 1] == Next(run[i], acts[i])
  }

  ghost predicate IsRun(run: seq<State>, acts: seq<Action>) {
    |run| == |acts| + 1 && run[0] == Empty() && forall i :: 0 <= i < |acts| ==> StepAt(run, acts, i)
  }

  /** The slots readers can see: the count, and the chunk stored but not yet counted. */
  function Published(s: State): nat {
    if s.holder.Some? && s.holder.value in s.calls && s.calls[s.holder.value].Stored?
    then s.size + SLOT_CHUNK else s.size
  }

  ghost predicate CallOk(s: State, c: nat, call: Grower) {
    && call.ticket <= s.threads
    && (call.ticket != 0 ==> call.target == DEFAULT_SLOTS + SLOTS_PER_THREAD * call.ticket)
    && (call.Done? ==> Min(MAX_SLOTS, call.target) <= s.size)
    && (call.Growing? || call.Stored? <==> s.holder == Some(c))
    && (call.Stored? ==> s.size < call.target)
  }

  ghost predicate Wanted(s: State) {
    Published(s) == 0 || exists c :: c in s.calls && Published(s) < s.calls[c].target + SLOT_CHUNK
  }

  ghost predicate Inv(s: State) {
    && IsPrefix(s.table, Published(s)) && s.nextChunk > 0
    && (forall c :: c in s.calls ==> CallOk(s, c, s.calls[c]))
    && (s.holder.Some? ==> s.holder.value in s.calls)
    && (forall c, d :: c in s.calls && d in s.calls && c != d && s.calls[c].ticket != 0 ==>
          s.calls[c].ticket != s.calls[d].ticket)
    && Wanted(s)
  }

  lemma KeepWanted(s: State, a: Action)
    requires Inv(s) && Enabled(s, a)
    ensures Wanted(Next(s, a))
  {
    var s' := Next(s, a);
    if a.Publish? {
      assert CallOk(s, a.c, s.calls[a.c]);
      assert Published(s') < s'.calls[a.c].target + SLOT_CHUNK;
    } else if Published(s) != 0 {
      var c :| c in s.calls && Published(s) < s.calls[c].target + SLOT_CHUNK;
      assert Published(s') == Published(s) && s'.calls[c].target == s.calls[c].target;
    }
  }

  lemma KeepTable(s: State, a: Action)
    requires Inv(s) && Enabled(s, a)
    ensures IsPrefix(Next(s, a).table, Published(Next(s, a)))
    ensures forall i :: 0 <= i < |s.table| && s.table[i] != 0 ==> Next(s, a).table[i] == s.table[i]
  {
    var s' := Next(s, a);
    if a.Publish? {
      assert CallOk(s, a.c, s.calls[a.c]);
      assert s.size == Published(s) && Published(s') == s.size + SLOT_CHUNK;
    } else {
      assert a.c in s.calls ==> CallOk(s, a.c, s.calls[a.c]);
      assert Published(s') == Published(s);
    }
  }

  lemma KeepCalls(s: State, a: Action)
    requires Inv(s) && Enabled(s, a)
    ensures forall c :: c in Next(s, a).calls ==> CallOk(Next(s, a), c, Next(s, a).calls[c])
  {
    var s' := Next(s, a);
    forall c | c in s'.calls ensures CallOk(s', c, s'.calls[c]) {
      assert c in s.calls ==> CallOk(s, c, s.calls[c]);
      assert a.c in s.calls ==> CallOk(s, a.c, s.calls[a.c]);
    }
  }

  lemma Keep(s: State, a: Action)
    requires Inv(s) && Enabled(s, a)
    ensures Inv(Next(s, a))
    ensures forall i :: 0 <= i < |s.table| && s.table[i] != 0 ==> Next(s, a).table[i] == s.table[i]
  {
    KeepWanted(s, a);
    KeepTable(s, a);
    KeepCalls(s, a);
  }

  lemma {:induction false} RunInv(run: seq<State>, acts: seq<Action>, i: nat, j: nat)
    requires IsRun(run, acts) && i <= j < |run|
    ensures Inv(run[j])
    ensures forall k :: 0 <= k < MAX_SLOT_CHUNKS && |run[i].table| == MAX_SLOT_CHUNKS && run[i].table[k] != 0 ==>
      run[j].table[k] == run[i].table[k]
    decreases j
  {
    if j > 0 {
      assert StepAt(run, acts, j - 1);
      RunInv(run, acts, if i < j then i else j - 1, j - 1);
      Keep(run[j - 1], acts[j - 1]);
    }
  }

  /** Distinct positive numbers up to `m` are at most `m` many. */
  lemma {:induction false} AtMost(calls: map<nat, Grower>, done: set<nat>, m: nat)
    requires forall c :: c in done ==> c in calls && 1 <= calls[c].ticket <= m
    requires forall c, d :: c in done && d in done && c != d ==> calls[c].ticket != calls[d].ticket
    ensures |done| <= m
  {
    if m == 0 {
      assert done == {};
    } else if exists c :: c in done && calls[c].ticket == m {
      var c :| c in done && calls[c].ticket == m;
      AtMost(calls, done - {c}, m - 1);
    } else {
      AtMost(calls, done, m - 1);
    }
  }

  /** In any interleaving, once the registrations `done` have returned the pool holds at
      least min(1024, 16 + 2 |done|) slots, and what every returned call asked for, up to
      1024; always a prefix of whole chunks, at most 1024 slots, and less than a chunk more
      than some call asked for. */
  lemma PoolGrows(run: seq<State>, acts: seq<Action>, t: nat, done: set<nat>)
    requires IsRun(run, acts) && t < |run|
    requires forall c :: c in done ==> c in run[t].calls && run[t].calls[c].Done? && run[t].calls[c].ticket != 0
    ensures done != {} ==> Min(MAX_SLOTS, DEFAULT_SLOTS + SLOTS_PER_THREAD * |done|) <= Published(run[t])
    ensures forall c :: c in run[t].calls && run[t].calls[c].Done? ==>
      Min(MAX_SLOTS, run[t].calls[c].target) <= Published(run[t])
    ensures IsPrefix(run[t].table, Published(run[t])) && Wanted(run[t])
  {
    RunInv(run, acts, t, t);
    var s := run[t];
    if done != {} {
      if forall c :: c in done ==> s.calls[c].ticket < |done| {
        AtMost(s.calls, done, |done| - 1);
      }
      var c :| c in done && |done| <= s.calls[c].ticket;
      assert CallOk(s, c, s.calls[c]);
    }
  }

  /** A published chunk never moves: slot `idx` is the same slot for ever. */
  lemma SlotsNeverMove(run: seq<State>, acts: seq<Action>, i: nat, j: nat, idx: nat)
    requires IsRun(run, acts) && i <= j < |run| && idx < Published(run[i])
    ensures SlotAt(run[i].table, idx).Some? && SlotAt(run[j].table, idx) == SlotAt(run[i].table, idx)
  {
    RunInv(run, acts, i, i);
    RunInv(run, acts, i, j);
    FlatScanIsLookup(run[i].table, Published(run[i]), idx);
  }
}

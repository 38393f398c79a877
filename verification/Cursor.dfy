/** The unwind cursor of src/cursor.rs: an output-then-advance walk over an arbitrary unwinder
    that sees the target's stack only through a bounded, aligned reader.

    The slot is the object the source mutates. Concurrency between claims is the business of
    the snapshot protocol; here a cursor has one owner, as its contract says. */
module Cursor {
  import opened Wrappers
  import opened Limits

  const MAX: nat := U64 - 1
  const CURSOR_MAGIC: nat := 0x4648_4355_5253_0001
  const FALLBACK_SPAN: nat := 16 * 1024 * 1024

  type u64 = n: nat | n < U64

  // --------------------------------------------------------------------- bounded stack reads

  datatype Windows = Windows(lo: u64, hi: u64, lo2: u64, hi2: u64)

  function SaturatingAdd(a: u64, b: u64): u64 {
    if a + b < U64 then a + b else MAX
  }

  /** The test of the read_stack closure. */
  predicate Admits(w: Windows, addr: u64) {
    var end := SaturatingAdd(addr, 8);
    ((w.lo <= addr && end <= w.hi) || (w.lo2 <= addr && end <= w.hi2)) && addr % 8 == 0
  }

  /** All eight bytes at `addr` lie in the window [lo, hi). */
  predicate Inside(lo: u64, hi: u64, addr: u64) {
    lo <= addr && addr + 8 <= hi
  }

  /** A read is admitted exactly when it is 8-aligned and all its bytes lie in one window, or
      it is the last word of the address space and a window ends at the greatest address:
      there the saturated end passes, and one byte is read beyond the window. */
  lemma AdmitsIff(w: Windows, addr: u64)
    ensures Admits(w, addr) <==>
      && addr % 8 == 0
      && (|| Inside(w.lo, w.hi, addr) || Inside(w.lo2, w.hi2, addr)
          || (addr == U64 - 8 && ((w.hi == MAX && w.lo <= addr) || (w.hi2 == MAX && w.lo2 <= addr))))
  {
    if addr % 8 == 0 && U64 <= addr + 8 {
      assert addr == U64 - 8;
    }
  }

  /** The exception is real: with a window that ends at the greatest address, the last word
      is read although its last byte lies outside. */
  lemma SaturatedEndPasses()
    ensures var w := Windows(0, MAX, 0, 0);
      && Admits(w, U64 - 8)
      && !Inside(w.lo, w.hi, U64 - 8) && !Inside(w.lo2, w.hi2, U64 - 8)
  {
  }

  /** An aligned word all of whose bytes lie in one of the windows. */
  predicate InWindows(w: Windows, addr: u64) {
    addr % 8 == 0 && (Inside(w.lo, w.hi, addr) || Inside(w.lo2, w.hi2, addr))
  }

  predicate BelowMax(w: Windows) {
    w.hi < MAX && w.hi2 < MAX
  }

  /** An empty second window admits nothing. */
  lemma EmptySecondWindow(w: Windows, addr: u64)
    requires w.lo2 == 0 && w.hi2 == 0
    ensures Admits(w, addr) <==> addr % 8 == 0 && w.lo <= addr && SaturatingAdd(addr, 8) <= w.hi
  {
  }

  /** stack_window: the registered bounds if they hold `sp`, else a span above its page. */
  function StackWindow(sp: u64, registered: (u64, u64)): (r: (u64, u64))
    ensures r.0 <= sp && (sp < r.1 || sp == MAX)
  {
    var (lo, hi) := registered;
    if lo != 0 && hi != 0 && lo <= sp < hi then (lo, hi)
    else var page := sp - sp % 0x1000; (page, SaturatingAdd(page, FALLBACK_SPAN))
  }

  // ---------------------------------------------------------------------- abstract unwinder

  datatype Regs = Regs(sp: u64, fp: u64, lr: u64, mask: u64)

  datatype FrameAddr = InstructionPointer(ip: u64) | ReturnAddress(ra: u64)

  function AddrOf(a: FrameAddr): u64 {
    match a
    case InstructionPointer(ip) => ip
    case ReturnAddress(ra) => ra
  }

  /** What unwinding one frame yields. */
  datatype Outcome = Frame(ra: u64, interrupted: bool) | Root | Error

  /** An unwinder asks for stack words until it finishes; it sees only the answers so far. */
  datatype Move = Ask(addr: u64) | Finish(outcome: Outcome, regs: Regs, cache: nat)

  type Strategy = (FrameAddr, Regs, nat, seq<Option<u64>>) -> Move

  /** `next` may be any function; after `limit` reads the unwinder gives up with an error. */
  datatype Snapshot = Snapshot(next: Strategy, limit: nat, maxCode: u64)

  datatype Unwound = Unwound(outcome: Outcome, regs: Regs, cache: nat, touched: seq<u64>)

  function Answer(w: Windows, mem: u64 -> u64, addr: u64): Option<u64> {
    if Admits(w, addr) then Some(mem(addr)) else None
  }

  function Touches(w: Windows, addr: u64): seq<u64> {
    if Admits(w, addr) then [addr] else []
  }

  /** The rest of one unwind, after the answers `got`, and the words it reads. */
  function UnwindFrom(s: Snapshot, at: FrameAddr, regs: Regs, cache: nat, w: Windows, mem: u64 -> u64,
                      got: seq<Option<u64>>): Unwound
    decreases if |got| < s.limit then s.limit - |got| else 0
  {
    match s.next(at, regs, cache, got)
    case Finish(o, r, c) => Unwound(o, r, c, [])
    case Ask(addr) =>
      if s.limit <= |got| then Unwound(Error, regs, cache, [])
      else
        var rest := UnwindFrom(s, at, regs, cache, w, mem, got + [Answer(w, mem, addr)]);
        rest.(touched := Touches(w, addr) + rest.touched)
  }

  /** `u` is the unwind that has read `touched` and gone on from the answers `got`. */
  ghost predicate Resumes(u: Unwound, touched: seq<u64>, s: Snapshot, at: FrameAddr, regs: Regs, cache: nat,
                          w: Windows, mem: u64 -> u64, got: seq<Option<u64>>)
  {
    var rest := UnwindFrom(s, at, regs, cache, w, mem, got);
    u == rest.(touched := touched + rest.touched)
  }

  lemma UnwindAsks(u: Unwound, touched: seq<u64>, s: Snapshot, at: FrameAddr, regs: Regs, cache: nat,
                   w: Windows, mem: u64 -> u64, got: seq<Option<u64>>, addr: u64)
    requires Resumes(u, touched, s, at, regs, cache, w, mem, got)
    requires s.next(at, regs, cache, got) == Ask(addr) && |got| < s.limit
    ensures Resumes(u, touched + Touches(w, addr), s, at, regs, cache, w, mem, got + [Answer(w, mem, addr)])
  {
    var rest := UnwindFrom(s, at, regs, cache, w, mem, got + [Answer(w, mem, addr)]);
    assert touched + (Touches(w, addr) + rest.touched) == touched + Touches(w, addr) + rest.touched;
  }

  /** The two memories hold the same words at `addrs`. */
  ghost predicate Agree(mem: u64 -> u64, mem': u64 -> u64, addrs: seq<u64>) {
    forall a :: a in addrs ==> mem(a) == mem'(a)
  }

  /** An unwind depends on no word but those it read, and reads no word but admitted ones. */
  lemma {:induction false} UnwindSeesItsReads(s: Snapshot, at: FrameAddr, regs: Regs, cache: nat, w: Windows,
                                              mem: u64 -> u64, mem': u64 -> u64, got: seq<Option<u64>>)
    requires Agree(mem, mem', UnwindFrom(s, at, regs, cache, w, mem, got).touched)
    ensures UnwindFrom(s, at, regs, cache, w, mem', got) == UnwindFrom(s, at, regs, cache, w, mem, got)
    ensures forall a :: a in UnwindFrom(s, at, regs, cache, w, mem, got).touched ==> Admits(w, a)
    decreases if |got| < s.limit then s.limit - |got| else 0
  {
    var m := s.next(at, regs, cache, got);
    if m.Ask? && |got| < s.limit {
      var rest := UnwindFrom(s, at, regs, cache, w, mem, got + [Answer(w, mem, m.addr)]);
      var all := Touches(w, m.addr) + rest.touched;
      assert Admits(w, m.addr) ==> all[0] == m.addr;
      assert forall a :: a in rest.touched ==> a in all;
      UnwindSeesItsReads(s, at, regs, cache, w, mem, mem', got + [Answer(w, mem, m.addr)]);
    }
  }

  // ----------------------------------------------------------------------------- signal frames

  const SIGCONTEXT: nat := 128 + 176
  const FIELD_FP: nat := 8 + 29 * 8
  const FIELD_LR: nat := 8 + 30 * 8
  const FIELD_SP: nat := 256
  const FIELD_PC: nat := 264

  /** The address of a field of the signal context at `base`; the addition wraps. */
  function Field(base: u64, offset: nat): u64 {
    (base + offset) % U64
  }

  /** The reads of one word after another, up to the first that is refused. */
  function ReadsOf(w: Windows, addrs: seq<u64>): seq<u64> {
    if addrs == [] || !Admits(w, addrs[0]) then [] else [addrs[0]] + ReadsOf(w, addrs[1..])
  }

  /** What restore asks for, in order: fp, lr, sp, pc. */
  function Fields(sp: u64): seq<u64> {
    if U64 <= sp + SIGCONTEXT then []
    else
      var base := sp + SIGCONTEXT;
      [Field(base, FIELD_FP), Field(base, FIELD_LR), Field(base, FIELD_SP), Field(base, FIELD_PC)]
  }

  /** restore: the interrupted registers and pc, only if all four words could be read. */
  function Restored(regs: Regs, w: Windows, mem: u64 -> u64): Option<(Regs, u64)> {
    if U64 <= regs.sp + SIGCONTEXT then None
    else
      var base := regs.sp + SIGCONTEXT;
      if Admits(w, Field(base, FIELD_FP)) && Admits(w, Field(base, FIELD_LR))
         && Admits(w, Field(base, FIELD_SP)) && Admits(w, Field(base, FIELD_PC))
      then Some((regs.(fp := mem(Field(base, FIELD_FP)), lr := mem(Field(base, FIELD_LR)), sp := mem(Field(base, FIELD_SP))),
                 mem(Field(base, FIELD_PC))))
      else None
  }

  // ---------------------------------------------------------------------------------- one walk

  datatype Walk = Walk(
    cache: nat, regs: Regs, curAddr: FrameAddr, curIp: u64, done: bool,
    snapshot: Option<Snapshot>, windows: Windows)

  /** What is not this walk's to change: stack memory, and the signal trampoline (0 if none). */
  datatype Env = Env(mem: u64 -> u64, trampoline: u64)

  predicate AtTrampoline(w: Walk, env: Env) {
    env.trampoline != 0 && w.curIp == env.trampoline
  }

  /** The walk of the caller's frame: the interrupted code past a signal trampoline, else what
      the unwinder finds; none at a null address, at the root or after an error. */
  ghost function Caller(w: Walk, env: Env): Option<Walk>
    requires w.snapshot.Some?
  {
    if AtTrampoline(w, env) then
      match Restored(w.regs, w.windows, env.mem)
      case Some((r, pc)) =>
        if pc != 0 then Some(w.(regs := r, curIp := pc, curAddr := InstructionPointer(pc))) else None
      case None => None
    else
      var u := UnwindFrom(w.snapshot.value, w.curAddr, w.regs, w.cache, w.windows, env.mem, []);
      match u.outcome
      case Frame(ra, interrupted) =>
        if ra == 0 then None
        else Some(w.(regs := u.regs, cache := u.cache, curIp := ra,
                     curAddr := if interrupted then InstructionPointer(ra) else ReturnAddress(ra)))
      case _ => None
  }

  /** The stack words that finding the caller reads, in order. */
  ghost function CallerReads(w: Walk, env: Env): seq<u64>
    requires w.snapshot.Some?
  {
    if AtTrampoline(w, env) then ReadsOf(w.windows, Fields(w.regs.sp))
    else UnwindFrom(w.snapshot.value, w.curAddr, w.regs, w.cache, w.windows, env.mem, []).touched
  }

  /** The same situation, except perhaps for stack words outside `addrs`. */
  ghost predicate AgreeAt(env: Env, env': Env, addrs: seq<u64>) {
    env.trampoline == env'.trampoline && Agree(env.mem, env'.mem, addrs)
  }

  lemma {:induction false} ReadsAreAdmitted(w: Windows, addrs: seq<u64>)
    ensures forall a :: a in ReadsOf(w, addrs) ==> Admits(w, a)
  {
    if addrs != [] && Admits(w, addrs[0]) {
      ReadsAreAdmitted(w, addrs[1..]);
    }
  }

  lemma RestoreReads(w: Windows, sp: u64)
    requires sp + SIGCONTEXT < U64
    ensures var r, f := ReadsOf(w, Fields(sp)), Fields(sp);
      if !Admits(w, f[0]) then r == []
      else if !Admits(w, f[1]) then r == [f[0]]
      else if !Admits(w, f[2]) then r == [f[0], f[1]]
      else if !Admits(w, f[3]) then r == [f[0], f[1], f[2]]
      else r == f
  {
    var f := Fields(sp);
    assert f[1..] == [f[1], f[2], f[3]] && f[1..][1..] == [f[2], f[3]] && f[1..][1..][1..] == [f[3]];
    assert ReadsOf(w, [f[3]]) == if Admits(w, f[3]) then [f[3]] else [];
    assert ReadsOf(w, [f[2], f[3]]) == if Admits(w, f[2]) then [f[2]] + ReadsOf(w, [f[3]]) else [];
    assert ReadsOf(w, [f[1], f[2], f[3]]) == if Admits(w, f[1]) then [f[1]] + ReadsOf(w, [f[2], f[3]]) else [];
  }

  lemma RestoredSeesItsReads(regs: Regs, w: Windows, mem: u64 -> u64, mem': u64 -> u64)
    requires Agree(mem, mem', ReadsOf(w, Fields(regs.sp)))
    ensures Restored(regs, w, mem') == Restored(regs, w, mem)
  {
    if regs.sp + SIGCONTEXT < U64 {
      RestoreReads(w, regs.sp);
      var f := Fields(regs.sp);
      if ReadsOf(w, f) == f {
        assert f[0] in f && f[1] in f && f[2] in f && f[3] in f;
      }
    }
  }

  /** Finding the caller depends on no stack word but those it reads, and every word it reads is
      admitted. So the reads are all the reads: changing any other word changes nothing. */
  lemma CallerSeesItsReads(w: Walk, env: Env, env': Env)
    requires w.snapshot.Some? && AgreeAt(env, env', CallerReads(w, env))
    ensures Caller(w, env') == Caller(w, env) && CallerReads(w, env') == CallerReads(w, env)
    ensures forall a :: a in CallerReads(w, env) ==> Admits(w.windows, a)
  {
    if AtTrampoline(w, env) {
      ReadsAreAdmitted(w.windows, Fields(w.regs.sp));
      RestoredSeesItsReads(w.regs, w.windows, env.mem, env'.mem);
    } else {
      UnwindSeesItsReads(w.snapshot.value, w.curAddr, w.regs, w.cache, w.windows, env.mem, env'.mem, []);
    }
  }

  /** The state of a slot that was never claimed. */
  const PLACEHOLDER := Walk(0, Regs(0, 0, 0, MAX), InstructionPointer(0), 0, true, None, Windows(0, 0, 0, 0))

  /** Whether the walk has a frame to output. */
  predicate Active(w: Walk) {
    !w.done && w.snapshot.Some?
  }

  /** The j-th frame of the stack: the initial one, then successive callers. */
  ghost function FrameAt(w: Walk, env: Env, j: nat): (f: Option<Walk>)
    ensures f.Some? ==> Active(f.value)
    decreases j
  {
    if !Active(w) then None
    else if j == 0 then Some(w)
    else match Caller(w, env)
         case None => None
         case Some(w') => FrameAt(w', env, j - 1)
  }

  // ----------------------------------------------------------------------------- the slot object

  datatype FhCursor = FhCursor(magic: nat, slot: nat, nonce: nat)

  const DEAD := FhCursor(0, MAX, 0)

  datatype Context = Context(ip: u64, sp: u64, fp: u64, lr: u64)

  class Slot {
    var inUse: bool
    var claimSeq: u64
    var hazard: bool
    var cache: nat
    var regs: Regs
    var curAddr: FrameAddr
    var curIp: u64
    var done: bool
    var snapshot: Option<Snapshot>
    var windows: Windows

    function View(): Walk
      reads this
    {
      Walk(cache, regs, curAddr, curIp, done, snapshot, windows)
    }

    constructor ()
      ensures !inUse && claimSeq == 0 && !hazard && View() == PLACEHOLDER
    {
      inUse, claimSeq, hazard, cache, done, snapshot := false, 0, false, 0, true, None;
      regs, curAddr, curIp, windows := Regs(0, 0, 0, MAX), InstructionPointer(0), 0, Windows(0, 0, 0, 0);
    }

    /** restore: registers change only if all four words could be read. */
    method Restore(env: Env) returns (pc: Option<u64>, touched: seq<u64>)
      modifies this`regs
      ensures match Restored(old(regs), windows, env.mem)
              case Some((r, p)) => regs == r && pc == Some(p)
              case None => regs == old(regs) && pc == None
      ensures touched == ReadsOf(windows, Fields(old(regs).sp))
    {
      pc, touched := None, [];
      if U64 <= regs.sp + SIGCONTEXT {
        return;
      }
      RestoreReads(windows, regs.sp);
      var base := regs.sp + SIGCONTEXT;
      var fp := Answer(windows, env.mem, Field(base, FIELD_FP));
      if fp.None? {
        return;
      }
      touched := touched + [Field(base, FIELD_FP)];
      var lr := Answer(windows, env.mem, Field(base, FIELD_LR));
      if lr.None? {
        return;
      }
      touched := touched + [Field(base, FIELD_LR)];
      var sp := Answer(windows, env.mem, Field(base, FIELD_SP));
      if sp.None? {
        return;
      }
      touched := touched + [Field(base, FIELD_SP)];
      pc := Answer(windows, env.mem, Field(base, FIELD_PC));
      if pc.None? {
        return;
      }
      touched := touched + [Field(base, FIELD_PC)];
      regs := regs.(fp := fp.value, lr := lr.value, sp := sp.value);
    }

    /** unwind_frame_signal_aware, driving the unwinder's reads. */
    method Unwind(s: Snapshot, env: Env) returns (o: Outcome, touched: seq<u64>)
      modifies this`regs, this`cache
      ensures var u := UnwindFrom(s, curAddr, old(regs), old(cache), windows, env.mem, []);
        o == u.outcome && regs == u.regs && cache == u.cache && touched == u.touched
    {
      var got: seq<Option<u64>> := [];
      touched := [];
      ghost var u := UnwindFrom(s, curAddr, regs, cache, windows, env.mem, []);
      while true
        invariant |got| <= s.limit && regs == old(regs) && cache == old(cache)
        invariant Resumes(u, touched, s, curAddr, regs, cache, windows, env.mem, got)
        decreases s.limit - |got|
      {
        var m := s.next(curAddr, regs, cache, got);
        if m.Finish? {
          o, regs, cache := m.outcome, m.regs, m.cache;
          return;
        }
        if |got| == s.limit {
          o := Error;
          return;
        }
        UnwindAsks(u, touched, s, curAddr, regs, cache, windows, env.mem, got, m.addr);
        touched := touched + Touches(windows, m.addr);
        got := got + [Answer(windows, env.mem, m.addr)];
      }
    }

    /** The body of step, once the cursor is known to be live. */
    method Advance(env: Env) returns (rc: int, ip: u64, sp: u64, touched: seq<u64>)
      modifies this
      ensures inUse == old(inUse) && claimSeq == old(claimSeq) && hazard == old(hazard)
      ensures windows == old(windows) && snapshot == old(snapshot)
      ensures !Active(old(View())) ==>
        View() == old(View()) && (ip, sp) == (0, 0) && touched == [] && rc == if old(done) then 0 else -1
      ensures Active(old(View())) ==>
        && (ip, sp) == (old(curIp), old(regs).sp)
        && touched == CallerReads(old(View()), env)
        && match Caller(old(View()), env)
           case Some(w) => rc == 1 && View() == w
           case None => rc == 0 && done && curIp == old(curIp) && curAddr == old(curAddr)
    {
      rc, ip, sp, touched := 0, 0, 0, [];
      if done {
        return;
      }
      if snapshot.None? {
        rc := -1;
        return;
      }
      ip, sp := curIp, regs.sp;
      if env.trampoline != 0 && curIp == env.trampoline {
        var pc;
        pc, touched := Restore(env);
        if pc.Some? && pc.value != 0 {
          curIp := pc.value;
          curAddr := InstructionPointer(pc.value);
          rc := 1;
        } else {
          done := true;
        }
        return;
      }
      var o;
      o, touched := Unwind(snapshot.value, env);
      if o.Frame? && o.ra != 0 {
        curIp := o.ra;
        curAddr := if o.interrupted then InstructionPointer(o.ra) else ReturnAddress(o.ra);
        rc := 1;
      } else {
        done := true;
      }
    }
  }

  // ------------------------------------------------------------------------ frames, end to end

  /** The frames after the first carry a non-null address, which is the address to unwind from. */
  lemma {:induction false} CallersAreNonNull(w: Walk, env: Env, j: nat)
    requires AddrOf(w.curAddr) == w.curIp
    ensures FrameAt(w, env, j).Some? ==>
      && AddrOf(FrameAt(w, env, j).value.curAddr) == FrameAt(w, env, j).value.curIp
      && (j > 0 ==> FrameAt(w, env, j).value.curIp != 0)
      && FrameAt(w, env, j).value.windows == w.windows && FrameAt(w, env, j).value.snapshot == w.snapshot
    decreases j
  {
    if Active(w) && j > 0 && Caller(w, env).Some? {
      CallersAreNonNull(Caller(w, env).value, env, j - 1);
    }
  }

  /** Frame j + 1 is the caller of frame j. */
  lemma {:induction false} FrameAtNext(w: Walk, env: Env, j: nat)
    ensures FrameAt(w, env, j + 1) ==
      match FrameAt(w, env, j)
      case None => None
      case Some(v) => Caller(v, env)
    decreases j
  {
    if Active(w) && Caller(w, env).Some? {
      if j > 0 {
        FrameAtNext(Caller(w, env).value, env, j - 1);
      }
    }
  }

  /** A whole backtrace is confined to the windows: frame j is the same whatever the words
      outside them hold, for windows that end below the greatest address. */
  lemma {:induction false} BacktraceIsConfined(w: Walk, env: Env, env': Env, j: nat)
    requires BelowMax(w.windows) && env.trampoline == env'.trampoline
    requires forall a :: InWindows(w.windows, a) ==> env.mem(a) == env'.mem(a)
    ensures FrameAt(w, env', j) == FrameAt(w, env, j)
    decreases j
  {
    if Active(w) && j > 0 {
      CallerIsConfined(w, env, env');
      if Caller(w, env).Some? {
        BacktraceIsConfined(Caller(w, env).value, env, env', j - 1);
      }
    }
  }

  lemma CallerIsConfined(w: Walk, env: Env, env': Env)
    requires w.snapshot.Some? && BelowMax(w.windows) && env.trampoline == env'.trampoline
    requires forall a :: InWindows(w.windows, a) ==> env.mem(a) == env'.mem(a)
    ensures Caller(w, env') == Caller(w, env)
    ensures Caller(w, env).Some? ==> Caller(w, env).value.windows == w.windows
  {
    CallerReadsInside(w, env);
    CallerSeesItsReads(w, env, env');
  }

  lemma CallerReadsInside(w: Walk, env: Env)
    requires w.snapshot.Some?
    ensures forall a :: a in CallerReads(w, env) ==>
      a % 8 == 0 && (BelowMax(w.windows) ==> InWindows(w.windows, a))
  {
    CallerSeesItsReads(w, env, env);
    forall a | a in CallerReads(w, env)
      ensures a % 8 == 0 && (BelowMax(w.windows) ==> InWindows(w.windows, a))
    {
      AdmitsIff(w.windows, a);
    }
  }

  // --------------------------------------------------------------------- the pool's entry points

  ghost predicate Apart(pool: seq<Slot>) {
    forall i, j :: 0 <= i < j < |pool| ==> pool[i] != pool[j]
  }

  /** is_live */
  predicate IsLive(pool: seq<Slot>, c: FhCursor)
    reads pool
  {
    c.magic == CURSOR_MAGIC && c.slot != MAX && c.slot < |pool| && pool[c.slot].claimSeq == c.nonce
  }

  /** step. `touched` are the stack words it read: the new state depends on no other, and each
      is aligned and inside one window that ends below the greatest address. */
  method Step(pool: seq<Slot>, c: FhCursor, env: Env) returns (rc: int, ip: u64, sp: u64, touched: seq<u64>)
    modifies if c.slot < |pool| then {pool[c.slot]} else {}
    ensures !old(IsLive(pool, c)) ==>
      rc == -1 && (ip, sp) == (0, 0) && touched == [] && (c.slot < |pool| ==> unchanged(pool[c.slot]))
    ensures old(IsLive(pool, c)) ==>
      var s := pool[c.slot];
      && IsLive(pool, c) && s.windows == old(s.windows) && s.snapshot == old(s.snapshot)
      && (!Active(old(s.View())) ==>
            s.View() == old(s.View()) && (ip, sp) == (0, 0) && touched == [] && rc == if old(s.done) then 0 else -1)
      && (Active(old(s.View())) ==>
            && (ip, sp) == (old(s.curIp), old(s.regs).sp)
            && touched == CallerReads(old(s.View()), env)
            && (forall env' :: AgreeAt(env, env', touched) ==> Caller(old(s.View()), env') == Caller(old(s.View()), env))
            && match Caller(old(s.View()), env)
               case Some(w) => rc == 1 && s.View() == w
               case None => rc == 0 && s.done)
      && (forall a :: a in touched ==> a % 8 == 0 && (BelowMax(s.windows) ==> InWindows(s.windows, a)))
  {
    if !IsLive(pool, c) {
      return -1, 0, 0, [];
    }
    var s := pool[c.slot];
    ghost var w := s.View();
    rc, ip, sp, touched := s.Advance(env);
    if Active(w) {
      CallerReadsInside(w, env);
      forall env' | AgreeAt(env, env', touched) ensures Caller(w, env') == Caller(w, env) {
        CallerSeesItsReads(w, env, env');
      }
    }
  }

  /** get_reg */
  method GetReg(pool: seq<Slot>, c: FhCursor) returns (ip: u64, sp: u64)
    ensures !IsLive(pool, c) ==> (ip, sp) == (0, 0)
    ensures IsLive(pool, c) ==> (ip, sp) == (pool[c.slot].curIp, pool[c.slot].regs.sp)
  {
    if !IsLive(pool, c) {
      return 0, 0;
    }
    return pool[c.slot].curIp, pool[c.slot].regs.sp;
  }

  /** While the walk is not done, get_reg gives the pair that the next step outputs; a cursor that
      is not live gives zeros to both. */
  method PeekThenStep(pool: seq<Slot>, c: FhCursor, env: Env)
      returns (peeked: (u64, u64), rc: int, output: (u64, u64))
    modifies if c.slot < |pool| then {pool[c.slot]} else {}
    ensures old(IsLive(pool, c)) && Active(old(pool[c.slot].View())) ==> peeked == output && rc >= 0
    ensures !old(IsLive(pool, c)) ==> peeked == output == (0, 0) && rc == -1
  {
    var ip, sp := GetReg(pool, c);
    var touched;
    var ip', sp';
    rc, ip', sp', touched := Step(pool, c, env);
    peeked, output := (ip, sp), (ip', sp');
  }

  /** Stepping a cursor until step returns 0 or less, or `max` times: the frames output are
      exactly the initial frame and its successive callers, none lost and none repeated, and
      only the end of the stack stops them early. A cursor that is not live, or has no snapshot,
      outputs nothing; one whose walk is done outputs zeros once. */
  method Backtrace(pool: seq<Slot>, c: FhCursor, env: Env, max: nat) returns (frames: seq<(u64, u64)>)
    modifies if c.slot < |pool| then {pool[c.slot]} else {}
    ensures |frames| <= max
    ensures !old(IsLive(pool, c)) ==> frames == []
    ensures old(IsLive(pool, c)) ==> IsLive(pool, c)
    ensures old(IsLive(pool, c)) && !Active(old(pool[c.slot].View())) ==>
      frames == (if old(pool[c.slot].done) && max > 0 then [(0, 0)] else []) && pool[c.slot].View() == old(pool[c.slot].View())
    ensures old(IsLive(pool, c)) && Active(old(pool[c.slot].View())) ==>
      var w := old(pool[c.slot].View());
      Traced(w, env, frames) && (|frames| < max ==> FrameAt(w, env, |frames|) == None)
  {
    frames := [];
    ghost var live := IsLive(pool, c);
    ghost var w := if c.slot < |pool| then pool[c.slot].View() else PLACEHOLDER;
    while |frames| < max
      invariant |frames| <= max && IsLive(pool, c) == live
      invariant !live ==> frames == []
      invariant live && !Active(w) ==> frames == [] && pool[c.slot].View() == w
      invariant live && Active(w) ==> Traced(w, env, frames)
      invariant live && Active(w) && |frames| < max ==> FrameAt(w, env, |frames|) == Some(pool[c.slot].View())
    {
      if live && Active(w) {
        TracedNext(w, env, frames, pool[c.slot].View());
      }
      var rc, ip, sp, touched := Step(pool, c, env);
      if rc < 0 {
        return;
      }
      frames := frames + [(ip, sp)];
      if rc == 0 {
        return;
      }
    }
  }

  /** `frames` are the first frames of the stack, in order. */
  ghost predicate Traced(w: Walk, env: Env, frames: seq<(u64, u64)>) {
    forall j :: 0 <= j < |frames| ==>
      FrameAt(w, env, j).Some? && frames[j] == (FrameAt(w, env, j).value.curIp, FrameAt(w, env, j).value.regs.sp)
  }

  lemma TracedNext(w: Walk, env: Env, frames: seq<(u64, u64)>, now: Walk)
    requires Traced(w, env, frames) && FrameAt(w, env, |frames|) == Some(now)
    ensures Active(now) && Traced(w, env, frames + [(now.curIp, now.regs.sp)])
    ensures FrameAt(w, env, |frames| + 1) == Caller(now, env)
  {
    FrameAtNext(w, env, |frames|);
  }

  /** claim_slot: the first free slot is claimed with an incremented sequence as nonce. */
  method ClaimSlot(pool: seq<Slot>) returns (claim: Option<(nat, u64)>)
    requires Apart(pool)
    modifies pool
    ensures claim.None? ==> (forall j :: 0 <= j < |pool| ==> pool[j].inUse && unchanged(pool[j]))
    ensures claim.Some? ==>
      var (i, nonce) := claim.value;
      && i < |pool| && !old(pool[i].inUse) && pool[i].inUse
      && nonce == pool[i].claimSeq == (old(pool[i].claimSeq) + 1) % U64
      && pool[i].View() == old(pool[i].View()) && pool[i].hazard == old(pool[i].hazard)
      && (forall j :: 0 <= j < |pool| && j != i ==> unchanged(pool[j]))
      && (forall j :: 0 <= j < i ==> pool[j].inUse)
  {
    for i := 0 to |pool|
      invariant forall j :: 0 <= j < |pool| ==> unchanged(pool[j])
      invariant forall j :: 0 <= j < i ==> pool[j].inUse
    {
      if !pool[i].inUse {
        pool[i].inUse := true;
        pool[i].claimSeq := (pool[i].claimSeq + 1) % U64;
        return Some((i, pool[i].claimSeq));
      }
    }
    return None;
  }

  /** release_slot: only the live nonce releases. */
  method ReleaseSlot(pool: seq<Slot>, idx: nat, nonce: u64)
    modifies if idx < |pool| then {pool[idx]} else {}
    ensures idx < |pool| ==>
      var s := pool[idx];
      if old(s.claimSeq) != nonce then unchanged(s)
      else !s.inUse && s.claimSeq == (nonce + 1) % U64 && !s.hazard && s.View() == old(s.View()).(snapshot := None)
  {
    if idx < |pool| && pool[idx].claimSeq == nonce {
      var s := pool[idx];
      s.claimSeq := (nonce + 1) % U64;
      s.hazard := false;
      s.snapshot := None;
      s.inUse := false;
    }
  }

  // ------------------------------------------------------------------------- pointer-auth mask

  function Pow2(n: nat): nat {
    if n == 0 then 1 else 2 * Pow2(n - 1)
  }

  /** How many bits `x` needs. */
  function BitLength(x: nat): nat {
    if x == 0 then 0 else 1 + BitLength(x / 2)
  }

  function LeadingZeros(x: u64): (n: nat)
    ensures n + BitLength(x) == 64
  {
    Pow2Of64();
    BitLengthBound(x, 64);
    64 - BitLength(x)
  }

  lemma {:induction false} BitLengthBound(x: nat, b: nat)
    requires x < Pow2(b)
    ensures BitLength(x) <= b
  {
    if x != 0 {
      BitLengthBound(x / 2, b - 1);
    }
  }

  lemma {:induction false} BitLengthExact(x: nat)
    requires x != 0
    ensures BitLength(x) > 0 && Pow2(BitLength(x) - 1) <= x < Pow2(BitLength(x))
  {
    if x > 1 {
      BitLengthExact(x / 2);
      DoubleBounds(x, BitLength(x / 2));
      assert BitLength(x) == BitLength(x / 2) + 1;
    } else {
      assert BitLength(1) == 1 && Pow2(0) == 1 && Pow2(1) == 2;
    }
  }

  lemma DoubleBounds(x: nat, b: nat)
    requires b > 0 && Pow2(b - 1) <= x / 2 < Pow2(b)
    ensures Pow2(b) <= x < Pow2(b + 1)
  {
  }

  lemma Pow2By8(n: nat)
    ensures Pow2(n + 8) == 256 * Pow2(n)
  {
    assert Pow2(n + 2) == 4 * Pow2(n) && Pow2(n + 4) == 4 * Pow2(n + 2);
    assert Pow2(n + 6) == 4 * Pow2(n + 4) && Pow2(n + 8) == 4 * Pow2(n + 6);
  }

  lemma Pow2Of64()
    ensures Pow2(64) == U64
  {
    Pow2By8(0);
    Pow2By8(8);
    Pow2By8(16);
    Pow2By8(24);
    Pow2By8(32);
    Pow2By8(40);
    Pow2By8(48);
    Pow2By8(56);
  }

  /** Shift right by `n` bits. */
  function ShiftRight(x: u64, n: nat): u64 {
    if n == 0 then x else ShiftRight(x / 2, n - 1)
  }

  /** ptr_auth_mask: the greatest value shifted right by the leading zeros of `maxCode`. */
  function PtrAuthMask(aarch64: bool, maxCode: u64): u64 {
    if !aarch64 || maxCode == 0 then MAX else ShiftRight(MAX, LeadingZeros(maxCode))
  }

  lemma {:induction false} ShiftedOnes(x: u64, n: nat, b: nat)
    requires x + 1 == Pow2(b + n)
    ensures ShiftRight(x, n) + 1 == Pow2(b)
    decreases n
  {
    if n > 0 {
      assert Pow2(b + n) == 2 * Pow2(b + (n - 1));
      ShiftedOnes(x / 2, n - 1, b);
    }
  }

  lemma MaskWidth(maxCode: u64)
    requires maxCode != 0
    ensures PtrAuthMask(true, maxCode) + 1 == Pow2(BitLength(maxCode))
  {
    Pow2Of64();
    ShiftedOnes(MAX, LeadingZeros(maxCode), BitLength(maxCode));
  }

  lemma SmallRemainder(x: nat, d: nat)
    requires x < d
    ensures x % d == x
  {
  }

  /** The mask is a run of low ones just wide enough for the highest code address, so masking
      (which keeps the remainder modulo one more than the mask) leaves every code address alone. */
  lemma MaskKeepsCode(maxCode: u64, addr: u64)
    requires maxCode != 0 && addr <= maxCode
    ensures var mask := PtrAuthMask(true, maxCode);
      && mask + 1 == Pow2(BitLength(maxCode))
      && mask / 2 < maxCode <= mask
      && addr % (mask + 1) == addr
  {
    BitLengthExact(maxCode);
    MaskWidth(maxCode);
    SmallRemainder(addr, PtrAuthMask(true, maxCode) + 1);
  }

  /** The walk that cursor_init sets up. */
  function Initial(cache: nat, ctx: Context, aarch64: bool, snap: Snapshot, b: Windows, registered: (u64, u64)): Walk {
    var (lo, hi) := if b.lo < b.hi then (b.lo, b.hi) else StackWindow(ctx.sp, registered);
    var (lo2, hi2) := if b.lo2 < b.hi2 then (b.lo2, b.hi2) else (0, 0);
    Walk(cache, Regs(ctx.sp, ctx.fp, ctx.lr, PtrAuthMask(aarch64, snap.maxCode)), InstructionPointer(ctx.ip), ctx.ip, false, Some(snap),
         Windows(lo, hi, lo2, hi2))
  }

  /** cursor_init_bounds2. `current` is the published snapshot. */
  method CursorInit(pool: seq<Slot>, current: Option<Snapshot>, ctx: Context, aarch64: bool, b: Windows, registered: (u64, u64))
      returns (rc: int, c: FhCursor)
    requires Apart(pool) && |pool| <= 1024
    requires forall j :: 0 <= j < |pool| && !pool[j].inUse ==> !pool[j].hazard && pool[j].snapshot == None
    modifies pool
    ensures rc == 0 || rc == -1 || rc == -2
    ensures rc == -1 <==> forall j :: 0 <= j < |pool| ==> old(pool[j].inUse)
    ensures rc == 0 <==> current.Some? && exists j :: 0 <= j < |pool| && !old(pool[j].inUse)
    ensures rc != 0 ==> c == DEAD && forall j :: 0 <= j < |pool| ==>
      pool[j].inUse == old(pool[j].inUse) && pool[j].hazard == old(pool[j].hazard) && pool[j].View() == old(pool[j].View())
    ensures rc == 0 ==>
      && IsLive(pool, c) && !old(pool[c.slot].inUse) && pool[c.slot].inUse && pool[c.slot].hazard
      && pool[c.slot].View() == Initial(old(pool[c.slot].cache), ctx, aarch64, current.value, b, registered)
      && (forall j :: 0 <= j < |pool| && j != c.slot ==> unchanged(pool[j]))
  {
    c := DEAD;
    var claim := ClaimSlot(pool);
    if claim.None? {
      return -1, DEAD;
    }
    var (i, nonce) := claim.value;
    var s := pool[i];
    if current.None? {
      ReleaseSlot(pool, i, nonce);
      assert s.View() == old(s.View());
      return -2, DEAD;
    }
    s.hazard := true;
    var (lo, hi) := if b.lo < b.hi then (b.lo, b.hi) else StackWindow(ctx.sp, registered);
    s.regs := Regs(ctx.sp, ctx.fp, ctx.lr, PtrAuthMask(aarch64, current.value.maxCode));
    s.curAddr := InstructionPointer(ctx.ip);
    s.curIp := ctx.ip;
    s.done := false;
    s.snapshot := current;
    var (lo2, hi2) := if b.lo2 < b.hi2 then (b.lo2, b.hi2) else (0, 0);
    s.windows := Windows(lo, hi, lo2, hi2);
    c := FhCursor(CURSOR_MAGIC, i, nonce);
    rc := 0;
  }

  /** cursor_fini: releases the slot of a live cursor, changes nothing for any other, and leaves
      a cursor that can release nothing. */
  method CursorFini(pool: seq<Slot>, c: FhCursor) returns (c': FhCursor)
    requires c.nonce < U64
    modifies if c.slot < |pool| then {pool[c.slot]} else {}
    ensures c' == DEAD && !IsLive(pool, c')
    ensures c.slot < |pool| && !old(IsLive(pool, c)) ==> unchanged(pool[c.slot])
    ensures old(IsLive(pool, c)) ==>
      && !IsLive(pool, c) && !pool[c.slot].inUse && !pool[c.slot].hazard && pool[c.slot].snapshot == None
  {
    if c.magic == CURSOR_MAGIC && c.slot != MAX {
      ReleaseSlot(pool, c.slot, c.nonce);
    }
    c' := DEAD;
  }
}

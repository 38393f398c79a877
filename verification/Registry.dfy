/** The writer-side registry of src/modules/mod.rs: which module keys are published, and the
    two-way index between JIT modules and their eh_frame addresses.

    `Reg` is the registry's value and the functions on it are the specification; the class
    `Registry` updates its fields in place, as the source does under the registry lock, and
    is proved against them. `published` is the module list of the current snapshot, which
    only these operations change (through with_writer). */
module Registry {
  import opened Wrappers
  import opened ModuleList

  datatype Counts = Counts(adds: nat, subs: nat)

  datatype Reg = Reg(
    staticMods: map<nat, nat>,   // key -> fingerprint
    jitKeys: set<nat>,
    byEh: map<nat, nat>,         // eh_frame address -> key
    ehByKey: map<nat, nat>,
    counts: Option<Counts>,
    published: seq<Mod>)

  const EMPTY := Reg(map[], {}, map[], map[], None, [])

  // -------------------------------------------------------------------------- JIT modules

  function Forget(r: Reg, k: nat): Reg {
    if k !in r.ehByKey then r
    else
      var e := r.ehByKey[k];
      r.(ehByKey := r.ehByKey - {k},
         byEh := if e in r.byEh && r.byEh[e] == k then r.byEh - {e} else r.byEh)
  }

  /** The published list after registering: a stale module of the same key goes first. */
  function PublishJit(r: Reg, k: nat, img: Image): seq<Mod> {
    Apply(if k in r.jitKeys then Apply(r.published, Remove(k)) else r.published, Add(Mod(k, img)))
  }

  function AddJit(r: Reg, k: nat, e: nat, img: Image): Reg {
    var f := Forget(r.(published := PublishJit(r, k, img), jitKeys := r.jitKeys + {k}), k);
    f.(byEh := f.byEh[e := k],
       ehByKey := (if e in f.byEh then f.ehByKey - {f.byEh[e]} else f.ehByKey)[k := e])
  }

  function RemoveJit(r: Reg, k: nat): Reg {
    if k !in r.jitKeys then r
    else Forget(r.(published := Apply(r.published, Remove(k)), jitKeys := r.jitKeys - {k}), k)
  }

  function RemoveJitByEh(r: Reg, e: nat): Reg {
    if e in r.byEh then RemoveJit(r, r.byEh[e]) else r
  }

  /** The two eh_frame maps are inverses of each other, into the JIT keys. */
  ghost predicate Inverse(r: Reg) {
    && (forall e :: e in r.byEh ==> r.byEh[e] in r.ehByKey && r.ehByKey[r.byEh[e]] == e)
    && (forall k :: k in r.ehByKey ==> r.ehByKey[k] in r.byEh && r.byEh[r.ehByKey[k]] == k)
    && r.ehByKey.Keys <= r.jitKeys
  }

  /** `byEh` without the entries of key `k` and address `e`. */
  function Without(byEh: map<nat, nat>, k: nat, e: nat): map<nat, nat> {
    map x | x in byEh && byEh[x] != k && x != e :: byEh[x]
  }

  lemma AddJitIndex(r: Reg, k: nat, e: nat, img: Image)
    requires Inverse(r)
    ensures Inverse(AddJit(r, k, e, img))
    ensures AddJit(r, k, e, img).byEh == Without(r.byEh, k, e)[e := k]
  {
    assert forall x :: x in r.byEh && r.byEh[x] == k ==> r.ehByKey[k] == x;
  }

  lemma RemoveJitIndex(r: Reg, k: nat)
    requires Inverse(r)
    ensures Inverse(RemoveJit(r, k))
    ensures RemoveJit(r, k).byEh == map x | x in r.byEh && r.byEh[x] != k :: r.byEh[x]
  {
    assert forall x :: x in r.byEh && r.byEh[x] == k ==> r.ehByKey[k] == x;
  }

  // ------------------------------------------------ the index, told from the event history

  datatype JitEvent = Register(k: nat, e: nat, img: Image) | Deregister(k: nat) | DeregisterEh(e: nat)

  function Handle(r: Reg, ev: JitEvent): Reg {
    match ev
    case Register(k, e, img) => AddJit(r, k, e, img)
    case Deregister(k) => RemoveJit(r, k)
    case DeregisterEh(e) => RemoveJitByEh(r, e)
  }

  function After(log: seq<JitEvent>): Reg {
    if log == [] then EMPTY else Handle(After(log[..|log| - 1]), log[|log| - 1])
  }

  /** The event ends a binding of `e` to `k`: it registers either again, or removes `k` by key
      or by the address it is bound to. */
  predicate Ends(ev: JitEvent, k: nat, e: nat) {
    match ev
    case Register(k', e', _) => k' == k || e' == e
    case Deregister(k') => k' == k
    case DeregisterEh(e') => e' == e
  }

  /** The t-th event registered `k` under `e`, and nothing since has ended that. This reads the
      events alone, not the maps. */
  ghost predicate Bound(log: seq<JitEvent>, t: nat, k: nat, e: nat) {
    && t < |log| && log[t].Register? && log[t].k == k && log[t].e == e
    && forall u :: t < u < |log| ==> !Ends(log[u], k, e)
  }

  lemma {:induction false} AfterInverse(log: seq<JitEvent>)
    ensures Inverse(After(log))
  {
    if log != [] {
      var r, ev := After(log[..|log| - 1]), log[|log| - 1];
      AfterInverse(log[..|log| - 1]);
      match ev
      case Register(k, e, img) => AddJitIndex(r, k, e, img);
      case Deregister(k) => RemoveJitIndex(r, k);
      case DeregisterEh(e) => if e in r.byEh { RemoveJitIndex(r, r.byEh[e]); }
    }
  }

  ghost predicate Lookup(r: Reg, k: nat, e: nat) {
    e in r.byEh && r.byEh[e] == k
  }

  predicate Registers(ev: JitEvent, k: nat, e: nat) {
    ev.Register? && ev.k == k && ev.e == e
  }

  lemma LookupStep(r: Reg, ev: JitEvent, k: nat, e: nat)
    requires Inverse(r)
    ensures Lookup(Handle(r, ev), k, e) <==> Registers(ev, k, e) || (Lookup(r, k, e) && !Ends(ev, k, e))
  {
    match ev
    case Register(k', e', img) => AddJitIndex(r, k', e', img);
    case Deregister(k') => RemoveJitIndex(r, k');
    case DeregisterEh(e') =>
      if e' in r.byEh {
        RemoveJitIndex(r, r.byEh[e']);
      }
  }

  lemma BoundStep(log: seq<JitEvent>, t: nat, k: nat, e: nat)
    requires log != []
    ensures var n := |log| - 1;
      Bound(log, t, k, e) <==>
        if t == n then Registers(log[n], k, e) else Bound(log[..n], t, k, e) && !Ends(log[n], k, e)
  {
  }

  /** Looking up `e` gives `k` exactly when a registration of `k` under `e` is still bound:
      no later registration of `e`, re-registration of `k` or removal of `k`. */
  lemma {:induction false} LookupIsLatestBinding(log: seq<JitEvent>, k: nat, e: nat)
    ensures Lookup(After(log), k, e) <==> exists t :: Bound(log, t, k, e)
    decreases |log|
  {
    if log != [] {
      var n := |log| - 1;
      LookupIsLatestBinding(log[..n], k, e);
      AfterInverse(log[..n]);
      LookupStep(After(log[..n]), log[n], k, e);
      if Registers(log[n], k, e) {
        BoundStep(log, n, k, e);
      } else if t :| Bound(log[..n], t, k, e) {
        BoundStep(log, t, k, e);
      }
      if t :| Bound(log, t, k, e) {
        BoundStep(log, t, k, e);
      }
    }
  }

  /** A stale eh_frame address removes nothing: if no registration under `e` is still bound,
      deregistering `e` changes nothing; if one is, it removes exactly that key. */
  lemma StaleEhRemovesNothing(log: seq<JitEvent>, e: nat)
    ensures (forall k, t :: !Bound(log, t, k, e)) ==> After(log + [DeregisterEh(e)]) == After(log)
    ensures forall k, t :: Bound(log, t, k, e) ==>
      After(log + [DeregisterEh(e)]) == RemoveJit(After(log), k)
  {
    var log' := log + [DeregisterEh(e)];
    assert log'[..|log|] == log;
    var r := After(log);
    if e in r.byEh {
      LookupIsLatestBinding(log, r.byEh[e], e);
    }
    forall k, t | Bound(log, t, k, e) ensures After(log') == RemoveJit(r, k) {
      LookupIsLatestBinding(log, k, e);
    }
  }
}

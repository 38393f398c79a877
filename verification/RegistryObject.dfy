/** The registry as the object the source mutates under its lock. Every method is proved
    against the value functions of `Registry`, `RegistryRefresh` and `MacImages`. */
module RegistryObject {
  import opened Wrappers
  import opened ModuleList
  import R = Registry
  import F = RegistryRefresh
  import M = MacImages

  /** A set's members in some order, as iterating a hash map gives them. */
  method Collect(s: set<nat>) returns (l: seq<nat>)
    ensures F.Lists(l, s)
  {
    l := [];
    var rest := s;
    while rest != {}
      invariant rest <= s && F.Lists(l, s - rest)
      decreases rest
    {
      var k :| k in rest;
      F.ListsMember(l, s - rest);
      assert (set x | x in l + [k]) == (set x | x in l) + {k};
      assert s - (rest - {k}) == (s - rest) + {k};
      l, rest := l + [k], rest - {k};
    }
  }

  method RemoveAll(l: seq<Mod>, ks: seq<nat>) returns (unw: seq<Mod>)
    ensures unw == ApplyAll(l, Removes(ks))
  {
    unw := l;
    for i := 0 to |ks|
      invariant unw == ApplyAll(l, Removes(ks[..i]))
    {
      RemovesSnoc(l, ks[..i], ks[i]);
      assert ks[..i + 1] == ks[..i] + [ks[i]];
      unw := Apply(unw, Remove(ks[i]));
    }
    assert ks[..|ks|] == ks;
  }

  method AddAll(l: seq<Mod>, ms: seq<Mod>) returns (unw: seq<Mod>)
    ensures unw == ApplyAll(l, Adds(ms))
  {
    unw := l;
    for i := 0 to |ms|
      invariant unw == ApplyAll(l, Adds(ms[..i]))
    {
      ApplySnoc(l, Adds(ms[..i]), Add(ms[i]));
      assert Adds(ms[..i + 1]) == Adds(ms[..i]) + [Add(ms[i])];
      unw := Apply(unw, Add(ms[i]));
    }
    assert ms[..|ms|] == ms;
  }

  /** Removes the keys that are not JIT keys too. */
  method RemoveUnlessJit(l: seq<Mod>, ks: seq<nat>, jit: set<nat>) returns (unw: seq<Mod>)
    ensures unw == ApplyAll(l, Removes(F.NotJit(ks, jit)))
  {
    unw := l;
    for i := 0 to |ks|
      invariant unw == ApplyAll(l, Removes(F.NotJit(ks[..i], jit)))
    {
      NotJitSnoc(ks, i, jit);
      if ks[i] !in jit {
        var done := F.NotJit(ks[..i], jit);
        RemovesSnoc(l, done, ks[i]);
        unw := Apply(unw, Remove(ks[i]));
      }
    }
    assert ks[..|ks|] == ks;
  }

  class Registry {
    var staticMods: map<nat, nat>
    var jitKeys: set<nat>
    var byEh: map<nat, nat>
    var ehByKey: map<nat, nat>
    var counts: Option<R.Counts>
    var batching: bool
    var pending: seq<M.Entry>
    var published: seq<Mod>

    function View(): R.Reg
      reads this
    {
      R.Reg(staticMods, jitKeys, byEh, ehByKey, counts, published)
    }

    function MacView(): M.Mac
      reads this
    {
      M.Mac(View(), batching, pending)
    }

    constructor ()
      ensures MacView() == M.Mac(R.EMPTY, false, [])
    {
      staticMods, jitKeys, byEh, ehByKey := map[], {}, map[], map[];
      counts, batching, pending, published := None, false, [], [];
    }

    /** forget_jit_eh_frame */
    method ForgetJitEhFrame(k: nat)
      modifies this
      ensures MacView() == old(MacView()).(reg := R.Forget(old(View()), k))
    {
      if k in ehByKey {
        var e := ehByKey[k];
        ehByKey := ehByKey - {k};
        if e in byEh && byEh[e] == k {
          byEh := byEh - {e};
        }
      }
    }

    /** add_jit_module */
    method AddJitModule(k: nat, e: nat, img: Image)
      modifies this
      ensures MacView() == old(MacView()).(reg := R.AddJit(old(View()), k, e, img))
    {
      var unw := published;
      if k in jitKeys {
        unw := Apply(unw, Remove(k));
      }
      published := Apply(unw, Add(Mod(k, img)));
      jitKeys := jitKeys + {k};
      ForgetJitEhFrame(k);
      var had := e in byEh;
      var prev := if had then byEh[e] else 0;
      byEh := byEh[e := k];
      if had {
        ehByKey := ehByKey - {prev};
      }
      ehByKey := ehByKey[k := e];
    }

    /** remove_jit_locked */
    method RemoveJitLocked(k: nat)
      modifies this
      ensures MacView() == old(MacView()).(reg := R.RemoveJit(old(View()), k))
    {
      if k !in jitKeys {
        return;
      }
      published := Apply(published, Remove(k));
      jitKeys := jitKeys - {k};
      ForgetJitEhFrame(k);
    }

    /** remove_jit_module_by_eh_frame */
    method RemoveJitModuleByEhFrame(e: nat)
      modifies this
      ensures MacView() == old(MacView()).(reg := R.RemoveJitByEh(old(View()), e))
    {
      if e in byEh {
        RemoveJitLocked(byEh[e]);
      }
    }

    /** refresh, given the counts load_counts read and the objects the enumeration found (None
        if it failed). */
    method Refresh(read: Option<R.Counts>, scan: Option<map<nat, Image>>)
      modifies this
      ensures batching == old(batching) && pending == old(pending)
      ensures (read.Some? && read == old(counts)) || scan.None? ==> View() == old(View())
      ensures !(read.Some? && read == old(counts)) && scan.Some? ==>
        F.Refreshed(old(View()), read, scan.value, View())
    {
      if (read.Some? && read == counts) || scan.None? {
        return;
      }
      var objs := scan.value;
      var removed := Collect(F.Removed(staticMods, objs));
      var changed := Collect(F.Changed(staticMods, objs));
      var added := Collect(F.New(staticMods, objs));
      F.ListsMember(added, F.New(staticMods, objs));
      F.ListsEmpty(View(), objs, changed, added, removed);
      counts := read;
      if added == [] && removed == [] && changed == [] {
        return;
      }
      var unw := RemoveAll(published, changed);
      unw := AddAll(unw, F.ModsOf(added, objs));
      unw := RemoveUnlessJit(unw, removed, jitKeys);
      ApplyAllConcat(published, Removes(changed), Adds(F.ModsOf(added, objs)));
      ApplyAllConcat(published, Removes(changed) + Adds(F.ModsOf(added, objs)), Removes(F.NotJit(removed, jitKeys)));
      published := unw;
      staticMods := F.Fingerprints(objs);
      F.RefreshesTo(old(View()), read, objs, changed, added, removed);
    }

    /** macos_begin_batch */
    method MacBeginBatch()
      modifies this
      ensures MacView() == M.BeginBatch(old(MacView()))
    {
      batching := true;
    }

    /** macos_end_batch */
    method MacEndBatch()
      modifies this
      ensures MacView() == M.EndBatch(old(MacView()))
    {
      batching := false;
      var todo := pending;
      pending := [];
      ghost var l, mods := published, staticMods;
      for i := 0 to |todo|
        modifies this
        invariant staticMods == M.InsertAll(mods, todo[..i])
        invariant unchanged(`jitKeys) && unchanged(`byEh) && unchanged(`ehByKey) && unchanged(`counts)
        invariant batching == false && pending == [] && published == l
      {
        assert todo[..i + 1][..i] == todo[..i];
        staticMods := staticMods[todo[i].k := todo[i].fp];
      }
      assert todo[..|todo|] == todo;
      var unw := AddAll(published, M.ModsIn(todo));
      published := unw;
    }

    /** macos_add_image */
    method MacAddImage(x: M.Entry)
      modifies this
      ensures MacView() == M.Add1(old(MacView()), x)
    {
      if batching {
        pending := pending + [x];
        return;
      }
      var unw := published;
      if x.k in staticMods {
        unw := Apply(unw, Remove(x.k));
      }
      published := Apply(unw, Add(Mod(x.k, x.img)));
      staticMods := staticMods[x.k := x.fp];
    }

    /** macos_remove_image */
    method MacRemoveImage(k: nat)
      modifies this
      ensures MacView() == M.Remove1(old(MacView()), k)
    {
      if batching {
        pending := M.WithoutKey(pending, k);
      }
      if k !in staticMods {
        return;
      }
      staticMods := staticMods - {k};
      if k in jitKeys {
        return;
      }
      published := Apply(published, Remove(k));
    }
  }

  lemma ApplySnoc(l: seq<Mod>, ops: seq<ModOp>, op: ModOp)
    ensures ApplyAll(l, ops + [op]) == Apply(ApplyAll(l, ops), op)
  {
    ApplyAllConcat(l, ops, [op]);
    assert [op][1..] == [];
  }

  lemma RemovesSnoc(l: seq<Mod>, ks: seq<nat>, k: nat)
    ensures ApplyAll(l, Removes(ks + [k])) == Apply(ApplyAll(l, Removes(ks)), Remove(k))
  {
    ApplySnoc(l, Removes(ks), Remove(k));
    assert Removes(ks + [k]) == Removes(ks) + [Remove(k)];
  }

  lemma {:induction false} NotJitConcat(a: seq<nat>, b: seq<nat>, jit: set<nat>)
    ensures F.NotJit(a + b, jit) == F.NotJit(a, jit) + F.NotJit(b, jit)
  {
    if a == [] {
      assert a + b == b;
    } else {
      assert (a + b)[1..] == a[1..] + b;
      NotJitConcat(a[1..], b, jit);
    }
  }

  lemma NotJitSnoc(ks: seq<nat>, i: nat, jit: set<nat>)
    requires i < |ks|
    ensures F.NotJit(ks[..i + 1], jit) ==
      if ks[i] in jit then F.NotJit(ks[..i], jit) else F.NotJit(ks[..i], jit) + [ks[i]]
  {
    assert ks[..i + 1] == ks[..i] + [ks[i]];
    NotJitConcat(ks[..i], [ks[i]], jit);
  }
}

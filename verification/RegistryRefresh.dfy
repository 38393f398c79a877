/** refresh, the loader it reads, and what is published after any run of registrations,
    deregistrations and refreshes, with objects loaded and unloaded at any time. */
module RegistryRefresh {
  import opened Wrappers
  import opened ModuleList
  import opened Registry

  // ----------------------------------------------------------------- one refresh, as values

  function Fingerprints(objs: map<nat, Image>): map<nat, nat> {
    map k | k in objs :: objs[k].fingerprint
  }

  /** The objects that enumeration builds a module for. */
  function Usable(objs: map<nat, Image>): map<nat, Image> {
    map k | k in objs && objs[k].usable :: objs[k]
  }

  function Removed(known: map<nat, nat>, objs: map<nat, Image>): set<nat> {
    set k | k in known && k !in objs
  }

  function Changed(known: map<nat, nat>, objs: map<nat, Image>): set<nat> {
    set k | k in known && k in objs && objs[k].fingerprint != known[k]
  }

  /** Usable objects that are not known with the same fingerprint. */
  function New(known: map<nat, nat>, objs: map<nat, Image>): set<nat> {
    set k | k in objs && objs[k].usable && (k !in known || known[k] != objs[k].fingerprint)
  }

  /** `l` lists the members of `s`, each once, in some order (hash maps have none). */
  ghost predicate Lists(l: seq<nat>, s: set<nat>) {
    (forall i, j :: 0 <= i < j < |l| ==> l[i] != l[j]) && (set k | k in l) == s
  }

  function ModsOf(ks: seq<nat>, objs: map<nat, Image>): seq<Mod>
    requires forall k :: k in ks ==> k in objs
  {
    seq(|ks|, i requires 0 <= i < |ks| => Mod(ks[i], objs[ks[i]]))
  }

  function NotJit(ks: seq<nat>, jit: set<nat>): seq<nat> {
    if ks == [] then []
    else (if ks[0] in jit then [] else [ks[0]]) + NotJit(ks[1..], jit)
  }

  /** The published list after the mutation of a refresh, for the orders in which the
      changed, new and removed keys were collected. */
  function Republish(r: Reg, objs: map<nat, Image>, changed: seq<nat>, added: seq<nat>, removed: seq<nat>): seq<Mod>
    requires forall k :: k in added ==> k in objs
  {
    ApplyAll(r.published, Removes(changed) + Adds(ModsOf(added, objs)) + Removes(NotJit(removed, r.jitKeys)))
  }

  ghost predicate Orders(r: Reg, objs: map<nat, Image>, changed: seq<nat>, added: seq<nat>, removed: seq<nat>) {
    && Lists(changed, Changed(r.staticMods, objs))
    && Lists(added, New(r.staticMods, objs))
    && Lists(removed, Removed(r.staticMods, objs))
  }

  lemma ListsMember(l: seq<nat>, s: set<nat>)
    requires Lists(l, s)
    ensures forall k :: k in l <==> k in s
  {
    assert forall k :: k in l <==> k in set x | x in l;
  }

  /** `r2` is what a refresh of `r` that scans `objs` may leave behind. */
  ghost predicate Refreshed(r: Reg, counts: Option<Counts>, objs: map<nat, Image>, r2: Reg) {
    if New(r.staticMods, objs) == {} && Removed(r.staticMods, objs) == {} && Changed(r.staticMods, objs) == {} then
      r2 == r.(counts := counts)
    else
      exists changed, added, removed ::
        && Orders(r, objs, changed, added, removed)
        && (forall k :: k in added ==> k in objs)
        && r2 == r.(counts := counts, staticMods := Fingerprints(objs),
                    published := Republish(r, objs, changed, added, removed))
  }

  /** Nothing was collected exactly when nothing changed. */
  lemma ListsEmpty(r: Reg, objs: map<nat, Image>, changed: seq<nat>, added: seq<nat>, removed: seq<nat>)
    requires Orders(r, objs, changed, added, removed)
    ensures (added == [] && removed == [] && changed == []) <==>
      (New(r.staticMods, objs) == {} && Removed(r.staticMods, objs) == {} && Changed(r.staticMods, objs) == {})
  {
    ListEmpty(changed, Changed(r.staticMods, objs));
    ListEmpty(added, New(r.staticMods, objs));
    ListEmpty(removed, Removed(r.staticMods, objs));
  }

  lemma ListEmpty(l: seq<nat>, s: set<nat>)
    requires Lists(l, s)
    ensures l == [] <==> s == {}
  {
    ListsMember(l, s);
    assert l != [] ==> l[0] in s;
  }

  lemma RefreshesTo(r: Reg, counts: Option<Counts>, objs: map<nat, Image>, changed: seq<nat>, added: seq<nat>, removed: seq<nat>)
    requires Orders(r, objs, changed, added, removed) && !(added == [] && removed == [] && changed == [])
    requires forall k :: k in added ==> k in objs
    ensures Refreshed(r, counts, objs,
      r.(counts := counts, staticMods := Fingerprints(objs), published := Republish(r, objs, changed, added, removed)))
  {
    ListsEmpty(r, objs, changed, added, removed);
  }

  // --------------------------------------------------------------- what the registry tracks

  /** The registry reflects the scanned objects: it knows each with its fingerprint, except
      possibly objects that are not usable. */
  ghost predicate Tracks(known: map<nat, nat>, scanned: map<nat, Image>) {
    && (forall k :: k in known ==> k in scanned && scanned[k].fingerprint == known[k])
    && (forall k :: k in scanned && scanned[k].usable ==> k in known)
  }

  /** Published is exactly the usable scanned objects and the JIT modules, each key once. An
      object without unwind information may share the key of a JIT module. */
  ghost predicate Exact(r: Reg, scanned: map<nat, Image>, jit: map<nat, Image>) {
    && Tracks(r.staticMods, scanned)
    && r.jitKeys == jit.Keys && jit.Keys !! Usable(scanned).Keys
    && Represents(r.published, Usable(scanned) + jit)
  }

  /** No known fingerprint hides a usable object: where it still matches, and the object scanned
      then or the one loaded now is usable, they are the same. */
  ghost predicate ToldApart(known: map<nat, nat>, scanned: map<nat, Image>, objs: map<nat, Image>) {
    forall k :: k in known && k in scanned && k in objs ==>
      known[k] == objs[k].fingerprint && (scanned[k].usable || objs[k].usable) ==> scanned[k] == objs[k]
  }

  /** Fingerprints tell images apart: an object scanned at an address and another loaded there
      later never have the same fingerprint. The source assumes this, which is more. */
  ghost predicate Distinguishes(a: map<nat, Image>, b: map<nat, Image>) {
    forall k :: k in a && k in b && a[k].fingerprint == b[k].fingerprint ==> a[k] == b[k]
  }

  lemma DistinguishesSuffices(known: map<nat, nat>, scanned: map<nat, Image>, objs: map<nat, Image>)
    requires Tracks(known, scanned) && Distinguishes(scanned, objs)
    ensures ToldApart(known, scanned, objs)
  {
  }

  lemma {:induction false} NotJitMember(ks: seq<nat>, jit: set<nat>, k: nat)
    ensures k in NotJit(ks, jit) <==> k in ks && k !in jit
  {
    if ks != [] {
      NotJitMember(ks[1..], jit, k);
    }
  }

  lemma {:induction false} NotJitDistinct(ks: seq<nat>, jit: set<nat>)
    requires forall i, j :: 0 <= i < j < |ks| ==> ks[i] != ks[j]
    ensures var l := NotJit(ks, jit); forall i, j :: 0 <= i < j < |l| ==> l[i] != l[j]
  {
    if ks != [] {
      NotJitDistinct(ks[1..], jit);
      NotJitMember(ks[1..], jit, ks[0]);
    }
  }

  lemma NotJitLists(ks: seq<nat>, jit: set<nat>, s: set<nat>)
    requires Lists(ks, s)
    ensures Lists(NotJit(ks, jit), s - jit)
  {
    NotJitDistinct(ks, jit);
    ListsMember(ks, s);
    forall k ensures k in NotJit(ks, jit) <==> k in s - jit {
      NotJitMember(ks, jit, k);
    }
  }

  lemma ModsExtend(m: map<nat, Image>, ks: seq<nat>, objs: map<nat, Image>, s: set<nat>)
    requires Lists(ks, s) && (forall k :: k in ks ==> k in objs) && s !! m.Keys
    ensures Extends(m, ModsOf(ks, objs), m + map k | k in s && k in objs :: objs[k])
  {
    ListsMember(ks, s);
    var ms, n := ModsOf(ks, objs), m + map k | k in s && k in objs :: objs[k];
    forall k | k in n ensures k in m || exists i :: 0 <= i < |ms| && ms[i].key == k {
      if k !in m {
        var i :| 0 <= i < |ks| && ks[i] == k;
        assert ms[i].key == k;
      }
    }
    forall i | 0 <= i < |ms| ensures ms[i].key in s && n[ms[i].key] == ms[i].image {
      assert ks[i] in ks;
    }
  }

  lemma RemoveListed(l: seq<Mod>, m: map<nat, Image>, ks: seq<nat>, s: set<nat>)
    requires Represents(l, m) && Lists(ks, s)
    ensures Represents(ApplyAll(l, Removes(ks)), m - s)
  {
    RemovesRepresent(l, m, ks);
    assert m - (set k | k in ks) == m - s;
  }

  lemma AddListed(l: seq<Mod>, m: map<nat, Image>, ks: seq<nat>, s: set<nat>, objs: map<nat, Image>)
    requires Represents(l, m) && Lists(ks, s) && (forall k :: k in ks ==> k in objs) && s !! m.Keys
    ensures Represents(ApplyAll(l, Adds(ModsOf(ks, objs))), m + map k | k in s && k in objs :: objs[k])
  {
    ModsExtend(m, ks, objs, s);
    AddsRepresent(l, m, ModsOf(ks, objs), m + map k | k in s && k in objs :: objs[k]);
  }

  lemma RemoveAddRemove(l: seq<Mod>, m: map<nat, Image>, objs: map<nat, Image>,
                        changed: seq<nat>, c: set<nat>, added: seq<nat>, n: set<nat>, removed: seq<nat>, d: set<nat>)
    requires Represents(l, m) && Lists(changed, c) && Lists(added, n) && Lists(removed, d)
    requires (forall k :: k in added ==> k in objs) && n !! (m - c).Keys
    ensures Represents(ApplyAll(l, Removes(changed) + Adds(ModsOf(added, objs)) + Removes(removed)),
                       ((m - c) + map k | k in n && k in objs :: objs[k]) - d)
  {
    RemoveListed(l, m, changed, c);
    var l1 := ApplyAll(l, Removes(changed));
    AddListed(l1, m - c, added, n, objs);
    var l2 := ApplyAll(l1, Adds(ModsOf(added, objs)));
    RemoveListed(l2, (m - c) + map k | k in n && k in objs :: objs[k], removed, d);
    ApplyAllConcat(l, Removes(changed), Adds(ModsOf(added, objs)));
    ApplyAllConcat(l, Removes(changed) + Adds(ModsOf(added, objs)), Removes(removed));
  }

  /** What a refresh publishes, key by key: changed keys go, new ones come, removed ones go
      unless they are JIT keys. */
  function RefreshedMap(known: map<nat, nat>, scanned: map<nat, Image>, jit: map<nat, Image>, objs: map<nat, Image>): map<nat, Image> {
    (((Usable(scanned) + jit) - Changed(known, objs)) + map k | k in New(known, objs) && k in objs :: objs[k])
    - (Removed(known, objs) - jit.Keys)
  }

  lemma RepublishRepresents(r: Reg, scanned: map<nat, Image>, jit: map<nat, Image>, objs: map<nat, Image>,
                            changed: seq<nat>, added: seq<nat>, removed: seq<nat>)
    requires Exact(r, scanned, jit) && (New(r.staticMods, objs) - Changed(r.staticMods, objs)) !! jit.Keys
    requires Orders(r, objs, changed, added, removed) && forall k :: k in added ==> k in objs
    ensures Represents(Republish(r, objs, changed, added, removed), RefreshedMap(r.staticMods, scanned, jit, objs))
  {
    var known := r.staticMods;
    NotJitLists(removed, r.jitKeys, Removed(known, objs));
    NewIsFresh(known, scanned, jit, objs);
    RemoveAddRemove(r.published, Usable(scanned) + jit, objs, changed, Changed(known, objs), added, New(known, objs),
                    NotJit(removed, r.jitKeys), Removed(known, objs) - jit.Keys);
  }

  lemma NewIsFresh(known: map<nat, nat>, scanned: map<nat, Image>, jit: map<nat, Image>, objs: map<nat, Image>)
    requires Tracks(known, scanned) && (New(known, objs) - Changed(known, objs)) !! jit.Keys
    ensures New(known, objs) !! ((Usable(scanned) + jit) - Changed(known, objs)).Keys
  {
  }

  lemma RefreshMap(known: map<nat, nat>, scanned: map<nat, Image>, jit: map<nat, Image>, objs: map<nat, Image>)
    requires Tracks(known, scanned) && jit.Keys !! Usable(scanned).Keys && ToldApart(known, scanned, objs)
    requires (New(known, objs) + Changed(known, objs)) !! jit.Keys
    ensures RefreshedMap(known, scanned, jit, objs) == Usable(objs) + jit && jit.Keys !! Usable(objs).Keys
  {
  }

  /** A refresh that finds no new usable object and no changed one at the key of a JIT module
      leaves exactly the usable loaded objects and the JIT modules published, in whatever order
      it went through its hash maps, also when it returns early. */
  lemma RefreshExact(r: Reg, counts: Option<Counts>, scanned: map<nat, Image>, jit: map<nat, Image>,
                     objs: map<nat, Image>, r2: Reg)
    requires Exact(r, scanned, jit) && ToldApart(r.staticMods, scanned, objs)
    requires (New(r.staticMods, objs) + Changed(r.staticMods, objs)) !! jit.Keys
    requires Refreshed(r, counts, objs, r2)
    ensures Exact(r2, objs, jit)
  {
    var known := r.staticMods;
    if New(known, objs) == {} && Removed(known, objs) == {} && Changed(known, objs) == {} {
      NothingChanged(known, scanned, objs);
    } else {
      var changed, added, removed :|
        && Orders(r, objs, changed, added, removed)
        && (forall k :: k in added ==> k in objs)
        && r2 == r.(counts := counts, staticMods := Fingerprints(objs),
                    published := Republish(r, objs, changed, added, removed));
      RepublishRepresents(r, scanned, jit, objs, changed, added, removed);
      RefreshMap(known, scanned, jit, objs);
    }
  }

  /** The early return: a registry that lacks only unusable objects still tracks the scan,
      and the usable objects are the same as before. */
  lemma NothingChanged(known: map<nat, nat>, scanned: map<nat, Image>, objs: map<nat, Image>)
    requires Tracks(known, scanned) && ToldApart(known, scanned, objs)
    requires New(known, objs) == {} && Removed(known, objs) == {} && Changed(known, objs) == {}
    ensures Tracks(known, objs) && Usable(objs) == Usable(scanned)
  {
    forall k | k in known ensures k in objs && objs[k].fingerprint == known[k] {
      assert k !in Removed(known, objs) && k !in Changed(known, objs);
    }
    forall k | k in objs && objs[k].usable ensures k in known {
      assert k !in New(known, objs);
    }
  }
}

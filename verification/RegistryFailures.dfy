/** What the registry does when keys do not stay apart: the two ways to fail, with their runs. */
module RegistryFailures {
  import opened Wrappers
  import opened ModuleList
  import opened Registry
  import opened RegistryRefresh
  import opened RegistryRuns

  // ---------------------------------------------- a JIT module at the key of an unloaded object

  /** A refresh that finds nothing loaded at `k` keeps the modules published there, the very
      ones, if and only if the key belongs to a JIT module, or to no static module, or nothing
      is published there: the defensive test skips a key of both kinds. */
  lemma RefreshKeepsKeyIff(r: Reg, counts: Option<Counts>, objs: map<nat, Image>, r2: Reg, k: nat)
    requires Refreshed(r, counts, objs, r2) && k !in objs
    ensures At(r2.published, k) == At(r.published, k) <==>
      k in r.jitKeys || k !in r.staticMods || At(r.published, k) == []
  {
    var known := r.staticMods;
    if New(known, objs) == {} && Removed(known, objs) == {} && Changed(known, objs) == {} {
      assert k !in Removed(known, objs);
    } else {
      var changed, added, removed :|
        && Orders(r, objs, changed, added, removed)
        && (forall k :: k in added ==> k in objs)
        && r2 == r.(counts := counts, staticMods := Fingerprints(objs),
                    published := Republish(r, objs, changed, added, removed));
      RepublishKeepsKeyIff(r, objs, changed, added, removed, k);
    }
  }

  lemma RepublishKeepsKeyIff(r: Reg, objs: map<nat, Image>, changed: seq<nat>, added: seq<nat>, removed: seq<nat>, k: nat)
    requires Orders(r, objs, changed, added, removed) && k !in objs && forall x :: x in added ==> x in objs
    ensures At(Republish(r, objs, changed, added, removed), k) == At(r.published, k) <==>
      k in r.jitKeys || k !in r.staticMods || At(r.published, k) == []
  {
    ListsMember(changed, Changed(r.staticMods, objs));
    ListsMember(removed, Removed(r.staticMods, objs));
    NotJitMember(removed, r.jitKeys, k);
    var ms, rest := ModsOf(added, objs), NotJit(removed, r.jitKeys);
    forall i | 0 <= i < |ms| ensures ms[i].key != k {
      assert added[i] in added;
    }
    AtAbsent(ms, k);
    AtRepublished(r.published, changed, ms, rest, k);
    assert k !in changed;
    var l2 := ApplyAll(r.published, Removes(changed) + Adds(ms));
    ApplyAllConcat(r.published, Removes(changed) + Adds(ms), Removes(rest));
    RemovesShrink(l2, rest, k);
  }

  ghost predicate SparedBy(r: Reg, ev: JitEvent, k: nat) {
    match ev
    case Register(x, _, _) => x != k
    case Deregister(x) => x != k
    case DeregisterEh(e) => !Lookup(r, k, e)
  }

  /** The step neither registers nor deregisters code at `k`, nor scans an object there. */
  ghost predicate Spared(w: World, a: Action, k: nat) {
    match a
    case Jit(ev) => SparedBy(w.reg, ev, k)
    case FinishRefresh => k !in w.loaded
    case _ => true
  }

  lemma JitSpares(r: Reg, ev: JitEvent, k: nat)
    requires SparedBy(r, ev, k)
    ensures At(Handle(r, ev).published, k) == At(r.published, k)
    ensures Handle(r, ev).staticMods == r.staticMods && (k in Handle(r, ev).jitKeys <==> k in r.jitKeys)
  {
    match ev
    case Register(x, e, img) =>
      AddJitFields(r, x, e, img);
      AtApply(r.published, Remove(x), k);
      var l := if x in r.jitKeys then Apply(r.published, Remove(x)) else r.published;
      AtApply(l, Add(Mod(x, img)), k);
    case Deregister(x) => OtherJitRemoved(r, x, k);
    case DeregisterEh(e) => if e in r.byEh { OtherJitRemoved(r, r.byEh[e], k); }
  }

  lemma OtherJitRemoved(r: Reg, x: nat, k: nat)
    requires x != k
    ensures At(RemoveJit(r, x).published, k) == At(r.published, k)
    ensures RemoveJit(r, x).staticMods == r.staticMods && (k in RemoveJit(r, x).jitKeys <==> k in r.jitKeys)
  {
    if x in r.jitKeys {
      RemoveJitFields(r, x);
      AtApply(r.published, Remove(x), k);
    }
  }

  /** Once a key is a JIT key, or not a static one, what is published there stays for good: in
      any run, however many refreshes it has, until code is registered or deregistered at `k`
      or an object is scanned there. */
  lemma {:induction false} StaleModuleStays(run: seq<World>, acts: seq<Action>, i: nat, j: nat, k: nat)
    requires IsFreeRun(run, acts) && i <= j < |run|
    requires k in run[i].reg.jitKeys || k !in run[i].reg.staticMods
    requires forall t :: i <= t < j ==> Spared(run[t], acts[t], k)
    ensures At(run[j].reg.published, k) == At(run[i].reg.published, k)
    ensures k in run[j].reg.jitKeys || k !in run[j].reg.staticMods
    decreases j
  {
    if i < j {
      StaleModuleStays(run, acts, i, j - 1, k);
      assert FreeStepAt(run, acts, j - 1) && Spared(run[j - 1], acts[j - 1], k);
      StaleStep(run[j - 1], acts[j - 1], run[j], k);
    }
  }

  lemma StaleStep(w: World, a: Action, w': World, k: nat)
    requires Step(w, a, w') && Spared(w, a, k) && (k in w.reg.jitKeys || k !in w.reg.staticMods)
    ensures At(w'.reg.published, k) == At(w.reg.published, k)
    ensures k in w'.reg.jitKeys || k !in w'.reg.staticMods
  {
    match a
    case FinishRefresh => RefreshKeepsKeyIff(w.reg, w.pending.value, w.loaded, w'.reg, k);
    case Jit(ev) => JitSpares(w.reg, ev, k);
    case _ =>
  }

  lemma ShortLists(k: nat)
    ensures Lists([k], {k}) && Lists([], {})
  {
    assert (set x | x in [k]) == {k};
  }

  /** One refresh with its outcome spelled out. */
  lemma RefreshesAs(r: Reg, counts: Option<Counts>, objs: map<nat, Image>, changed: seq<nat>, added: seq<nat>,
                    removed: seq<nat>, r2: Reg)
    requires Orders(r, objs, changed, added, removed) && !(added == [] && removed == [] && changed == [])
    requires forall k :: k in added ==> k in objs
    requires r2 == r.(counts := counts, staticMods := Fingerprints(objs), published := Republish(r, objs, changed, added, removed))
    ensures Refreshed(r, counts, objs, r2)
  {
    RefreshesTo(r, counts, objs, changed, added, removed);
  }

  /** A first scan that adds one object. */
  lemma RepublishAdds(objs: map<nat, Image>, k: nat)
    requires k in objs
    ensures Republish(EMPTY, objs, [], [k], []) == [Mod(k, objs[k])]
  {
    AddsAppend([], ModsOf([k], objs));
    assert Removes([]) + Adds(ModsOf([k], objs)) + Removes(NotJit([], {})) == Adds(ModsOf([k], objs));
  }

  /** The registry after one usable object at `k` was scanned. */
  function Scanned(k: nat, obj: Image): Reg {
    Reg(map[k := obj.fingerprint], {}, map[], map[], Some(Counts(1, 0)), [Mod(k, obj)])
  }

  lemma ScanOne(k: nat, obj: Image)
    requires obj.usable
    ensures Refreshed(EMPTY, Some(Counts(1, 0)), map[k := obj], Scanned(k, obj))
  {
    var objs := map[k := obj];
    assert New(map[], objs) == {k} && Changed(map[], objs) == {} && Removed(map[], objs) == {};
    assert Fingerprints(objs) == map[k := obj.fingerprint];
    ShortLists(k);
    RepublishAdds(objs, k);
    RefreshesAs(EMPTY, Some(Counts(1, 0)), objs, [], [k], [], Scanned(k, obj));
  }

  lemma RepublishSkips(r: Reg, k: nat)
    requires k in r.jitKeys
    ensures Republish(r, map[], [], [], [k]) == r.published
  {
    assert NotJit([k], r.jitKeys) == NotJit([], r.jitKeys) == [];
    assert Removes([]) + Adds(ModsOf([], map[])) + Removes([]) == [];
  }

  /** The registry after code was registered at the key of that object. */
  function Both(k: nat, obj: Image, e: nat, img: Image): Reg {
    Reg(map[k := obj.fingerprint], {k}, map[e := k], map[k := e], Some(Counts(1, 0)), [Mod(k, obj), Mod(k, img)])
  }

  lemma RescanNone(k: nat, obj: Image, e: nat, img: Image)
    ensures Refreshed(Both(k, obj, e, img), Some(Counts(1, 1)), map[],
                      Both(k, obj, e, img).(staticMods := map[], counts := Some(Counts(1, 1))))
  {
    var r := Both(k, obj, e, img);
    assert r.staticMods.Keys == {k};
    assert New(r.staticMods, map[]) == {} && Changed(r.staticMods, map[]) == {} && Removed(r.staticMods, map[]) == {k};
    assert Fingerprints(map[]) == map[];
    ShortLists(k);
    RepublishSkips(r, k);
    RefreshesAs(r, Some(Counts(1, 1)), map[], [], [], [k], r.(staticMods := map[], counts := Some(Counts(1, 1))));
  }

  /** The worlds of the run below, in order. */
  ghost function StaleWorld(k: nat, obj: Image, e: nat, img: Image, i: nat): World {
    var w0 := World(EMPTY, map[], 0, 0, None, map[], map[]);
    var w1 := w0.(loaded := map[k := obj], adds := 1);
    var w3 := w1.(reg := Scanned(k, obj), scanned := map[k := obj]);
    var w4 := w3.(loaded := map[], subs := 1);
    var w5 := w4.(reg := Both(k, obj, e, img), jit := map[k := img]);
    var w7 := w5.(reg := w5.reg.(staticMods := map[], counts := Some(Counts(1, 1))), scanned := map[]);
    match i
    case 0 => w0
    case 1 => w1
    case 2 => w1.(pending := Some(Some(Counts(1, 0))))
    case 3 => w3
    case 4 => w4
    case 5 => w5
    case 6 => w5.(pending := Some(Some(Counts(1, 1))))
    case 7 => w7
    case _ => w7.(reg := RemoveJit(w7.reg, k), jit := map[])
  }

  function StaleActions(k: nat, obj: Image, e: nat, img: Image): seq<Action> {
    [Load(k, obj), BeginRefresh(true), FinishRefresh, Unload(k), Jit(Register(k, e, img)),
     BeginRefresh(true), FinishRefresh, Jit(Deregister(k))]
  }

  lemma StaleRunStep(k: nat, obj: Image, e: nat, img: Image, i: nat)
    requires obj.usable && i < 8
    ensures Step(StaleWorld(k, obj, e, img, i), StaleActions(k, obj, e, img)[i], StaleWorld(k, obj, e, img, i + 1))
  {
    if i == 2 {
      ScanOne(k, obj);
    } else if i == 3 {
      assert map[k := obj] - {k} == map[];
    } else if i == 4 {
      RegisterBoth(k, obj, e, img);
    } else if i == 6 {
      RescanNone(k, obj, e, img);
    } else if i == 7 {
      assert map[k := img] - {k} == map[];
    }
  }

  /** The assumption is needed, and this is the input: load an object at `k`, refresh, unload it,
      register code at `k`, refresh. Nothing is loaded any more, and both modules are published.
      Deregistering the code then leaves one of them, although nothing is loaded or registered. */
  lemma StaleRun(k: nat, obj: Image, e: nat, img: Image) returns (run: seq<World>)
    requires obj.usable
    ensures |run| == 9 && IsFreeRun(run, StaleActions(k, obj, e, img)) && Starts(run[0])
    ensures run[7].loaded == map[] && run[7].reg.published == [Mod(k, obj), Mod(k, img)]
    ensures run[8].loaded == map[] && run[8].jit == map[] && run[8].reg.jitKeys == {} && run[8].reg.staticMods == map[]
    ensures |run[8].reg.published| == 1 && run[8].reg.published[0].key == k
  {
    run := seq(9, i requires 0 <= i => StaleWorld(k, obj, e, img, i));
    var acts := StaleActions(k, obj, e, img);
    forall i | 0 <= i < 8 ensures FreeStepAt(run, acts, i) {
      StaleRunStep(k, obj, e, img, i);
    }
    DeregisterLeavesOne(run[7].reg, k, obj, img);
  }

  lemma RegisterBoth(k: nat, obj: Image, e: nat, img: Image)
    ensures AddJit(Scanned(k, obj), k, e, img) == Both(k, obj, e, img)
  {
    assert {} + {k} == {k};
  }

  lemma DeregisterLeavesOne(r: Reg, k: nat, obj: Image, img: Image)
    requires r.published == [Mod(k, obj), Mod(k, img)] && r.jitKeys == {k} && r.staticMods == map[]
    ensures var r' := RemoveJit(r, k);
      r'.jitKeys == {} && r'.staticMods == map[] && |r'.published| == 1 && r'.published[0].key == k
  {
    RemoveJitFields(r, k);
    assert Find(r.published, k) == 0;
  }

  // -------------------------------------------------------------- a changed object at a JIT key

  /** The registry after `a`, without unwind information, at `k` and `c` at `j` were scanned. */
  function ScannedTwo(k: nat, a: Image, j: nat, c: Image): Reg {
    Reg(map[k := a.fingerprint, j := c.fingerprint], {}, map[], map[], Some(Counts(2, 0)), [Mod(j, c)])
  }

  lemma ScanTwo(k: nat, a: Image, j: nat, c: Image)
    requires k != j && !a.usable && c.usable
    ensures Refreshed(EMPTY, Some(Counts(2, 0)), map[k := a, j := c], ScannedTwo(k, a, j, c))
  {
    var objs := map[k := a, j := c];
    assert New(map[], objs) == {j} && Changed(map[], objs) == {} && Removed(map[], objs) == {};
    assert Fingerprints(objs) == map[k := a.fingerprint, j := c.fingerprint];
    ShortLists(j);
    RepublishAdds(objs, j);
    RefreshesAs(EMPTY, Some(Counts(2, 0)), objs, [], [j], [], ScannedTwo(k, a, j, c));
  }

  /** The same, and code registered at `k`. */
  function WithCode(k: nat, a: Image, j: nat, c: Image, e: nat, img: Image): Reg {
    ScannedTwo(k, a, j, c).(jitKeys := {k}, byEh := map[e := k], ehByKey := map[k := e], published := [Mod(j, c), Mod(k, img)])
  }

  lemma RescanChanged(k: nat, a: Image, b: Image, j: nat, c: Image, e: nat, img: Image)
    requires k != j && !b.usable && c.usable && b.fingerprint != a.fingerprint
    ensures Refreshed(WithCode(k, a, j, c, e, img), Some(Counts(3, 1)), map[k := b, j := c],
                      Rescanned(k, a, b, j, c, e, img))
  {
    var r, objs := WithCode(k, a, j, c, e, img), map[k := b, j := c];
    assert New(r.staticMods, objs) == {} && Changed(r.staticMods, objs) == {k} && Removed(r.staticMods, objs) == {};
    assert Fingerprints(objs) == map[k := b.fingerprint, j := c.fingerprint];
    ShortLists(k);
    RepublishDrops(r, objs, Mod(j, c), Mod(k, img));
    RefreshesAs(r, Some(Counts(3, 1)), objs, [k], [], [], Rescanned(k, a, b, j, c, e, img));
  }

  lemma RepublishDrops(r: Reg, objs: map<nat, Image>, x: Mod, y: Mod)
    requires r.published == [x, y] && x.key != y.key
    ensures Republish(r, objs, [y.key], [], []) == [x]
  {
    DropLast(r.published, x, y);
    assert Removes([y.key]) + Adds(ModsOf([], objs)) + Removes(NotJit([], r.jitKeys)) == [Remove(y.key)];
  }

  lemma DropLast(l: seq<Mod>, x: Mod, y: Mod)
    requires l == [x, y] && x.key != y.key
    ensures ApplyAll(l, [Remove(y.key)]) == [x]
  {
    assert l[1..] == [y] && Find([y], y.key) == 0 && Find(l, y.key) == 1;
    assert Apply(l, Remove(y.key)) == [x];
    assert ApplyAll([x], []) == [x] && [Remove(y.key)][1..] == [];
  }

  function Rescanned(k: nat, a: Image, b: Image, j: nat, c: Image, e: nat, img: Image): Reg {
    WithCode(k, a, j, c, e, img).(staticMods := map[k := b.fingerprint, j := c.fingerprint],
                                  counts := Some(Counts(3, 1)), published := [Mod(j, c)])
  }

  function DroppedActions(k: nat, a: Image, b: Image, j: nat, c: Image, e: nat, img: Image): seq<Action> {
    [Load(k, a), Load(j, c), BeginRefresh(true), FinishRefresh, Jit(Register(k, e, img)),
     Unload(k), Load(k, b), BeginRefresh(true), FinishRefresh]
  }

  ghost function DroppedWorld(k: nat, a: Image, b: Image, j: nat, c: Image, e: nat, img: Image, i: nat): World {
    var w0 := World(EMPTY, map[], 0, 0, None, map[], map[]);
    var w1 := w0.(loaded := map[k := a], adds := 1);
    var w2 := w0.(loaded := map[k := a, j := c], adds := 2);
    var w4 := w2.(reg := ScannedTwo(k, a, j, c), scanned := w2.loaded);
    var w5 := w4.(reg := WithCode(k, a, j, c, e, img), jit := map[k := img]);
    var w7 := w5.(loaded := map[k := b, j := c], adds := 3, subs := 1);
    match i
    case 0 => w0
    case 1 => w1
    case 2 => w2
    case 3 => w2.(pending := Some(Some(Counts(2, 0))))
    case 4 => w4
    case 5 => w5
    case 6 => w5.(loaded := map[j := c], subs := 1)
    case 7 => w7
    case 8 => w7.(pending := Some(Some(Counts(3, 1))))
    case _ => w7.(reg := Rescanned(k, a, b, j, c, e, img), scanned := w7.loaded)
  }

  lemma DroppedRunStep(k: nat, a: Image, b: Image, j: nat, c: Image, e: nat, img: Image, i: nat)
    requires k != j && !a.usable && !b.usable && c.usable && b.fingerprint != a.fingerprint && i < 9
    ensures Step(DroppedWorld(k, a, b, j, c, e, img, i), DroppedActions(k, a, b, j, c, e, img)[i],
                 DroppedWorld(k, a, b, j, c, e, img, i + 1))
  {
    if i == 1 {
      assert map[k := a][j := c] == map[k := a, j := c];
    } else if i == 3 {
      ScanTwo(k, a, j, c);
    } else if i == 4 {
      RegisterWithCode(k, a, j, c, e, img);
    } else if i == 5 {
      assert map[k := a, j := c] - {k} == map[j := c];
    } else if i == 6 {
      assert map[j := c][k := b] == map[k := b, j := c];
    } else if i == 8 {
      RescanChanged(k, a, b, j, c, e, img);
    }
  }

  lemma RegisterWithCode(k: nat, a: Image, j: nat, c: Image, e: nat, img: Image)
    ensures AddJit(ScannedTwo(k, a, j, c), k, e, img) == WithCode(k, a, j, c, e, img)
  {
    assert {} + {k} == {k};
  }

  /** The other way to fail: load an object without unwind information at `k` and a usable one
      elsewhere, refresh, register code at `k`, replace the first object by another without unwind
      information, refresh. The code is registered, and nothing is published for it. */
  lemma DroppedRun(k: nat, a: Image, b: Image, j: nat, c: Image, e: nat, img: Image) returns (run: seq<World>)
    requires k != j && !a.usable && !b.usable && c.usable && b.fingerprint != a.fingerprint
    ensures var acts := DroppedActions(k, a, b, j, c, e, img);
      && |run| == 10 && IsFreeRun(run, acts) && Starts(run[0])
      && (forall i :: 0 <= i < 8 ==> KeysApart(run[i], acts[i]))
      && (forall i :: 0 <= i < 9 ==> Distinguished(run[i], acts[i]))
    ensures run[9].jit == map[k := img] && run[9].reg.jitKeys == {k} && run[9].reg.published == [Mod(j, c)]
  {
    run := seq(10, i requires 0 <= i => DroppedWorld(k, a, b, j, c, e, img, i));
    var acts := DroppedActions(k, a, b, j, c, e, img);
    forall i | 0 <= i < 9 ensures FreeStepAt(run, acts, i) {
      DroppedRunStep(k, a, b, j, c, e, img, i);
    }
  }
}

/** Runs of the registry against a loader that loads and unloads objects at any time. */
module RegistryRuns {
  import opened Wrappers
  import opened ModuleList
  import opened Registry
  import opened RegistryRefresh

  /** `loaded`, `adds` and `subs` are the dynamic loader's; `pending` is a refresh between
      its read of the counts and its scan (it holds the registry lock). History: the objects
      of the last scan and the JIT modules registered now. */
  datatype World = World(
    reg: Reg,
    loaded: map<nat, Image>, adds: nat, subs: nat,
    pending: Option<Option<Counts>>,
    scanned: map<nat, Image>, jit: map<nat, Image>)

  datatype Action =
    | Load(k: nat, img: Image)
    | Unload(k: nat)
    | BeginRefresh(reported: bool)   // does the C library report counts?
    | FinishRefresh                  // scan and publish
    | FailRefresh                    // the enumeration failed
    | Jit(ev: JitEvent)

  /** The counts that load_counts reads. */
  function ReadCounts(w: World, reported: bool): Option<Counts> {
    if reported then Some(Counts(w.adds, w.subs)) else None
  }

  /** refresh returns at once: the counts are those of the last scan. */
  predicate Skips(w: World, reported: bool) {
    ReadCounts(w, reported).Some? && ReadCounts(w, reported) == w.reg.counts
  }

  function JitAfter(r: Reg, jit: map<nat, Image>, ev: JitEvent): map<nat, Image> {
    match ev
    case Register(k, _, img) => jit[k := img]
    case Deregister(k) => jit - {k}
    case DeregisterEh(e) => if e in r.byEh then jit - {r.byEh[e]} else jit
  }

  ghost predicate Step(w: World, a: Action, w': World) {
    match a
    case Load(k, img) => k !in w.loaded && w' == w.(loaded := w.loaded[k := img], adds := w.adds + 1)
    case Unload(k) => k in w.loaded && w' == w.(loaded := w.loaded - {k}, subs := w.subs + 1)
    case BeginRefresh(reported) =>
      && w.pending.None?
      && w' == if Skips(w, reported) then w else w.(pending := Some(ReadCounts(w, reported)))
    case FinishRefresh =>
      && w.pending.Some?
      && Refreshed(w.reg, w.pending.value, w.loaded, w'.reg)
      && w' == w.(reg := w'.reg, pending := None, scanned := w.loaded)
    case FailRefresh => w.pending.Some? && w' == w.(pending := None)
    case Jit(ev) =>
      && w.pending.None?
      && w' == w.(reg := Handle(w.reg, ev), jit := JitAfter(w.reg, w.jit, ev))
  }

  /** Code is not registered at the key of a usable object of the last scan, and no scan finds a
      new usable or a changed object at the key of a JIT module. */
  ghost predicate KeysApart(w: World, a: Action) {
    match a
    case Jit(ev) => ev.Register? ==> ev.k !in Usable(w.scanned)
    case FinishRefresh => (New(w.reg.staticMods, w.loaded) + Changed(w.reg.staticMods, w.loaded)) !! w.jit.Keys
    case _ => true
  }

  /** Fingerprints tell the images of one scan from those of the next, where it matters. */
  ghost predicate Distinguished(w: World, a: Action) {
    a.FinishRefresh? ==> ToldApart(w.reg.staticMods, w.scanned, w.loaded)
  }

  /** The two assumptions. */
  ghost predicate Assumed(w: World, a: Action) {
    KeysApart(w, a) && Distinguished(w, a)
  }

  /** The source assumes more: that static and JIT keys are disjoint, and that fingerprints
      distinguish any two images. */
  ghost predicate AssumedBySource(w: World, a: Action) {
    match a
    case Jit(ev) => ev.Register? ==> ev.k !in w.reg.staticMods
    case FinishRefresh => w.loaded.Keys !! w.jit.Keys && Distinguishes(w.scanned, w.loaded)
    case _ => true
  }

  lemma SourceAssumesEnough(w: World, a: Action)
    requires Exact(w.reg, w.scanned, w.jit) && AssumedBySource(w, a)
    ensures Assumed(w, a)
  {
    if a.FinishRefresh? {
      DistinguishesSuffices(w.reg.staticMods, w.scanned, w.loaded);
    }
  }

  ghost predicate Starts(w: World) {
    w.reg == EMPTY && w.pending == None && w.scanned == map[] && w.jit == map[]
  }

  ghost predicate StepAt(run: seq<World>, acts: seq<Action>, i: nat)
    requires |run| == |acts| + 1 && i < |acts|
  {
    Step(run[i], acts[i], run[i + 1]) && Assumed(run[i], acts[i])
  }

  ghost predicate IsRun(run: seq<World>, acts: seq<Action>) {
    |run| == |acts| + 1 && Starts(run[0]) && forall i :: 0 <= i < |acts| ==> StepAt(run, acts, i)
  }

  /** Any run, whether or not the assumptions hold. */
  ghost predicate FreeStepAt(run: seq<World>, acts: seq<Action>, i: nat)
    requires |run| == |acts| + 1 && i < |acts|
  {
    Step(run[i], acts[i], run[i + 1])
  }

  ghost predicate IsFreeRun(run: seq<World>, acts: seq<Action>) {
    |run| == |acts| + 1 && forall i :: 0 <= i < |acts| ==> FreeStepAt(run, acts, i)
  }

  ghost predicate Older(c: Counts, w: World) {
    c.adds <= w.adds && c.subs <= w.subs
  }

  /** Recorded counts that still hold mean that nothing was loaded or unloaded since. */
  ghost predicate CountsOk(w: World) {
    && (w.reg.counts.Some? ==>
          && Older(w.reg.counts.value, w)
          && (w.reg.counts.value == Counts(w.adds, w.subs) ==> w.scanned == w.loaded))
    && (w.pending.Some? && w.pending.value.Some? ==> Older(w.pending.value.value, w))
  }

  ghost predicate Inv(w: World) {
    Exact(w.reg, w.scanned, w.jit) && Inverse(w.reg) && CountsOk(w)
  }

  lemma PublishJitRepresents(r: Reg, m: map<nat, Image>, k: nat, img: Image)
    requires Represents(r.published, m) && (k in m ==> k in r.jitKeys)
    ensures Represents(PublishJit(r, k, img), m[k := img])
  {
    if k in r.jitKeys {
      RemoveRepresents(r.published, m, k);
      AddRepresents(Apply(r.published, Remove(k)), m - {k}, k, img);
      assert (m - {k})[k := img] == m[k := img];
    } else {
      AddRepresents(r.published, m, k, img);
    }
  }

  lemma AddJitFields(r: Reg, k: nat, e: nat, img: Image)
    ensures var r' := AddJit(r, k, e, img);
      && r'.published == PublishJit(r, k, img) && r'.jitKeys == r.jitKeys + {k}
      && r'.staticMods == r.staticMods && r'.counts == r.counts
  {
  }

  lemma OverrideUpdate(a: map<nat, Image>, b: map<nat, Image>, k: nat, v: Image)
    ensures (a + b)[k := v] == a + b[k := v]
  {
  }

  lemma AddJitExact(r: Reg, scanned: map<nat, Image>, jit: map<nat, Image>, k: nat, e: nat, img: Image)
    requires Exact(r, scanned, jit) && k !in Usable(scanned)
    ensures Exact(AddJit(r, k, e, img), scanned, jit[k := img])
  {
    PublishJitRepresents(r, Usable(scanned) + jit, k, img);
    OverrideUpdate(Usable(scanned), jit, k, img);
    AddJitFields(r, k, e, img);
  }

  lemma RemoveJitFields(r: Reg, k: nat)
    requires k in r.jitKeys
    ensures var r' := RemoveJit(r, k);
      && r'.published == Apply(r.published, Remove(k)) && r'.jitKeys == r.jitKeys - {k}
      && r'.staticMods == r.staticMods && r'.counts == r.counts
  {
  }

  lemma OverrideRemove(a: map<nat, Image>, b: map<nat, Image>, k: nat)
    requires k !in a
    ensures (a + b) - {k} == a + (b - {k})
  {
  }

  lemma RemoveJitExact(r: Reg, scanned: map<nat, Image>, jit: map<nat, Image>, k: nat)
    requires Exact(r, scanned, jit)
    ensures Exact(RemoveJit(r, k), scanned, jit - {k})
  {
    if k in r.jitKeys {
      RemoveRepresents(r.published, Usable(scanned) + jit, k);
      OverrideRemove(Usable(scanned), jit, k);
      RemoveJitFields(r, k);
    } else {
      assert jit - {k} == jit;
    }
  }

  lemma JitKeeps(w: World, ev: JitEvent)
    requires Inv(w) && (ev.Register? ==> ev.k !in Usable(w.scanned))
    ensures Exact(Handle(w.reg, ev), w.scanned, JitAfter(w.reg, w.jit, ev))
    ensures Inverse(Handle(w.reg, ev)) && Handle(w.reg, ev).counts == w.reg.counts
  {
    match ev
    case Register(k, e, img) =>
      AddJitExact(w.reg, w.scanned, w.jit, k, e, img);
      AddJitIndex(w.reg, k, e, img);
    case Deregister(k) =>
      RemoveJitExact(w.reg, w.scanned, w.jit, k);
      RemoveJitIndex(w.reg, k);
    case DeregisterEh(e) =>
      if e in w.reg.byEh {
        RemoveJitExact(w.reg, w.scanned, w.jit, w.reg.byEh[e]);
        RemoveJitIndex(w.reg, w.reg.byEh[e]);
      }
  }

  lemma Keep(w: World, a: Action, w': World)
    requires Inv(w) && Step(w, a, w') && Assumed(w, a)
    ensures Inv(w')
  {
    match a
    case FinishRefresh => RefreshExact(w.reg, w.pending.value, w.scanned, w.jit, w.loaded, w'.reg);
    case Jit(ev) => JitKeeps(w, ev);
    case _ =>
  }

  lemma {:induction false} RunInv(run: seq<World>, acts: seq<Action>, i: nat)
    requires IsRun(run, acts) && i < |run|
    ensures Inv(run[i])
    decreases i
  {
    if i == 0 {
      assert Usable(run[0].scanned) + run[0].jit == map[];
    } else {
      assert StepAt(run, acts, i - 1);
      RunInv(run, acts, i - 1);
      Keep(run[i - 1], acts[i - 1], run[i]);
    }
  }

  /** After any run: published is exactly the usable objects of the last scan and the JIT
      modules registered now, each key once, and the two eh_frame maps are inverses. */
  lemma PublishedExactly(run: seq<World>, acts: seq<Action>, i: nat)
    requires IsRun(run, acts) && i < |run|
    ensures Represents(run[i].reg.published, Usable(run[i].scanned) + run[i].jit)
    ensures Inverse(run[i].reg)
  {
    RunInv(run, acts, i);
  }

  /** Whenever a refresh has returned, by scanning or by skipping on equal counts, and
      however loads and unloads fell between its count read and its scan, published is
      exactly the usable objects loaded at that moment and the JIT modules. */
  lemma RefreshMissesNothing(run: seq<World>, acts: seq<Action>, i: nat)
    requires IsRun(run, acts) && i < |acts|
    requires acts[i].FinishRefresh? || (acts[i].BeginRefresh? && Skips(run[i], acts[i].reported))
    ensures Represents(run[i + 1].reg.published, Usable(run[i + 1].loaded) + run[i + 1].jit)
  {
    RunInv(run, acts, i);
    RunInv(run, acts, i + 1);
    assert StepAt(run, acts, i);
  }

  // ------------------------------------------------ exactly when the key assumption is needed

  /** Registering JIT code at `k` keeps what is published exact, and each key published once, if
      and only if no usable object of the last scan has that key. */
  lemma AddJitExactIff(r: Reg, scanned: map<nat, Image>, jit: map<nat, Image>, k: nat, e: nat, img: Image)
    requires Exact(r, scanned, jit)
    ensures Exact(AddJit(r, k, e, img), scanned, jit[k := img]) <==> k !in Usable(scanned)
    ensures EachKeyOnce(AddJit(r, k, e, img).published) <==> k !in Usable(scanned)
  {
    var l := r.published;
    if k in Usable(scanned) {
      AddJitFields(r, k, e, img);
      AtRepresents(l, Usable(scanned) + jit, k);
      AtApply(l, Add(Mod(k, img)), k);
      if EachKeyOnce(Apply(l, Add(Mod(k, img)))) {
        AtOnce(Apply(l, Add(Mod(k, img))), k);
      }
    } else {
      AddJitExact(r, scanned, jit, k, e, img);
    }
  }

  /** Removals, additions and removals, none of the latter at `k`. */
  lemma AtRepublished(l: seq<Mod>, changed: seq<nat>, ms: seq<Mod>, removed: seq<nat>, k: nat)
    ensures var l1 := ApplyAll(l, Removes(changed));
      At(ApplyAll(l, Removes(changed) + Adds(ms)), k) == At(l1, k) + At(ms, k)
    ensures k !in removed ==>
      var l1 := ApplyAll(l, Removes(changed));
      At(ApplyAll(l, Removes(changed) + Adds(ms) + Removes(removed)), k) == At(l1, k) + At(ms, k)
    ensures k !in changed ==> At(ApplyAll(l, Removes(changed)), k) == At(l, k)
  {
    var l1 := ApplyAll(l, Removes(changed));
    AddsAppend(l1, ms);
    AtConcat(l1, ms, k);
    ApplyAllConcat(l, Removes(changed), Adds(ms));
    if k !in removed {
      AtApplyAll(l1 + ms, Removes(removed), k);
      ApplyAllConcat(l, Removes(changed) + Adds(ms), Removes(removed));
    }
    if k !in changed {
      AtApplyAll(l, Removes(changed), k);
    }
  }

  lemma {:induction false} RemovesShrink(l: seq<Mod>, ks: seq<nat>, k: nat)
    ensures |At(ApplyAll(l, Removes(ks)), k)| <= |At(l, k)|
    ensures k in ks && At(l, k) != [] ==> |At(ApplyAll(l, Removes(ks)), k)| < |At(l, k)|
    decreases |ks|
  {
    if ks != [] {
      assert Removes(ks)[0] == Remove(ks[0]) && Removes(ks)[1..] == Removes(ks[1..]);
      AtApply(l, Remove(ks[0]), k);
      RemovesShrink(Apply(l, Remove(ks[0])), ks[1..], k);
    }
  }

  lemma AtModsOf(ks: seq<nat>, objs: map<nat, Image>, s: set<nat>, k: nat)
    requires Lists(ks, s) && forall x :: x in ks ==> x in objs
    ensures k in s ==> k in objs
    ensures At(ModsOf(ks, objs), k) == if k in s then [Mod(k, objs[k])] else []
  {
    ListsMember(ks, s);
    var ms := ModsOf(ks, objs);
    if k in s {
      var i :| 0 <= i < |ks| && ks[i] == k;
      AtPresent(ms, k, i);
      AtOnce(ms, k);
    } else {
      forall i | 0 <= i < |ms| ensures ms[i].key != k {
        assert ks[i] in ks;
      }
      AtAbsent(ms, k);
    }
  }

  /** What a refresh leaves at the key of a JIT module: it drops the module if a changed object
      has the key (the loop over the changed keys does not test for it), and adds the object's if
      that is new and usable. */
  lemma RefreshAtJitKey(r: Reg, counts: Option<Counts>, scanned: map<nat, Image>, jit: map<nat, Image>,
                        objs: map<nat, Image>, r2: Reg, k: nat)
    requires Exact(r, scanned, jit) && Refreshed(r, counts, objs, r2) && k in jit
    ensures k in New(r.staticMods, objs) ==> k in objs
    ensures At(r2.published, k) ==
      (if k in Changed(r.staticMods, objs) then [] else [Mod(k, jit[k])])
      + (if k in New(r.staticMods, objs) then [Mod(k, objs[k])] else [])
  {
    var known := r.staticMods;
    AtRepresents(r.published, Usable(scanned) + jit, k);
    if !(New(known, objs) == {} && Removed(known, objs) == {} && Changed(known, objs) == {}) {
      var changed, added, removed :|
        && Orders(r, objs, changed, added, removed)
        && (forall k :: k in added ==> k in objs)
        && r2 == r.(counts := counts, staticMods := Fingerprints(objs),
                    published := Republish(r, objs, changed, added, removed));
      RepublishAtJitKey(r, objs, changed, added, removed, k, Mod(k, jit[k]));
    }
  }

  lemma RepublishAtJitKey(r: Reg, objs: map<nat, Image>, changed: seq<nat>, added: seq<nat>, removed: seq<nat>,
                          k: nat, m: Mod)
    requires Orders(r, objs, changed, added, removed) && forall x :: x in added ==> x in objs
    requires k in r.jitKeys && At(r.published, k) == [m]
    ensures k in New(r.staticMods, objs) ==> k in objs
    ensures At(Republish(r, objs, changed, added, removed), k) ==
      (if k in Changed(r.staticMods, objs) then [] else [m])
      + (if k in New(r.staticMods, objs) then [Mod(k, objs[k])] else [])
  {
    ListsMember(changed, Changed(r.staticMods, objs));
    NotJitMember(removed, r.jitKeys, k);
    AtRepublished(r.published, changed, ModsOf(added, objs), NotJit(removed, r.jitKeys), k);
    AtModsOf(added, objs, New(r.staticMods, objs), k);
    RemovesShrink(r.published, changed, k);
  }

  /** What is published at a key that is neither new nor changed nor removed stays. */
  lemma RefreshAtOtherKey(r: Reg, counts: Option<Counts>, objs: map<nat, Image>, r2: Reg, k: nat)
    requires Refreshed(r, counts, objs, r2)
    requires k !in New(r.staticMods, objs) + Changed(r.staticMods, objs) + Removed(r.staticMods, objs)
    ensures At(r2.published, k) == At(r.published, k)
  {
    var known := r.staticMods;
    if !(New(known, objs) == {} && Removed(known, objs) == {} && Changed(known, objs) == {}) {
      var changed, added, removed :|
        && Orders(r, objs, changed, added, removed)
        && (forall k :: k in added ==> k in objs)
        && r2 == r.(counts := counts, staticMods := Fingerprints(objs),
                    published := Republish(r, objs, changed, added, removed));
      ListsMember(changed, Changed(known, objs));
      ListsMember(removed, Removed(known, objs));
      NotJitMember(removed, r.jitKeys, k);
      AtRepublished(r.published, changed, ModsOf(added, objs), NotJit(removed, r.jitKeys), k);
      AtModsOf(added, objs, New(known, objs), k);
    }
  }

  /** A refresh that keeps what is published exact was not misled by a fingerprint. */
  lemma ExactMeansTold(r: Reg, counts: Option<Counts>, scanned: map<nat, Image>, jit: map<nat, Image>,
                       objs: map<nat, Image>, r2: Reg)
    requires Exact(r, scanned, jit) && Refreshed(r, counts, objs, r2) && Exact(r2, objs, jit)
    ensures ToldApart(r.staticMods, scanned, objs)
  {
    var known := r.staticMods;
    forall k | k in known && k in scanned && k in objs && known[k] == objs[k].fingerprint
               && (scanned[k].usable || objs[k].usable) ensures scanned[k] == objs[k]
    {
      RefreshAtOtherKey(r, counts, objs, r2, k);
      AtRepresents(r.published, Usable(scanned) + jit, k);
      AtRepresents(r2.published, Usable(objs) + jit, k);
    }
  }

  /** A refresh keeps what is published exact if and only if it finds no new usable object and no
      changed object at the key of a JIT module, and no fingerprint hides a usable object. Each key
      is published once exactly if every new object at a JIT key is also a changed one. */
  lemma RefreshExactIff(r: Reg, counts: Option<Counts>, scanned: map<nat, Image>, jit: map<nat, Image>,
                        objs: map<nat, Image>, r2: Reg)
    requires Exact(r, scanned, jit) && Refreshed(r, counts, objs, r2)
    ensures Exact(r2, objs, jit) <==>
      && (New(r.staticMods, objs) + Changed(r.staticMods, objs)) !! jit.Keys
      && ToldApart(r.staticMods, scanned, objs)
    ensures EachKeyOnce(r2.published) <==> (New(r.staticMods, objs) - Changed(r.staticMods, objs)) !! jit.Keys
  {
    var known := r.staticMods;
    if (New(known, objs) + Changed(known, objs)) !! jit.Keys && ToldApart(known, scanned, objs) {
      RefreshExact(r, counts, scanned, jit, objs, r2);
    }
    if Exact(r2, objs, jit) {
      ExactMeansTold(r, counts, scanned, jit, objs, r2);
      ExactMeansApart(r, counts, scanned, jit, objs, r2);
    }
    RefreshOnceIff(r, counts, scanned, jit, objs, r2);
  }

  lemma ExactMeansApart(r: Reg, counts: Option<Counts>, scanned: map<nat, Image>, jit: map<nat, Image>,
                        objs: map<nat, Image>, r2: Reg)
    requires Exact(r, scanned, jit) && Refreshed(r, counts, objs, r2) && Exact(r2, objs, jit)
    ensures (New(r.staticMods, objs) + Changed(r.staticMods, objs)) !! jit.Keys
  {
    forall k | k in New(r.staticMods, objs) + Changed(r.staticMods, objs) ensures k !in jit {
      if k in jit {
        RefreshAtJitKey(r, counts, scanned, jit, objs, r2, k);
        AtRepresents(r2.published, Usable(objs) + jit, k);
      }
    }
  }

  lemma RefreshOnceIff(r: Reg, counts: Option<Counts>, scanned: map<nat, Image>, jit: map<nat, Image>,
                       objs: map<nat, Image>, r2: Reg)
    requires Exact(r, scanned, jit) && Refreshed(r, counts, objs, r2)
    ensures EachKeyOnce(r2.published) <==> (New(r.staticMods, objs) - Changed(r.staticMods, objs)) !! jit.Keys
  {
    var known := r.staticMods;
    if k :| k in New(known, objs) - Changed(known, objs) && k in jit {
      RefreshAtJitKey(r, counts, scanned, jit, objs, r2, k);
      if EachKeyOnce(r2.published) {
        AtOnce(r2.published, k);
      }
    } else if !(New(known, objs) == {} && Removed(known, objs) == {} && Changed(known, objs) == {}) {
      var changed, added, removed :|
        && Orders(r, objs, changed, added, removed)
        && (forall k :: k in added ==> k in objs)
        && r2 == r.(counts := counts, staticMods := Fingerprints(objs),
                    published := Republish(r, objs, changed, added, removed));
      RepublishRepresents(r, scanned, jit, objs, changed, added, removed);
    }
  }

  ghost predicate ExactNow(w: World) {
    Exact(w.reg, w.scanned, w.jit)
  }

  /** One step of any run keeps what is published exact if and only if both assumptions hold. */
  lemma StepExactIff(w: World, a: Action, w': World)
    requires ExactNow(w) && Step(w, a, w')
    ensures ExactNow(w') <==> Assumed(w, a)
  {
    match a
    case FinishRefresh => RefreshExactIff(w.reg, w.pending.value, w.scanned, w.jit, w.loaded, w'.reg);
    case Jit(ev) => JitExactIff(w, ev);
    case _ =>
  }

  lemma JitExactIff(w: World, ev: JitEvent)
    requires ExactNow(w)
    ensures Exact(Handle(w.reg, ev), w.scanned, JitAfter(w.reg, w.jit, ev)) <==> KeysApart(w, Jit(ev))
  {
    match ev
    case Register(k, e, img) => AddJitExactIff(w.reg, w.scanned, w.jit, k, e, img);
    case Deregister(k) => RemoveJitExact(w.reg, w.scanned, w.jit, k);
    case DeregisterEh(e) => if e in w.reg.byEh { RemoveJitExact(w.reg, w.scanned, w.jit, w.reg.byEh[e]); }
  }

  /** Over any run at all, what is published is exact all along if and only if both assumptions
      hold in every step: keys stay apart, and no fingerprint hides a usable object. */
  lemma ExactThroughoutIff(run: seq<World>, acts: seq<Action>)
    requires IsFreeRun(run, acts) && Starts(run[0])
    ensures (forall i :: 0 <= i < |run| ==> ExactNow(run[i])) <==>
      (forall i :: 0 <= i < |acts| ==> Assumed(run[i], acts[i]))
  {
    if forall i :: 0 <= i < |acts| ==> Assumed(run[i], acts[i]) {
      forall i | 0 <= i < |acts| ensures StepAt(run, acts, i) {
        assert FreeStepAt(run, acts, i) && Assumed(run[i], acts[i]);
      }
      forall i | 0 <= i < |run| ensures ExactNow(run[i]) {
        RunInv(run, acts, i);
      }
    } else if forall i :: 0 <= i < |run| ==> ExactNow(run[i]) {
      forall i | 0 <= i < |acts| ensures Assumed(run[i], acts[i]) {
        assert FreeStepAt(run, acts, i) && ExactNow(run[i]) && ExactNow(run[i + 1]);
        StepExactIff(run[i], acts[i], run[i + 1]);
      }
    }
  }
}

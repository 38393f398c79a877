/** The dyld image events of src/modules/mod.rs: handled one at a time, or recorded while a
    batch is open and published together when it ends. */
module MacImages {
  import opened ModuleList
  import opened Registry

  datatype Entry = Entry(k: nat, fp: nat, img: Image)

  datatype Mac = Mac(reg: Reg, batching: bool, pending: seq<Entry>)

  datatype Event = AddImage(entry: Entry) | RemoveImage(k: nat)

  function WithoutKey(pending: seq<Entry>, k: nat): seq<Entry> {
    if pending == [] then []
    else
      var n := |pending| - 1;
      WithoutKey(pending[..n], k) + if pending[n].k == k then [] else [pending[n]]
  }

  function Add1(m: Mac, x: Entry): Mac {
    if m.batching then m.(pending := m.pending + [x])
    else
      var l := if x.k in m.reg.staticMods then Apply(m.reg.published, Remove(x.k)) else m.reg.published;
      m.(reg := m.reg.(published := Apply(l, Add(Mod(x.k, x.img))), staticMods := m.reg.staticMods[x.k := x.fp]))
  }

  function Remove1(m: Mac, k: nat): Mac {
    var m1 := if m.batching then m.(pending := WithoutKey(m.pending, k)) else m;
    if k !in m.reg.staticMods then m1
    else
      m1.(reg := m.reg.(staticMods := m.reg.staticMods - {k},
                        published := if k in m.reg.jitKeys then m.reg.published else Apply(m.reg.published, Remove(k))))
  }

  function Handle1(m: Mac, ev: Event): Mac {
    match ev
    case AddImage(x) => Add1(m, x)
    case RemoveImage(k) => Remove1(m, k)
  }

  function HandleAll(m: Mac, evs: seq<Event>): Mac
    decreases |evs|
  {
    if evs == [] then m else HandleAll(Handle1(m, evs[0]), evs[1..])
  }

  function InsertAll(mods: map<nat, nat>, pending: seq<Entry>): map<nat, nat> {
    if pending == [] then mods
    else var n := |pending| - 1; InsertAll(mods, pending[..n])[pending[n].k := pending[n].fp]
  }

  function ModsIn(pending: seq<Entry>): seq<Mod> {
    seq(|pending|, i requires 0 <= i < |pending| => Mod(pending[i].k, pending[i].img))
  }

  function BeginBatch(m: Mac): Mac {
    m.(batching := true)
  }

  function EndBatch(m: Mac): Mac {
    Mac(m.reg.(staticMods := InsertAll(m.reg.staticMods, m.pending),
               published := ApplyAll(m.reg.published, Adds(ModsIn(m.pending)))), false, [])
  }

  // --------------------------------------------------------------- a batch, key by key

  predicate OfKey(ev: Event, k: nat) {
    match ev
    case AddImage(x) => x.k == k
    case RemoveImage(j) => j == k
  }

  ghost predicate AvoidsJit(jit: set<nat>, evs: seq<Event>) {
    forall i, k :: 0 <= i < |evs| && k in jit ==> !OfKey(evs[i], k)
  }

  /** Each key is published once, and apart from the JIT keys exactly the static ones are. */
  ghost predicate Tells(r: Reg) {
    EachKeyOnce(r.published) && forall k :: k !in r.jitKeys ==> (k in r.staticMods <==> At(r.published, k) != [])
  }

  /** How many modules of key `k` there are in the end, if there are `n` and each add adds one
      and each removal removes all. */
  function Copies(n: nat, evs: seq<Event>, k: nat): nat
    decreases |evs|
  {
    if evs == [] then n else Copies(CopiesStep(n, evs[0], k), evs[1..], k)
  }

  /** The most recent module only. */
  function Latest(l: seq<Mod>): seq<Mod> {
    if l == [] then [] else [l[|l| - 1]]
  }

  /** How a batch under way relates to handling the same events one at a time, at key `k`: the
      batch has `base` published and `pend` pending, the other the latest of all of them. */
  ghost predicate Follows(batch: Mac, one: Mac, k: nat, base: seq<Mod>, pend: seq<Mod>) {
    && batch.batching && !one.batching && batch.reg.jitKeys == one.reg.jitKeys
    && At(batch.reg.published, k) == base && |base| <= 1
    && At(ModsIn(batch.pending), k) == pend
    && At(one.reg.published, k) == Latest(base + pend)
    && (k !in batch.reg.jitKeys ==>
          && (k in batch.reg.staticMods <==> base != [])
          && (k in one.reg.staticMods <==> base + pend != []))
  }

  lemma FollowsAdd(batch: Mac, one: Mac, k: nat, base: seq<Mod>, pend: seq<Mod>, x: Entry)
    requires Follows(batch, one, k, base, pend) && !(x.k == k && k in batch.reg.jitKeys)
    ensures Follows(Add1(batch, x), Add1(one, x), k, base, if x.k == k then pend + [Mod(x.k, x.img)] else pend)
  {
    PendingAt(batch.pending, x, k);
    OneAdds(one, x, k, base + pend);
    assert base + (pend + [Mod(x.k, x.img)]) == base + pend + [Mod(x.k, x.img)];
  }

  lemma PendingAt(p: seq<Entry>, x: Entry, k: nat)
    ensures At(ModsIn(p + [x]), k) == At(ModsIn(p), k) + if x.k == k then [Mod(x.k, x.img)] else []
  {
    assert ModsIn(p + [x]) == ModsIn(p) + [Mod(x.k, x.img)];
    AtConcat(ModsIn(p), [Mod(x.k, x.img)], k);
  }

  /** Handled at once, an add replaces the module of its key. */
  lemma OneAdds(one: Mac, x: Entry, k: nat, all: seq<Mod>)
    requires !one.batching && At(one.reg.published, k) == Latest(all)
    requires x.k == k ==> (k in one.reg.staticMods <==> all != [])
    ensures At(Add1(one, x).reg.published, k) == if x.k == k then [Mod(x.k, x.img)] else Latest(all)
  {
    AtApply(one.reg.published, Remove(x.k), k);
    var l := if x.k in one.reg.staticMods then Apply(one.reg.published, Remove(x.k)) else one.reg.published;
    AtApply(l, Add(Mod(x.k, x.img)), k);
  }

  lemma {:induction false} AtWithoutKey(p: seq<Entry>, j: nat, k: nat)
    ensures At(ModsIn(WithoutKey(p, j)), k) == if j == k then [] else At(ModsIn(p), k)
  {
    if p != [] {
      var n := |p| - 1;
      var m, w := Mod(p[n].k, p[n].img), WithoutKey(p[..n], j);
      AtWithoutKey(p[..n], j, k);
      assert ModsIn(p) == ModsIn(p[..n]) + [m];
      AtConcat(ModsIn(p[..n]), [m], k);
      if p[n].k != j {
        assert ModsIn(w + [p[n]]) == ModsIn(w) + [m];
        AtConcat(ModsIn(w), [m], k);
      } else {
        assert WithoutKey(p, j) == w;
      }
    }
  }

  lemma FollowsRemove(batch: Mac, one: Mac, k: nat, base: seq<Mod>, pend: seq<Mod>, j: nat)
    requires Follows(batch, one, k, base, pend) && !(j == k && k in batch.reg.jitKeys)
    ensures Follows(Remove1(batch, j), Remove1(one, j), k, if j == k then [] else base, if j == k then [] else pend)
  {
    AtWithoutKey(batch.pending, j, k);
    AtApply(batch.reg.published, Remove(j), k);
    AtApply(one.reg.published, Remove(j), k);
  }

  /** What one event makes of `n` modules of key `k`. */
  function CopiesStep(n: nat, ev: Event, k: nat): nat {
    if !OfKey(ev, k) then n else if ev.AddImage? then n + 1 else 0
  }

  lemma FollowsEvent(batch: Mac, one: Mac, k: nat, base: seq<Mod>, pend: seq<Mod>, ev: Event)
      returns (base': seq<Mod>, pend': seq<Mod>)
    requires Follows(batch, one, k, base, pend) && !(OfKey(ev, k) && k in batch.reg.jitKeys)
    ensures Follows(Handle1(batch, ev), Handle1(one, ev), k, base', pend')
    ensures |base' + pend'| == CopiesStep(|base + pend|, ev, k)
    ensures Handle1(batch, ev).reg.jitKeys == batch.reg.jitKeys
  {
    base', pend' := base, pend;
    match ev
    case AddImage(x) =>
      FollowsAdd(batch, one, k, base, pend, x);
      if x.k == k {
        pend' := pend + [Mod(x.k, x.img)];
      }
    case RemoveImage(j) =>
      FollowsRemove(batch, one, k, base, pend, j);
      if j == k {
        base', pend' := [], [];
      }
  }

  lemma {:induction false} FollowsAll(batch: Mac, one: Mac, k: nat, base: seq<Mod>, pend: seq<Mod>, evs: seq<Event>)
      returns (base': seq<Mod>, pend': seq<Mod>)
    requires Follows(batch, one, k, base, pend) && AvoidsJit(batch.reg.jitKeys, evs)
    ensures Follows(HandleAll(batch, evs), HandleAll(one, evs), k, base', pend')
    ensures |base' + pend'| == Copies(|base + pend|, evs, k)
    decreases |evs|
  {
    base', pend' := base, pend;
    if evs != [] {
      assert !(OfKey(evs[0], k) && k in batch.reg.jitKeys);
      AvoidsRest(batch.reg.jitKeys, evs);
      base', pend' := FollowsEvent(batch, one, k, base, pend, evs[0]);
      base', pend' := FollowsAll(Handle1(batch, evs[0]), Handle1(one, evs[0]), k, base', pend', evs[1..]);
    }
  }

  lemma AvoidsRest(jit: set<nat>, evs: seq<Event>)
    requires evs != [] && AvoidsJit(jit, evs)
    ensures AvoidsJit(jit, evs[1..])
  {
  }

  // ----------------------------------------------------------------- everything but `published`

  lemma {:induction false} RemoveInsert(known: map<nat, nat>, p: seq<Entry>, k: nat)
    ensures InsertAll(known - {k}, WithoutKey(p, k)) == InsertAll(known, p) - {k}
  {
    if p != [] {
      var n := |p| - 1;
      var w, all := WithoutKey(p[..n], k), InsertAll(known, p[..n]);
      RemoveInsert(known, p[..n], k);
      if p[n].k != k {
        assert (w + [p[n]])[..|w|] == w;
        assert (all - {k})[p[n].k := p[n].fp] == all[p[n].k := p[n].fp] - {k};
      } else {
        assert WithoutKey(p, k) == w;
        assert all[k := p[n].fp] - {k} == all - {k};
      }
    }
  }

  /** The two differ in what is published, and in the keys that are still pending. */
  ghost predicate SameRest(batch: Mac, one: Mac) {
    && batch.batching && !one.batching && one.pending == []
    && one.reg == batch.reg.(staticMods := InsertAll(batch.reg.staticMods, batch.pending), published := one.reg.published)
  }

  lemma SameRestStep(batch: Mac, one: Mac, ev: Event)
    requires SameRest(batch, one)
    ensures SameRest(Handle1(batch, ev), Handle1(one, ev))
  {
    var known, p := batch.reg.staticMods, batch.pending;
    match ev
    case AddImage(x) =>
      assert (p + [x])[..|p|] == p;
    case RemoveImage(k) =>
      RemoveInsert(known, p, k);
      assert k !in known ==> known - {k} == known;
      assert k !in one.reg.staticMods ==> one.reg.staticMods - {k} == one.reg.staticMods;
  }

  lemma {:induction false} SameRestAll(batch: Mac, one: Mac, evs: seq<Event>)
    requires SameRest(batch, one)
    ensures SameRest(HandleAll(batch, evs), HandleAll(one, evs))
    decreases |evs|
  {
    if evs != [] {
      SameRestStep(batch, one, evs[0]);
      SameRestAll(Handle1(batch, evs[0]), Handle1(one, evs[0]), evs[1..]);
    }
  }

  // ------------------------------------------------------------------------ the two compared

  /** At the end of the batch, key by key. */
  lemma BatchAt(m: Mac, evs: seq<Event>, k: nat)
    requires !m.batching && m.pending == [] && Tells(m.reg) && AvoidsJit(m.reg.jitKeys, evs)
    ensures var batch, one := EndBatch(HandleAll(BeginBatch(m), evs)).reg.published, HandleAll(m, evs).reg.published;
      && |At(batch, k)| == Copies(|At(m.reg.published, k)|, evs, k)
      && At(one, k) == Latest(At(batch, k))
  {
    AtOnce(m.reg.published, k);
    var base := At(m.reg.published, k);
    assert ModsIn([]) == [] && base + [] == base;
    var base', pend' := FollowsAll(BeginBatch(m), m, k, base, [], evs);
    var b := HandleAll(BeginBatch(m), evs);
    AddsAppend(b.reg.published, ModsIn(b.pending));
    AtConcat(b.reg.published, ModsIn(b.pending), k);
  }

  /** No key ends up with more than one module: each is added at most once since its last
      removal, and not at all while it is still present from before. */
  ghost predicate AtMostOnce(present: set<nat>, evs: seq<Event>) {
    forall k: nat :: Copies(if k in present then 1 else 0, evs, k) <= 1
  }

  lemma {:induction false} CopiesUntouched(n: nat, evs: seq<Event>, k: nat)
    requires forall i :: 0 <= i < |evs| ==> !OfKey(evs[i], k)
    ensures Copies(n, evs, k) == n
    decreases |evs|
  {
    if evs != [] {
      CopiesUntouched(n, evs[1..], k);
    }
  }

  lemma CopiesBound(m: Mac, evs: seq<Event>, k: nat)
    requires Tells(m.reg) && AvoidsJit(m.reg.jitKeys, evs)
    ensures Copies(|At(m.reg.published, k)|, evs, k) <= 1 <==>
      Copies(if k in m.reg.staticMods then 1 else 0, evs, k) <= 1
  {
    AtOnce(m.reg.published, k);
    if k in m.reg.jitKeys {
      CopiesUntouched(|At(m.reg.published, k)|, evs, k);
      CopiesUntouched(if k in m.reg.staticMods then 1 else 0, evs, k);
    }
  }

  /** Recording events in a batch and publishing once always ends with the same registry as
      handling each when it comes, and with the same published modules if and only if no key
      is added again while it is present. */
  lemma BatchEqualsIff(m: Mac, evs: seq<Event>)
    requires !m.batching && m.pending == [] && Tells(m.reg) && AvoidsJit(m.reg.jitKeys, evs)
    ensures var batch, one := EndBatch(HandleAll(BeginBatch(m), evs)), HandleAll(m, evs);
      && batch == one.(reg := one.reg.(published := batch.reg.published))
      && (multiset(batch.reg.published) == multiset(one.reg.published) <==> AtMostOnce(m.reg.staticMods.Keys, evs))
  {
    SameRestAll(BeginBatch(m), m, evs);
    var batch, one := EndBatch(HandleAll(BeginBatch(m), evs)).reg.published, HandleAll(m, evs).reg.published;
    forall k: nat
      ensures |At(batch, k)| <= 1 <==> Copies(if k in m.reg.staticMods then 1 else 0, evs, k) <= 1
      ensures At(one, k) == Latest(At(batch, k))
    {
      BatchAt(m, evs, k);
      CopiesBound(m, evs, k);
    }
    if AtMostOnce(m.reg.staticMods.Keys, evs) {
      SameModules(batch, one);
    } else if multiset(batch) == multiset(one) {
      var k: nat :| Copies(if k in m.reg.staticMods.Keys then 1 else 0, evs, k) > 1;
      SameLengthAt(batch, one, k);
    }
  }

  /** dyld adds an image only where none is, as seen from the keys present before. A removal
      of an image that was never added (it had no unwind information) is allowed. */
  ghost predicate WellFormed(present: set<nat>, evs: seq<Event>)
    decreases |evs|
  {
    evs == [] ||
    match evs[0]
    case AddImage(x) => x.k !in present && WellFormed(present + {x.k}, evs[1..])
    case RemoveImage(k) => WellFormed(present - {k}, evs[1..])
  }

  lemma {:induction false} WellFormedCopies(present: set<nat>, evs: seq<Event>, k: nat)
    requires WellFormed(present, evs)
    ensures Copies(if k in present then 1 else 0, evs, k) <= 1
    decreases |evs|
  {
    if evs != [] {
      match evs[0]
      case AddImage(x) => WellFormedCopies(present + {x.k}, evs[1..], k);
      case RemoveImage(j) => WellFormedCopies(present - {j}, evs[1..], k);
    }
  }

  /** For well-formed dyld events, recording them in a batch and publishing once ends with
      the same registry, and the same published modules, as handling each when it comes. */
  lemma BatchEqualsOneByOne(m: Mac, evs: seq<Event>)
    requires !m.batching && m.pending == [] && Tells(m.reg)
    requires WellFormed(m.reg.staticMods.Keys, evs) && AvoidsJit(m.reg.jitKeys, evs)
    ensures var batch, one := EndBatch(HandleAll(BeginBatch(m), evs)), HandleAll(m, evs);
      && batch == one.(reg := one.reg.(published := batch.reg.published))
      && multiset(batch.reg.published) == multiset(one.reg.published)
  {
    forall k: nat ensures Copies(if k in m.reg.staticMods.Keys then 1 else 0, evs, k) <= 1 {
      WellFormedCopies(m.reg.staticMods.Keys, evs, k);
    }
    BatchEqualsIff(m, evs);
  }

  /** An add of an image that is already present, which dyld does not report, is where the two
      differ: the batch publishes the key twice. */
  lemma RepeatedAddDiffers(x: Entry, y: Entry)
    requires x.k == y.k
    ensures var m := Mac(EMPTY, false, []);
      && HandleAll(m, [AddImage(x), AddImage(y)]).reg.published == [Mod(y.k, y.img)]
      && EndBatch(HandleAll(BeginBatch(m), [AddImage(x), AddImage(y)])).reg.published == [Mod(x.k, x.img), Mod(y.k, y.img)]
  {
    var m, b := Mac(EMPTY, false, []), Mac(EMPTY, true, []);
    TwoEvents(m, AddImage(x), AddImage(y));
    TwoEvents(b, AddImage(x), AddImage(y));
    var l := [Mod(x.k, x.img)];
    assert Add1(m, x).reg.published == l && Find(l, y.k) == 0;
    assert l[..0] + l[1..] == [];
    assert BeginBatch(m) == b && HandleAll(b, [AddImage(x), AddImage(y)]) == Mac(EMPTY, true, [x, y]);
    AddsAppend([], ModsIn([x, y]));
  }

  lemma TwoEvents(m: Mac, a: Event, b: Event)
    ensures HandleAll(m, [a, b]) == Handle1(Handle1(m, a), b)
  {
    var evs := [a, b];
    assert evs[1..] == [b];
    assert HandleAll(Handle1(m, a), [b]) == HandleAll(Handle1(Handle1(m, a), b), []);
  }
}

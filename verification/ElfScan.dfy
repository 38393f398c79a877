/** enumerate: one callback per loaded object, and what the registry gets from it. */
module ElfScan {
  import opened Limits
  import opened Wrappers
  import opened ModuleList
  import opened RegistryRefresh
  import opened Elf

  /** A loaded object; `hash` is the fingerprint of its name and of the given geometry. */
  datatype Object = Object(id: nat, phdrs: seq<Phdr>, bias: nat, hash: (nat, nat, nat) -> nat)

  ghost predicate Valid(o: Object) {
    o.bias < U64 && forall i :: 0 <= i < |o.phdrs| ==> o.phdrs[i].vaddr < U64 && o.phdrs[i].memsz < U64
  }

  /** The object has loadable segments, and so a key. */
  predicate Mapped(g: Geometry) {
    !(g.lo == U64 - 1 || g.hi <= g.lo)
  }

  /** What the registry is to know of an object: it is usable if its unwind sections can be found. */
  ghost function ImageOf(o: Object, g: Geometry, mem: nat -> Byte): Image
    requires Mapped(g)
  {
    Image(o.id, Fingerprint(o.hash, g), g.hdr.Some? && Extractable(g.hdr.value, o.phdrs, o.bias, mem))
  }

  ghost predicate Fits(objs: seq<Object>, gs: seq<Geometry>) {
    |gs| == |objs| && forall i :: 0 <= i < |objs| ==> Describes(gs[i], objs[i].phdrs, objs[i].bias)
  }

  /** The loaded objects by key. */
  ghost function Loaded(objs: seq<Object>, gs: seq<Geometry>, mem: nat -> Byte): map<nat, Image>
    requires |gs| == |objs|
  {
    if objs == [] then map[]
    else
      var n := |objs| - 1;
      var rest := Loaded(objs[..n], gs[..n], mem);
      if Mapped(gs[n]) then rest[gs[n].lo := ImageOf(objs[n], gs[n], mem)] else rest
  }

  predicate Knows(known: map<nat, nat>, k: nat, fp: nat) {
    k in known && known[k] == fp
  }

  ghost predicate Fresh(o: Object, g: Geometry, mem: nat -> Byte, known: map<nat, nat>) {
    Mapped(g) && ImageOf(o, g, mem).usable && !Knows(known, g.lo, ImageOf(o, g, mem).fingerprint)
  }

  /** The keys of the objects that a module is built for, in the order of the scan. */
  ghost function FreshKeys(objs: seq<Object>, gs: seq<Geometry>, mem: nat -> Byte, known: map<nat, nat>): seq<nat>
    requires |gs| == |objs|
  {
    if objs == [] then []
    else
      var n := |objs| - 1;
      var rest := FreshKeys(objs[..n], gs[..n], mem, known);
      if Fresh(objs[n], gs[n], mem, known) then rest + [gs[n].lo] else rest
  }

  function KeysOf(specs: seq<RawSpec>): seq<nat> {
    seq(|specs|, i requires 0 <= i < |specs| => specs[i].key)
  }

  /** Object by object, in the order of the scan: a fresh object's spec, with its own sections. */
  ghost predicate Built(specs: seq<RawSpec>, objs: seq<Object>, gs: seq<Geometry>, mem: nat -> Byte, known: map<nat, nat>)
    requires |gs| == |objs|
    decreases |objs|
  {
    if objs == [] then specs == []
    else
      var n := |objs| - 1;
      if Fresh(objs[n], gs[n], mem, known) then
        && specs != [] && var m := |specs| - 1;
        && specs[m].key == gs[n].lo && SpecOk(specs[m], objs[n].phdrs, objs[n].bias, mem)
        && Built(specs[..m], objs[..n], gs[..n], mem, known)
      else Built(specs, objs[..n], gs[..n], mem, known)
  }

  /** enumerate: the fingerprint of every loaded object by key, and a spec for exactly the usable
      ones that are not known with that fingerprint, in the order of the scan. */
  method Enumerate(objs: seq<Object>, mem: nat -> Byte, known: map<nat, nat>)
      returns (current: map<nat, nat>, specs: seq<RawSpec>, gs: seq<Geometry>)
    requires forall i :: 0 <= i < |objs| ==> Valid(objs[i])
    ensures Fits(objs, gs)
    ensures current == Fingerprints(Loaded(objs, gs, mem))
    ensures KeysOf(specs) == FreshKeys(objs, gs, mem, known)
    ensures Built(specs, objs, gs, mem, known)
  {
    current, specs, gs := map[], [], [];
    for n := 0 to |objs|
      invariant Fits(objs[..n], gs) && Collected(objs[..n], gs, mem, known, current, specs)
    {
      current, specs, gs := Collect(objs[..n], objs[n], mem, known, current, specs, gs);
      assert objs[..n] + [objs[n]] == objs[..n + 1];
    }
    assert objs[..|objs|] == objs;
  }

  /** One more object is scanned. */
  method Collect(ghost done: seq<Object>, o: Object, mem: nat -> Byte, known: map<nat, nat>,
                 current: map<nat, nat>, specs: seq<RawSpec>, gs: seq<Geometry>)
      returns (current': map<nat, nat>, specs': seq<RawSpec>, gs': seq<Geometry>)
    requires Fits(done, gs) && Collected(done, gs, mem, known, current, specs) && Valid(o)
    ensures Fits(done + [o], gs') && Collected(done + [o], gs', mem, known, current', specs')
  {
    var spec, g;
    current', spec, g := ScanOne(o, mem, known, current);
    CollectsOne(done, gs, mem, known, current, specs, o, g, current', spec);
    gs' := gs + [g];
    specs' := if spec.Some? then specs + [spec.value] else specs;
  }

  /** callback, told in terms of the object's image. */
  method ScanOne(o: Object, mem: nat -> Byte, known: map<nat, nat>, current: map<nat, nat>)
      returns (current': map<nat, nat>, spec: Option<RawSpec>, g: Geometry)
    requires Valid(o)
    ensures Describes(g, o.phdrs, o.bias)
    ensures current' == if Mapped(g) then current[g.lo := Fingerprint(o.hash, g)] else current
    ensures spec.Some? <==> Fresh(o, g, mem, known)
    ensures spec.Some? ==> spec.value.key == g.lo && SpecOk(spec.value, o.phdrs, o.bias, mem)
  {
    current', spec, g := Callback(o.phdrs, o.bias, mem, o.hash, known, current);
  }

  ghost predicate Collected(objs: seq<Object>, gs: seq<Geometry>, mem: nat -> Byte, known: map<nat, nat>,
                            current: map<nat, nat>, specs: seq<RawSpec>)
    requires |gs| == |objs|
  {
    && current == Fingerprints(Loaded(objs, gs, mem)) && KeysOf(specs) == FreshKeys(objs, gs, mem, known)
    && Built(specs, objs, gs, mem, known)
  }

  lemma CollectsOne(objs: seq<Object>, gs: seq<Geometry>, mem: nat -> Byte, known: map<nat, nat>,
                    current: map<nat, nat>, specs: seq<RawSpec>, o: Object, g: Geometry,
                    current': map<nat, nat>, spec: Option<RawSpec>)
    requires Fits(objs, gs) && Describes(g, o.phdrs, o.bias) && Collected(objs, gs, mem, known, current, specs)
    requires current' == if Mapped(g) then current[g.lo := Fingerprint(o.hash, g)] else current
    requires spec.Some? <==> Fresh(o, g, mem, known)
    requires spec.Some? ==> spec.value.key == g.lo && SpecOk(spec.value, o.phdrs, o.bias, mem)
    ensures Fits(objs + [o], gs + [g])
    ensures Collected(objs + [o], gs + [g], mem, known, current', if spec.Some? then specs + [spec.value] else specs)
  {
    OneMore(objs, gs, mem, known, o, g);
    assert (objs + [o])[..|objs|] == objs && (gs + [g])[..|objs|] == gs;
    if spec.Some? {
      assert (specs + [spec.value])[..|specs|] == specs;
      assert KeysOf(specs + [spec.value]) == KeysOf(specs) + [g.lo];
    }
  }

  lemma OneMore(objs: seq<Object>, gs: seq<Geometry>, mem: nat -> Byte, known: map<nat, nat>, o: Object, g: Geometry)
    requires Fits(objs, gs) && Describes(g, o.phdrs, o.bias)
    ensures Fits(objs + [o], gs + [g])
    ensures FreshKeys(objs + [o], gs + [g], mem, known) ==
      FreshKeys(objs, gs, mem, known) + if Fresh(o, g, mem, known) then [g.lo] else []
    ensures Fingerprints(Loaded(objs + [o], gs + [g], mem)) ==
      if Mapped(g) then Fingerprints(Loaded(objs, gs, mem))[g.lo := Fingerprint(o.hash, g)]
      else Fingerprints(Loaded(objs, gs, mem))
  {
    var n := |objs|;
    assert (objs + [o])[..n] == objs && (gs + [g])[..n] == gs;
  }

  /** Loaded objects do not overlap, so no two have the same key. */
  ghost predicate Apart(gs: seq<Geometry>) {
    forall i, j :: 0 <= i < j < |gs| && Mapped(gs[i]) && Mapped(gs[j]) ==> gs[i].lo != gs[j].lo
  }

  /** The specs are what a refresh of the registry takes as new: each new key once. */
  lemma {:induction false} SpecsAreTheNew(objs: seq<Object>, gs: seq<Geometry>, mem: nat -> Byte, known: map<nat, nat>)
    requires |gs| == |objs| && Apart(gs)
    ensures Lists(FreshKeys(objs, gs, mem, known), New(known, Loaded(objs, gs, mem)))
    ensures forall k :: k in Loaded(objs, gs, mem) ==> exists i :: 0 <= i < |gs| && Mapped(gs[i]) && gs[i].lo == k
  {
    if objs != [] {
      var n := |objs| - 1;
      SpecsAreTheNew(objs[..n], gs[..n], mem, known);
      var rest, keys := Loaded(objs[..n], gs[..n], mem), FreshKeys(objs[..n], gs[..n], mem, known);
      ListsMember(keys, New(known, rest));
      if Mapped(gs[n]) {
        forall k | k in rest ensures k != gs[n].lo && exists i :: 0 <= i < |gs| && Mapped(gs[i]) && gs[i].lo == k {
          var i :| 0 <= i < n && Mapped(gs[..n][i]) && gs[..n][i].lo == k;
          assert gs[i].lo == k;
        }
        NewWithOne(known, rest, gs[n].lo, ImageOf(objs[n], gs[n], mem));
        if Fresh(objs[n], gs[n], mem, known) {
          ListsSnoc(keys, New(known, rest), gs[n].lo);
        }
      }
    }
  }

  lemma NewWithOne(known: map<nat, nat>, rest: map<nat, Image>, k: nat, img: Image)
    requires k !in rest
    ensures New(known, rest[k := img]) ==
      New(known, rest) + if img.usable && !Knows(known, k, img.fingerprint) then {k} else {}
  {
  }

  lemma ListsSnoc(l: seq<nat>, s: set<nat>, k: nat)
    requires Lists(l, s) && k !in s
    ensures Lists(l + [k], s + {k})
  {
    ListsMember(l, s);
    assert forall x :: x in l + [k] <==> x in l || x == k;
  }
}

/** framehop's module list, as the snapshots publish it: modules keyed by the start of
    their address range.  Adding inserts; removing an absent key does nothing.  The list
    may hold a key twice; `Represents` says that it does not. */
module ModuleList {

  /** What was loaded or registered at an address. `usable` is whether unwind information
      could be extracted from it, so that enumeration builds a module for it. */
  datatype Image = Image(id: nat, fingerprint: nat, usable: bool)

  datatype Mod = Mod(key: nat, image: Image)

  datatype ModOp = Add(m: Mod) | Remove(key: nat)

  function Find(l: seq<Mod>, k: nat): (i: nat)
    ensures i <= |l|
    ensures i < |l| ==> l[i].key == k
    ensures forall j :: 0 <= j < i ==> l[j].key != k
  {
    if l == [] then 0 else if l[0].key == k then 0 else 1 + Find(l[1..], k)
  }

  function Apply(l: seq<Mod>, op: ModOp): seq<Mod> {
    match op
    case Add(m) => l + [m]
    case Remove(k) =>
      var i := Find(l, k);
      if i < |l| then l[..i] + l[i + 1..] else l
  }

  function ApplyAll(l: seq<Mod>, ops: seq<ModOp>): seq<Mod>
    decreases |ops|
  {
    if ops == [] then l else ApplyAll(Apply(l, ops[0]), ops[1..])
  }

  /** `l` holds exactly the associations of `m`, each key once. */
  ghost predicate Represents(l: seq<Mod>, m: map<nat, Image>) {
    && (forall i, j :: 0 <= i < j < |l| ==> l[i].key != l[j].key)
    && (forall i :: 0 <= i < |l| ==> l[i].key in m && m[l[i].key] == l[i].image)
    && (forall k :: k in m ==> Mod(k, m[k]) in l)
  }

  ghost predicate EachKeyOnce(l: seq<Mod>) {
    forall i, j :: 0 <= i < j < |l| ==> l[i].key != l[j].key
  }

  lemma AddRepresents(l: seq<Mod>, m: map<nat, Image>, k: nat, v: Image)
    requires Represents(l, m) && k !in m
    ensures Represents(Apply(l, Add(Mod(k, v))), m[k := v])
  {
  }

  lemma RemoveRepresents(l: seq<Mod>, m: map<nat, Image>, k: nat)
    requires Represents(l, m)
    ensures Represents(Apply(l, Remove(k)), m - {k})
  {
    var r := Apply(l, Remove(k));
    var n := m - {k};
    var f := Find(l, k);
    if f < |l| {
      forall x | x in n ensures Mod(x, n[x]) in r {
        var i :| 0 <= i < |l| && l[i] == Mod(x, m[x]);
        assert i != f;
        assert r[if i < f then i else i - 1] == l[i];
      }
    }
  }

  lemma {:induction false} ApplyAllConcat(l: seq<Mod>, a: seq<ModOp>, b: seq<ModOp>)
    ensures ApplyAll(l, a + b) == ApplyAll(ApplyAll(l, a), b)
    decreases |a|
  {
    if a == [] {
      assert a + b == b;
    } else {
      assert (a + b)[0] == a[0] && (a + b)[1..] == a[1..] + b;
      ApplyAllConcat(Apply(l, a[0]), a[1..], b);
    }
  }

  // ------------------------------------------------------------- a batch of adds or removes

  function Adds(ms: seq<Mod>): seq<ModOp> {
    seq(|ms|, i requires 0 <= i < |ms| => Add(ms[i]))
  }

  function Removes(ks: seq<nat>): seq<ModOp> {
    seq(|ks|, i requires 0 <= i < |ks| => Remove(ks[i]))
  }

  /** The keys of `ms` are distinct and unused in `m`, and `n` is `m` with `ms` added. */
  ghost predicate Extends(m: map<nat, Image>, ms: seq<Mod>, n: map<nat, Image>) {
    && EachKeyOnce(ms)
    && (forall i :: 0 <= i < |ms| ==> ms[i].key !in m)
    && (forall k :: k in n <==> k in m || exists i :: 0 <= i < |ms| && ms[i].key == k)
    && (forall k :: k in m ==> n[k] == m[k])
    && (forall i :: 0 <= i < |ms| ==> n[ms[i].key] == ms[i].image)
  }

  lemma {:induction false} AddsRepresent(l: seq<Mod>, m: map<nat, Image>, ms: seq<Mod>, n: map<nat, Image>)
    requires Represents(l, m) && Extends(m, ms, n)
    ensures Represents(ApplyAll(l, Adds(ms)), n)
    decreases |ms|
  {
    if ms == [] {
      ExtendsNothing(m, n);
    } else {
      AddFirst(l, m, ms);
      ExtendsTail(m, ms, n);
      AddsRepresent(Apply(l, Add(ms[0])), m[ms[0].key := ms[0].image], ms[1..], n);
      AddsTail(ms);
    }
  }

  lemma AddsTail(ms: seq<Mod>)
    requires ms != []
    ensures Adds(ms) != [] && Adds(ms)[0] == Add(ms[0]) && Adds(ms)[1..] == Adds(ms[1..])
  {
  }

  lemma ExtendsNothing(m: map<nat, Image>, n: map<nat, Image>)
    requires Extends(m, [], n)
    ensures n == m
  {
  }

  lemma AddFirst(l: seq<Mod>, m: map<nat, Image>, ms: seq<Mod>)
    requires Represents(l, m) && ms != [] && ms[0].key !in m
    ensures Represents(Apply(l, Add(ms[0])), m[ms[0].key := ms[0].image])
  {
    AddRepresents(l, m, ms[0].key, ms[0].image);
    assert ms[0] == Mod(ms[0].key, ms[0].image);
  }

  lemma ExtendsTail(m: map<nat, Image>, ms: seq<Mod>, n: map<nat, Image>)
    requires ms != [] && Extends(m, ms, n)
    ensures Extends(m[ms[0].key := ms[0].image], ms[1..], n)
  {
    var m1, rest := m[ms[0].key := ms[0].image], ms[1..];
    forall k | k in n ensures k in m1 || exists i :: 0 <= i < |rest| && rest[i].key == k {
      if k !in m {
        var i :| 0 <= i < |ms| && ms[i].key == k;
        if i > 0 {
          assert rest[i - 1].key == k;
        }
      }
    }
    forall k | k in m1 || exists i :: 0 <= i < |rest| && rest[i].key == k ensures k in n {
      if k !in m1 {
        var i :| 0 <= i < |rest| && rest[i].key == k;
        assert ms[i + 1].key == k;
      } else if k !in m {
        assert ms[0].key == k;
      }
    }
  }

  lemma {:induction false} RemovesRepresent(l: seq<Mod>, m: map<nat, Image>, ks: seq<nat>)
    requires Represents(l, m)
    ensures Represents(ApplyAll(l, Removes(ks)), m - set k | k in ks)
    decreases |ks|
  {
    if ks == [] {
      assert m - (set k | k in ks) == m;
    } else {
      RemoveRepresents(l, m, ks[0]);
      assert Removes(ks)[0] == Remove(ks[0]) && Removes(ks)[1..] == Removes(ks[1..]);
      RemovesRepresent(Apply(l, Remove(ks[0])), m - {ks[0]}, ks[1..]);
      assert ks == [ks[0]] + ks[1..];
      assert m - {ks[0]} - (set k | k in ks[1..]) == m - set k | k in ks;
    }
  }

  // ------------------------------------------------------------------------ one key's modules

  /** The modules with key `k`, oldest first. */
  function At(l: seq<Mod>, k: nat): seq<Mod> {
    if l == [] then [] else if l[0].key == k then [l[0]] + At(l[1..], k) else At(l[1..], k)
  }

  lemma {:induction false} AtConcat(a: seq<Mod>, b: seq<Mod>, k: nat)
    ensures At(a + b, k) == At(a, k) + At(b, k)
  {
    if a == [] {
      assert a + b == b;
    } else {
      assert (a + b)[1..] == a[1..] + b;
      AtConcat(a[1..], b, k);
      assert [a[0]] + (At(a[1..], k) + At(b, k)) == [a[0]] + At(a[1..], k) + At(b, k);
    }
  }

  lemma {:induction false} AtAbsent(l: seq<Mod>, k: nat)
    requires forall i :: 0 <= i < |l| ==> l[i].key != k
    ensures At(l, k) == []
  {
    if l != [] {
      AtAbsent(l[1..], k);
    }
  }

  lemma {:induction false} AtPresent(l: seq<Mod>, k: nat, i: nat)
    requires i < |l| && l[i].key == k
    ensures l[i] in At(l, k)
  {
    if i > 0 {
      AtPresent(l[1..], k, i - 1);
    }
  }

  lemma {:induction false} AtOnce(l: seq<Mod>, k: nat)
    requires EachKeyOnce(l)
    ensures |At(l, k)| <= 1
  {
    if l != [] {
      AtOnce(l[1..], k);
      if l[0].key == k {
        AtAbsent(l[1..], k);
      }
    }
  }

  lemma AtRepresents(l: seq<Mod>, m: map<nat, Image>, k: nat)
    requires Represents(l, m)
    ensures At(l, k) == if k in m then [Mod(k, m[k])] else []
  {
    if k in m {
      var i :| 0 <= i < |l| && l[i] == Mod(k, m[k]);
      AtPresent(l, k, i);
      AtOnce(l, k);
    } else {
      AtAbsent(l, k);
    }
  }

  /** Adding appends to one key's modules; removing takes away the oldest. */
  lemma AtApply(l: seq<Mod>, op: ModOp, k: nat)
    ensures op.Add? ==> At(Apply(l, op), k) == At(l, k) + if op.m.key == k then [op.m] else []
    ensures op.Remove? && op.key != k ==> At(Apply(l, op), k) == At(l, k)
    ensures op == Remove(k) ==> At(Apply(l, op), k) == if At(l, k) == [] then [] else At(l, k)[1..]
  {
    match op
    case Add(m) =>
      AtConcat(l, [m], k);
    case Remove(x) =>
      var i := Find(l, x);
      if i < |l| {
        AtRemove(l, i, k);
        if x == k {
          AtAbsent(l[..i], k);
        }
      } else if x == k {
        AtAbsent(l, k);
      }
  }

  lemma AtRemove(l: seq<Mod>, i: nat, k: nat)
    requires i < |l|
    ensures At(l, k) == At(l[..i], k) + (if l[i].key == k then [l[i]] else []) + At(l[i + 1..], k)
    ensures At(l[..i] + l[i + 1..], k) == At(l[..i], k) + At(l[i + 1..], k)
  {
    assert l == l[..i] + l[i..] && l[i..][1..] == l[i + 1..];
    AtConcat(l[..i], l[i..], k);
    AtConcat(l[..i], l[i + 1..], k);
  }

  predicate Concerns(op: ModOp, k: nat) {
    match op
    case Add(m) => m.key == k
    case Remove(x) => x == k
  }

  lemma {:induction false} AtApplyAll(l: seq<Mod>, ops: seq<ModOp>, k: nat)
    requires forall i :: 0 <= i < |ops| ==> !Concerns(ops[i], k)
    ensures At(ApplyAll(l, ops), k) == At(l, k)
    decreases |ops|
  {
    if ops != [] {
      AtApply(l, ops[0], k);
      AtApplyAll(Apply(l, ops[0]), ops[1..], k);
    }
  }

  lemma {:induction false} AddsAppend(l: seq<Mod>, ms: seq<Mod>)
    ensures ApplyAll(l, Adds(ms)) == l + ms
    decreases |ms|
  {
    if ms != [] {
      AddsTail(ms);
      AddsAppend(l + [ms[0]], ms[1..]);
      assert l + [ms[0]] + ms[1..] == l + ms;
    }
  }

  lemma {:induction false} AtCount(l: seq<Mod>, m: Mod)
    ensures multiset(At(l, m.key))[m] == multiset(l)[m]
  {
    if l != [] {
      assert l == [l[0]] + l[1..];
      AtCount(l[1..], m);
    }
  }

  /** Lists that agree key by key hold the same modules. */
  lemma SameModules(a: seq<Mod>, b: seq<Mod>)
    requires forall k :: At(a, k) == At(b, k)
    ensures multiset(a) == multiset(b)
  {
    forall m: Mod ensures multiset(a)[m] == multiset(b)[m] {
      AtCount(a, m);
      AtCount(b, m);
      assert At(a, m.key) == At(b, m.key);
    }
  }

  /** Lists that hold the same modules hold each key equally often. */
  lemma {:induction false} SameLengthAt(a: seq<Mod>, b: seq<Mod>, k: nat)
    requires multiset(a) == multiset(b)
    ensures |At(a, k)| == |At(b, k)|
  {
    forall m: Mod ensures multiset(At(a, k))[m] == multiset(At(b, k))[m] {
      AtKey(a, k);
      AtKey(b, k);
      if m.key == k {
        AtCount(a, m);
        AtCount(b, m);
      } else {
        assert m !in At(a, k) && m !in At(b, k);
      }
    }
    assert multiset(At(a, k)) == multiset(At(b, k));
    assert |multiset(At(a, k))| == |At(a, k)| && |multiset(At(b, k))| == |At(b, k)|;
  }

  lemma {:induction false} AtKey(l: seq<Mod>, k: nat)
    ensures forall m :: m in At(l, k) ==> m.key == k && m in l
  {
    if l != [] {
      AtKey(l[1..], k);
    }
  }
}

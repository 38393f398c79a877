/** src/modules/elf.rs: decoding the .eh_frame_hdr of a loaded object, and the geometry of the
    module built for it. Addresses are 64-bit; plain additions wrap, as in a release build. */
module Elf {
  import opened Wrappers
  import opened Limits

  type Byte = b: nat | b < 256

  // ------------------------------------------------------------------- little-endian numbers

  function Pow256(n: nat): (p: nat)
    ensures p >= 1
  {
    if n == 0 then 1 else 256 * Pow256(n - 1)
  }

  function FromLe(b: seq<Byte>): nat {
    if b == [] then 0 else b[0] + 256 * FromLe(b[1..])
  }

  function ToLe(v: nat, n: nat): (b: seq<Byte>)
    ensures |b| == n
  {
    if n == 0 then [] else [v % 256] + ToLe(v / 256, n - 1)
  }

  lemma {:induction false} LeRoundTrip(v: nat, n: nat)
    requires v < Pow256(n)
    ensures FromLe(ToLe(v, n)) == v
  {
    if n > 0 {
      LeRoundTrip(v / 256, n - 1);
      assert ToLe(v, n)[1..] == ToLe(v / 256, n - 1);
    }
  }

  lemma {:induction false} LeUnique(b: seq<Byte>)
    ensures FromLe(b) < Pow256(|b|)
    ensures ToLe(FromLe(b), |b|) == b
  {
    if b != [] {
      LeUnique(b[1..]);
      assert FromLe(b) % 256 == b[0] && FromLe(b) / 256 == FromLe(b[1..]);
    }
  }

  // ------------------------------------------------- DWARF exception header pointer encodings

  /** Byte width of a fixed-width format; 0 for the formats that are not decoded. */
  function Width(fmt: nat): nat {
    match fmt
    case 0x02 => 2
    case 0x0a => 2
    case 0x03 => 4
    case 0x0b => 4
    case 0x04 => 8
    case 0x0c => 8
    case 0x00 => 8
    case _ => 0
  }

  predicate Signed(fmt: nat) {
    fmt == 0x0a || fmt == 0x0b || fmt == 0x0c
  }

  /** How many values a format of width `w` has. */
  function Range(w: nat): (n: nat)
    ensures n <= U64
  {
    if w == 2 then 0x1_0000 else if w == 4 then 0x1_0000_0000 else U64
  }

  /** decode_value: the value, sign-extended to 64 bits, and its size. */
  function DecodeValue(b: seq<Byte>, fmt: nat): Option<(nat, nat)> {
    var w := Width(fmt);
    if w == 0 || |b| < w then None
    else
      var v := FromLe(b[..w]);
      var x: nat := if Signed(fmt) && Range(w) <= 2 * v then v + (U64 - Range(w)) else v;
      Some((x, w))
  }

  /** What an encoded pointer is relative to: nothing, or the address of its own field. */
  function Base(hdr: nat, app: nat): (n: nat)
    ensures n < U64
  {
    if app == 0x10 then (hdr + 4) % U64 else 0
  }

  /** decode_eh_frame_start: the address of .eh_frame told by the header `b` at address `hdr`. */
  function DecodeEhFrameStart(hdr: nat, b: seq<Byte>): (r: Option<nat>)
    ensures r.Some? ==> r.value < U64
  {
    if |b| < 4 || b[0] != 1 then None
    else
      var app, fmt := b[1] / 16 % 8 * 16, b[1] % 16;
      match DecodeValue(b[4..], fmt)
      case None => None
      case Some((value, _)) =>
        if app == 0x00 || app == 0x10 then Some((Base(hdr, app) + value) % U64) else None
  }

  /** What is stored for `target`: its distance from the base, modulo 2^64. */
  function Stored(hdr: nat, app: nat, target: nat): (v: nat)
    requires target < U64
    ensures v < U64
  {
    (target + U64 - Base(hdr, app)) % U64
  }

  /** The 64-bit value `v` is one the format can hold: small, or a sign extension. */
  predicate Holds(fmt: nat, v: nat) {
    var w := Width(fmt);
    && w != 0
    && if Signed(fmt) then 2 * v < Range(w) || (v < U64 && 2 * (U64 - v) <= Range(w)) else v < Range(w)
  }

  /** A version-1 header that encodes `target`, with whatever follows. */
  function EncodeHeader(hdr: nat, app: nat, fmt: nat, target: nat, c: Byte, t: Byte, rest: seq<Byte>): seq<Byte>
    requires target < U64 && (app == 0x00 || app == 0x10) && fmt < 16
  {
    [1, app + fmt, c, t] + ToLe(Stored(hdr, app, target) % Range(Width(fmt)), Width(fmt)) + rest
  }

  lemma RangeIsPower(w: nat)
    requires w == 2 || w == 4 || w == 8
    ensures Pow256(w) == Range(w)
  {
    assert Pow256(1) == 256 && Pow256(2) == 0x1_0000;
    if w > 2 {
      assert Pow256(3) == 0x100_0000 && Pow256(4) == 0x1_0000_0000;
      if w > 4 {
        assert Pow256(5) == 0x100_0000_0000 && Pow256(6) == 0x1_0000_0000_0000;
        assert Pow256(7) == 0x100_0000_0000_0000;
      }
    }
  }

  /** The low bytes of a value the format can hold. */
  lemma Truncation(fmt: nat, v: nat)
    requires Holds(fmt, v) && v < U64
    ensures v % Range(Width(fmt)) == if v < Range(Width(fmt)) then v else v - (U64 - Range(Width(fmt)))
  {
    var w := Width(fmt);
    if w == 2 {
      assert v % 0x1_0000 == if v < 0x1_0000 then v else v - (U64 - 0x1_0000);
    } else if w == 4 {
      assert v % 0x1_0000_0000 == if v < 0x1_0000_0000 then v else v - (U64 - 0x1_0000_0000);
    }
  }

  /** One value: storing what the format can hold and sign-extending gives it back. */
  lemma ValueRoundTrip(fmt: nat, v: nat, rest: seq<Byte>)
    requires Holds(fmt, v) && v < U64
    ensures DecodeValue(ToLe(v % Range(Width(fmt)), Width(fmt)) + rest, fmt) == Some((v, Width(fmt)))
  {
    var w := Width(fmt);
    var m := v % Range(w);
    RangeIsPower(w);
    Truncation(fmt, v);
    LeRoundTrip(m, w);
    var b := ToLe(m, w) + rest;
    assert b[..w] == ToLe(m, w);
  }

  /** Conversely, every decoded value is one the format holds, stored in those very bytes. */
  lemma ValueUnique(fmt: nat, b: seq<Byte>)
    requires DecodeValue(b, fmt).Some?
    ensures var v, w := DecodeValue(b, fmt).value.0, Width(fmt);
      v < U64 && Holds(fmt, v) && b[..w] == ToLe(v % Range(w), w)
  {
    var v, w := DecodeValue(b, fmt).value.0, Width(fmt);
    LeUnique(b[..w]);
    RangeIsPower(w);
    Truncation(fmt, v);
  }

  /** Decoding inverts encoding, for each of the seven fixed-width formats, absolute or
      pc-relative, at every header address: a target whose stored distance the format can
      hold decodes to itself, whatever follows the field. */
  lemma DecodeInvertsEncode(hdr: nat, app: nat, fmt: nat, target: nat, c: Byte, t: Byte, rest: seq<Byte>)
    requires target < U64 && (app == 0x00 || app == 0x10) && fmt < 16
    requires Holds(fmt, Stored(hdr, app, target))
    ensures DecodeEhFrameStart(hdr, EncodeHeader(hdr, app, fmt, target, c, t, rest)) == Some(target)
  {
    var v := Stored(hdr, app, target);
    var b := EncodeHeader(hdr, app, fmt, target, c, t, rest);
    ValueRoundTrip(fmt, v, rest);
    assert b[4..] == ToLe(v % Range(Width(fmt)), Width(fmt)) + rest;
    SplitEncoding(app, fmt);
    assert b[1] == app + fmt;
    AddBack(Base(hdr, app), target);
  }

  lemma SplitEncoding(app: nat, fmt: nat)
    requires (app == 0x00 || app == 0x10) && fmt < 16
    ensures (app + fmt) / 16 % 8 * 16 == app && (app + fmt) % 16 == fmt
  {
  }

  lemma AddBack(base: nat, target: nat)
    requires base < U64 && target < U64
    ensures (base + (target + U64 - base) % U64) % U64 == target
  {
    if target < base {
      assert (target + U64 - base) % U64 == target + U64 - base;
    } else {
      assert (target + U64 - base) % U64 == target - base;
    }
  }

  lemma SubtractBack(base: nat, value: nat)
    requires base < U64 && value < U64
    ensures ((base + value) % U64 + U64 - base) % U64 == value
  {
    if base + value < U64 {
      assert (base + value) % U64 == base + value;
    } else {
      assert (base + value) % U64 == base + value - U64;
    }
  }

  /** And a header decodes to `target` only if it is such an encoding of it, apart from the
      indirect bit, which is ignored. */
  lemma DecodedIsEncoded(hdr: nat, b: seq<Byte>, target: nat)
    requires DecodeEhFrameStart(hdr, b) == Some(target)
    ensures target < U64 && |b| >= 4
    ensures var app, fmt := b[1] / 16 % 8 * 16, b[1] % 16;
      && (app == 0x00 || app == 0x10) && Holds(fmt, Stored(hdr, app, target))
      && |b| >= 4 + Width(fmt)
      && b == EncodeHeader(hdr, app, fmt, target, b[2], b[3], b[4 + Width(fmt)..])[1 := b[1]]
  {
    var app, fmt := b[1] / 16 % 8 * 16, b[1] % 16;
    var field := b[4..];
    ValueUnique(fmt, field);
    var v, w := DecodeValue(field, fmt).value.0, Width(fmt);
    SubtractBack(Base(hdr, app), v);
    assert Stored(hdr, app, target) == v;
    HeaderParts(b, w);
    assert b[4..4 + w] == field[..w];
  }

  lemma HeaderParts(b: seq<Byte>, w: nat)
    requires |b| >= 4 + w
    ensures b == [b[0], b[1], b[2], b[3]] + b[4..4 + w] + b[4 + w..]
  {
  }

  // -------------------------------------------------------------------------------- geometry

  const PT_LOAD: nat := 1
  const PT_GNU_EH_FRAME: nat := 0x6474_e550

  datatype Phdr = Phdr(kind: nat, executable: bool, vaddr: nat, memsz: nat)

  datatype Span = Span(start: nat, end: nat)

  function SegLo(bias: nat, ph: Phdr): nat {
    (bias + ph.vaddr) % U64
  }

  function SegHi(bias: nat, ph: Phdr): nat {
    (SegLo(bias, ph) + ph.memsz) % U64
  }

  ghost predicate IsLoad(phdrs: seq<Phdr>, i: int) {
    0 <= i < |phdrs| && phdrs[i].kind == PT_LOAD
  }

  datatype Geometry = Geometry(lo: nat, hi: nat, text: Option<Span>, hdr: Option<Phdr>)

  ghost predicate LoOk(lo: nat, phdrs: seq<Phdr>, bias: nat) {
    && (forall i :: IsLoad(phdrs, i) ==> lo <= SegLo(bias, phdrs[i]))
    && (lo == U64 - 1 || exists i :: IsLoad(phdrs, i) && lo == SegLo(bias, phdrs[i]))
  }

  ghost predicate HiOk(hi: nat, phdrs: seq<Phdr>, bias: nat) {
    && (forall i :: IsLoad(phdrs, i) ==> SegHi(bias, phdrs[i]) <= hi)
    && (hi == 0 || exists i :: IsLoad(phdrs, i) && hi == SegHi(bias, phdrs[i]))
  }

  ghost predicate FirstText(phdrs: seq<Phdr>, i: int) {
    IsLoad(phdrs, i) && phdrs[i].executable && forall j :: IsLoad(phdrs, j) && phdrs[j].executable ==> i <= j
  }

  ghost predicate TextOk(text: Option<Span>, phdrs: seq<Phdr>) {
    match text
    case None => forall i :: IsLoad(phdrs, i) ==> !phdrs[i].executable
    case Some(t) => exists i ::
      FirstText(phdrs, i) && t == Span(phdrs[i].vaddr, (phdrs[i].vaddr + phdrs[i].memsz) % U64)
  }

  ghost predicate LastHdr(phdrs: seq<Phdr>, i: int) {
    && 0 <= i < |phdrs| && phdrs[i].kind == PT_GNU_EH_FRAME
    && forall j :: i < j < |phdrs| ==> phdrs[j].kind != PT_GNU_EH_FRAME
  }

  ghost predicate HdrOk(hdr: Option<Phdr>, phdrs: seq<Phdr>) {
    match hdr
    case None => forall i :: 0 <= i < |phdrs| ==> phdrs[i].kind != PT_GNU_EH_FRAME
    case Some(h) => exists i :: LastHdr(phdrs, i) && h == phdrs[i]
  }

  /** The union of the loadable segments, the first executable one and the last eh_frame_hdr. */
  ghost predicate Describes(g: Geometry, phdrs: seq<Phdr>, bias: nat) {
    LoOk(g.lo, phdrs, bias) && HiOk(g.hi, phdrs, bias) && TextOk(g.text, phdrs) && HdrOk(g.hdr, phdrs)
  }

  method ScanHeaders(phdrs: seq<Phdr>, bias: nat) returns (g: Geometry)
    ensures Describes(g, phdrs, bias)
  {
    g := Geometry(U64 - 1, 0, None, None);
    for n := 0 to |phdrs|
      invariant Describes(g, phdrs[..n], bias)
    {
      var ph := phdrs[n];
      ghost var was := g;
      if ph.kind == PT_LOAD {
        var lo, hi := SegLo(bias, ph), SegHi(bias, ph);
        if lo < g.lo {
          g := g.(lo := lo);
        }
        if hi > g.hi {
          g := g.(hi := hi);
        }
        if ph.executable && g.text.None? {
          g := g.(text := Some(Span(ph.vaddr, (ph.vaddr + ph.memsz) % U64)));
        }
      } else if ph.kind == PT_GNU_EH_FRAME {
        g := g.(hdr := Some(ph));
      }
      DescribesMore(was, g, phdrs[..n], ph, bias);
      assert phdrs[..n] + [ph] == phdrs[..n + 1];
    }
    assert phdrs[..|phdrs|] == phdrs;
  }

  /** One more header, and what the loop body makes of it. */
  lemma DescribesMore(g: Geometry, g': Geometry, phdrs: seq<Phdr>, ph: Phdr, bias: nat)
    requires Describes(g, phdrs, bias)
    requires ph.kind != PT_LOAD ==> g' == if ph.kind == PT_GNU_EH_FRAME then g.(hdr := Some(ph)) else g
    requires ph.kind == PT_LOAD ==>
      g' == Geometry(if SegLo(bias, ph) < g.lo then SegLo(bias, ph) else g.lo,
                     if SegHi(bias, ph) > g.hi then SegHi(bias, ph) else g.hi,
                     if ph.executable && g.text.None? then Some(Span(ph.vaddr, (ph.vaddr + ph.memsz) % U64)) else g.text,
                     g.hdr)
    ensures Describes(g', phdrs + [ph], bias)
  {
    var n, all := |phdrs|, phdrs + [ph];
    assert forall i :: 0 <= i < n ==> all[i] == phdrs[i];
    assert all[n] == ph;
    MoreLo(g.lo, g'.lo, phdrs, ph, bias);
    MoreHi(g.hi, g'.hi, phdrs, ph, bias);
    MoreText(g.text, g'.text, phdrs, ph);
    MoreHdr(g.hdr, g'.hdr, phdrs, ph);
  }

  lemma MoreLo(lo: nat, lo': nat, phdrs: seq<Phdr>, ph: Phdr, bias: nat)
    requires LoOk(lo, phdrs, bias)
    requires lo' == if ph.kind == PT_LOAD && SegLo(bias, ph) < lo then SegLo(bias, ph) else lo
    ensures LoOk(lo', phdrs + [ph], bias)
  {
    var all := phdrs + [ph];
    if i :| IsLoad(phdrs, i) && lo == SegLo(bias, phdrs[i]) {
      assert IsLoad(all, i) && all[i] == phdrs[i];
    }
    if ph.kind == PT_LOAD {
      assert IsLoad(all, |phdrs|);
    }
    forall i | IsLoad(all, i) ensures lo' <= SegLo(bias, all[i]) {
      assert i < |phdrs| ==> IsLoad(phdrs, i);
    }
  }

  lemma MoreHi(hi: nat, hi': nat, phdrs: seq<Phdr>, ph: Phdr, bias: nat)
    requires HiOk(hi, phdrs, bias)
    requires hi' == if ph.kind == PT_LOAD && SegHi(bias, ph) > hi then SegHi(bias, ph) else hi
    ensures HiOk(hi', phdrs + [ph], bias)
  {
    var all := phdrs + [ph];
    if i :| IsLoad(phdrs, i) && hi == SegHi(bias, phdrs[i]) {
      assert IsLoad(all, i) && all[i] == phdrs[i];
    }
    if ph.kind == PT_LOAD {
      assert IsLoad(all, |phdrs|);
    }
    forall i | IsLoad(all, i) ensures SegHi(bias, all[i]) <= hi' {
      assert i < |phdrs| ==> IsLoad(phdrs, i);
    }
  }

  lemma MoreText(text: Option<Span>, text': Option<Span>, phdrs: seq<Phdr>, ph: Phdr)
    requires TextOk(text, phdrs)
    requires text' == if ph.kind == PT_LOAD && ph.executable && text.None?
                      then Some(Span(ph.vaddr, (ph.vaddr + ph.memsz) % U64)) else text
    ensures TextOk(text', phdrs + [ph])
  {
    var n, all := |phdrs|, phdrs + [ph];
    assert forall j :: IsLoad(all, j) && j < n ==> IsLoad(phdrs, j) && all[j] == phdrs[j];
    if text.Some? {
      var i :| FirstText(phdrs, i) && text.value == Span(phdrs[i].vaddr, (phdrs[i].vaddr + phdrs[i].memsz) % U64);
      assert FirstText(all, i);
    } else if text'.Some? {
      assert FirstText(all, n);
    }
  }

  lemma MoreHdr(hdr: Option<Phdr>, hdr': Option<Phdr>, phdrs: seq<Phdr>, ph: Phdr)
    requires HdrOk(hdr, phdrs)
    requires hdr' == if ph.kind == PT_GNU_EH_FRAME then Some(ph) else hdr
    ensures HdrOk(hdr', phdrs + [ph])
  {
    var n, all := |phdrs|, phdrs + [ph];
    if ph.kind == PT_GNU_EH_FRAME {
      assert LastHdr(all, n);
    } else if hdr.Some? {
      var i :| LastHdr(phdrs, i) && hdr.value == phdrs[i];
      assert LastHdr(all, i);
    }
  }

  /** containing_segment_end */
  method ContainingSegmentEnd(phdrs: seq<Phdr>, bias: nat, addr: nat) returns (end: Option<nat>)
    ensures end.Some? ==> exists i :: Contains(phdrs, bias, i, addr) && end.value == SegHi(bias, phdrs[i])
    ensures end.None? ==> forall i :: !Contains(phdrs, bias, i, addr)
  {
    for n := 0 to |phdrs|
      invariant forall i :: i < n ==> !Contains(phdrs, bias, i, addr)
    {
      if phdrs[n].kind == PT_LOAD && SegLo(bias, phdrs[n]) <= addr < SegHi(bias, phdrs[n]) {
        assert Contains(phdrs, bias, n, addr);
        return Some(SegHi(bias, phdrs[n]));
      }
    }
    return None;
  }

  /** The i-th header is a loadable segment that contains `addr`. */
  ghost predicate Contains(phdrs: seq<Phdr>, bias: nat, i: int, addr: nat) {
    IsLoad(phdrs, i) && SegLo(bias, phdrs[i]) <= addr < SegHi(bias, phdrs[i])
  }

  // -------------------------------------------------------------------- one object of the scan

  /** A module to build: its key and range, and where its unwind sections lie, as addresses
      and relative to the load bias. */
  datatype RawSpec = RawSpec(
    key: nat, bias: nat, avma: Span,
    hdr: Span, hdrSvma: Span,
    ehFrame: Span, ehFrameSvma: Span,
    text: Option<Span>)

  function Sub(a: nat, b: nat): (d: nat)
    ensures d < U64
  {
    (a % U64 + U64 - b % U64) % U64
  }

  function Header(mem: nat -> Byte, at: nat, len: nat): seq<Byte> {
    seq(len, i requires 0 <= i => mem((at + i) % U64))
  }

  /** The spec's .eh_frame is what the header tells, is not empty, and lies inside one
      loadable segment, hence inside the module's own range. */
  ghost predicate SpecOk(s: RawSpec, phdrs: seq<Phdr>, bias: nat, mem: nat -> Byte) {
    && s.key == s.avma.start < s.avma.end
    && s.hdr.start <= s.hdr.end
    && DecodeEhFrameStart(s.hdr.start, Header(mem, s.hdr.start, s.hdr.end - s.hdr.start)) == Some(s.ehFrame.start)
    && s.ehFrame.start < s.ehFrame.end
    && (exists i :: Contains(phdrs, bias, i, s.ehFrame.start) && s.ehFrame.end == SegHi(bias, phdrs[i]))
    && s.avma.start <= s.ehFrame.start && s.ehFrame.end <= s.avma.end
    && InPlace(s, bias)
  }

  /** callback: what one loaded object contributes to the scan. `hash` is the fingerprint of the
      object's name and of the given geometry; `known` are the registry's fingerprints. */
  method Callback(phdrs: seq<Phdr>, bias: nat, mem: nat -> Byte, hash: (nat, nat, nat) -> nat,
                  known: map<nat, nat>, current: map<nat, nat>)
      returns (current': map<nat, nat>, spec: Option<RawSpec>, g: Geometry)
    requires bias < U64 && forall i :: 0 <= i < |phdrs| ==> phdrs[i].vaddr < U64 && phdrs[i].memsz < U64
    ensures Describes(g, phdrs, bias)
    ensures g.lo == U64 - 1 || g.hi <= g.lo ==> current' == current && spec == None
    ensures !(g.lo == U64 - 1 || g.hi <= g.lo) ==>
      && current' == current[g.lo := Fingerprint(hash, g)]
      && (g.lo in known && known[g.lo] == Fingerprint(hash, g) ==> spec == None)
      && (g.hdr.None? ==> spec == None)
    ensures spec.Some? ==> SpecOk(spec.value, phdrs, bias, mem) && spec.value.avma == Span(g.lo, g.hi) && spec.value.text == g.text
    ensures !(g.lo == U64 - 1 || g.hi <= g.lo) && g.hdr.Some? && !(g.lo in known && known[g.lo] == Fingerprint(hash, g)) ==>
      (spec.Some? <==> Extractable(g.hdr.value, phdrs, bias, mem))
  {
    current', spec := current, None;
    g := ScanHeaders(phdrs, bias);
    var h := g;
    if h.lo == U64 - 1 || h.hi <= h.lo {
      return;
    }
    var (vaddr, memsz) := match h.hdr case Some(p) => (p.vaddr, p.memsz) case None => (0, 0);
    var fp := hash(vaddr, memsz, h.hi - h.lo);
    current' := current[h.lo := fp];
    if (h.lo in known && known[h.lo] == fp) || h.hdr.None? {
      return;
    }
    spec := Extract(h, phdrs, bias, mem);
  }

  /** The unwind sections of an object whose header segment is known. */
  method Extract(h: Geometry, phdrs: seq<Phdr>, bias: nat, mem: nat -> Byte) returns (spec: Option<RawSpec>)
    requires bias < U64 && Describes(h, phdrs, bias) && h.hdr.Some?
    ensures spec.Some? <==> Extractable(h.hdr.value, phdrs, bias, mem)
    ensures spec.Some? ==> SpecOk(spec.value, phdrs, bias, mem) && spec.value.avma == Span(h.lo, h.hi) && spec.value.text == h.text
  {
    spec := None;
    var hdrAvma, memsz := (bias + h.hdr.value.vaddr) % U64, h.hdr.value.memsz;
    if memsz < 4 {
      return;
    }
    var start := DecodeEhFrameStart(hdrAvma, Header(mem, hdrAvma, memsz));
    if start.None? {
      return;
    }
    var eh := start.value;
    var end := ContainingSegmentEnd(phdrs, bias, eh);
    if end.None? || end.value <= eh {
      return;
    }
    var len := end.value - eh;
    spec := Some(RawSpec(h.lo, bias, Span(h.lo, h.hi),
                         Span(hdrAvma, hdrAvma + memsz),
                         Span(Sub(hdrAvma, bias), Sub(hdrAvma, bias) + memsz),
                         Span(eh, end.value),
                         Span(Sub(eh, bias), Sub(eh, bias) + len),
                         h.text));
    SliceInModule(h, phdrs, bias, eh, end.value);
    Relocated(spec.value, bias);
  }

  /** The bias-relative range of .eh_frame, moved by the bias, is the range itself. */
  lemma Relocated(s: RawSpec, bias: nat)
    requires bias < U64 && s.ehFrame.start < U64 && s.ehFrame.start <= s.ehFrame.end
    requires s.ehFrameSvma == Span(Sub(s.ehFrame.start, bias), Sub(s.ehFrame.start, bias) + (s.ehFrame.end - s.ehFrame.start))
    ensures InPlace(s, bias)
  {
    SubAdds(s.ehFrame.start, bias);
  }

  ghost predicate InPlace(s: RawSpec, bias: nat) {
    && (s.ehFrameSvma.start + bias) % U64 == s.ehFrame.start
    && s.ehFrameSvma.end - s.ehFrameSvma.start == s.ehFrame.end - s.ehFrame.start
  }

  function Fingerprint(hash: (nat, nat, nat) -> nat, g: Geometry): nat
    requires g.lo <= g.hi
  {
    match g.hdr
    case Some(p) => hash(p.vaddr, p.memsz, g.hi - g.lo)
    case None => hash(0, 0, g.hi - g.lo)
  }

  /** A slice up to the end of the segment that contains its start lies inside the module. */
  lemma SliceInModule(g: Geometry, phdrs: seq<Phdr>, bias: nat, start: nat, end: nat)
    requires Describes(g, phdrs, bias)
    requires exists i :: Contains(phdrs, bias, i, start) && end == SegHi(bias, phdrs[i])
    ensures g.lo <= start < end <= g.hi
  {
    var i :| Contains(phdrs, bias, i, start) && end == SegHi(bias, phdrs[i]);
    assert IsLoad(phdrs, i);
  }

  lemma SubAdds(a: nat, b: nat)
    requires a < U64 && b < U64
    ensures (Sub(a, b) + b) % U64 == a
  {
    AddBack(b, a);
    assert a % U64 == a && b % U64 == b;
  }

  /** Unwind information can be extracted: the header decodes to an address in a segment. */
  ghost predicate Extractable(hdr: Phdr, phdrs: seq<Phdr>, bias: nat, mem: nat -> Byte) {
    var at := (bias + hdr.vaddr) % U64;
    && hdr.memsz >= 4
    && var start := DecodeEhFrameStart(at, Header(mem, at, hdr.memsz));
    && start.Some? && exists i :: Contains(phdrs, bias, i, start.value)
  }
}

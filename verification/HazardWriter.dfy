/** Every step of a writer, and pool growth, keeps the invariant. */
module HazardWriter {
  import opened Limits
  import opened ModuleList
  import opened Hazard
  import opened HazardInvariant

  lemma KeepLock(s: State, u: seq<ModOp>)
    requires Inv(s) && Enabled(s, Lock(u))
    ensures Inv(Next(s, Lock(u)))
  {
  }

  lemma KeepLoadForClone(s: State)
    requires Inv(s) && Enabled(s, LoadForClone)
    ensures Inv(Next(s, LoadForClone))
  {
  }

  lemma BuildHeap(s: State, p: Addr)
    requires HeapOk(s) && Enabled(s, Build(p))
    ensures HeapOk(Next(s, Build(p)))
  {
    var s' := Next(s, Build(p));
    assert InHand(s'.writer) == {p} && InHand(s.writer) == {} && RetiredSet(s') == RetiredSet(s);
    forall q | q in s'.heap ensures CellOk(s', q) {
      assert q != p ==> CellOk(s, q);
    }
    assert forall q :: q in s.retired ==> q in RetiredSet(s);
  }

  /** The clone is of the current snapshot, which is allocated. */
  lemma BuildVersions(s: State, p: Addr)
    requires HeapOk(s) && FreedOk(s) && SerialOk(s) && Enabled(s, Build(p))
    ensures FreedOk(Next(s, Build(p))) && SerialOk(Next(s, Build(p)))
    ensures s.writer.cur != 0 ==> s.writer.cur in s.heap
  {
    var s' := Next(s, Build(p));
    if s.current != 0 {
      assert CellOk(s, s.current);
    } else {
      assert |s.versions| == 1;
    }
    forall v | 1 <= v < |s.versions| ensures Alive(s', v) == Alive(s, v) {
      if s.versions[v].addr in s.heap {
        assert CellOk(s, s.versions[v].addr);
      }
    }
  }

  lemma KeepBuild(s: State, p: Addr)
    requires Inv(s) && Enabled(s, Build(p))
    ensures Inv(Next(s, Build(p)))
  {
    ReaderPart(s, Next(s, Build(p)));
    BuildGuards(s, p);
    BuildHeap(s, p);
    BuildVersions(s, p);
  }

  lemma BuildGuards(s: State, p: Addr)
    requires GuardsOk(s) && Enabled(s, Build(p))
    ensures GuardsOk(Next(s, Build(p)))
  {
    forall i | 0 <= i < |s.slots| ensures GuardOk(Next(s, Build(p)).heap, s.slots[i]) {
      assert GuardOk(s.heap, s.slots[i]);
    }
  }

  lemma SwapHeap(s: State)
    requires HeapOk(s) && Enabled(s, Swap)
    ensures HeapOk(Next(s, Swap))
  {
    var s' := Next(s, Swap);
    assert s.writer.box in InHand(s.writer);
    assert InHand(s'.writer) == CurrentSet(s) && CurrentSet(s') == InHand(s.writer) && RetiredSet(s') == RetiredSet(s);
    forall q | q in s'.heap ensures CellOk(s', q) {
      assert CellOk(s, q);
    }
    assert forall q :: q in s.retired <==> q in RetiredSet(s);
  }

  lemma SwapFreed(s: State)
    requires HeapOk(s) && FreedOk(s) && Enabled(s, Swap)
    ensures FreedOk(Next(s, Swap))
  {
    var s' := Next(s, Swap);
    assert CellOk(s, s.writer.box);
    forall v | 1 <= v < |s.versions| ensures Alive(s', v) == Alive(s, v) {
    }
    assert Alive(s', |s.versions|);
  }

  lemma SwapSerial(s: State)
    requires HeapOk(s) && SerialOk(s) && Enabled(s, Swap)
    ensures SerialOk(Next(s, Swap))
  {
    assert CellOk(s, s.writer.box);
  }

  /** Publishing adds a version; what readers observed before is unchanged. */
  lemma SwapViews(s: State)
    requires AcquiresOk(s) && Enabled(s, Swap)
    ensures AcquiresOk(Next(s, Swap))
  {
    var s' := Next(s, Swap);
    forall c | c in s.calls ensures AcquireOk(s'.versions, s.calls[c]) {
      assert AcquireOk(s.versions, s.calls[c]);
    }
  }

  lemma KeepSwap(s: State)
    requires Inv(s) && Enabled(s, Swap)
    ensures Inv(Next(s, Swap))
  {
    ReaderPart(s, Next(s, Swap));
    SwapHeap(s);
    SwapFreed(s);
    SwapSerial(s);
    SwapViews(s);
  }

  lemma PushHeap(s: State)
    requires HeapOk(s) && Enabled(s, Push)
    ensures HeapOk(Next(s, Push))
  {
    var s' := Next(s, Push);
    var hand := InHand(s.writer);
    assert forall p :: p in s.retired <==> p in RetiredSet(s);
    assert s.writer.prev != 0 ==> s.writer.prev in hand && s.writer.prev !in s.retired;
    assert RetiredSet(s') == RetiredSet(s) + hand && InHand(s'.writer) == {};
    forall q | q in s'.heap ensures CellOk(s', q) {
      assert CellOk(s, q);
    }
  }

  lemma PushVersions(s: State)
    requires FreedOk(s) && SerialOk(s) && Enabled(s, Push)
    ensures FreedOk(Next(s, Push)) && SerialOk(Next(s, Push))
  {
    forall v | 1 <= v < |s.versions| ensures Alive(Next(s, Push), v) == Alive(s, v) {
    }
  }

  lemma KeepPush(s: State)
    requires Inv(s) && Enabled(s, Push)
    ensures Inv(Next(s, Push))
  {
    ReaderPart(s, Next(s, Push));
    PushHeap(s);
    PushVersions(s);
  }

  lemma KeepNextRetired(s: State)
    requires Inv(s) && Enabled(s, NextRetired)
    ensures Inv(Next(s, NextRetired))
  {
    ReaderPart(s, Next(s, NextRetired));
    MemoryPart(s, Next(s, NextRetired));
  }

  /** Passing a slot whose hazard differs keeps the passed slots unguarded; a scan that finds
      no further chunk has passed every slot. */
  lemma ScanAdvances(s: State)
    requires PoolOk(s) && ScanOk(s) && Enabled(s, ScanStep)
    ensures ScanOk(Next(s, ScanStep))
  {
    if s.writer.seen && (s.writer.at + 1) % SLOT_CHUNK != 0 {
      NextInChunk(s, s.writer.at);
    }
  }

  lemma KeepScanStep(s: State)
    requires Inv(s) && Enabled(s, ScanStep)
    ensures Inv(Next(s, ScanStep))
  {
    ReaderPart(s, Next(s, ScanStep));
    MemoryPart(s, Next(s, ScanStep));
    ScanAdvances(s);
  }

  /** Freeing an unguarded retired snapshot leaves every guarded one allocated. */
  lemma FreeGuards(s: State)
    requires GuardsOk(s) && ScanOk(s) && Enabled(s, Free)
    ensures GuardsOk(Next(s, Free)) && ScanOk(Next(s, Free))
  {
    var p := s.retired[s.writer.k];
    forall i | 0 <= i < |s.slots| ensures GuardOk(s.heap - {p}, s.slots[i]) {
      assert GuardOk(s.heap, s.slots[i]);
    }
  }

  lemma FreeHeap(s: State)
    requires HeapOk(s) && Enabled(s, Free)
    ensures HeapOk(Next(s, Free)) && s.retired[s.writer.k] in s.heap
  {
    var s' := Next(s, Free);
    var p := s.retired[s.writer.k];
    assert p in RetiredSet(s);
    assert RetiredSet(s') == RetiredSet(s) - {p};
    forall q | q in s'.heap ensures CellOk(s', q) {
      assert CellOk(s, q);
    }
  }

  /** The freed snapshot was alive, so its version joins the freed ones only now. */
  lemma FreeOnce(s: State)
    requires HeapOk(s) && FreedOk(s) && Enabled(s, Free) && s.retired[s.writer.k] in s.heap
    ensures FreedOk(Next(s, Free))
    ensures s.heap[s.retired[s.writer.k]].ver !in s.freed
  {
    var s' := Next(s, Free);
    var p := s.retired[s.writer.k];
    assert p in RetiredSet(s) && CellOk(s, p);
    forall v | 1 <= v < |s.versions| ensures Alive(s', v) <==> Alive(s, v) && v != s.heap[p].ver {
    }
  }

  lemma KeepFree(s: State)
    requires Inv(s) && Enabled(s, Free)
    ensures Inv(Next(s, Free))
  {
    ReaderPart(s, Next(s, Free));
    FreeGuards(s);
    FreeHeap(s);
    FreeOnce(s);
  }

  lemma GrowSlots(s: State)
    requires SlotsOk(s) && CallsOk(s) && Enabled(s, Grow)
    ensures SlotsOk(Next(s, Grow)) && CallsOk(Next(s, Grow))
  {
    var s' := Next(s, Grow);
    forall c | c in s.calls ensures CallOk(s', c, s.calls[c]) {
      assert CallOk(s, c, s.calls[c]);
    }
  }

  lemma KeepGrow(s: State)
    requires Inv(s) && Enabled(s, Grow)
    ensures Inv(Next(s, Grow))
  {
    GrowSlots(s);
    GrowScan(s);
    MemoryPart(s, Next(s, Grow));
  }

  /** The new slots guard nothing. */
  lemma GrowScan(s: State)
    requires PoolOk(s) && GuardsOk(s) && ScanOk(s) && Enabled(s, Grow)
    ensures PoolOk(Next(s, Grow)) && GuardsOk(Next(s, Grow)) && ScanOk(Next(s, Grow))
  {
  }
}

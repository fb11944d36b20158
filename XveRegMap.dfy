/** The XVE register-map set-up of the AD102 bus interface: per PCIe
    function, an entry of `xveRegmapRef` says which config-space registers
    are valid and writable, where the boot-time copy of config space lives
    and where the MSI-X vector-control shadow is kept. */
module XveRegMap {
  import opened NvTypes

  /** The chip's register tables `xveRegMapValid` and `xveRegMapWrite`,
      bitmaps over the PCIe config-space registers. Their contents come from
      a chip header that is not part of this model, so they are constants
      whose values the proofs never rely on. */
  const XveRegMapValid: seq<bv32>
  const XveRegMapWrite: seq<bv32>

  /** One XVE_REGMAP_REF: a plain C struct, held by value in the array
      `KernelBif.xveRegmapRef`. Table pointers to constant data are `None`
      while NULL; the two buffers are nullable arrays of 32-bit words. */
  datatype XveRegmapRef = XveRegmapRef(
    nFunc: bv8,
    xveRegMapValid: Option<seq<bv32>>,
    xveRegMapWrite: Option<seq<bv32>>,
    numXveRegMapValid: nat,
    numXveRegMapWrite: nat,
    bufBootConfigSpace: array?<bv32>,
    bufMsixTable: array?<bv32>)

  /** The zero-filled entry the KernelBif object starts with. */
  const NullEntry := XveRegmapRef(0, None, None, 0, 0, null, null)

  /** The byte count passed to the allocator: `controlSize * 4` is computed
      in 32-bit unsigned arithmetic and wraps, the product with
      `sizeof(NvU32)` is computed at pointer width and, on 64-bit
      targets, does not. For every
      vector count below 2^30, and so for every MSI-X table a PCIe device
      can describe (at most 2048 vectors), this is 16 bytes per vector; past
      that, the wrap makes it 16 bytes per vector of the count taken modulo
      2^30 (2^30 vectors ask for 0 bytes). */
  function MsixTableBytes(controlSize: bv32): (bytes: nat)
    ensures bytes == 16 * (controlSize as nat % 0x4000_0000)
    ensures bytes % 16 == 0
    ensures bytes < 0x4_0000_0000
    ensures controlSize as nat < 0x4000_0000 ==> bytes == 16 * controlSize as nat
  {
    TimesFourWraps(controlSize as nat);
    SixteenPerVector(controlSize as nat);
    ((controlSize as nat * 4) % 0x1_0000_0000) * 4
  }

  /** Multiplying by 4 in 32-bit arithmetic forgets the top two bits: it is
      4 times the number taken modulo 2^30. */
  lemma TimesFourWraps(n: nat)
    ensures (n * 4) % 0x1_0000_0000 == (n % 0x4000_0000) * 4
  {
    var q, r := n / 0x4000_0000, n % 0x4000_0000;
    assert n * 4 == q * 0x1_0000_0000 + r * 4;
    assert 0 <= r * 4 < 0x1_0000_0000;
  }

  /** 16 bytes per vector of a count below 2^30. */
  lemma SixteenPerVector(n: nat)
    ensures (16 * (n % 0x4000_0000)) % 16 == 0
    ensures 16 * (n % 0x4000_0000) < 0x4_0000_0000
    ensures n < 0x4000_0000 ==> 16 * (n % 0x4000_0000) == 16 * n
  {
  }

  /** Each MSI-X table entry is four 32-bit words: the shadow buffer for a
      table of n vectors holds 4 * n words. */
  lemma MsixTableHoldsFourWordsPerVector(controlSize: bv32)
    requires controlSize as nat < 0x4000_0000
    ensures MsixTableBytes(controlSize) / 4 == 4 * controlSize as nat
  {
  }

  /** What lines 109-114 leave in entry 0: function number 0, the chip's
      tables with their element counts, and the KernelBif's own boot-time
      config-space cache (an alias, not a copy). */
  predicate HoldsAd102Maps(e: XveRegmapRef, bootConfigSpace: array<bv32>)
  {
    && e.nFunc == 0
    && e.xveRegMapValid == Some(XveRegMapValid)
    && e.xveRegMapWrite == Some(XveRegMapWrite)
    && e.numXveRegMapValid == |XveRegMapValid|
    && e.numXveRegMapWrite == |XveRegMapWrite|
    && e.bufBootConfigSpace == bootConfigSpace
  }

  /** The element counts an installed entry carries are the lengths of the
      tables it points to. */
  lemma InstalledCountsMatchTables(e: XveRegmapRef, bootConfigSpace: array<bv32>)
    requires HoldsAd102Maps(e, bootConfigSpace)
    ensures e.xveRegMapValid.Some? && e.numXveRegMapValid == |e.xveRegMapValid.value|
    ensures e.xveRegMapWrite.Some? && e.numXveRegMapWrite == |e.xveRegMapWrite.value|
  {
  }

  /** portMemAllocNonPaged: a foreign allocator that may fail. The ghost log
      records the byte count of every request. */
  class NonPagedHeap {
    ghost var requests: seq<nat>

    constructor ()
      ensures requests == []
    {
      requests := [];
    }

    /** Returns NULL or a fresh buffer of `size` bytes; its contents are
        not specified (the allocation is not zeroed). */
    method AllocNonPaged(size: nat) returns (p: array?<bv32>)
      modifies this
      ensures requests == old(requests) + [size]
      ensures p != null ==> fresh(p) && p.Length == size / 4
    {
      requests := requests + [size];
      var granted: bool := *;
      if granted {
        p := new bv32[size / 4];
      } else {
        p := null;
      }
    }
  }

  /** The part of KernelBif this file touches. */
  class KernelBif {
    /** xveRegmapRef[]: one entry per PCIe function of the GPU. */
    const xveRegmapRef: array<XveRegmapRef>
    /** cacheData.gpuBootConfigSpace. */
    const bootConfigSpace: array<bv32>
    /** What kbifGetMSIXTableVectorControlSize_HAL reports for this GPU:
        the query is read as this constant. */
    const msixVectorControlSize: bv32
    /** Every call of kbifInitXveRegMap_GM107: its function argument and
        the status it returned. */
    ghost var gm107Calls: seq<(bv8, Status)>

    predicate Valid()
    {
      xveRegmapRef.Length == 2
    }

    constructor (bootConfigSpace: array<bv32>, msixVectorControlSize: bv32)
      ensures Valid() && fresh(xveRegmapRef)
      ensures xveRegmapRef[..] == [NullEntry, NullEntry]
      ensures this.bootConfigSpace == bootConfigSpace
      ensures this.msixVectorControlSize == msixVectorControlSize
      ensures gm107Calls == []
    {
      xveRegmapRef := new XveRegmapRef[2](_ => NullEntry);
      this.bootConfigSpace := bootConfigSpace;
      this.msixVectorControlSize := msixVectorControlSize;
      gm107Calls := [];
    }

    /** kbifInitXveRegMap_GM107, the older generation's initialiser: it may
        set up the entry of the function it is given, nothing else of the
        map, and may return any status. */
    method InitXveRegMapGM107(func: bv8) returns (status: Status)
      requires Valid()
      modifies this, xveRegmapRef
      ensures forall i :: 0 <= i < 2 && i != func as int ==> xveRegmapRef[i] == old(xveRegmapRef[i])
      ensures gm107Calls == old(gm107Calls) + [(func, status)]
    {
      if func as int < 2 {
        var e: XveRegmapRef := *;
        xveRegmapRef[func] := e;
      }
      status := *;
      gm107Calls := gm107Calls + [(func, status)];
    }

    /** kbifInitXveRegMap_AD102. */
    method InitXveRegMap(heap: NonPagedHeap, func: bv8) returns (status: Status)
      requires Valid()
      modifies this, xveRegmapRef, heap
      // function 0: the chip's maps are installed whatever the outcome
      ensures func == 0 ==> HoldsAd102Maps(xveRegmapRef[0], bootConfigSpace)
      // an existing MSI-X buffer is kept and nothing is allocated
      ensures func == 0 && old(xveRegmapRef[0].bufMsixTable) != null ==>
                xveRegmapRef[0].bufMsixTable == old(xveRegmapRef[0].bufMsixTable)
                && heap.requests == old(heap.requests)
      // a missing one is requested once, sized from the vector count
      ensures func == 0 && old(xveRegmapRef[0].bufMsixTable) == null ==>
                heap.requests == old(heap.requests) + [MsixTableBytes(msixVectorControlSize)]
                && (xveRegmapRef[0].bufMsixTable != null ==>
                      fresh(xveRegmapRef[0].bufMsixTable)
                      && xveRegmapRef[0].bufMsixTable.Length == MsixTableBytes(msixVectorControlSize) / 4)
      ensures func == 0 ==>
                && status == (if xveRegmapRef[0].bufMsixTable == null then ErrNoMemory else Ok)
                && xveRegmapRef[1] == old(xveRegmapRef[1])
                && gm107Calls == old(gm107Calls)
      // function 1: whatever the GM107 initialiser does and returns
      ensures func == 1 ==>
                && xveRegmapRef[0] == old(xveRegmapRef[0])
                && gm107Calls == old(gm107Calls) + [(1, status)]
                && heap.requests == old(heap.requests)
      // any other function number is rejected and nothing changes
      ensures func > 1 ==>
                && status == ErrInvalidArgument
                && xveRegmapRef[..] == old(xveRegmapRef[..])
                && gm107Calls == old(gm107Calls)
                && heap.requests == old(heap.requests)
    {
      status := Ok;
      if func == 0 {
        xveRegmapRef[0] := xveRegmapRef[0].(
          nFunc := 0,
          xveRegMapValid := Some(XveRegMapValid),
          xveRegMapWrite := Some(XveRegMapWrite),
          numXveRegMapValid := |XveRegMapValid|,
          numXveRegMapWrite := |XveRegMapWrite|,
          bufBootConfigSpace := bootConfigSpace);
        var controlSize := msixVectorControlSize;
        if xveRegmapRef[0].bufMsixTable == null {
          var p := heap.AllocNonPaged(MsixTableBytes(controlSize));
          xveRegmapRef[0] := xveRegmapRef[0].(bufMsixTable := p);
        }
        if xveRegmapRef[0].bufMsixTable == null {
          status := ErrNoMemory;
          return;
        }
      } else if func == 1 {
        status := InitXveRegMapGM107(1);
      } else {
        status := ErrInvalidArgument;
      }
    }

    /** Initialising function 0 a second time after it succeeded reuses the
        buffer: the two calls together install the maps and make at most the
        one allocation request the first call needed, so the second call
        requests nothing, and both succeed. */
    method InitFunc0Twice(heap: NonPagedHeap) returns (first: Status, second: Status)
      requires Valid()
      modifies this, xveRegmapRef, heap
      ensures first == Ok || first == ErrNoMemory
      ensures first == Ok ==>
                && second == Ok
                && HoldsAd102Maps(xveRegmapRef[0], bootConfigSpace)
                && xveRegmapRef[0].bufMsixTable != null
                && (old(xveRegmapRef[0].bufMsixTable) != null ==>
                      xveRegmapRef[0].bufMsixTable == old(xveRegmapRef[0].bufMsixTable))
                && heap.requests == old(heap.requests)
                     + (if old(xveRegmapRef[0].bufMsixTable) == null
                        then [MsixTableBytes(msixVectorControlSize)] else [])
    {
      first := InitXveRegMap(heap, 0);
      second := InitXveRegMap(heap, 0);
    }
  }
}

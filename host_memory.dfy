/** The tracking context of the host-memory tracker: the intrusive doubly
    linked list of live block headers, the aggregate counters, the byte
    budget, the high-water marks and the size histogram, with the tracked
    and untracked allocate and deallocate paths and the report walk. */
module HostMemory {
  import opened Blocks
  import opened SizeClasses

  /** What an allocation hands back: the null pointer, memory from the raw
      allocator with no header (untracked path), or the payload of a
      tracked block, which stands for its header. */
  datatype Pointer = Null | Raw(bytes: nat) | Payload(block: Block)

  /** What a deallocation did with the pointer it was given. */
  datatype FreeOutcome =
    | Delegated    // no context: handed to the raw deallocator
    | IgnoredNull  // tracked, null pointer: only the counter moved
    | Released     // unlinked, accounted and freed
    | Mismatch     // unlinked, accounting check failed: warning, not freed

  /** The figures the report prints before its per-block dump. */
  datatype Summary = Summary(
    allocations: nat,
    deallocations: nat,
    maxAllocatedBytes: nat,
    blockCount: nat,
    byteCount: nat,
    namedBlocks: nat,
    namedBytes: nat,
    anonymousBlocks: nat,
    anonymousBytes: nat)

  function Max(a: nat, b: nat): nat
  {
    if a < b then b else a
  }

  /** One tracking context (ce_memory_info_t). `nodes` is the list as the
      sequence of its blocks from head to tail. */
  class MemoryInfo {
    var allocations: nat
    var deallocations: nat
    var maxAllowedBytes: nat
    var blockCount: nat
    var byteCount: nat
    var headBlock: Block?
    var tailBlock: Block?
    var trackSizes: bool
    var maxAllocatedBytes: nat
    var maxBlockSize: nat
    const histogram: array<nat>
    ghost var nodes: seq<Block>

    /** The links spell out `nodes`: no block twice, head and tail at the
        ends (both null when the list is empty), and at every position the
        `next` and `prev` links point at the neighbours. */
    ghost predicate Linked()
      reads this`headBlock, this`tailBlock, this`nodes, nodes
    {
      Distinct(nodes) &&
      (if |nodes| == 0 then headBlock == null && tailBlock == null
       else headBlock == nodes[0] && tailBlock == nodes[|nodes| - 1]) &&
      (forall i :: 0 <= i < |nodes| ==> NextAt(nodes, i) && PrevAt(nodes, i))
    }

    ghost predicate WellFormed()
      reads this`headBlock, this`tailBlock, this`nodes, nodes
    {
      Linked() && histogram.Length == HistogramBuckets
    }

    /** The live counters agree with the list. */
    ghost predicate Counted()
      reads this`blockCount, this`byteCount, this`nodes
    {
      blockCount == |nodes| && byteCount == SumSizes(nodes)
    }

    ghost predicate Valid()
      reads this, nodes
    {
      WellFormed() && Counted()
    }

    /** A fresh context with an empty list and zeroed counters. */
    constructor (maxAllowedBytes: nat, trackSizes: bool)
      ensures Valid() && nodes == [] && fresh(histogram)
      ensures allocations == deallocations == blockCount == byteCount == 0
      ensures maxAllocatedBytes == maxBlockSize == 0
      ensures this.maxAllowedBytes == maxAllowedBytes && this.trackSizes == trackSizes
      ensures forall i :: 0 <= i < histogram.Length ==> histogram[i] == 0
    {
      allocations, deallocations := 0, 0;
      this.maxAllowedBytes := maxAllowedBytes;
      blockCount, byteCount := 0, 0;
      headBlock, tailBlock := null, null;
      this.trackSizes := trackSizes;
      maxAllocatedBytes, maxBlockSize := 0, 0;
      histogram := new nat[HistogramBuckets](_ => 0);
      nodes := [];
    }

    /** Append `block` at the tail of the list. */
    method InsertBlock(block: Block)
      requires Linked() && block !in nodes
      modifies this`headBlock, this`tailBlock, this`nodes, block, {tailBlock}`next
      ensures Linked()
      ensures nodes == old(nodes) + [block]
      ensures tailBlock == block && block.next == null && block.prev == old(tailBlock)
      ensures old(tailBlock) == null ==> headBlock == block
      ensures old(tailBlock) != null ==> headBlock == old(headBlock) && old(tailBlock).next == block
    {
      ghost var s := nodes;
      if tailBlock != null {
        block.prev := tailBlock;
        block.next := null;
        tailBlock.next := block;
        tailBlock := block;
      } else {
        block.prev := null;
        block.next := null;
        headBlock := block;
        tailBlock := block;
      }
      nodes := s + [block];
      forall i | 0 <= i < |nodes|
        ensures NextAt(nodes, i) && PrevAt(nodes, i)
      {
        if i < |s| - 1 {
          assert old(NextAt(s, i) && PrevAt(s, i)) && Apart(s, i, |s| - 1);
        } else if i == |s| - 1 {
          assert old(PrevAt(s, i));
        }
      }
      forall i, j | 0 <= i < j < |nodes|
        ensures Apart(nodes, i, j)
      {
        if j < |s| {
          assert Apart(s, i, j);
        }
      }
    }

    /** Unlink `block` from wherever it is in the list. Its own links are
        left as they were. */
    method RemoveBlock(block: Block)
      requires Linked() && block in nodes
      modifies this`headBlock, this`tailBlock, this`nodes, {block.prev}`next, {block.next}`prev
      ensures Linked()
      ensures nodes == RemoveAt(old(nodes), IndexOf(old(nodes), block))
      ensures block !in nodes && multiset(nodes) + multiset{block} == multiset(old(nodes))
      ensures headBlock == if old(headBlock) == block then old(block.next) else old(headBlock)
      ensures tailBlock == if old(tailBlock) == block then old(block.prev) else old(tailBlock)
      ensures block.prev == old(block.prev) && block.next == old(block.next)
    {
      ghost var s := nodes;
      ghost var k := IndexOf(s, block);
      assert NextAt(s, k) && PrevAt(s, k);
      if k > 0 {
        assert Apart(s, 0, k) && Apart(s, k - 1, k);
      }
      if k + 1 < |s| {
        assert Apart(s, k, |s| - 1) && Apart(s, k, k + 1);
      }
      Splice(block);
      ghost var r := RemoveAt(s, k);
      assert multiset(r) + multiset{block} == multiset(s) by {
        RemoveAtMultiset(s, k);
      }
      assert Distinct(r) && block !in r && forall i :: 0 <= i < |r| ==> NextAt(r, i) && PrevAt(r, i) by {
        forall j | 0 <= j < |s| && j != k - 1 ensures NextAt(s, j) {
          assert old(NextAt(s, j));
          if k > 0 {
            assert if j < k - 1 then Apart(s, j, k - 1) else Apart(s, k - 1, j);
          }
        }
        forall j | 0 <= j < |s| && j != k + 1 ensures PrevAt(s, j) {
          assert old(PrevAt(s, j));
          if k + 1 < |s| {
            assert if j < k + 1 then Apart(s, j, k + 1) else Apart(s, k + 1, j);
          }
        }
        UnlinkKeepsLinks(s, k);
        RemoveAtDistinct(s, k);
      }
      nodes := r;
    }

    /** The pointer surgery of unlinking `block`: its neighbours are pointed
        at each other, and the head or tail pointer moves where `block` was
        at an end. */
    method Splice(block: Block)
      modifies this`headBlock, this`tailBlock, {block.prev}`next, {block.next}`prev
      ensures block.prev != null ==> block.prev.next == block.next
      ensures block.next != null ==> block.next.prev == block.prev
      ensures headBlock == if block.prev == null then block.next else old(headBlock)
      ensures tailBlock == if block.next == null then block.prev else old(tailBlock)
      ensures block.prev == old(block.prev) && block.next == old(block.next)
    {
      if block.prev != null {
        block.prev.next := block.next;
      } else {
        headBlock := block.next;
      }
      if block.next != null {
        block.next.prev := block.prev;
      } else {
        tailBlock := block.prev;
      }
    }

    /** The tracked allocate path. The budget is checked only after the
        block is linked and counted, so a refused allocation stays in the
        list and in the counters; the high-water marks and the histogram
        move only when the allocation is within budget. */
    method Allocate(bytes: nat, filename: Option<string>, line: nat) returns (p: Pointer, warned: bool)
      requires WellFormed()
      modifies this`allocations, this`blockCount, this`byteCount
      modifies this`headBlock, this`tailBlock, this`nodes, {tailBlock}`next
      modifies this`maxAllocatedBytes, this`maxBlockSize, histogram
      ensures WellFormed()
      ensures allocations == old(allocations) + 1
      ensures blockCount == old(blockCount) + 1 && byteCount == old(byteCount) + bytes
      ensures |nodes| == |old(nodes)| + 1 && nodes[..|old(nodes)|] == old(nodes)
      ensures fresh(nodes[|nodes| - 1])
      ensures nodes[|nodes| - 1].size == bytes && nodes[|nodes| - 1].filename == filename
      ensures nodes[|nodes| - 1].line == line
      ensures warned <==> maxAllowedBytes > 0 && byteCount > maxAllowedBytes
      ensures warned ==> p == Null
      ensures warned ==> maxAllocatedBytes == old(maxAllocatedBytes) && maxBlockSize == old(maxBlockSize)
      ensures warned ==> unchanged(histogram)
      ensures !warned ==> p == Payload(nodes[|nodes| - 1])
      ensures !warned ==> maxAllocatedBytes == Max(old(maxAllocatedBytes), byteCount)
      ensures !warned && trackSizes ==> maxBlockSize == Max(old(maxBlockSize), bytes)
      ensures !warned && trackSizes ==> forall j :: 0 <= j < histogram.Length ==>
        histogram[j] == old(histogram[j]) + if j == Bucket(bytes) then 1 else 0
      ensures !trackSizes ==> maxBlockSize == old(maxBlockSize) && unchanged(histogram)
      ensures old(Counted()) ==> Counted()
    {
      allocations := allocations + 1;
      var block := Track(bytes, filename, line);
      if maxAllowedBytes > 0 && byteCount > maxAllowedBytes {
        return Null, true;
      }
      RecordAllocation(bytes);
      return Payload(block), false;
    }

    /** A new block header for the request, appended at the tail and
        counted in the live figures. */
    method Track(bytes: nat, filename: Option<string>, line: nat) returns (block: Block)
      requires WellFormed()
      modifies this`blockCount, this`byteCount, this`headBlock, this`tailBlock, this`nodes, {tailBlock}`next
      ensures WellFormed()
      ensures nodes == old(nodes) + [block] && fresh(block)
      ensures block.size == bytes && block.filename == filename && block.line == line
      ensures blockCount == old(blockCount) + 1 && byteCount == old(byteCount) + bytes
      ensures old(Counted()) ==> Counted()
    {
      block := new Block(bytes, filename, line);
      InsertBlock(block);
      blockCount := blockCount + 1;
      byteCount := byteCount + bytes;
      SumSnoc(old(nodes), block);
    }

    /** The statistics step of an allocation within budget: raise the peak
        of live bytes and, when size tracking is on, the largest block size,
        and count the request in its size class. */
    method RecordAllocation(bytes: nat)
      requires histogram.Length == HistogramBuckets
      modifies this`maxAllocatedBytes, this`maxBlockSize, histogram
      ensures maxAllocatedBytes == Max(old(maxAllocatedBytes), byteCount)
      ensures maxAllocatedBytes >= old(maxAllocatedBytes) && maxAllocatedBytes >= byteCount
      ensures trackSizes ==> maxBlockSize == Max(old(maxBlockSize), bytes)
      ensures trackSizes ==> forall j :: 0 <= j < histogram.Length ==>
        histogram[j] == old(histogram[j]) + if j == Bucket(bytes) then 1 else 0
      ensures !trackSizes ==> maxBlockSize == old(maxBlockSize) && unchanged(histogram)
    {
      if byteCount > maxAllocatedBytes {
        maxAllocatedBytes := byteCount;
      }

      if trackSizes {
        if bytes > maxBlockSize {
          maxBlockSize := bytes;
        }
        var i := BucketIndex(bytes);
        histogram[i] := histogram[i] + 1;
      }
    }

    /** The tracked deallocate path. The counter moves first, even for a
        null pointer; a null pointer changes nothing else. */
    method Deallocate(p: Pointer) returns (outcome: FreeOutcome)
      requires WellFormed()
      requires !p.Raw?
      requires p.Payload? ==> p.block in nodes
      modifies this`deallocations, this`blockCount, this`byteCount
      modifies this`headBlock, this`tailBlock, this`nodes
      modifies (if p.Payload? then {p.block.prev} else {})`next
      modifies (if p.Payload? then {p.block.next} else {})`prev
      ensures WellFormed()
      ensures deallocations == old(deallocations) + 1
      ensures p.Null? ==> outcome == IgnoredNull
      ensures p.Null? ==> nodes == old(nodes) && blockCount == old(blockCount) && byteCount == old(byteCount)
      ensures p.Payload? ==> nodes == RemoveAt(old(nodes), IndexOf(old(nodes), p.block)) && p.block !in nodes
      ensures p.Payload? ==> outcome == Released || outcome == Mismatch
      ensures p.Payload? ==> Settled(outcome, p.block.size, old(blockCount), old(byteCount))
      ensures old(Counted()) ==> outcome != Mismatch && Counted()
    {
      deallocations := deallocations + 1;
      if p.Null? {
        return IgnoredNull;
      }
      outcome := Untrack(p.block);
    }

    /** The counters after the accounting check of a block of `size` bytes,
        given the counters before it. */
    ghost predicate Settled(outcome: FreeOutcome, size: nat, blocksBefore: nat, bytesBefore: nat)
      reads this`blockCount, this`byteCount
    {
      (outcome == Released <==> blocksBefore > 0 && bytesBefore >= size) &&
      (outcome == Released ==> blockCount == blocksBefore - 1 && byteCount == bytesBefore - size) &&
      (outcome != Released ==> blockCount == blocksBefore && byteCount == bytesBefore)
    }

    /** The rest of the tracked deallocate path for a non-null pointer: the
        block is unlinked before the accounting check, so when the check
        fails it is left out of the list and not freed. */
    method Untrack(block: Block) returns (outcome: FreeOutcome)
      requires WellFormed() && block in nodes
      modifies this`blockCount, this`byteCount, this`headBlock, this`tailBlock, this`nodes
      modifies {block.prev}`next, {block.next}`prev
      ensures WellFormed()
      ensures nodes == RemoveAt(old(nodes), IndexOf(old(nodes), block)) && block !in nodes
      ensures outcome == Released || outcome == Mismatch
      ensures Settled(outcome, block.size, old(blockCount), old(byteCount))
      ensures old(Counted()) ==> outcome == Released && Counted()
    {
      if Counted() {
        ReleaseKeepsCounts(nodes, IndexOf(nodes, block), blockCount, byteCount);
      }
      RemoveBlock(block);
      outcome := ReleaseAccounting(block.size);
    }

    /** The accounting check of the tracked deallocate path: with at least
        one live block and at least `size` live bytes the counters drop by
        one block and `size` bytes; otherwise the check fails (a warning in
        the source) and the counters are left alone. */
    method ReleaseAccounting(size: nat) returns (outcome: FreeOutcome)
      modifies this`blockCount, this`byteCount
      ensures outcome == Released <==> old(blockCount) > 0 && old(byteCount) >= size
      ensures outcome == Released || outcome == Mismatch
      ensures outcome == Released ==> blockCount == old(blockCount) - 1 && byteCount == old(byteCount) - size
      ensures outcome == Mismatch ==> blockCount == old(blockCount) && byteCount == old(byteCount)
    {
      if blockCount > 0 && byteCount >= size {
        blockCount := blockCount - 1;
        byteCount := byteCount - size;
        outcome := Released;
      } else {
        outcome := Mismatch;
      }
    }

    /** The counting walk of the report: from the head along `next`, split
        the live blocks into named and anonymous ones. */
    method LogHostMemoryInfo() returns (r: Summary)
      requires Linked()
      ensures r.allocations == allocations && r.deallocations == deallocations
      ensures r.maxAllocatedBytes == maxAllocatedBytes
      ensures r.blockCount == blockCount && r.byteCount == byteCount
      ensures r.namedBlocks == |Named(nodes)| && r.namedBytes == SumSizes(Named(nodes))
      ensures r.anonymousBlocks == |Anonymous(nodes)| && r.anonymousBytes == SumSizes(Anonymous(nodes))
      ensures r.namedBlocks + r.anonymousBlocks == |nodes|
      ensures r.namedBytes + r.anonymousBytes == SumSizes(nodes)
      ensures Counted() ==>
        r.namedBlocks + r.anonymousBlocks == r.blockCount && r.namedBytes + r.anonymousBytes == r.byteCount
    {
      var namedBlocks, namedBytes, anonymousBlocks, anonymousBytes := 0, 0, 0, 0;
      var block := headBlock;
      ghost var s, k := nodes, 0;
      while block != null
        invariant k <= |s|
        invariant block == if k < |s| then s[k] else null
        invariant namedBlocks == |Named(s[..k])| && namedBytes == SumSizes(Named(s[..k]))
        invariant anonymousBlocks == |Anonymous(s[..k])|
        invariant anonymousBytes == SumSizes(Anonymous(s[..k]))
        decreases |s| - k
      {
        assert NextAt(s, k);
        CountStep(s, k);
        if block.filename.Some? {
          namedBlocks := namedBlocks + 1;
          namedBytes := namedBytes + block.size;
        } else {
          anonymousBlocks := anonymousBlocks + 1;
          anonymousBytes := anonymousBytes + block.size;
        }
        block := block.next;
        k := k + 1;
      }
      assert s[..k] == s;
      NamedAnonymousPartition(s);
      r := Summary(allocations, deallocations, maxAllocatedBytes, blockCount, byteCount,
                   namedBlocks, namedBytes, anonymousBlocks, anonymousBytes);
    }
  }

  /** Allocation entry point: with no tracking context the request goes
      straight to the raw allocator and no tracking state changes; with one,
      it takes the tracked path. */
  method AllocateHostMemory(info: MemoryInfo?, bytes: nat, filename: Option<string>, line: nat)
    returns (p: Pointer, warned: bool)
    requires info != null ==> info.WellFormed()
    modifies info, if info != null then {info.histogram, info.tailBlock} else {}
    ensures info == null ==> p == Raw(bytes) && !warned
    ensures info != null ==> info.WellFormed() && (old(info.Counted()) ==> info.Counted())
    ensures info != null ==> info.allocations == old(info.allocations) + 1
    ensures info != null ==> unchanged(info`deallocations, info`maxAllowedBytes, info`trackSizes)
    ensures info != null ==>
      |info.nodes| == |old(info.nodes)| + 1 && info.nodes[..|old(info.nodes)|] == old(info.nodes)
    ensures info != null ==> info.tailBlock == info.nodes[|info.nodes| - 1] && fresh(info.tailBlock)
    ensures info != null ==> info.tailBlock.size == bytes && info.tailBlock.filename == filename
    ensures info != null ==> info.tailBlock.line == line
    ensures info != null ==>
      info.blockCount == old(info.blockCount) + 1 && info.byteCount == old(info.byteCount) + bytes
    ensures info != null ==> (warned <==> info.maxAllowedBytes > 0 && info.byteCount > info.maxAllowedBytes)
    ensures info != null ==> p == if warned then Null else Payload(info.tailBlock)
    ensures info != null && warned ==>
      info.maxAllocatedBytes == old(info.maxAllocatedBytes) && info.maxBlockSize == old(info.maxBlockSize)
    ensures info != null && warned ==> unchanged(info.histogram)
    ensures info != null && !warned ==> info.maxAllocatedBytes == Max(old(info.maxAllocatedBytes), info.byteCount)
    ensures info != null && !warned && info.trackSizes ==> info.maxBlockSize == Max(old(info.maxBlockSize), bytes)
    ensures info != null && !warned && info.trackSizes ==> forall j :: 0 <= j < info.histogram.Length ==>
      info.histogram[j] == old(info.histogram[j]) + if j == Bucket(bytes) then 1 else 0
    ensures info != null && !info.trackSizes ==>
      info.maxBlockSize == old(info.maxBlockSize) && unchanged(info.histogram)
  {
    if info == null {
      return Raw(bytes), false;
    }
    p, warned := info.Allocate(bytes, filename, line);
    assert info.Linked();
  }

  /** Deallocation entry point: with no tracking context the pointer goes
      straight to the raw deallocator and no tracking state changes; with
      one, it takes the tracked path. */
  method DeallocateHostMemory(info: MemoryInfo?, p: Pointer) returns (outcome: FreeOutcome)
    requires info == null ==> !p.Payload?
    requires info != null ==> info.WellFormed() && !p.Raw? && (p.Payload? ==> p.block in info.nodes)
    modifies info, if info != null && p.Payload? then {p.block.prev, p.block.next} else {}
    ensures info == null <==> outcome == Delegated
    ensures info != null ==> info.WellFormed() && info.deallocations == old(info.deallocations) + 1
    ensures info != null ==> unchanged(info`allocations, info`maxAllocatedBytes, info`maxAllowedBytes)
    ensures info != null ==> unchanged(info`maxBlockSize, info`trackSizes)
    ensures info != null && p.Null? ==> outcome == IgnoredNull && info.nodes == old(info.nodes)
    ensures info != null && p.Null? ==>
      info.blockCount == old(info.blockCount) && info.byteCount == old(info.byteCount)
    ensures info != null && p.Payload? ==>
      info.nodes == RemoveAt(old(info.nodes), IndexOf(old(info.nodes), p.block))
    ensures info != null && p.Payload? ==> outcome == Released || outcome == Mismatch
    ensures info != null && p.Payload? ==>
      info.Settled(outcome, p.block.size, old(info.blockCount), old(info.byteCount))
    ensures info != null ==> (old(info.Counted()) ==> outcome != Mismatch && info.Counted())
  {
    if info == null {
      return Delegated;
    }
    outcome := info.Deallocate(p);
  }

  /** Allocating with no budget and freeing the result straight away leaves
      the list and the live counters as they were. */
  method AllocateThenDeallocate(info: MemoryInfo, bytes: nat, filename: Option<string>, line: nat)
    returns (outcome: FreeOutcome)
    requires info.Valid() && info.maxAllowedBytes == 0
    modifies info, info.histogram, info.tailBlock
    ensures info.Valid() && outcome == Released
    ensures info.nodes == old(info.nodes)
    ensures info.blockCount == old(info.blockCount) && info.byteCount == old(info.byteCount)
    ensures info.allocations == old(info.allocations) + 1
    ensures info.deallocations == old(info.deallocations) + 1
  {
    var p, warned := AllocateHostMemory(info, bytes, filename, line);
    ghost var s := old(info.nodes);
    var b := info.tailBlock;
    assert info.nodes == s + [b];
    assert b.prev == old(info.tailBlock) && b.next == null by {
      assert PrevAt(info.nodes, |s|) && NextAt(info.nodes, |s|);
    }
    outcome := DeallocateHostMemory(info, p);
    AppendThenRemove(s, b);
  }

  /** Two allocations, one named and one anonymous, through a fresh
      context without budget, then the named one is freed: only the
      anonymous block is left. */
  method TwoAllocationsThenFree() returns (info: MemoryInfo, b: Block)
    ensures fresh(info) && info.Valid() && info.nodes == [b]
    ensures b.size == 4096 && b.filename == None
    ensures info.allocations == 2 && info.deallocations == 1
  {
    info := new MemoryInfo(0, false);
    var first, _ := AllocateHostMemory(info, 100, Some("a.c"), 10);
    var a := info.tailBlock;
    var second, _ := AllocateHostMemory(info, 4096, None, 0);
    b := info.tailBlock;
    assert info.nodes == [a, b];
    assert a.prev == null && a.next == b by {
      assert PrevAt(info.nodes, 0) && NextAt(info.nodes, 0);
    }
    var outcome := DeallocateHostMemory(info, first);
    assert info.nodes == [b] by {
      assert IndexOf([a, b], a) == 0;
    }
  }

  /** The report after TwoAllocationsThenFree shows one live anonymous
      block of 4096 bytes. */
  method ReportScenario() returns (r: Summary)
    ensures r.allocations == 2 && r.deallocations == 1
    ensures r.blockCount == 1 && r.byteCount == 4096
    ensures r.namedBlocks == 0 && r.namedBytes == 0
    ensures r.anonymousBlocks == 1 && r.anonymousBytes == 4096
  {
    var info, b := TwoAllocationsThenFree();
    assert Named([b]) == [] && Anonymous([b]) == [b] by {
      assert [b][..0] == [];
    }
    r := info.LogHostMemoryInfo();
  }
}

/** Block headers of the host-memory tracker and the specification
    functions over a sequence of them (the live list, head to tail). */
module Blocks {

  datatype Option<T> = None | Some(value: T)

  /** The header prefixed to every tracked allocation (ce_memory_block_t).
      The payload pointer handed to the caller stands for the header itself;
      size, file name and line are written once, when the block is created. */
  class Block {
    const size: nat
    const filename: Option<string>
    const line: nat
    var prev: Block?
    var next: Block?

    constructor (size: nat, filename: Option<string>, line: nat)
      ensures this.size == size && this.filename == filename && this.line == line
      ensures prev == null && next == null
    {
      this.size := size;
      this.filename := filename;
      this.line := line;
      prev := null;
      next := null;
    }
  }

  /** Total payload bytes of the blocks in `s`. */
  function SumSizes(s: seq<Block>): nat
  {
    if s == [] then 0 else SumSizes(s[..|s| - 1]) + s[|s| - 1].size
  }

  /** The blocks of `s` that carry a call-site file name, in list order. */
  function Named(s: seq<Block>): seq<Block>
  {
    if s == [] then []
    else Named(s[..|s| - 1]) + (if s[|s| - 1].filename.Some? then [s[|s| - 1]] else [])
  }

  /** The blocks of `s` without a call-site file name, in list order. */
  function Anonymous(s: seq<Block>): seq<Block>
  {
    if s == [] then []
    else Anonymous(s[..|s| - 1]) + (if s[|s| - 1].filename.None? then [s[|s| - 1]] else [])
  }

  /** `s` with its `k`-th element taken out. */
  function RemoveAt(s: seq<Block>, k: nat): (r: seq<Block>)
    requires k < |s|
    ensures |r| == |s| - 1
  {
    s[..k] + s[k + 1..]
  }

  /** A position of `b` in `s` (the only one when `s` has no repeats). */
  ghost function IndexOf(s: seq<Block>, b: Block): (k: nat)
    requires b in s
    ensures k < |s| && s[k] == b
  {
    var k :| 0 <= k < |s| && s[k] == b; k
  }

  /** Positions `i` and `j` of `s` hold different blocks. */
  predicate Apart(s: seq<Block>, i: int, j: int)
  {
    0 <= i < |s| && 0 <= j < |s| && s[i] != s[j]
  }

  /** No block occurs twice in `s`. (Stated through Apart so that the
      pairwise fact is only drawn on where a proof names the two positions.) */
  predicate Distinct(s: seq<Block>)
  {
    forall i, j :: 0 <= i < j < |s| ==> Apart(s, i, j)
  }

  /** The `next` link at position `i` of `s` points at position i + 1,
      or is null at the last position. */
  ghost predicate NextAt(s: seq<Block>, i: int)
    reads (if 0 <= i < |s| then {s[i]} else {})`next
  {
    0 <= i < |s| ==> s[i].next == if i + 1 < |s| then s[i + 1] else null
  }

  /** The `prev` link at position `i` of `s` points at position i - 1,
      or is null at the first position. */
  ghost predicate PrevAt(s: seq<Block>, i: int)
    reads (if 0 <= i < |s| then {s[i]} else {})`prev
  {
    0 <= i < |s| ==> s[i].prev == if 0 < i then s[i - 1] else null
  }

  lemma SumSnoc(s: seq<Block>, b: Block)
    ensures SumSizes(s + [b]) == SumSizes(s) + b.size
  {
    assert (s + [b])[..|s|] == s;
  }

  /** Taking block `k` out of the list removes exactly its size from the total. */
  lemma {:induction false} RemoveAtSum(s: seq<Block>, k: nat)
    requires k < |s|
    ensures SumSizes(RemoveAt(s, k)) + s[k].size == SumSizes(s)
    decreases |s|
  {
    var t, x := s[..|s| - 1], s[|s| - 1];
    if k == |s| - 1 {
      assert RemoveAt(s, k) == t;
    } else {
      assert RemoveAt(s, k) == RemoveAt(t, k) + [x];
      RemoveAtSum(t, k);
      SumSnoc(RemoveAt(t, k), x);
    }
  }

  /** Appending a block the list does not hold and then taking it out
      again gives back the list. */
  lemma AppendThenRemove(s: seq<Block>, b: Block)
    requires b !in s
    ensures IndexOf(s + [b], b) == |s| && RemoveAt(s + [b], |s|) == s
  {
    assert (s + [b])[..|s|] == s;
  }

  /** Counters that agree with a list pass the accounting check for any of
      its blocks, and after the check they agree with the list without it. */
  lemma ReleaseKeepsCounts(s: seq<Block>, k: nat, blockCount: nat, byteCount: nat)
    requires k < |s| && blockCount == |s| && byteCount == SumSizes(s)
    ensures blockCount > 0 && byteCount >= s[k].size
    ensures blockCount - 1 == |RemoveAt(s, k)| && byteCount - s[k].size == SumSizes(RemoveAt(s, k))
  {
    RemoveAtSum(s, k);
  }

  /** Taking a block out of a list without repeats leaves a list without
      repeats that no longer holds it, and nothing else is lost. */
  lemma RemoveAtDistinct(s: seq<Block>, k: nat)
    requires k < |s| && Distinct(s)
    ensures Distinct(RemoveAt(s, k)) && s[k] !in RemoveAt(s, k)
  {
    var r := RemoveAt(s, k);
    forall i, j | 0 <= i < j < |r| ensures Apart(r, i, j) {
      var i' := if i < k then i else i + 1;
      var j' := if j < k then j else j + 1;
      assert r[i] == s[i'] && r[j] == s[j'] && Apart(s, i', j');
    }
    forall i | 0 <= i < |r| ensures r[i] != s[k] {
      var i' := if i < k then i else i + 1;
      assert r[i] == s[i'];
      assert if i' < k then Apart(s, i', k) else Apart(s, k, i');
    }
  }

  /** Taking block `k` out of the list loses that one block and nothing
      else. */
  lemma RemoveAtMultiset(s: seq<Block>, k: nat)
    requires k < |s|
    ensures multiset(RemoveAt(s, k)) + multiset{s[k]} == multiset(s)
  {
    assert s == s[..k] + [s[k]] + s[k + 1..];
  }

  /** Unlinking position `k`: when every other link still spells `s` and
      the two neighbours of `k` have been pointed at each other, the links
      spell `s` without its `k`-th block. */
  lemma UnlinkKeepsLinks(s: seq<Block>, k: nat)
    requires k < |s|
    requires forall j :: 0 <= j < |s| && j != k - 1 ==> NextAt(s, j)
    requires forall j :: 0 <= j < |s| && j != k + 1 ==> PrevAt(s, j)
    requires k > 0 ==> s[k - 1].next == if k + 1 < |s| then s[k + 1] else null
    requires k + 1 < |s| ==> s[k + 1].prev == if k > 0 then s[k - 1] else null
    ensures forall i :: 0 <= i < |s| - 1 ==> NextAt(RemoveAt(s, k), i) && PrevAt(RemoveAt(s, k), i)
  {
    var r := RemoveAt(s, k);
    forall i | 0 <= i < |r| ensures NextAt(r, i) && PrevAt(r, i) {
      if i < k {
        assert r[i] == s[i];
        if i + 1 < k {
          assert NextAt(s, i) && r[i + 1] == s[i + 1];
        } else if i + 1 < |r| {
          assert r[i + 1] == s[k + 1];
        }
        assert PrevAt(s, i);
        if i > 0 {
          assert r[i - 1] == s[i - 1];
        }
      } else {
        assert r[i] == s[i + 1] && NextAt(s, i + 1);
        if i + 1 < |r| {
          assert r[i + 1] == s[i + 2];
        }
        if i > k {
          assert PrevAt(s, i + 1) && r[i - 1] == s[i];
        } else if k > 0 {
          assert r[k - 1] == s[k - 1];
        }
      }
    }
  }

  lemma NamedSnoc(s: seq<Block>, b: Block)
    ensures b.filename.Some? ==> Named(s + [b]) == Named(s) + [b] && Anonymous(s + [b]) == Anonymous(s)
    ensures b.filename.None? ==> Named(s + [b]) == Named(s) && Anonymous(s + [b]) == Anonymous(s) + [b]
  {
    assert (s + [b])[..|s|] == s;
    assert Named(s) + [] == Named(s) && Anonymous(s) + [] == Anonymous(s);
  }

  /** One step of a walk over `s`: the counts and byte totals of the named
      and anonymous blocks among the first k + 1 grow by block `k` on its
      side of the split only. */
  lemma CountStep(s: seq<Block>, k: nat)
    requires k < |s|
    ensures |Named(s[..k + 1])| == |Named(s[..k])| + if s[k].filename.Some? then 1 else 0
    ensures SumSizes(Named(s[..k + 1])) == SumSizes(Named(s[..k])) + if s[k].filename.Some? then s[k].size else 0
    ensures |Anonymous(s[..k + 1])| == |Anonymous(s[..k])| + if s[k].filename.None? then 1 else 0
    ensures SumSizes(Anonymous(s[..k + 1])) == SumSizes(Anonymous(s[..k])) + if s[k].filename.None? then s[k].size else 0
  {
    var t := s[..k];
    assert s[..k + 1] == t + [s[k]];
    NamedSnoc(t, s[k]);
    if s[k].filename.Some? {
      SumSnoc(Named(t), s[k]);
    } else {
      SumSnoc(Anonymous(t), s[k]);
    }
  }

  /** Every block is either named or anonymous: the two sub-lists split the
      list, its length and its byte total. */
  lemma {:induction false} NamedAnonymousPartition(s: seq<Block>)
    ensures multiset(Named(s)) + multiset(Anonymous(s)) == multiset(s)
    ensures |Named(s)| + |Anonymous(s)| == |s|
    ensures SumSizes(Named(s)) + SumSizes(Anonymous(s)) == SumSizes(s)
  {
    if s != [] {
      var t, b := s[..|s| - 1], s[|s| - 1];
      assert s == t + [b];
      assert multiset(s) == multiset(t) + multiset{b};
      NamedAnonymousPartition(t);
      NamedSnoc(t, b);
      SumSnoc(t, b);
      if b.filename.Some? {
        SumSnoc(Named(t), b);
      } else {
        SumSnoc(Anonymous(t), b);
      }
    }
  }
}

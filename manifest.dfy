/** The manifest `Info` of src/meta/meta.go and its block-merge rule
    `AppendBlock`: replace the first block with the same index, or append. */
module Manifest {
  import opened MetaTypes

  // ---------------------------------------------------------------------
  // Vocabulary about a sequence of blocks
  // ---------------------------------------------------------------------

  /** Some block of `blocks` has index `idx`. */
  predicate HasIndex(blocks: seq<DataBlock>, idx: int64) {
    exists j :: 0 <= j < |blocks| && blocks[j].index == idx
  }

  /** Position `i` holds the first block of `blocks` whose index is `idx`. */
  predicate IsFirstMatch(blocks: seq<DataBlock>, idx: int64, i: int) {
    && 0 <= i < |blocks|
    && blocks[i].index == idx
    && forall j :: 0 <= j < i ==> blocks[j].index != idx
  }

  /** No two blocks share an index. */
  predicate UniqueIndices(blocks: seq<DataBlock>) {
    forall i, j :: 0 <= i < j < |blocks| ==> blocks[i].index != blocks[j].index
  }

  /** The set of indices that occur in `blocks`. */
  function Indices(blocks: seq<DataBlock>): set<int64> {
    set k | 0 <= k < |blocks| :: blocks[k].index
  }

  /** The position the scan of `AppendBlock` stops at when some block has
      index `idx`: the first such block. */
  function FirstMatch(blocks: seq<DataBlock>, idx: int64): (i: nat)
    requires HasIndex(blocks, idx)
    ensures IsFirstMatch(blocks, idx, i)
  {
    if blocks[0].index == idx then 0
    else
      assert HasIndex(blocks[1..], idx) by {
        var j :| 0 <= j < |blocks| && blocks[j].index == idx;
        assert blocks[1..][j - 1].index == idx;
      }
      1 + FirstMatch(blocks[1..], idx)
  }

  // ---------------------------------------------------------------------
  // The merge rule, as a function on values
  // ---------------------------------------------------------------------

  /** The block list after merging `b` into `blocks`, defined structurally:
      walk the list, replace the first block with `b`'s index by `b`, and put
      `b` at the end when there is none. */
  function Appended(blocks: seq<DataBlock>, b: DataBlock): (r: seq<DataBlock>)
    ensures b in r
    ensures |r| == if HasIndex(blocks, b.index) then |blocks| else |blocks| + 1
  {
    if blocks == [] then [b]
    else if blocks[0].index == b.index then [b] + blocks[1..]
    else
      assert HasIndex(blocks, b.index) <==> HasIndex(blocks[1..], b.index) by {
        if HasIndex(blocks, b.index) {
          var j :| 0 <= j < |blocks| && blocks[j].index == b.index;
          assert blocks[1..][j - 1].index == b.index;
        }
        if HasIndex(blocks[1..], b.index) {
          var j :| 0 <= j < |blocks[1..]| && blocks[1..][j].index == b.index;
          assert blocks[j + 1].index == b.index;
        }
      }
      [blocks[0]] + Appended(blocks[1..], b)
  }

  /** When position `i` holds the first block with `b`'s index, the merge
      overwrites exactly that slot: same length, every other position kept. */
  lemma {:induction false} AppendedReplacesFirst(blocks: seq<DataBlock>, b: DataBlock, i: nat)
    requires IsFirstMatch(blocks, b.index, i)
    ensures Appended(blocks, b) == blocks[i := b]
    ensures |Appended(blocks, b)| == |blocks|
    ensures forall j :: 0 <= j < |blocks| && j != i ==> Appended(blocks, b)[j] == blocks[j]
  {
    if i == 0 {
      assert [b] + blocks[1..] == blocks[0 := b];
    } else {
      AppendedReplacesFirst(blocks[1..], b, i - 1);
      assert [blocks[0]] + blocks[1..][i - 1 := b] == blocks[i := b];
    }
  }

  /** When no block has `b`'s index, the merge appends `b`: the old list is a
      prefix of the result, which is one longer. */
  lemma {:induction false} AppendedWhenAbsent(blocks: seq<DataBlock>, b: DataBlock)
    requires !HasIndex(blocks, b.index)
    ensures Appended(blocks, b) == blocks + [b]
    ensures |Appended(blocks, b)| == |blocks| + 1
  {
    if blocks != [] {
      assert blocks[0].index != b.index;
      assert !HasIndex(blocks[1..], b.index) by {
        forall j | 0 <= j < |blocks[1..]| ensures blocks[1..][j].index != b.index {
          assert blocks[1..][j] == blocks[j + 1];
        }
      }
      AppendedWhenAbsent(blocks[1..], b);
      assert [blocks[0]] + (blocks[1..] + [b]) == blocks + [b];
    }
  }

  /** The merge result either overwrites the first matching slot or appends;
      which one depends only on whether the index is already present. */
  lemma {:induction false} AppendedCases(blocks: seq<DataBlock>, b: DataBlock)
    ensures HasIndex(blocks, b.index) ==>
      |Appended(blocks, b)| == |blocks| &&
      Appended(blocks, b) == blocks[FirstMatch(blocks, b.index) := b]
    ensures !HasIndex(blocks, b.index) ==> Appended(blocks, b) == blocks + [b]
  {
    if HasIndex(blocks, b.index) {
      AppendedReplacesFirst(blocks, b, FirstMatch(blocks, b.index));
    } else {
      AppendedWhenAbsent(blocks, b);
    }
  }

  /** Overwriting a slot with a block of the same index keeps the index set. */
  lemma IndicesOverwrite(blocks: seq<DataBlock>, i: nat, b: DataBlock)
    requires i < |blocks| && blocks[i].index == b.index
    ensures Indices(blocks[i := b]) == Indices(blocks)
  {
    var r := blocks[i := b];
    forall k | 0 <= k < |blocks| ensures r[k].index == blocks[k].index {
    }
    assert Indices(r) == Indices(blocks);
  }

  /** Appending a block adds its index to the index set. */
  lemma IndicesSnoc(blocks: seq<DataBlock>, b: DataBlock)
    ensures Indices(blocks + [b]) == Indices(blocks) + {b.index}
  {
    var r := blocks + [b];
    forall x | x in Indices(r) ensures x in Indices(blocks) + {b.index} {
      var k :| 0 <= k < |r| && r[k].index == x;
      if k < |blocks| { assert blocks[k].index == x; }
    }
    forall x | x in Indices(blocks) ensures x in Indices(r) {
      var k :| 0 <= k < |blocks| && blocks[k].index == x;
      assert r[k].index == x;
    }
    assert r[|blocks|].index == b.index;
  }

  /** The merge adds `b`'s index to the set of indices and no other. */
  lemma {:induction false} AppendedIndices(blocks: seq<DataBlock>, b: DataBlock)
    ensures Indices(Appended(blocks, b)) == Indices(blocks) + {b.index}
  {
    AppendedCases(blocks, b);
    if HasIndex(blocks, b.index) {
      var i := FirstMatch(blocks, b.index);
      IndicesOverwrite(blocks, i, b);
      assert b.index in Indices(blocks) by { assert blocks[i].index == b.index; }
    } else {
      IndicesSnoc(blocks, b);
    }
  }

  /** The merge keeps indices pairwise distinct. */
  lemma {:induction false} AppendedKeepsUnique(blocks: seq<DataBlock>, b: DataBlock)
    requires UniqueIndices(blocks)
    ensures UniqueIndices(Appended(blocks, b))
  {
    AppendedCases(blocks, b);
    var r := Appended(blocks, b);
    if HasIndex(blocks, b.index) {
      forall k | 0 <= k < |r| ensures r[k].index == blocks[k].index {
      }
    } else {
      forall k | 0 <= k < |blocks| ensures r[k].index == blocks[k].index && blocks[k].index != b.index {
      }
    }
  }

  /** Merging the same block twice gives the same list as merging it once. */
  lemma {:induction false} AppendedIdempotent(blocks: seq<DataBlock>, b: DataBlock)
    ensures Appended(Appended(blocks, b), b) == Appended(blocks, b)
  {
    var r := Appended(blocks, b);
    AppendedCases(blocks, b);
    if HasIndex(blocks, b.index) {
      var i := FirstMatch(blocks, b.index);
      assert IsFirstMatch(r, b.index, i);
      AppendedReplacesFirst(r, b, i);
      assert r[i := b] == r;
    } else {
      assert IsFirstMatch(r, b.index, |blocks|);
      AppendedReplacesFirst(r, b, |blocks|);
      assert r[|blocks| := b] == r;
    }
  }

  // ---------------------------------------------------------------------
  // Repeated merges
  // ---------------------------------------------------------------------

  /** The block list after merging each block of `bs` in turn. */
  function AppendAll(blocks: seq<DataBlock>, bs: seq<DataBlock>): (r: seq<DataBlock>)
    ensures Indices(r) == Indices(blocks) + Indices(bs)
    decreases |bs|
  {
    if bs == [] then blocks
    else
      AppendedIndices(blocks, bs[0]);
      IndicesCons(bs);
      AppendAll(Appended(blocks, bs[0]), bs[1..])
  }

  /** The index set of a non-empty list is its head's index plus the rest. */
  lemma IndicesCons(bs: seq<DataBlock>)
    requires bs != []
    ensures Indices(bs) == {bs[0].index} + Indices(bs[1..])
  {
    forall x | x in Indices(bs) ensures x in {bs[0].index} + Indices(bs[1..]) {
      var k :| 0 <= k < |bs| && bs[k].index == x;
      if k > 0 { assert bs[1..][k - 1].index == x; }
    }
    forall x | x in Indices(bs[1..]) ensures x in Indices(bs) {
      var k :| 0 <= k < |bs[1..]| && bs[1..][k].index == x;
      assert bs[k + 1].index == x;
    }
    assert bs[0].index in Indices(bs);
  }

  /** However many merges are applied, indices stay pairwise distinct. */
  lemma {:induction false} AppendAllKeepsUnique(blocks: seq<DataBlock>, bs: seq<DataBlock>)
    requires UniqueIndices(blocks)
    ensures UniqueIndices(AppendAll(blocks, bs))
    decreases |bs|
  {
    if bs != [] {
      AppendedKeepsUnique(blocks, bs[0]);
      AppendAllKeepsUnique(Appended(blocks, bs[0]), bs[1..]);
    }
  }

  /** Merging blocks whose indices are all new and pairwise distinct appends
      them in order (three blocks with indices 0, 1, 2 into an empty manifest
      give exactly those three blocks). */
  lemma {:induction false} AppendAllFresh(blocks: seq<DataBlock>, bs: seq<DataBlock>)
    requires UniqueIndices(bs)
    requires forall k :: 0 <= k < |bs| ==> !HasIndex(blocks, bs[k].index)
    ensures AppendAll(blocks, bs) == blocks + bs
    decreases |bs|
  {
    if bs != [] {
      AppendedWhenAbsent(blocks, bs[0]);
      var next := blocks + [bs[0]];
      forall k | 0 <= k < |bs[1..]| ensures !HasIndex(next, bs[1..][k].index) {
        assert bs[1..][k] == bs[k + 1];
        assert bs[0].index != bs[k + 1].index;
        assert !HasIndex(blocks, bs[k + 1].index);
        forall j | 0 <= j < |next| ensures next[j].index != bs[k + 1].index {
          if j < |blocks| {
            assert next[j] == blocks[j];
          }
        }
      }
      AppendAllFresh(next, bs[1..]);
      assert next + bs[1..] == blocks + bs;
    }
  }

  // ---------------------------------------------------------------------
  // The manifest object
  // ---------------------------------------------------------------------

  /** A manifest. Go's nil `Block` slice and an empty one are both `[]`. */
  class Info {
    var status: Status
    var hash: seq<byte>
    var name: string
    var size: int64
    var blockSize: int64
    var encode: int32
    var dataType: int32
    var block: seq<DataBlock>

    /** The zero value that `new(Info)` produces. */
    constructor ()
      ensures status == Create && hash == [] && name == ""
      ensures size == 0 && blockSize == 0
      ensures encode == EncodeNone && dataType == TypeURI
      ensures block == []
    {
      status, hash, name := Create, [], "";
      size, blockSize := 0, 0;
      encode, dataType := EncodeNone, TypeURI;
      block := [];
    }

    /** Merge `b` into the block list: overwrite the first block with the same
        index, or append `b` when there is none. No other field changes. */
    method AppendBlock(b: DataBlock)
      modifies this`block
      ensures block == Appended(old(block), b)
      ensures old(block) == [] ==> block == [b]
      ensures HasIndex(old(block), b.index) ==>
        |block| == |old(block)| &&
        IsFirstMatch(old(block), b.index, FirstMatch(old(block), b.index)) &&
        block == old(block)[FirstMatch(old(block), b.index) := b]
      ensures !HasIndex(old(block), b.index) ==> block == old(block) + [b]
      ensures UniqueIndices(old(block)) ==> UniqueIndices(block)
      ensures Indices(block) == Indices(old(block)) + {b.index}
      ensures b in block
    {
      AppendedCases(block, b);
      if UniqueIndices(block) { AppendedKeepsUnique(block, b); }
      AppendedIndices(block, b);
      if block == [] {
        block := [b];
        return;
      }
      var i := 0;
      while i < |block|
        invariant 0 <= i <= |block|
        invariant block == old(block)
        invariant forall j :: 0 <= j < i ==> block[j].index != b.index
      {
        if block[i].index == b.index {
          AppendedReplacesFirst(block, b, i);
          block := block[i := b];
          return;
        }
        i := i + 1;
      }
      AppendedWhenAbsent(block, b);
      block := block + [b];
    }
  }
}

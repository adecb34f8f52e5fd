/**
 * `diffable.Block` and `diffable.BlockText` of vcdiff.js: a text cut into
 * consecutive blocks of a fixed size, the last one possibly shorter.
 */
module Blocks {
  import opened ModArith

  /**
   * A span of a text and the offset where it starts. The source's successor
   * link (`nextBlock`) is never set by anything in vcdiff.js, so it is
   * always null and is not part of the value.
   */
  datatype Block = Block(text: string, offset: nat)

  /** The blocks the constructor loop pushes from position `i` on (vcdiff.js:129-132). */
  function PartitionFrom(text: string, size: nat, i: nat): seq<Block>
    requires size >= 1
    decreases |text| - i
  {
    if i >= |text| then []
    else [Block(text[i..Min(i + size, |text|)], i)] + PartitionFrom(text, size, i + size)
  }

  /** The block sequence of `new BlockText(text, size)`. */
  function Partition(text: string, size: nat): seq<Block>
    requires size >= 1
  {
    PartitionFrom(text, size, 0)
  }

  /** The texts of the blocks, joined in order. */
  function Concat(blocks: seq<Block>): string
  {
    if |blocks| == 0 then "" else blocks[0].text + Concat(blocks[1..])
  }

  /** `b` is the span of `text` it claims to be. */
  ghost predicate Indexed(text: string, b: Block)
  {
    b.offset + |b.text| <= |text| && text[b.offset..b.offset + |b.text|] == b.text
  }

  lemma MulSucc(k: int, m: int)
    ensures (k + 1) * m == k * m + m
  {
  }

  lemma MulMonotone(a: int, b: int, m: nat)
    requires a <= b
    ensures a * m <= b * m
  {
  }

  lemma {:induction false} PartitionFromCount(text: string, size: nat, i: nat)
    requires size >= 1
    decreases |text| - i
    ensures i >= |text| ==> |PartitionFrom(text, size, i)| == 0
    ensures i < |text| ==>
      var n := |PartitionFrom(text, size, i)|;
      (n - 1) * size < |text| - i <= n * size
  {
    if i < |text| {
      var n' := |PartitionFrom(text, size, i + size)|;
      PartitionFromCount(text, size, i + size);
      MulSucc(n', size);
      MulSucc(n' - 1, size);
    }
  }

  lemma {:induction false} PartitionFromAt(text: string, size: nat, i: nat, k: nat)
    requires size >= 1 && k < |PartitionFrom(text, size, i)|
    decreases k
    ensures i + k * size < |text|
    ensures PartitionFrom(text, size, i)[k]
      == Block(text[i + k * size..Min(i + k * size + size, |text|)], i + k * size)
  {
    if k > 0 {
      PartitionFromAt(text, size, i + size, k - 1);
      MulSucc(k - 1, size);
    }
  }

  /** Block k of the partition: its span, and its length. */
  lemma PartitionAt(text: string, size: nat, k: nat)
    requires size >= 1 && k < |Partition(text, size)|
    ensures k * size < |text|
    ensures k * size + size <= |text| || k == |Partition(text, size)| - 1
    ensures Partition(text, size)[k] == Block(text[k * size..Min(k * size + size, |text|)], k * size)
  {
    var n := |Partition(text, size)|;
    PartitionFromAt(text, size, 0, k);
    PartitionFromCount(text, size, 0);
    MulSucc(k, size);
    if k < n - 1 {
      MulMonotone(k + 1, n - 1, size);
    }
  }

  /** The number of blocks is the length of the text divided by the size, rounded up. */
  lemma PartitionCount(text: string, size: nat)
    requires size >= 1
    ensures |Partition(text, size)| == (|text| + size - 1) / size
  {
    var n := |Partition(text, size)|;
    PartitionFromCount(text, size, 0);
    if n == 0 {
      DivModUnique(|text| + size - 1, 0, size - 1, size);
    } else {
      DivModUnique(|text| + size - 1, n, |text| + size - 1 - n * size, size);
    }
  }

  /**
   * The partition law of vcdiff.js:123-133: ceil(|text| / size) blocks, block
   * k starting at k * size and running to the next multiple of `size` or the
   * end of the text, every block but the last exactly `size` long.
   */
  lemma PartitionLaw(text: string, size: nat)
    requires size >= 1
    ensures |Partition(text, size)| == (|text| + size - 1) / size
    ensures forall k :: 0 <= k < |Partition(text, size)| ==> k * size < |text|
    ensures forall k :: 0 <= k < |Partition(text, size)| ==>
      Partition(text, size)[k] == Block(text[k * size..Min(k * size + size, |text|)], k * size)
    ensures forall k :: 0 <= k < |Partition(text, size)| - 1 ==> |Partition(text, size)[k].text| == size
    ensures |Partition(text, size)| > 0 ==>
      |Partition(text, size)[|Partition(text, size)| - 1].text| == |text| - (|Partition(text, size)| - 1) * size
  {
    var p := Partition(text, size);
    var n := |p|;
    PartitionCount(text, size);
    forall k | 0 <= k < n
      ensures k * size < |text|
      ensures p[k] == Block(text[k * size..Min(k * size + size, |text|)], k * size)
      ensures k < n - 1 ==> |p[k].text| == size
    {
      PartitionAt(text, size, k);
      MulSucc(k, size);
    }
    if n > 0 {
      PartitionAt(text, size, n - 1);
      PartitionFromCount(text, size, 0);
      MulSucc(n - 1, size);
    }
  }

  lemma {:induction false} PartitionFromConcat(text: string, size: nat, i: nat)
    requires size >= 1 && i <= |text|
    decreases |text| - i
    ensures Concat(PartitionFrom(text, size, i)) == text[i..]
  {
    if i < |text| {
      var p := PartitionFrom(text, size, i);
      var end := Min(i + size, |text|);
      assert p[1..] == PartitionFrom(text, size, i + size);
      if i + size <= |text| {
        PartitionFromConcat(text, size, i + size);
        assert text[i..end] + text[i + size..] == text[i..];
      } else {
        assert PartitionFrom(text, size, i + size) == [];
        assert text[i..end] == text[i..];
      }
    }
  }

  /** The blocks cover the text exactly: joining them gives it back. */
  lemma PartitionConcat(text: string, size: nat)
    requires size >= 1
    ensures Concat(Partition(text, size)) == text
  {
    PartitionFromConcat(text, size, 0);
  }

  /** Every block of the partition is the span of the text at its offset. */
  lemma PartitionIndexed(text: string, size: nat)
    requires size >= 1
    ensures forall k :: 0 <= k < |Partition(text, size)| ==> Indexed(text, Partition(text, size)[k])
  {
    var p := Partition(text, size);
    forall k | 0 <= k < |p|
      ensures Indexed(text, p[k])
    {
      PartitionAt(text, size, k);
      PartitionFromAt(text, size, 0, k);
    }
  }

  /** `diffable.BlockText`: the text, the block size, and the blocks, fixed at construction. */
  class BlockText {
    const originalText: string
    const blockSize: nat
    const blocks: seq<Block>

    constructor (originalText: string, blockSize: nat)
      requires blockSize >= 1
      ensures this.originalText == originalText && this.blockSize == blockSize
      ensures blocks == Partition(originalText, blockSize)
    {
      var pushed: seq<Block> := [];
      var i := 0;
      var len := |originalText|;
      while i < len
        invariant pushed + PartitionFrom(originalText, blockSize, i) == Partition(originalText, blockSize)
      {
        var endIndex := if i + blockSize >= len then len else i + blockSize;
        assert PartitionFrom(originalText, blockSize, i)
          == [Block(originalText[i..endIndex], i)] + PartitionFrom(originalText, blockSize, i + blockSize);
        pushed := pushed + [Block(originalText[i..endIndex], i)];
        i := i + blockSize;
      }
      this.originalText := originalText;
      this.blockSize := blockSize;
      this.blocks := pushed;
    }
  }
}

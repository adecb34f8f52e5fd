/**
 * `diffable.Dictionary` of vcdiff.js: hash buckets of blocks, and the lookup
 * that turns a hash and a target into the first block with equal text,
 * extended greedily past the block's end.
 */
module Dictionaries {
  import opened ModArith
  import opened Wrappers
  import opened Blocks
  import opened Rolling

  /** `s.substring(0, k)` for k >= 0. */
  function Prefix(s: string, k: nat): string
  {
    s[..Min(k, |s|)]
  }

  /** `s.substring(k)` for k >= 0: empty once k passes the end. */
  function Suffix(s: string, k: nat): string
  {
    s[Min(k, |s|)..]
  }

  /** How far `a` and `b` agree from their first character on. */
  function CommonPrefixLength(a: string, b: string): (n: nat)
    ensures n <= |a| && n <= |b|
    ensures a[..n] == b[..n]
    ensures n == |a| || n == |b| || a[n] != b[n]
  {
    if |a| == 0 || |b| == 0 || a[0] != b[0] then 0
    else
      var n' := CommonPrefixLength(a[1..], b[1..]);
      assert a[..n' + 1] == [a[0]] + a[1..][..n'];
      assert b[..n' + 1] == [b[0]] + b[1..][..n'];
      1 + n'
  }

  /** The position of the first block in `bucket` whose text is `p`. */
  function FirstIndex(bucket: seq<Block>, p: string): (r: Option<nat>)
    ensures r.None? <==> forall k :: 0 <= k < |bucket| ==> bucket[k].text != p
    ensures r.Some? ==> r.value < |bucket| && bucket[r.value].text == p &&
                        forall j :: 0 <= j < r.value ==> bucket[j].text != p
  {
    if |bucket| == 0 then None
    else if bucket[0].text == p then Some(0)
    else match FirstIndex(bucket[1..], p)
      case None => None
      case Some(k) => Some(k + 1)
  }

  /** The first block in `bucket` whose text is `p`. */
  function FirstWithText(bucket: seq<Block>, p: string): Option<Block>
  {
    match FirstIndex(bucket, p)
    case None => None
    case Some(k) => Some(bucket[k])
  }

  /**
   * The greedy extension of vcdiff.js:190-200: the block's text followed by
   * the longest run where the dictionary text after `b.offset + size` and the
   * target after its first `size` characters agree.
   */
  function Extend(orig: string, b: Block, size: nat, target: string): Block
  {
    var dictRest := Suffix(orig, b.offset + size);
    var targetRest := Suffix(target, size);
    Block(b.text + dictRest[..CommonPrefixLength(dictRest, targetRest)], b.offset)
  }

  /**
   * The match within one bucket: the first block equal to the target's first
   * `size` characters, extended when the dictionary knows its text.
   */
  function Lookup(bucket: seq<Block>, orig: Option<string>, size: nat, target: string): Option<Block>
  {
    match FirstWithText(bucket, Prefix(target, size))
    case None => None
    case Some(b) => Some(if orig.Some? then Extend(orig.value, b, size, target) else b)
  }

  /** What `getMatch(hash, size, target)` returns, given the buckets and the dictionary text. */
  function MatchSpec(buckets: map<int, seq<Block>>, orig: Option<string>, hash: int, size: nat, target: string)
    : Option<Block>
  {
    if hash in buckets then Lookup(buckets[hash], orig, size, target) else None
  }

  /** The bucket map after `put(key, b)`. */
  function Insert(m: map<int, seq<Block>>, key: int, b: Block): (r: map<int, seq<Block>>)
    ensures r.Keys == m.Keys + {key}
    ensures forall k :: k in m && k != key ==> r[k] == m[k]
    ensures key in m ==> r[key] == m[key] + [b]
    ensures key !in m ==> r[key] == [b]
  {
    m[key := (if key in m then m[key] else []) + [b]]
  }

  /** The bucket map `populateDictionary` builds: every block put under its hash, in order. */
  function Index(blocks: seq<Block>, base: int, modulus: int): map<int, seq<Block>>
    requires modulus >= 1
  {
    if |blocks| == 0 then map[]
    else
      var last := blocks[|blocks| - 1];
      Insert(Index(blocks[..|blocks| - 1], base, modulus), PolyHash(last.text, base, modulus), last)
  }

  /** The blocks whose text hashes to `h`, in their original order. */
  function Filter(blocks: seq<Block>, base: int, modulus: int, h: int): (r: seq<Block>)
    requires modulus >= 1
    ensures forall b :: b in r <==> b in blocks && PolyHash(b.text, base, modulus) == h
  {
    if |blocks| == 0 then []
    else
      var rest := Filter(blocks[1..], base, modulus, h);
      assert forall b :: b in blocks <==> b == blocks[0] || b in blocks[1..];
      (if PolyHash(blocks[0].text, base, modulus) == h then [blocks[0]] else []) + rest
  }

  lemma {:induction false} FilterSnoc(s: seq<Block>, b: Block, base: int, modulus: int, h: int)
    requires modulus >= 1
    ensures Filter(s + [b], base, modulus, h)
         == Filter(s, base, modulus, h) + (if PolyHash(b.text, base, modulus) == h then [b] else [])
  {
    if |s| > 0 {
      assert (s + [b])[0] == s[0] && (s + [b])[1..] == s[1..] + [b];
      FilterSnoc(s[1..], b, base, modulus, h);
    } else {
      assert s + [b] == [b];
    }
  }

  /**
   * `populateDictionary` files each block, in order, under its hash: the
   * bucket for `h` exists exactly when some block hashes to `h`, and holds
   * exactly those blocks in block order.
   */
  lemma {:induction false} IndexBucket(blocks: seq<Block>, base: int, modulus: int, h: int)
    requires modulus >= 1
    ensures h in Index(blocks, base, modulus) <==> Filter(blocks, base, modulus, h) != []
    ensures h in Index(blocks, base, modulus) ==> Index(blocks, base, modulus)[h] == Filter(blocks, base, modulus, h)
  {
    if |blocks| > 0 {
      var init, last := blocks[..|blocks| - 1], blocks[|blocks| - 1];
      assert blocks == init + [last];
      IndexBucket(init, base, modulus, h);
      FilterSnoc(init, last, base, modulus, h);
    }
  }

  /** Dropping the blocks with another hash does not change the first block with text `p`. */
  lemma {:induction false} FirstWithTextFiltered(blocks: seq<Block>, p: string, base: int, modulus: int)
    requires modulus >= 1
    ensures FirstWithText(Filter(blocks, base, modulus, PolyHash(p, base, modulus)), p) == FirstWithText(blocks, p)
  {
    var h := PolyHash(p, base, modulus);
    if |blocks| > 0 {
      var f := Filter(blocks, base, modulus, h);
      var rest := Filter(blocks[1..], base, modulus, h);
      FirstWithTextFiltered(blocks[1..], p, base, modulus);
      if blocks[0].text == p {
        assert f[0] == blocks[0];
      } else {
        FirstWithTextTail(blocks, p);
        if PolyHash(blocks[0].text, base, modulus) == h {
          assert f == [blocks[0]] + rest && f[1..] == rest;
          FirstWithTextTail(f, p);
        } else {
          assert f == rest;
        }
      }
    }
  }

  /** A first block that does not match is skipped. */
  lemma FirstWithTextTail(bucket: seq<Block>, p: string)
    requires |bucket| > 0 && bucket[0].text != p
    ensures FirstWithText(bucket, p) == FirstWithText(bucket[1..], p)
  {
    match FirstIndex(bucket[1..], p)
    case None =>
    case Some(k) => assert bucket[1..][k] == bucket[k + 1];
  }

  /**
   * Looking up the hash of a target's first block in the index of `blocks`
   * finds what a scan of all of `blocks` for that text finds: hash
   * collisions inside a bucket never hide a block with the right text.
   */
  lemma LookupByHash(blocks: seq<Block>, orig: string, base: int, modulus: int, size: nat, target: string)
    requires modulus >= 1
    ensures MatchSpec(Index(blocks, base, modulus), Some(orig), PolyHash(Prefix(target, size), base, modulus), size, target)
         == Lookup(blocks, Some(orig), size, target)
  {
    var p := Prefix(target, size);
    var h := PolyHash(p, base, modulus);
    IndexBucket(blocks, base, modulus, h);
    FirstWithTextFiltered(blocks, p, base, modulus);
  }

  /**
   * The miss law of vcdiff.js:185-210: no match exactly when there is no
   * bucket for the hash, or no block in it has the target's first `size`
   * characters as its text.
   */
  lemma GetMatchMiss(buckets: map<int, seq<Block>>, orig: Option<string>, hash: int, size: nat, target: string)
    ensures MatchSpec(buckets, orig, hash, size, target).None? <==>
      (hash !in buckets ||
       forall k :: 0 <= k < |buckets[hash]| ==> buckets[hash][k].text != Prefix(target, size))
  {
  }

  /**
   * A hit starts at the first block of the bucket whose text equals the
   * target's first `size` characters, keeps that block's offset, and starts
   * with that block's text; without a dictionary text it is that block.
   */
  lemma LookupFirst(bucket: seq<Block>, orig: Option<string>, size: nat, target: string)
    requires Lookup(bucket, orig, size, target).Some?
    ensures var m := Lookup(bucket, orig, size, target).value;
      exists k :: 0 <= k < |bucket| && bucket[k].text == Prefix(target, size) &&
        (forall j :: 0 <= j < k ==> bucket[j].text != Prefix(target, size)) &&
        m.offset == bucket[k].offset &&
        |bucket[k].text| <= |m.text| && m.text[..|bucket[k].text|] == bucket[k].text &&
        (orig.None? ==> m == bucket[k])
  {
    var k := FirstIndex(bucket, Prefix(target, size)).value;
    var m := Lookup(bucket, orig, size, target).value;
    assert m.text[..|bucket[k].text|] == bucket[k].text;
  }

  /**
   * The extension is greedy and exact: what follows the block's text agrees
   * with both the dictionary text after `offset + size` and the target after
   * its first `size` characters, and stops at the first disagreement or at
   * the end of either.
   */
  lemma ExtendMaximal(orig: string, b: Block, size: nat, target: string)
    ensures var m := Extend(orig, b, size, target);
      var dictRest, targetRest := Suffix(orig, b.offset + size), Suffix(target, size);
      var ext := m.text[|b.text|..];
      m.offset == b.offset && m.text == b.text + ext &&
      |ext| <= |dictRest| && |ext| <= |targetRest| &&
      ext == dictRest[..|ext|] && ext == targetRest[..|ext|] &&
      (|ext| == |dictRest| || |ext| == |targetRest| || dictRest[|ext|] != targetRest[|ext|])
  {
    var m := Extend(orig, b, size, target);
    var dictRest, targetRest := Suffix(orig, b.offset + size), Suffix(target, size);
    var n := CommonPrefixLength(dictRest, targetRest);
    assert m.text[|b.text|..] == dictRest[..n];
  }

  /**
   * A hit is a real copy: its text is a prefix of the target and, when the
   * block it grew from is the span of the dictionary text at its offset, so
   * is the whole extended text.
   */
  lemma ExtendSound(orig: string, b: Block, size: nat, target: string)
    requires b.text == Prefix(target, size)
    ensures var m := Extend(orig, b, size, target);
      |m.text| <= |target| && m.text == target[..|m.text|] &&
      (Indexed(orig, b) ==> Indexed(orig, m))
  {
    var m := Extend(orig, b, size, target);
    var dictRest, targetRest := Suffix(orig, b.offset + size), Suffix(target, size);
    var n := CommonPrefixLength(dictRest, targetRest);
    var cut := Min(size, |target|);
    assert target == target[..cut] + targetRest;
    assert m.text == target[..cut] + targetRest[..n];
    assert m.text == target[..|m.text|];
    if Indexed(orig, b) {
      if n == 0 {
        assert m.text == b.text;
      } else {
        assert |b.text| == size;
        assert b.offset + size <= |orig|;
        assert dictRest == orig[b.offset + size..];
        assert orig[b.offset..b.offset + |m.text|] == orig[b.offset..b.offset + size] + dictRest[..n];
        assert Indexed(orig, m);
      }
    }
  }

  /** The same two facts for whatever the bucket lookup returns. */
  lemma LookupSound(bucket: seq<Block>, orig: Option<string>, size: nat, target: string)
    requires Lookup(bucket, orig, size, target).Some?
    ensures var m := Lookup(bucket, orig, size, target).value;
      |m.text| <= |target| && m.text == target[..|m.text|] && |m.text| >= Min(size, |target|) &&
      (orig.Some? && (forall k :: 0 <= k < |bucket| ==> Indexed(orig.value, bucket[k])) ==>
         Indexed(orig.value, m))
  {
    var k := FirstIndex(bucket, Prefix(target, size)).value;
    if orig.Some? {
      ExtendSound(orig.value, bucket[k], size, target);
    }
  }

  /** `diffable.Dictionary`: the hash buckets and the block text they index. */
  class Dictionary {
    var buckets: map<int, seq<Block>>
    var dictText: BlockText?

    constructor ()
      ensures buckets == map[] && dictText == null
    {
      buckets := map[];
      dictText := null;
    }

    /** The text the blocks came from, once `PopulateDictionary` has run. */
    function Orig(): Option<string>
      reads this
    {
      if dictText == null then None else Some(dictText.originalText)
    }

    /** `put`: appends `block` to the bucket for `key`, creating the bucket if needed. */
    method Put(key: int, block: Block)
      modifies this`buckets
      ensures buckets == Insert(old(buckets), key, block)
    {
      if key !in buckets {
        buckets := buckets[key := []];
      }
      buckets := buckets[key := buckets[key] + [block]];
    }

    /**
     * `populateDictionary`: forgets every previous bucket and indexes the
     * blocks of `dictText` under their hashes, in order. The hasher is left
     * holding the last block's window.
     */
    method PopulateDictionary(dictText: BlockText, hasher: RollingHash)
      requires hasher.Configured()
      modifies this`buckets, this`dictText, hasher`lastPower, hasher`lastString, hasher`lastHash
      ensures this.dictText == dictText
      ensures buckets == Index(dictText.blocks, hasher.primeBase, hasher.primeMod)
      ensures |dictText.blocks| > 0 ==>
        hasher.Valid() && hasher.lastString == dictText.blocks[|dictText.blocks| - 1].text
      ensures |dictText.blocks| == 0 ==> unchanged(hasher)
    {
      buckets := map[];
      this.dictText := dictText;
      var blocks := dictText.blocks;
      var i := 0;
      while i < |blocks|
        invariant 0 <= i <= |blocks|
        invariant this.dictText == dictText
        invariant buckets == Index(blocks[..i], hasher.primeBase, hasher.primeMod)
        invariant i > 0 ==> hasher.Valid() && hasher.lastString == blocks[i - 1].text
        invariant i == 0 ==> unchanged(hasher)
      {
        var h := hasher.Hash(blocks[i].text);
        Put(h, blocks[i]);
        assert blocks[..i + 1][..i] == blocks[..i];
        i := i + 1;
      }
      assert blocks[..|blocks|] == blocks;
    }

    /**
     * `getMatch`: the first block of the bucket for `hash` whose text equals
     * `target`'s first `blockSize` characters, extended greedily against the
     * dictionary text; `None` where the source returns `null`.
     */
    method GetMatch(hash: int, blockSize: nat, target: string) returns (r: Option<Block>)
      ensures r == MatchSpec(buckets, Orig(), hash, blockSize, target)
    {
      if hash in buckets {
        r := FindInBucket(buckets[hash], blockSize, target);
      } else {
        r := None;
      }
    }

    /** The scan of one bucket in `getMatch` (vcdiff.js:186-205). */
    method FindInBucket(blocks: seq<Block>, blockSize: nat, target: string) returns (r: Option<Block>)
      ensures r == Lookup(blocks, Orig(), blockSize, target)
    {
      var p := Prefix(target, blockSize);
      var i := 0;
      while i < |blocks|
        invariant 0 <= i <= |blocks|
        invariant forall j :: 0 <= j < i ==> blocks[j].text != p
      {
        if blocks[i].text == p {
          LookupHit(blocks, Orig(), blockSize, target, i);
          if dictText != null {
            var m := ExtendMatch(dictText.originalText, blocks[i], blockSize, target);
            return Some(m);
          } else {
            return Some(blocks[i]);
          }
        }
        i := i + 1;
      }
      assert FirstIndex(blocks, p) == None;
      return None;
    }

    /** The greedy extension loop of `getMatch` (vcdiff.js:190-200). */
    static method ExtendMatch(orig: string, b: Block, blockSize: nat, target: string) returns (m: Block)
      ensures m == Extend(orig, b, blockSize, target)
    {
      var dictRest := Suffix(orig, b.offset + blockSize);
      var targetRest := Suffix(target, blockSize);
      if |dictRest| == 0 || |targetRest| == 0 {
        assert b.text + dictRest[..0] == b.text;
        return b;
      }
      var currentPointer := 0;
      while currentPointer < |dictRest| && currentPointer < |targetRest| &&
            dictRest[currentPointer] == targetRest[currentPointer]
        invariant 0 <= currentPointer <= |dictRest| && currentPointer <= |targetRest|
        invariant forall k :: 0 <= k < currentPointer ==> dictRest[k] == targetRest[k]
      {
        currentPointer := currentPointer + 1;
      }
      assert dictRest[..currentPointer] == targetRest[..currentPointer];
      CommonPrefixUnique(dictRest, targetRest, currentPointer);
      return Block(b.text + dictRest[..currentPointer], b.offset);
    }
  }

  /** The lookup in a bucket whose first block with the target's window is block `i`. */
  lemma LookupHit(bucket: seq<Block>, orig: Option<string>, size: nat, target: string, i: nat)
    requires i < |bucket| && bucket[i].text == Prefix(target, size)
    requires forall j :: 0 <= j < i ==> bucket[j].text != Prefix(target, size)
    ensures Lookup(bucket, orig, size, target)
         == Some(if orig.Some? then Extend(orig.value, bucket[i], size, target) else bucket[i])
  {
    assert FirstIndex(bucket, Prefix(target, size)) == Some(i);
  }

  /** The agreement length is the only one that is a common prefix and cannot grow. */
  lemma CommonPrefixUnique(a: string, b: string, n: nat)
    requires n <= |a| && n <= |b| && a[..n] == b[..n]
    requires n == |a| || n == |b| || a[n] != b[n]
    ensures n == CommonPrefixLength(a, b)
  {
  }
}

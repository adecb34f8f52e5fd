/**
 * The concrete cases of the repository's server-side test suite
 * (tests/vcdiff_srv.js), stated about the model's specification functions.
 */
module Scenarios {
  import opened Wrappers
  import opened Blocks
  import opened Rolling
  import opened Dictionaries
  import opened Codec

  /** `hash('abc')` with base 3 is 1266, and `hash('abcabc')` with the defaults is 232878305. */
  lemma HashValues()
    ensures PolyHash("abc", 3, 1000000007) == 1266
    ensures PolyHash("abcabc", 257, 1000000007) == 232878305
  {
    assert "abc"[1..] == "bc" && "bc"[1..] == "c" && "c"[1..] == "";
    assert "abcabc"[1..] == "bcabc" && "bcabc"[1..] == "cabc" && "cabc"[1..] == "abc";
  }

  /** A block size larger than the text gives one block holding all of it. */
  lemma OneBlock()
    ensures Partition("abc", 5) == [Block("abc", 0)]
  {
    assert "abc"[0..3] == "abc";
  }

  /** "abcdefgh" in blocks of 3 is "abc", "def", "gh" at offsets 0, 3, 6; "abcdefghi" has three blocks. */
  lemma ThreeBlocks()
    ensures Partition("abcdefgh", 3) == [Block("abc", 0), Block("def", 3), Block("gh", 6)]
    ensures |Partition("abcdefghi", 3)| == 3
  {
    assert "abcdefgh"[0..3] == "abc" && "abcdefgh"[3..6] == "def" && "abcdefgh"[6..8] == "gh";
    PartitionCount("abcdefghi", 3);
  }

  /** After `put(1, Block('abc', 0))` with no dictionary text: hash 0 misses, hash 1 finds the block. */
  lemma PutThenMatch()
    ensures MatchSpec(Insert(map[], 1, Block("abc", 0)), None, 0, 3, "") == None
    ensures MatchSpec(Insert(map[], 1, Block("abc", 0)), None, 1, 3, "abc") == Some(Block("abc", 0))
  {
    assert Prefix("abc", 3) == "abc";
    assert FirstIndex([Block("abc", 0)], "abc") == Some(0);
  }

  /**
   * "abcdef" in blocks of 3 under the hashes 1 and 2: window "def" under
   * hash 2 finds "def" at 3, and "abcdef" under hash 1 finds "abc" at 0
   * and extends it to the whole dictionary.
   */
  lemma LongestMatch()
    ensures MatchSpec(map[1 := [Block("abc", 0)], 2 := [Block("def", 3)]], Some("abcdef"), 2, 3, "def")
         == Some(Block("def", 3))
    ensures MatchSpec(map[1 := [Block("abc", 0)], 2 := [Block("def", 3)]], Some("abcdef"), 1, 3, "abcdef")
         == Some(Block("abcdef", 0))
  {
    assert Prefix("def", 3) == "def" && Prefix("abcdef", 3) == "abc";
    assert FirstIndex([Block("def", 3)], "def") == Some(0);
    assert FirstIndex([Block("abc", 0)], "abc") == Some(0);
    assert Suffix("abcdef", 6) == "" && Suffix("def", 3) == "";
    assert Suffix("abcdef", 3) == "def";
    assert CommonPrefixLength("def", "def") == 3 by {
      CommonPrefixUnique("def", "def", 3);
    }
    assert "abc" + "def"[..3] == "abcdef";
    assert Extend("abcdef", Block("def", 3), 3, "def") == Block("def", 3) by {
      assert "def" + ""[..0] == "def";
    }
  }

  /** With the default block size 20 a target shorter than a block is one literal. */
  lemma EncodeShortTargets()
    ensures EncodeSpec("abc", "d", 20) == [Lit("d")]
    ensures EncodeSpec("abc", "defghijk", 20) == [Lit("defghijk")]
    ensures EncodeSpec("abcdef", "abcdef", 3) == []
  {
    assert "" + "d"[0..] == "d";
    assert "" + "defghijk"[0..] == "defghijk";
  }

  /** The matches of the windows of "defabc" against "abc" in blocks of 3. */
  lemma DefabcMatches()
    ensures FindMatch("abc", 3, "defabc") == None && FindMatch("abc", 3, "efabc") == None
    ensures FindMatch("abc", 3, "fabc") == None
    ensures FindMatch("abc", 3, "abc") == Some(Block("abc", 0))
  {
    var blocks := Partition("abc", 3);
    assert blocks == [Block("abc", 0)] by {
      assert "abc"[0..3] == "abc";
    }
    assert Prefix("defabc", 3) == "def" && Prefix("efabc", 3) == "efa" && Prefix("fabc", 3) == "fab";
    assert Prefix("abc", 3) == "abc" && Suffix("abc", 3) == "";
    LookupHit(blocks, Some("abc"), 3, "abc", 0);
    assert "abc" + ""[..0] == "abc";
  }

  /** A run of `k` misses moves `k` characters of the target into the literal buffer. */
  lemma {:induction false} ScanMissRun(find: Matcher, t: string, size: nat, i: nat, k: nat, buf: string)
    requires size >= 1 && Advances(find, size) && i + k + size <= |t| + 1
    requires forall j :: i <= j < i + k ==> find(t[j..]).None?
    decreases k
    ensures Scan(find, t, size, i, buf, true) == Scan(find, t, size, i + k, buf + t[i..i + k], true)
  {
    if k == 0 {
      assert buf + t[i..i] == buf;
    } else {
      ScanUnfoldMiss(find, t, size, i, buf, true);
      ScanMissRun(find, t, size, i + 1, k - 1, buf + [t[i]]);
      assert (buf + [t[i]]) + t[i + 1..i + k] == buf + t[i..i + k];
    }
  }

  /** The scan of "defabc" by a matcher that misses the first three windows and finds "abc" at 0. */
  lemma DefabcScan(find: Matcher, t: string)
    requires Advances(find, 3) && |t| == 6
    requires find(t[0..]) == None && find(t[1..]) == None && find(t[2..]) == None
    requires find(t[3..]) == Some(Block(t[3..], 0))
    ensures Scan(find, t, 3, 0, "", true) == [Lit(t[..3]), Num(0), Num(3)]
  {
    ScanMissRun(find, t, 3, 0, 3, "");
    assert "" + t[0..3] == t[..3];
    ScanUnfoldHit(find, t, 3, 3, t[..3], true, 6);
  }

  /** `DefabcScan` for the windows of "defabc" spelled out. */
  lemma DefabcWindows(find: Matcher, t: string)
    requires Advances(find, 3) && t == "defabc"
    requires find("defabc") == None && find("efabc") == None && find("fabc") == None
    requires find("abc") == Some(Block("abc", 0))
    ensures Scan(find, t, 3, 0, "", true) == [Lit("def"), Num(0), Num(3)]
  {
    assert t[0..] == t && t[1..] == "efabc" && t[2..] == "fabc" && t[3..] == "abc" && t[..3] == "def";
    DefabcScan(find, t);
  }

  /** "defabc" against "abc" in blocks of 3: the literal "def", then a copy of 3 characters at 0. */
  lemma EncodeCopyAfterLiteral()
    ensures EncodeSpec("abc", "defabc", 3) == [Lit("def"), Num(0), Num(3)]
  {
    FinderSound("abc", 3);
    DefabcMatches();
    DefabcWindows(Finder("abc", 3), "defabc");
  }

  /** The blocks of "abcdef" in blocks of 3. */
  lemma AbcdefBlocks()
    ensures Partition("abcdef", 3) == [Block("abc", 0), Block("def", 3)]
  {
    assert "abcdef"[0..3] == "abc" && "abcdef"[3..6] == "def";
  }

  /** The windows of "defghiabc" that start with a block of "abcdef" find it. */
  lemma DefghiabcHits()
    ensures FindMatch("abcdef", 3, "defghiabc") == Some(Block("def", 3))
    ensures FindMatch("abcdef", 3, "abc") == Some(Block("abc", 0))
  {
    AbcdefBlocks();
    HitInAbcdef("abcdef", "defghiabc", 1);
    HitInAbcdef("abcdef", "abc", 0);
  }

  /**
   * A target starting with block k of "abcdef" finds it, extended by what
   * follows it in both: nothing after "def", and nothing when the target is "abc".
   */
  lemma HitInAbcdef(d: string, t: string, k: nat)
    requires d == "abcdef" && Partition(d, 3) == [Block("abc", 0), Block("def", 3)]
    requires (k == 1 && t[..] == "defghiabc") || (k == 0 && t[..] == "abc")
    ensures FindMatch(d, 3, t) == Some(Partition(d, 3)[k])
  {
    var blocks := Partition(d, 3);
    var b := blocks[k];
    assert Prefix(t, 3) == b.text;
    LookupHit(blocks, Some(d), 3, t, k);
    var dictRest := Suffix(d, b.offset + 3);
    var targetRest := Suffix(t, 3);
    assert |dictRest| == 0 || |targetRest| == 0;
    assert b.text + dictRest[..0] == b.text;
  }

  /** The windows "ghi", "hia" and "iab" are no block of "abcdef". */
  lemma DefghiabcMisses()
    ensures FindMatch("abcdef", 3, "ghiabc") == None && FindMatch("abcdef", 3, "hiabc") == None
    ensures FindMatch("abcdef", 3, "iabc") == None
  {
    AbcdefBlocks();
    NoBlockOfAbcdef("abcdef", "ghiabc");
    NoBlockOfAbcdef("abcdef", "hiabc");
    NoBlockOfAbcdef("abcdef", "iabc");
  }

  lemma NoBlockOfAbcdef(d: string, t: string)
    requires d == "abcdef" && Partition(d, 3) == [Block("abc", 0), Block("def", 3)]
    requires |t| >= 3 && t[0] != 'a' && t[0] != 'd'
    ensures FindMatch(d, 3, t) == None
  {
    var p := Prefix(t, 3);
    assert p[0] == t[0];
    assert FirstIndex(Partition(d, 3), p) == None;
  }

  /** The scan of "defghiabc" by a matcher that finds (3, 3), misses three windows, then finds (0, 3). */
  lemma DefghiabcScan(find: Matcher, t: string)
    requires Advances(find, 3) && |t| == 9
    requires find(t[0..]) == Some(Block(t[..3], 3))
    requires find(t[3..]) == None && find(t[4..]) == None && find(t[5..]) == None
    requires find(t[6..]) == Some(Block(t[6..], 0))
    ensures Scan(find, t, 3, 0, "", true) == [Num(3), Num(3), Lit(t[3..6]), Num(0), Num(3)]
  {
    ScanUnfoldHit(find, t, 3, 0, "", true, 3);
    ScanMissRun(find, t, 3, 3, 3, "");
    assert "" + t[3..6] == t[3..6];
    ScanUnfoldHit(find, t, 3, 6, t[3..6], true, 9);
  }

  /** `DefghiabcScan` for the windows of "defghiabc" spelled out. */
  lemma DefghiabcWindows(find: Matcher, t: string)
    requires Advances(find, 3) && t == "defghiabc"
    requires find("defghiabc") == Some(Block("def", 3))
    requires find("ghiabc") == None && find("hiabc") == None && find("iabc") == None
    requires find("abc") == Some(Block("abc", 0))
    ensures Scan(find, t, 3, 0, "", true) == [Num(3), Num(3), Lit("ghi"), Num(0), Num(3)]
  {
    assert t[0..] == t && t[3..] == "ghiabc" && t[4..] == "hiabc" && t[5..] == "iabc" && t[6..] == "abc";
    assert t[..3] == "def" && t[3..6] == "ghi";
    DefghiabcScan(find, t);
  }

  /** "defghiabc" against "abcdef" in blocks of 3: copy (3, 3), the literal "ghi", copy (0, 3). */
  lemma EncodeTwoCopies()
    ensures EncodeSpec("abcdef", "defghiabc", 3) == [Num(3), Num(3), Lit("ghi"), Num(0), Num(3)]
  {
    FinderSound("abcdef", 3);
    DefghiabcHits();
    DefghiabcMisses();
    DefghiabcWindows(Finder("abcdef", 3), "defghiabc");
  }

  /** The first delta above decodes to its target. */
  lemma DecodeCopyAfterLiteral()
    ensures WellFormed("abc", [Lit("def"), Num(0), Num(3)])
    ensures DecodeSpec("abc", [Lit("def"), Num(0), Num(3)]) == "defabc"
  {
    var toks := [Lit("def"), Num(0), Num(3)];
    assert toks[1..][2..] == [];
    assert "abc"[0..3] == "abc";
  }

  /** The second delta above decodes to its target. */
  lemma DecodeTwoCopies()
    ensures WellFormed("abcdef", [Num(3), Num(3), Lit("ghi"), Num(0), Num(3)])
    ensures DecodeSpec("abcdef", [Num(3), Num(3), Lit("ghi"), Num(0), Num(3)]) == "defghiabc"
  {
    var toks := [Num(3), Num(3), Lit("ghi"), Num(0), Num(3)];
    assert toks[2..] == [Lit("ghi"), Num(0), Num(3)] && toks[2..][1..] == [Num(0), Num(3)];
    assert toks[2..][1..][2..] == [];
    assert "abcdef"[3..6] == "def" && "abcdef"[0..3] == "abc";
  }
}

/**
 * `diffable.Vcdiff` of vcdiff.js: the greedy encoder that turns a target
 * text into literal strings and (offset, length) copies of a dictionary
 * text, and the decoder that replays them.
 */
module Codec {
  import opened ModArith
  import opened Wrappers
  import opened Blocks
  import opened Rolling
  import opened Dictionaries

  /**
   * One element of the flat token array: a literal string, or one of the two
   * numbers (offset, then length) of a copy.
   */
  datatype Tok = Lit(s: string) | Num(n: nat)

  /** The match `encode` gets for the window at the start of `target`, hashes aside. */
  function FindMatch(dict: string, size: nat, target: string): Option<Block>
    requires size >= 1
  {
    Lookup(Partition(dict, size), Some(dict), size, target)
  }

  /** A match found for a window of `size` characters: a prefix of the target, at least `size` long, a span of the dictionary. */
  lemma FindMatchSound(dict: string, size: nat, target: string)
    requires size >= 1 && size <= |target| && FindMatch(dict, size, target).Some?
    ensures var m := FindMatch(dict, size, target).value;
      size <= |m.text| <= |target| && m.text == target[..|m.text|] && Indexed(dict, m)
  {
    PartitionIndexed(dict, size);
    LookupSound(Partition(dict, size), Some(dict), size, target);
  }

  /** A rule that maps the rest of the target to the match for its first window, or to none. */
  type Matcher = string -> Option<Block>

  /** A match for a full window never ends before the window does, nor after the target. */
  ghost predicate Advances(find: Matcher, size: nat)
  {
    forall t :: size <= |t| && find(t).Some? ==> size <= |find(t).value.text| <= |t|
  }

  /** A match for the full window at the start of `t` is a prefix of `t` and a span of the dictionary. */
  ghost predicate MatchesAt(dict: string, find: Matcher, size: nat, t: string)
  {
    size <= |t| && find(t).Some? ==>
      |find(t).value.text| <= |t| && find(t).value.text == t[..|find(t).value.text|] && Indexed(dict, find(t).value)
  }

  /** A matcher whose every match advances and is a prefix of the target and a span of the dictionary. */
  ghost predicate Sound(dict: string, find: Matcher, size: nat)
  {
    Advances(find, size) && forall t :: MatchesAt(dict, find, size, t)
  }

  /** The matcher `encode` uses: the dictionary's lookup of the target's first window. */
  function Finder(dict: string, size: nat): Matcher
    requires size >= 1
  {
    t => FindMatch(dict, size, t)
  }

  lemma FinderSound(dict: string, size: nat)
    requires size >= 1
    ensures Sound(dict, Finder(dict, size), size)
  {
    forall t | size <= |t| && Finder(dict, size)(t).Some?
      ensures size <= |Finder(dict, size)(t).value.text| <= |t|
    {
      FindMatchSound(dict, size, t);
    }
    forall t
      ensures MatchesAt(dict, Finder(dict, size), size, t)
    {
      if size <= |t| && Finder(dict, size)(t).Some? {
        FindMatchSound(dict, size, t);
      }
    }
  }

  /** The literal buffer, pushed only when it is not empty (vcdiff.js:261-264). */
  function Flush(buf: string): seq<Tok>
  {
    if |buf| > 0 then [Lit(buf)] else []
  }

  /**
   * The tokens the loop of vcdiff.js:243-271 pushes from cursor `i` with
   * literal buffer `buf`: the tail rule, a literal character on a miss, a
   * flush and a copy on a hit. When the cursor reaches the end with the
   * buffer still held, `flushAtEnd` says whether it is pushed as a last literal.
   */
  function Scan(find: Matcher, target: string, size: nat, i: nat, buf: string, flushAtEnd: bool): seq<Tok>
    requires size >= 1 && i <= |target| && Advances(find, size)
    decreases |target| - i
  {
    if i >= |target| then (if flushAtEnd then Flush(buf) else [])
    else if |target| - i < size then [Lit(buf + target[i..])]
    else match find(target[i..])
      case None => Scan(find, target, size, i + 1, buf + [target[i]], flushAtEnd)
      case Some(m) =>
        Flush(buf) + [Num(m.offset), Num(|m.text|)] + Scan(find, target, size, i + |m.text|, "", flushAtEnd)
  }

  lemma ScanUnfoldMiss(find: Matcher, target: string, size: nat, i: nat, buf: string, flushAtEnd: bool)
    requires size >= 1 && i < |target| && |target| - i >= size && Advances(find, size)
    requires find(target[i..]).None?
    ensures Scan(find, target, size, i, buf, flushAtEnd)
         == Scan(find, target, size, i + 1, buf + [target[i]], flushAtEnd)
  {
  }

  lemma ScanUnfoldHit(find: Matcher, target: string, size: nat, i: nat, buf: string, flushAtEnd: bool, j: nat)
    requires size >= 1 && i < |target| && |target| - i >= size && Advances(find, size)
    requires find(target[i..]).Some? && j == i + |find(target[i..]).value.text|
    ensures size <= j - i && j <= |target|
    ensures var m := find(target[i..]).value;
      Scan(find, target, size, i, buf, flushAtEnd)
        == Flush(buf) + [Num(m.offset), Num(|m.text|)] + Scan(find, target, size, j, "", flushAtEnd)
  {
  }

  /**
   * Where the last window the loop of vcdiff.js:243-271 hashes from cursor
   * `i` on starts: none once fewer than `size` characters remain, otherwise
   * the last window hashed after this one's miss or hit, or this one.
   */
  function LastWindowFrom(find: Matcher, target: string, size: nat, i: nat): (r: Option<nat>)
    requires size >= 1 && i <= |target| && Advances(find, size)
    decreases |target| - i
    ensures r.None? <==> |target| - i < size
    ensures r.Some? ==> i <= r.value && r.value + size <= |target|
  {
    if |target| - i < size then None
    else
      var next := match find(target[i..]) case None => i + 1 case Some(m) => i + |m.text|;
      var later := LastWindowFrom(find, target, size, next);
      Some(if later.Some? then later.value else i)
  }

  /** `encode` exactly as vcdiff.js:233-273 has it: a buffer still held when the loop ends is dropped. */
  function EncodeAsWritten(dict: string, target: string, size: nat): seq<Tok>
    requires size >= 1
  {
    if dict == target then []
    else
      FinderSound(dict, size);
      Scan(Finder(dict, size), target, size, 0, "", false)
  }

  /** `encode` with the buffer still held at the end of the loop pushed as a final literal. */
  function EncodeSpec(dict: string, target: string, size: nat): seq<Tok>
    requires size >= 1
  {
    if dict == target then []
    else
      FinderSound(dict, size);
      Scan(Finder(dict, size), target, size, 0, "", true)
  }

  /** The start of the last window `encode` hashes, none when it hashes none. */
  function LastWindow(dict: string, target: string, size: nat): Option<nat>
    requires size >= 1
  {
    if dict == target then None
    else
      FinderSound(dict, size);
      LastWindowFrom(Finder(dict, size), target, size, 0)
  }

  /** Numbers come in (offset, length) pairs that lie inside the dictionary text. */
  ghost predicate WellFormed(dict: string, toks: seq<Tok>)
    decreases |toks|
  {
    if |toks| == 0 then true
    else match toks[0]
      case Lit(_) => WellFormed(dict, toks[1..])
      case Num(o) =>
        |toks| >= 2 && toks[1].Num? && o + toks[1].n <= |dict| && WellFormed(dict, toks[2..])
  }

  /** The output of vcdiff.js:285-293: literals verbatim, copies as dictionary slices. */
  function Replay(dict: string, toks: seq<Tok>): string
    requires WellFormed(dict, toks)
    decreases |toks|
  {
    if |toks| == 0 then ""
    else match toks[0]
      case Lit(s) => s + Replay(dict, toks[1..])
      case Num(o) => dict[o..o + toks[1].n] + Replay(dict, toks[2..])
  }

  /** `decode`: the empty delta stands for the dictionary itself (vcdiff.js:282-284). */
  function DecodeSpec(dict: string, toks: seq<Tok>): string
    requires WellFormed(dict, toks)
  {
    if |toks| == 0 then dict else Replay(dict, toks)
  }

  /**
   * The shape of an encoder's output: no empty literal, no literal directly
   * after another, and every copy a span of the dictionary at least `size` long.
   */
  ghost predicate Canonical(dict: string, toks: seq<Tok>, size: nat)
    decreases |toks|
  {
    if |toks| == 0 then true
    else match toks[0]
      case Lit(s) => |s| > 0 && (|toks| == 1 || toks[1].Num?) && Canonical(dict, toks[1..], size)
      case Num(o) =>
        |toks| >= 2 && toks[1].Num? && toks[1].n >= size && o + toks[1].n <= |dict| &&
        Canonical(dict, toks[2..], size)
  }

  /** The joined pieces of the decoder's `output` array. */
  function Join(parts: seq<string>): string
  {
    if |parts| == 0 then "" else Join(parts[..|parts| - 1]) + parts[|parts| - 1]
  }

  lemma CanonicalWellFormed(dict: string, toks: seq<Tok>, size: nat)
    requires Canonical(dict, toks, size)
    decreases |toks|
    ensures WellFormed(dict, toks)
  {
    if |toks| > 0 {
      match toks[0]
      case Lit(_) => CanonicalWellFormed(dict, toks[1..], size);
      case Num(_) => CanonicalWellFormed(dict, toks[2..], size);
    }
  }

  /** Replaying a literal, or a copy pair, and then the rest. */
  lemma ReplayPrefix(dict: string, head: seq<Tok>, rest: seq<Tok>)
    requires head == [] || (|head| == 1 && head[0].Lit?) ||
             (|head| == 2 && head[0].Num? && head[1].Num? && head[0].n + head[1].n <= |dict|)
    requires WellFormed(dict, rest)
    ensures WellFormed(dict, head + rest)
    ensures Replay(dict, head + rest)
         == (if |head| == 0 then "" else if head[0].Lit? then head[0].s else dict[head[0].n..head[0].n + head[1].n])
            + Replay(dict, rest)
  {
    var all := head + rest;
    if |head| == 1 {
      assert all[1..] == rest;
    } else if |head| == 2 {
      assert all[2..] == rest;
    } else {
      assert all == rest;
    }
  }

  /** A canonical literal or copy pair in front of a canonical sequence that can follow it. */
  lemma CanonicalPrefix(dict: string, head: seq<Tok>, rest: seq<Tok>, size: nat)
    requires (|head| == 1 && head[0].Lit? && |head[0].s| > 0 && (rest == [] || rest[0].Num?)) ||
             (|head| == 2 && head[0].Num? && head[1].Num? && head[1].n >= size &&
              head[0].n + head[1].n <= |dict|)
    requires Canonical(dict, rest, size)
    ensures Canonical(dict, head + rest, size)
  {
    var all := head + rest;
    if |head| == 1 {
      assert all[1..] == rest;
    } else {
      assert all[2..] == rest;
    }
  }

  /**
   * What the scan from cursor `i` with buffer `buf` emits, final flush
   * included, has the canonical shape.
   */
  lemma {:induction false} ScanCanonical(dict: string, find: Matcher, target: string, size: nat, i: nat, buf: string)
    requires size >= 1 && i <= |target| && Sound(dict, find, size)
    decreases |target| - i
    ensures Canonical(dict, Scan(find, target, size, i, buf, true), size)
  {
    if i < |target| && |target| - i >= size {
      if find(target[i..]).None? {
        ScanUnfoldMiss(find, target, size, i, buf, true);
        ScanCanonical(dict, find, target, size, i + 1, buf + [target[i]]);
      } else {
        var m := find(target[i..]).value;
        ScanUnfoldHit(find, target, size, i, buf, true, i + |m.text|);
        ScanCanonical(dict, find, target, size, i + |m.text|, "");
        assert MatchesAt(dict, find, size, target[i..]);
        HitCanonical(dict, size, buf, m, Scan(find, target, size, i + |m.text|, "", true));
      }
    }
  }

  /** A flush and a copy in front of canonical output keep it canonical. */
  lemma HitCanonical(dict: string, size: nat, buf: string, m: Block, restOut: seq<Tok>)
    requires Canonical(dict, restOut, size)
    requires |m.text| >= size && Indexed(dict, m)
    ensures Canonical(dict, Flush(buf) + [Num(m.offset), Num(|m.text|)] + restOut, size)
  {
    var copy := [Num(m.offset), Num(|m.text|)];
    assert Flush(buf) + copy + restOut == Flush(buf) + (copy + restOut);
    CanonicalPrefix(dict, copy, restOut, size);
    if |buf| > 0 {
      CanonicalPrefix(dict, [Lit(buf)], copy + restOut, size);
    } else {
      assert Flush(buf) + (copy + restOut) == copy + restOut;
    }
  }

  /**
   * What the scan from cursor `i` with buffer `buf` emits, final flush
   * included, replays to the buffer followed by the rest of the target.
   */
  lemma {:induction false} ScanReplay(dict: string, find: Matcher, target: string, size: nat, i: nat, buf: string)
    requires size >= 1 && i <= |target| && Sound(dict, find, size)
    decreases |target| - i
    ensures WellFormed(dict, Scan(find, target, size, i, buf, true))
    ensures Replay(dict, Scan(find, target, size, i, buf, true)) == buf + target[i..]
  {
    if i >= |target| {
      if |buf| > 0 {
        ReplayPrefix(dict, [Lit(buf)], []);
      }
    } else if |target| - i < size {
      ReplayPrefix(dict, [Lit(buf + target[i..])], []);
    } else if find(target[i..]).None? {
      ScanUnfoldMiss(find, target, size, i, buf, true);
      ScanReplay(dict, find, target, size, i + 1, buf + [target[i]]);
      assert (buf + [target[i]]) + target[i + 1..] == buf + target[i..];
    } else {
      var m := find(target[i..]).value;
      var len := |m.text|;
      ScanUnfoldHit(find, target, size, i, buf, true, i + len);
      ScanReplay(dict, find, target, size, i + len, "");
      assert "" + target[i + len..] == target[i + len..];
      assert MatchesAt(dict, find, size, target[i..]);
      HitReplay(dict, buf, m, Scan(find, target, size, i + len, "", true), target[i + len..]);
      assert target[i..] == m.text + target[i + len..] by {
        assert m.text == target[i..i + len];
      }
    }
  }

  /** A flush and a copy in front of output that replays to `tail`. */
  lemma HitReplay(dict: string, buf: string, m: Block, restOut: seq<Tok>, tail: string)
    requires WellFormed(dict, restOut) && Replay(dict, restOut) == tail
    requires Indexed(dict, m)
    ensures WellFormed(dict, Flush(buf) + [Num(m.offset), Num(|m.text|)] + restOut)
    ensures Replay(dict, Flush(buf) + [Num(m.offset), Num(|m.text|)] + restOut) == buf + (m.text + tail)
  {
    var copy := [Num(m.offset), Num(|m.text|)];
    assert Flush(buf) + copy + restOut == Flush(buf) + (copy + restOut);
    ReplayPrefix(dict, copy, restOut);
    assert Replay(dict, copy + restOut) == m.text + tail;
    if |buf| > 0 {
      ReplayPrefix(dict, [Lit(buf)], copy + restOut);
    } else {
      assert Flush(buf) == [];
      assert [] + (copy + restOut) == copy + restOut;
      assert "" + (m.text + tail) == m.text + tail;
    }
  }


  /**
   * The round trip: decoding the encoding gives the target back, except for
   * an empty target that differs from the dictionary, which encodes to the
   * empty delta and so decodes to the dictionary.
   */
  lemma RoundTrip(dict: string, target: string, size: nat)
    requires size >= 1
    requires target != "" || target == dict
    ensures WellFormed(dict, EncodeSpec(dict, target, size))
    ensures DecodeSpec(dict, EncodeSpec(dict, target, size)) == target
  {
    if dict != target {
      FinderSound(dict, size);
      ScanReplay(dict, Finder(dict, size), target, size, 0, "");
      assert target[0..] == target;
    }
  }

  /**
   * Every delta the encoder emits is canonical: non-empty literals, never two
   * in a row (the buffer is flushed before each copy and once at the end),
   * and copies of in-range dictionary spans of at least `size` characters.
   */
  lemma EncodeCanonical(dict: string, target: string, size: nat)
    requires size >= 1
    ensures Canonical(dict, EncodeSpec(dict, target, size), size)
  {
    if dict != target {
      FinderSound(dict, size);
      ScanCanonical(dict, Finder(dict, size), target, size, 0, "");
    }
  }

  /** With blocks of two or more characters the loop never ends holding a buffer. */
  lemma {:induction false} ScanLeavesNothing(find: Matcher, target: string, size: nat, i: nat, buf: string)
    requires size >= 2 && i <= |target| && Advances(find, size)
    requires |buf| == 0 || i < |target|
    decreases |target| - i
    ensures Scan(find, target, size, i, buf, false) == Scan(find, target, size, i, buf, true)
  {
    if i < |target| && |target| - i >= size {
      if find(target[i..]).None? {
        ScanUnfoldMiss(find, target, size, i, buf, false);
        ScanUnfoldMiss(find, target, size, i, buf, true);
        ScanLeavesNothing(find, target, size, i + 1, buf + [target[i]]);
      } else {
        var m := find(target[i..]).value;
        ScanUnfoldHit(find, target, size, i, buf, false, i + |m.text|);
        ScanUnfoldHit(find, target, size, i, buf, true, i + |m.text|);
        ScanLeavesNothing(find, target, size, i + |m.text|, "");
      }
    }
  }

  /** For every block size but 1 the source's encoder and the corrected one agree. */
  lemma AsWrittenAgrees(dict: string, target: string, size: nat)
    requires size >= 2
    ensures EncodeAsWritten(dict, target, size) == EncodeSpec(dict, target, size)
  {
    if dict != target {
      FinderSound(dict, size);
      ScanLeavesNothing(Finder(dict, size), target, size, 0, "");
    }
  }

  /**
   * With block size 1 the source's encoder loses a trailing run of unmatched
   * characters: "b" against the dictionary "a" encodes to the empty delta,
   * which decodes to "a"; the corrected encoder emits the literal "b".
   */
  lemma AsWrittenDropsTail()
    ensures EncodeAsWritten("a", "b", 1) == []
    ensures DecodeSpec("a", EncodeAsWritten("a", "b", 1)) == "a"
    ensures EncodeSpec("a", "b", 1) == [Lit("b")]
  {
    var blocks := Partition("a", 1);
    assert blocks == [Block("a", 0)] by {
      assert "a"[0..1] == "a";
      assert PartitionFrom("a", 1, 1) == [];
    }
    assert Prefix("b", 1) == "b";
    assert FirstIndex(blocks, "b") == None;
    assert FindMatch("a", 1, "b") == None;
    var find := Finder("a", 1);
    FinderSound("a", 1);
    assert "b"[0..] == "b";
    assert find("b") == None;
    assert "" + ["b"[0]] == "b";
    ScanUnfoldMiss(find, "b", 1, 0, "", false);
    ScanUnfoldMiss(find, "b", 1, 0, "", true);
    assert Scan(find, "b", 1, 1, "b", true) == Flush("b") == [Lit("b")];
  }

  lemma JoinSnoc(parts: seq<string>, x: string)
    ensures Join(parts + [x]) == Join(parts) + x
  {
    assert (parts + [x])[..|parts|] == parts;
  }

  /** The encoder loop's invariant: what is emitted so far, followed by what `Scan` emits from here, is the whole output. */
  ghost predicate Emits(find: Matcher, target: string, size: nat, i: nat, buf: string, acc: seq<Tok>, whole: seq<Tok>)
    requires size >= 1 && i <= |target| && Advances(find, size)
  {
    acc + Scan(find, target, size, i, buf, true) == whole
  }

  /** The encoder loop on a miss: one more character joins the literal buffer. */
  lemma EncodeMissStep(find: Matcher, target: string, size: nat, i: nat, buf: string, acc: seq<Tok>, whole: seq<Tok>)
    requires size >= 1 && i < |target| && |target| - i >= size && Advances(find, size)
    requires find(target[i..]).None?
    requires Emits(find, target, size, i, buf, acc, whole)
    ensures Emits(find, target, size, i + 1, buf + [target[i]], acc, whole)
  {
    ScanUnfoldMiss(find, target, size, i, buf, true);
  }

  /**
   * The encoder loop on a hit: with the buffer flushed (if it held anything)
   * and the copy pushed, the cursor moves past the match with an empty buffer.
   */
  lemma EncodeHitStep(find: Matcher, target: string, size: nat, i: nat, buf: string, acc: seq<Tok>, whole: seq<Tok>,
                      m: Block, acc': seq<Tok>, buf': string, i': int)
    requires size >= 1 && i < |target| && |target| - i >= size && Advances(find, size)
    requires find(target[i..]) == Some(m)
    requires Emits(find, target, size, i, buf, acc, whole)
    requires acc' == (if |buf| > 0 then acc + [Lit(buf)] else acc) + [Num(m.offset)] + [Num(|m.text|)]
    requires buf' == "" && i' == i + |m.text|
    ensures size <= |m.text| && 0 <= i' <= |target|
    ensures Emits(find, target, size, i', buf', acc', whole)
  {
    ScanUnfoldHit(find, target, size, i, buf, true, i');
    assert Scan(find, target, size, i', buf', true) == Scan(find, target, size, i', "", true);
    PushCopy(acc, buf, m.offset, |m.text|, Scan(find, target, size, i', "", true));
  }

  /** The pushes of a hit, regrouped: the optional literal, then offset and length, then the rest. */
  lemma PushCopy(acc: seq<Tok>, buf: string, offset: nat, len: nat, rest: seq<Tok>)
    ensures (if |buf| > 0 then acc + [Lit(buf)] else acc) + [Num(offset)] + [Num(len)] + rest
         == acc + (Flush(buf) + [Num(offset), Num(len)] + rest)
  {
    if |buf| == 0 {
      assert Flush(buf) + [Num(offset), Num(len)] + rest == [Num(offset)] + [Num(len)] + rest;
    }
  }

  /** The encoder loop at its tail rule: the buffer and the short rest go out as one literal. */
  lemma EncodeTailStep(find: Matcher, target: string, size: nat, i: nat, buf: string, acc: seq<Tok>, whole: seq<Tok>)
    requires size >= 1 && i < |target| && |target| - i < size && Advances(find, size)
    requires Emits(find, target, size, i, buf, acc, whole)
    ensures acc + [Lit(buf + target[i..|target|])] == whole
  {
    assert target[i..|target|] == target[i..];
  }

  /** The encoder after its loop ran off the end of the target: the closing flush completes the output. */
  lemma EncodeEndStep(find: Matcher, target: string, size: nat, buf: string, acc: seq<Tok>, whole: seq<Tok>)
    requires size >= 1 && Advances(find, size)
    requires Emits(find, target, size, |target|, buf, acc, whole)
    ensures (if |buf| > 0 then acc + [Lit(buf)] else acc) == whole
  {
    if |buf| == 0 {
      assert acc + [] == acc;
    }
  }

  /**
   * The hasher tracking of the encoder loop: `last` is the window hashed so
   * far, and `final` the one hashed last once the loop is done.
   */
  ghost predicate Tracks(find: Matcher, target: string, size: nat, i: nat, last: Option<nat>, final: Option<nat>)
    requires size >= 1 && i <= |target| && Advances(find, size)
  {
    final == (if LastWindowFrom(find, target, size, i).Some? then LastWindowFrom(find, target, size, i) else last)
  }

  /** A miss or a hit at `i`, after hashing the window at `i`, moves the tracking on to `next`. */
  lemma TrackStep(find: Matcher, target: string, size: nat, i: nat, next: nat, last: Option<nat>, final: Option<nat>)
    requires size >= 1 && i < |target| && |target| - i >= size && Advances(find, size)
    requires next == (match find(target[i..]) case None => i + 1 case Some(m) => i + |m.text|)
    requires Tracks(find, target, size, i, last, final)
    ensures next <= |target| && Tracks(find, target, size, next, Some(i), final)
  {
  }

  /** Under the tail rule, or at the end, no window is hashed any more. */
  lemma TrackDone(find: Matcher, target: string, size: nat, i: nat, last: Option<nat>, final: Option<nat>)
    requires size >= 1 && i <= |target| && |target| - i < size && Advances(find, size)
    requires Tracks(find, target, size, i, last, final)
    ensures final == last
  {
  }

  /** `find` answers for `t` what the dictionary's lookup answers. */
  ghost predicate FindsAs(find: Matcher, dict: string, size: nat, t: string)
    requires size >= 1
  {
    find(t) == FindMatch(dict, size, t)
  }

  /** `find` is the dictionary's lookup, everywhere. */
  ghost predicate IsFinder(find: Matcher, dict: string, size: nat)
    requires size >= 1
  {
    forall t :: FindsAs(find, dict, size, t)
  }

  /**
   * The matcher of `EncodeSpec`, seen only through its contract: the encoder
   * loop reasons about `Scan` without unfolding the dictionary lookup.
   */
  ghost method EncodeMatcher(dict: string, size: nat) returns (find: Matcher)
    requires size >= 1
    ensures Advances(find, size)
    ensures IsFinder(find, dict, size)
  {
    find := Finder(dict, size);
    FinderSound(dict, size);
    forall t
      ensures FindsAs(find, dict, size, t)
    {
    }
  }

  /** Two matchers that agree everywhere scan alike. */
  lemma {:induction false} ScanAgree(f: Matcher, g: Matcher, target: string, size: nat, i: nat, buf: string, flushAtEnd: bool)
    requires size >= 1 && i <= |target| && Advances(f, size) && Advances(g, size)
    requires forall t :: f(t) == g(t)
    decreases |target| - i
    ensures Scan(f, target, size, i, buf, flushAtEnd) == Scan(g, target, size, i, buf, flushAtEnd)
  {
    if i < |target| && |target| - i >= size {
      assert f(target[i..]) == g(target[i..]);
      match f(target[i..])
      case None =>
        ScanAgree(f, g, target, size, i + 1, buf + [target[i]], flushAtEnd);
      case Some(m) =>
        ScanAgree(f, g, target, size, i + |m.text|, "", flushAtEnd);
    }
  }

  /** Two matchers that agree everywhere hash the same last window. */
  lemma {:induction false} LastWindowAgree(f: Matcher, g: Matcher, target: string, size: nat, i: nat)
    requires size >= 1 && i <= |target| && Advances(f, size) && Advances(g, size)
    requires forall t :: f(t) == g(t)
    decreases |target| - i
    ensures LastWindowFrom(f, target, size, i) == LastWindowFrom(g, target, size, i)
  {
    if |target| - i >= size {
      assert f(target[i..]) == g(target[i..]);
      match f(target[i..])
      case None =>
        LastWindowAgree(f, g, target, size, i + 1);
      case Some(m) =>
        LastWindowAgree(f, g, target, size, i + |m.text|);
    }
  }

  /** A matcher that is the dictionary's lookup hashes the last window `LastWindow` names. */
  lemma MatcherLastWindow(find: Matcher, dict: string, target: string, size: nat)
    requires size >= 1 && dict != target && Advances(find, size) && IsFinder(find, dict, size)
    ensures LastWindowFrom(find, target, size, 0) == LastWindow(dict, target, size)
  {
    FinderSound(dict, size);
    forall t
      ensures find(t) == Finder(dict, size)(t)
    {
      assert FindsAs(find, dict, size, t);
    }
    LastWindowAgree(find, Finder(dict, size), target, size, 0);
  }

  /** A matcher that is the dictionary's lookup encodes as `EncodeSpec` does. */
  lemma MatcherEncodes(find: Matcher, dict: string, target: string, size: nat)
    requires size >= 1 && dict != target && Advances(find, size) && IsFinder(find, dict, size)
    ensures Scan(find, target, size, 0, "", true) == EncodeSpec(dict, target, size)
  {
    FinderSound(dict, size);
    forall t
      ensures find(t) == Finder(dict, size)(t)
    {
      assert FindsAs(find, dict, size, t);
    }
    ScanAgree(find, Finder(dict, size), target, size, 0, "", true);
  }


  /**
   * What `getMatch` returns for the window at `i`, looked up by the window's
   * hash in the index of the dictionary's blocks, is what `find` finds there.
   */
  lemma GetMatchFinds(find: Matcher, dict: string, size: nat, base: int, modulus: int, target: string, i: nat, h: int, found: Option<Block>)
    requires size >= 1 && modulus >= 1 && i + size <= |target|
    requires IsFinder(find, dict, size)
    requires h == PolyHash(target[i..i + size], base, modulus)
    requires found == MatchSpec(Index(Partition(dict, size), base, modulus), Some(dict), h, size, target[i..])
    ensures found == find(target[i..])
  {
    assert FindsAs(find, dict, size, target[i..]);
    WindowPrefix(target, i, size);
    LookupByHash(Partition(dict, size), dict, base, modulus, size, target[i..]);
  }

  /** The window one to the right: drop the first character, append the next one. */
  lemma WindowSlide(s: string, i: nat, n: nat)
    requires 1 <= i && 1 <= n && i + n <= |s|
    ensures s[i..i + n] == s[i - 1..i - 1 + n][1..] + [s[i + (n - 1)]]
  {
  }

  /** The window at `i` is the `n`-prefix of the suffix at `i`. */
  lemma WindowPrefix(s: string, i: nat, n: nat)
    requires i + n <= |s|
    ensures Prefix(s[i..], n) == s[i..i + n]
  {
  }

  /** A well-formed delta that starts with a copy: the slice, then the rest after the length. */
  lemma ReplayCopy(dict: string, toks: seq<Tok>)
    requires |toks| >= 1 && toks[0].Num? && WellFormed(dict, toks)
    ensures |toks| >= 2 && toks[1].Num? && toks[0].n + toks[1].n <= |dict|
    ensures WellFormed(dict, toks[2..])
    ensures Replay(dict, toks) == dict[toks[0].n..toks[0].n + toks[1].n] + Replay(dict, toks[2..])
  {
  }

  /** One literal of the decoder loop: pushed as it is. */
  lemma DecodeLiteralStep(dict: string, diff: seq<Tok>, i: nat, output: seq<string>)
    requires i < |diff| && diff[i].Lit? && WellFormed(dict, diff[i..])
    ensures WellFormed(dict, diff[i + 1..])
    ensures Join(output + [diff[i].s]) + Replay(dict, diff[i + 1..]) == Join(output) + Replay(dict, diff[i..])
  {
    var rest := diff[i..];
    assert rest[1..] == diff[i + 1..];
    JoinSnoc(output, diff[i].s);
    var done, lit, rest' := Join(output), diff[i].s, Replay(dict, diff[i + 1..]);
    assert (done + lit) + rest' == done + (lit + rest');
  }

  /** One copy of the decoder loop: an offset and a length, pushed as the dictionary slice. */
  lemma DecodeCopyStep(dict: string, diff: seq<Tok>, i: nat, output: seq<string>)
    requires i < |diff| && diff[i].Num? && WellFormed(dict, diff[i..])
    ensures i + 1 < |diff| && diff[i + 1].Num? && diff[i].n + diff[i + 1].n <= |dict|
    ensures WellFormed(dict, diff[i + 2..])
    ensures Join(output + [dict[diff[i].n..diff[i].n + diff[i + 1].n]]) + Replay(dict, diff[i + 2..])
         == Join(output) + Replay(dict, diff[i..])
  {
    var rest := diff[i..];
    ReplayCopy(dict, rest);
    assert rest[0] == diff[i] && rest[1] == diff[i + 1] && rest[2..] == diff[i + 2..];
    var piece := dict[diff[i].n..diff[i].n + diff[i + 1].n];
    JoinSnoc(output, piece);
    var done, rest' := Join(output), Replay(dict, diff[i + 2..]);
    assert (done + piece) + rest' == done + (piece + rest');
  }

  /** `diffable.Vcdiff`: a hasher, a dictionary and a block size, reused across calls. */
  class Vcdiff {
    const hasher: RollingHash
    const dictionary: Dictionary
    var blockSize: nat

    /** vcdiff.js:220-225: a fresh dictionary and hasher, block size 20. */
    constructor ()
      ensures fresh(hasher) && fresh(dictionary) && blockSize == 20
      ensures hasher.primeBase == 257 && hasher.primeMod == 1000000007 && hasher.Valid()
      ensures hasher.lastPower == 0 && hasher.lastString == "" && hasher.lastHash == 0
      ensures dictionary.buckets == map[] && dictionary.dictText == null
    {
      dictionary := new Dictionary();
      blockSize := 20;
      hasher := new RollingHash();
    }

    /**
     * The hash of the window of `size` characters at `i` (vcdiff.js:246-255):
     * hashed afresh after a match or at the start (`currentHash == -1`), rolled
     * one character on from the previous window otherwise.
     */
    method WindowHash(target: string, i: nat, size: nat, currentHash: int) returns (h: int)
      requires 1 <= size && i + size <= |target| && hasher.Configured()
      requires currentHash != -1 ==>
        hasher.Valid() && 1 <= i && hasher.lastString == target[i - 1..i - 1 + size]
      modifies hasher`lastPower, hasher`lastString, hasher`lastHash
      ensures h == PolyHash(target[i..i + size], hasher.primeBase, hasher.primeMod)
      ensures hasher.Valid() && hasher.lastString == target[i..i + size] && hasher.lastHash == h
    {
      if currentHash == -1 {
        h := hasher.Hash(target[i..i + size]);
      } else {
        WindowSlide(target, i, size);
        h := hasher.NextHash(target[i + (size - 1)]);
        if h < 0 {
          // The recomputation at vcdiff.js:252-254 is unreachable: NextHash never goes negative.
          assert false;
        }
      }
    }

    /**
     * The hasher as the encoder loop leaves it: as it found it while no
     * window has been hashed, otherwise holding the window at `last`.
     */
    ghost predicate Holds(target: string, size: nat, last: Option<nat>, power: int, window: string, hash: int)
      reads hasher
    {
      match last
      case None => hasher.lastPower == power && hasher.lastString == window && hasher.lastHash == hash
      case Some(j) => hasher.Valid() && j + size <= |target| && hasher.lastString == target[j..j + size]
    }

    /** The dictionary indexes the blocks of `dict`, and `find` is its lookup. */
    ghost predicate Ready(find: Matcher, dict: string, size: nat, base: int, modulus: int)
      requires size >= 1 && modulus >= 1
      reads this, dictionary
    {
      IsFinder(find, dict, size) &&
      dictionary.dictText != null && dictionary.dictText.originalText == dict &&
      dictionary.buckets == Index(Partition(dict, size), base, modulus)
    }

    /**
     * The dictionary lookup of the window at `i` (vcdiff.js:257), seen by the
     * encoder loop as the answer of its matcher `find`.
     */
    method MatchAt(ghost find: Matcher, ghost dict: string, ghost base: int, ghost modulus: int,
                   target: string, i: nat, size: nat, h: int) returns (found: Option<Block>)
      requires size >= 1 && modulus >= 1 && i + size <= |target|
      requires Ready(find, dict, size, base, modulus)
      requires h == PolyHash(target[i..i + size], base, modulus)
      ensures found == find(target[i..])
    {
      found := dictionary.GetMatch(h, size, target[i..]);
      GetMatchFinds(find, dict, size, base, modulus, target, i, h, found);
    }

    /**
     * One probe of the encoder loop (vcdiff.js:248-256): hash the window at
     * `i`, fresh or rolled on from the window at `i - 1`, and look it up.
     */
    method Probe(ghost find: Matcher, ghost dict: string, target: string, i: nat, size: nat, currentHash: int,
                 ghost last: Option<nat>, ghost final: Option<nat>,
                 ghost power: int, ghost window: string, ghost hash: int)
      returns (h: int, found: Option<Block>)
      requires 1 <= size && i + size <= |target| && hasher.Configured() && Advances(find, size)
      requires Ready(find, dict, size, hasher.primeBase, hasher.primeMod)
      requires Holds(target, size, last, power, window, hash)
      requires Tracks(find, target, size, i, last, final)
      requires currentHash != -1 ==> 1 <= i && last == Some(i - 1)
      modifies hasher`lastPower, hasher`lastString, hasher`lastHash
      ensures h == PolyHash(target[i..i + size], hasher.primeBase, hasher.primeMod) && h != -1
      ensures Holds(target, size, Some(i), power, window, hash)
      ensures found == find(target[i..])
      ensures found.Some? ==> i + |found.value.text| <= |target|
      ensures Tracks(find, target, size, if found.None? then i + 1 else i + |found.value.text|, Some(i), final)
    {
      h := WindowHash(target, i, size, currentHash);
      found := MatchAt(find, dict, hasher.primeBase, hasher.primeMod, target, i, size, h);
      TrackStep(find, target, size, i, if found.None? then i + 1 else i + |found.value.text|, last, final);
    }

    /**
     * The rest of one pass of the loop of vcdiff.js:243-271 once the window
     * at `i` was looked up: a miss moves one character into the literal
     * buffer; a hit flushes the buffer, pushes the copy and skips the match.
     */
    static method Advance(ghost find: Matcher, target: string, size: nat, i: nat, found: Option<Block>,
                          addBuffer: string, diffString: seq<Tok>, ghost whole: seq<Tok>)
      returns (i': nat, addBuffer': string, diffString': seq<Tok>)
      requires size >= 1 && i < |target| && |target| - i >= size && Advances(find, size)
      requires found == find(target[i..])
      requires Emits(find, target, size, i, addBuffer, diffString, whole)
      ensures i < i' <= |target| && i' == (if found.None? then i + 1 else i + |found.value.text|)
      ensures Emits(find, target, size, i', addBuffer', diffString', whole)
    {
      addBuffer', diffString' := addBuffer, diffString;
      if found.None? {
        EncodeMissStep(find, target, size, i, addBuffer, diffString, whole);
        addBuffer' := addBuffer + [target[i]];
        i' := i + 1;
      } else {
        if |addBuffer| > 0 {
          diffString' := diffString' + [Lit(addBuffer)];
          addBuffer' := "";
        }
        diffString' := diffString' + [Num(found.value.offset)];
        diffString' := diffString' + [Num(|found.value.text|)];
        i' := i + |found.value.text|;
        EncodeHitStep(find, target, size, i, addBuffer, diffString, whole, found.value, diffString', "", i');
      }
    }

    /**
     * `encode`, with the end-of-loop flush that block size 1 needs. The
     * dictionary is rebuilt over `dict` unless `dict == target`.
     */
    method Encode(dict: string, target: string) returns (diffString: seq<Tok>)
      requires blockSize >= 1 && hasher.Configured()
      modifies dictionary`buckets, dictionary`dictText, hasher`lastPower, hasher`lastString, hasher`lastHash
      ensures diffString == EncodeSpec(dict, target, blockSize)
      ensures dict == target ==> unchanged(dictionary, hasher)
      ensures dict != target ==>
        dictionary.dictText != null && fresh(dictionary.dictText) &&
        dictionary.dictText.originalText == dict &&
        dictionary.dictText.blockSize == blockSize &&
        dictionary.dictText.blocks == Partition(dict, blockSize) &&
        dictionary.buckets == Index(Partition(dict, blockSize), hasher.primeBase, hasher.primeMod)
      ensures old(hasher.Valid()) ==> hasher.Valid()
      ensures dict != target && LastWindow(dict, target, blockSize).Some? ==>
        var j := LastWindow(dict, target, blockSize).value;
        hasher.Valid() && j + blockSize <= |target| && hasher.lastString == target[j..j + blockSize]
      ensures dict != target && LastWindow(dict, target, blockSize).None? && |Partition(dict, blockSize)| > 0 ==>
        hasher.Valid() && hasher.lastString == Partition(dict, blockSize)[|Partition(dict, blockSize)| - 1].text
      ensures dict != target && LastWindow(dict, target, blockSize).None? && |Partition(dict, blockSize)| == 0 ==>
        unchanged(hasher)
    {
      if dict == target {
        return [];
      }
      var bt := new BlockText(dict, blockSize);
      dictionary.PopulateDictionary(bt, hasher);
      ghost var power, window, hash := hasher.lastPower, hasher.lastString, hasher.lastHash;
      ghost var find := EncodeMatcher(dict, blockSize);
      diffString := EncodeTarget(find, dict, target);
      MatcherEncodes(find, dict, target, blockSize);
      MatcherLastWindow(find, dict, target, blockSize);
      assert Holds(target, blockSize, LastWindow(dict, target, blockSize), power, window, hash);
    }

    /**
     * The loop of `encode` (vcdiff.js:241-271) over a populated dictionary,
     * with the closing flush: it emits what `Scan` emits from the start of
     * the target with an empty buffer.
     */
    method EncodeTarget(ghost find: Matcher, ghost dict: string, target: string) returns (diffString: seq<Tok>)
      requires blockSize >= 1 && hasher.Configured() && Advances(find, blockSize)
      requires Ready(find, dict, blockSize, hasher.primeBase, hasher.primeMod)
      modifies hasher`lastPower, hasher`lastString, hasher`lastHash
      ensures diffString == Scan(find, target, blockSize, 0, "", true)
      ensures Holds(target, blockSize, LastWindowFrom(find, target, blockSize, 0),
                    old(hasher.lastPower), old(hasher.lastString), old(hasher.lastHash))
    {
      var size := blockSize;
      ghost var base, modulus := hasher.primeBase, hasher.primeMod;
      ghost var whole := Scan(find, target, size, 0, "", true);
      ghost var final := LastWindowFrom(find, target, size, 0);
      ghost var last: Option<nat> := None;
      ghost var power, window, hash := hasher.lastPower, hasher.lastString, hasher.lastHash;
      diffString := [];
      assert Emits(find, target, size, 0, "", diffString, whole);
      var addBuffer := "";
      var targetLength := |target|;
      var targetIndex := 0;
      var currentHash := -1;
      while targetIndex < targetLength
        invariant 0 <= targetIndex <= targetLength
        invariant currentHash != -1 ==> 1 <= targetIndex && last == Some(targetIndex - 1)
        invariant Holds(target, size, last, power, window, hash)
        invariant Emits(find, target, size, targetIndex, addBuffer, diffString, whole)
        invariant Tracks(find, target, size, targetIndex, last, final)
      {
        if targetLength - targetIndex < size {
          TrackDone(find, target, size, targetIndex, last, final);
          EncodeTailStep(find, target, size, targetIndex, addBuffer, diffString, whole);
          diffString := diffString + [Lit(addBuffer + target[targetIndex..targetLength])];
          // Cleared so that the closing flush below does not push it a second time.
          addBuffer := "";
          break;
        }
        var found;
        currentHash, found := Probe(find, dict, target, targetIndex, size, currentHash,
                                    last, final, power, window, hash);
        last := Some(targetIndex);
        targetIndex, addBuffer, diffString := Advance(find, target, size, targetIndex, found, addBuffer, diffString, whole);
        if found.Some? {
          currentHash := -1;
        }
      }
      if targetIndex == targetLength {
        TrackDone(find, target, size, targetIndex, last, final);
        EncodeEndStep(find, target, size, addBuffer, diffString, whole);
      }
      assert Holds(target, size, final, power, window, hash);
      if |addBuffer| > 0 {
        diffString := diffString + [Lit(addBuffer)];
      }
    }

    /** `decode`: the for loop of vcdiff.js:285-292 over a well-formed delta. */
    method Decode(dict: string, diff: seq<Tok>) returns (r: string)
      requires WellFormed(dict, diff)
      ensures r == DecodeSpec(dict, diff)
    {
      if |diff| == 0 {
        return dict;
      }
      var output: seq<string> := [];
      var i := 0;
      while i < |diff|
        invariant 0 <= i <= |diff|
        invariant WellFormed(dict, diff[i..])
        invariant Join(output) + Replay(dict, diff[i..]) == Replay(dict, diff)
      {
        match diff[i] {
          case Num(o) =>
            DecodeCopyStep(dict, diff, i, output);
            output := output + [dict[o..o + diff[i + 1].n]];
            i := i + 1;
          case Lit(s) =>
            DecodeLiteralStep(dict, diff, i, output);
            output := output + [s];
        }
        i := i + 1;
      }
      assert diff[0..] == diff;
      r := Join(output);
    }
  }
}

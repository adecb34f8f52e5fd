# vcdiff.js in Dafny

A model of the delta encoder of vcdiff.js, with proofs about it. The encoder describes a target text as a flat array. Each element of the array is one of two things:

- a literal string;
- an (offset, length) pair that copies a span of a dictionary text.

The model covers four parts of `vcdiff.js`:

- **`RollingHash`** (`rolling_hash.dfy`): a polynomial hash over a window of characters.
  - `hash` hashes the whole window.
  - `nextHash` slides the window one character in constant time.
  - `moduloExp` is the modular power both of them use.
- **`Block` and `BlockText`** (`blocks.dfy`): a block is a span of text and its offset. A block text cuts a text into consecutive blocks of a fixed size; the last block may be shorter.
- **`Dictionary`** (`dictionary.dfy`):
  - hash buckets of blocks, filled by `put` and `populateDictionary`;
  - `getMatch`, which finds the first block in a bucket whose text starts the target and extends it greedily against the dictionary text.
- **`Vcdiff`** (`codec.dfy`):
  - `encode`, the greedy loop that hashes each window of the target, looks it up, and emits copies and literals;
  - `decode`, which replays a delta against the dictionary.

`RollingHash`, `BlockText`, `Dictionary` and `Vcdiff` are Dafny `class`es. `Block` is a `datatype`: nothing changes a block's fields once it is built, and its one mutable field, `nextBlock`, is never set (see Left out). Methods that update fields say so in `modifies` clauses, and their loops carry invariants. Each method is proved against a pure specification function:

| method | specification function |
|---|---|
| `Hash` | `PolyHash` |
| `BlockText` constructor | `Partition` |
| `PopulateDictionary` | `Index` |
| `GetMatch` | `MatchSpec` |
| `Encode` | `EncodeSpec`, through `Scan` |
| `Decode` | `DecodeSpec` |

The properties of the source are proved as lemmas about those functions. The main results are:

- the partition law;
- the bucket law;
- the soundness and maximality of matches;
- the canonical shape of every delta;
- the round trip `decode(d, encode(d, t)) == t` for `t != ""` or `t == d`.

`scenarios.dfy` restates the concrete cases of `tests/vcdiff_srv.js` about the specification functions.

Integers are unbounded. JavaScript's `%` keeps the sign of the dividend. It is modelled as `JsRem`, and `JsRemNormalised` proves that the "add the modulus if negative" fix-up of `nextHash` turns it into Dafny's Euclidean `%`.

## Model

| member | source | states |
|---|---|---|
| ModArith.JsRem | vcdiff.js:41 | JavaScript's `%` for a positive modulus: the remainder truncated toward zero, so it keeps the sign of the dividend (also used at vcdiff.js:54-55 and 71) |
| ModArith.JsRemNormalised | vcdiff.js:71-74 | JavaScript's remainder followed by "add the modulus if negative" is the Euclidean remainder, so the rolled hash lands in [0, modulus) |
| Rolling.Code | vcdiff.js:69-70 | what `charCodeAt(0)` reads for a character, here and in `hash` at vcdiff.js:54: its UTF-16 code unit, the character's code |
| Rolling.PolyHash | vcdiff.js:53-56 | a window's hash lies in [0, modulus) |
| Rolling.RollingHash.constructor | vcdiff.js:22-28 | base 257, modulus 1000000007, empty window, power and hash 0; the cache is consistent |
| Rolling.RollingHash.ModuloExp | vcdiff.js:38-44 | returns 1 when the power is 0 or less, otherwise base^power mod modulo |
| Rolling.RollingHash.Hash | vcdiff.js:50-61 | the result is the sum of code(s[i])·base^(L-1-i) reduced mod M; it caches the window, that hash and base^(L-1) mod M; base and modulus unchanged |
| Rolling.HashStep | vcdiff.js:53-56 | one pass of the accumulator loop adds the next weighted code and keeps the partial sum reduced |
| Rolling.PolySnoc | vcdiff.js:50-56 | appending a character multiplies the polynomial by the base and adds the character's code |
| Rolling.PowMod | vcdiff.js:38-44 | the value of `moduloExp`: 1, unreduced, when the loop runs no pass (a power of 0 or less), otherwise base^power reduced mod the modulus |
| Rolling.PowModCongruent | vcdiff.js:38-44 | `moduloExp`'s value is congruent to the true power |
| Rolling.RollStep | vcdiff.js:67-74 | subtracting the first code times the cached power, multiplying by the base, adding the new code and reducing gives exactly the hash of the slid window |
| Rolling.RollingHash.NextHash | vcdiff.js:67-80 | the window becomes old window[1..] plus the new character; the result equals a fresh hash of that window and is never negative; the cached power is kept |
| Blocks.PartitionFrom | vcdiff.js:128-132 | the blocks the constructor loop pushes from position i on: nothing once i reaches the length, otherwise the span from i to min(i + size, length) at offset i, then the blocks from i + size |
| Blocks.Partition | vcdiff.js:123-133 | the block sequence of `new BlockText(text, size)`: the pushes of the loop from position 0 |
| Blocks.BlockText.constructor | vcdiff.js:123-133 | the blocks are exactly `Partition(text, size)`: the constructor loop pushes the span from i to min(i + size, length) at offset i |
| Blocks.PartitionCount | vcdiff.js:128-132 | the block count is ceil(length / size) |
| Blocks.PartitionAt | vcdiff.js:129-131 | block k starts at k·size and ends at min(k·size + size, length) |
| Blocks.PartitionLaw | vcdiff.js:123-133 | count ceil(length / size); block k is the span at k·size; every block but the last has length size; the last has the remainder |
| Blocks.PartitionConcat | vcdiff.js:128-132 | joining the block texts in order gives the text back |
| Blocks.PartitionIndexed | vcdiff.js:131 | every block is the span of the text at its offset |
| Dictionaries.Prefix | vcdiff.js:188 | `s.substring(0, k)` for k >= 0: the first k characters, or all of `s` when it is shorter |
| Dictionaries.Suffix | vcdiff.js:190-191 | `s.substring(k)` for k >= 0: what follows the first k characters, empty once k passes the end |
| Dictionaries.CommonPrefixLength | vcdiff.js:195-199 | the agreement length: both sides agree up to it, and it stops at the end of either side or at the first mismatch |
| Dictionaries.CommonPrefixUnique | vcdiff.js:196-199 | the pointer the while loop stops at is that agreement length |
| Dictionaries.FirstIndex | vcdiff.js:187-188 | none exactly when no block has the text; otherwise the index of a block with that text, where no earlier block has it |
| Dictionaries.Index | vcdiff.js:168-175 | the bucket map `populateDictionary` builds: starting from no buckets, each block is put under the hash of its text, in block order |
| Dictionaries.Insert | vcdiff.js:156-161 | the key set grows by the key; the key's bucket gains the block at its end, or is created as that block alone; every other bucket is unchanged |
| Dictionaries.Filter | vcdiff.js:172-173 | holds exactly the blocks whose text hashes to the given value |
| Dictionaries.FilterSnoc | vcdiff.js:172-173 | one more block appends to the filter only when its hash matches |
| Dictionaries.IndexBucket | vcdiff.js:168-175 | after populating, a bucket exists for h exactly when some block hashes to h, and it holds those blocks in block order |
| Dictionaries.FirstWithText | vcdiff.js:187-188 | the first block of a bucket whose text equals the given window, none when no block does |
| Dictionaries.FirstWithTextFiltered | vcdiff.js:185-188 | dropping blocks with other hashes does not change the first block with the target's text |
| Dictionaries.FirstWithTextTail | vcdiff.js:187-188 | a first block without the text is skipped |
| Dictionaries.LookupByHash | vcdiff.js:168-188 | a lookup under the hash of the target's window finds what a scan of all blocks finds: hash collisions never hide a block |
| Dictionaries.GetMatchMiss | vcdiff.js:185-210 | the result is null exactly when there is no bucket for the hash or no block in it has the target's first `blockSize` characters |
| Dictionaries.LookupHit | vcdiff.js:187-205 | when block i is the first with the target's window, the match is block i extended, or block i itself without a dictionary text |
| Dictionaries.LookupFirst | vcdiff.js:187-206 | a hit keeps the offset of the first equal-text block and starts with its text; without a dictionary text it is that block |
| Dictionaries.Extend | vcdiff.js:190-200 | the block grown by the common prefix of the dictionary text after offset + size and the target after size, at the block's offset |
| Dictionaries.Lookup | vcdiff.js:185-208 | the scan of one bucket: none when no block has the target's first `size` characters; otherwise the first such block, extended when a dictionary text is set |
| Dictionaries.MatchSpec | vcdiff.js:183-211 | the value of `getMatch`: none without a bucket for the hash, otherwise the lookup in that bucket |
| Dictionaries.ExtendMaximal | vcdiff.js:190-200 | the extension agrees with both the dictionary text after offset + size and the target after size, and stops at the end of either or at the first mismatch |
| Dictionaries.ExtendSound | vcdiff.js:190-200 | the extended text is a prefix of the target, and a span of the dictionary text at the block's offset when the block was one |
| Dictionaries.LookupSound | vcdiff.js:187-205 | a hit is a prefix of the target, at least min(size, target length) long, and a span of the dictionary text when every block is |
| Dictionaries.Dictionary.Orig | vcdiff.js:189-190 | the `this.dictionaryText !== null` test and `getOriginalText()`: none exactly when no block text was populated, otherwise that block text's original text |
| Dictionaries.Dictionary.constructor | vcdiff.js:149-152 | no buckets, no dictionary text |
| Dictionaries.Dictionary.Put | vcdiff.js:156-161 | the buckets become `Insert(old buckets, key, block)` |
| Dictionaries.Dictionary.PopulateDictionary | vcdiff.js:168-175 | resets the buckets to exactly `Index(blocks)`, each block put under its hash in order; records the block text; leaves the hasher holding the last block's window |
| Dictionaries.Dictionary.GetMatch | vcdiff.js:183-211 | the result is `MatchSpec` of the current buckets and dictionary text; the dictionary is unchanged |
| Dictionaries.Dictionary.FindInBucket | vcdiff.js:186-208 | the scan of one bucket returns the first equal-text block, extended when a dictionary text is set |
| Dictionaries.Dictionary.ExtendMatch | vcdiff.js:190-200 | the pointer loop returns the block extended by the common prefix of the two remainders |
| Codec.Scan | vcdiff.js:243-271 | the output of the encoder loop from cursor i with literal buffer b: the tail rule, then a miss (one character into the buffer) or a hit (flush, offset, length, skip); at the end the buffer is pushed only when the closing flush is on |
| Codec.EncodeAsWritten | vcdiff.js:233-273 | the source's `encode`: the empty delta for equal texts, otherwise the loop over the dictionary's matcher with no closing flush |
| Codec.EncodeSpec | vcdiff.js:233-273 | the corrected `encode`: the same loop with the closing flush |
| Codec.Replay | vcdiff.js:285-293 | the decoder's loop: a literal is output verbatim, a number and the one after it output that slice of the dictionary, and the pieces are joined in order |
| Codec.DecodeSpec | vcdiff.js:280-293 | the value of `decode`: the dictionary for the empty delta, otherwise the replay |
| Codec.LastWindowFrom | vcdiff.js:243-268 | the start of the last window the loop hashes from cursor i: none exactly when fewer than `size` characters remain at i (the tail rule fires, or i is the end and the loop stops); otherwise a window that lies inside the target |
| Codec.LastWindow | vcdiff.js:233-268 | the start of the last window `encode` hashes: none for equal texts, otherwise the last window of the loop over the dictionary's matcher |
| Codec.TrackStep | vcdiff.js:248-268 | after a window is hashed and looked up, the last window hashed from the next cursor on is the same as before the step |
| Codec.TrackDone | vcdiff.js:244-246 | once the tail rule fires or the target is exhausted, the window hashed last is the one already held |
| Codec.LastWindowAgree | vcdiff.js:256 | two matchers that agree everywhere hash the same last window |
| Codec.MatcherLastWindow | vcdiff.js:239-256 | the loop driven by the dictionary's lookup hashes last the window `LastWindow` names |
| Codec.FindMatch | vcdiff.js:239-256 | the match `getMatch` gives for the window at the start of a target, over the dictionary built from the blocks of `dict` and its text, hashes aside |
| Codec.Finder | vcdiff.js:256 | the encoder's matcher: the rest of the target mapped to `FindMatch` over `dict` |
| Codec.Flush | vcdiff.js:261-264 | the literal buffer as pushed on a hit: one literal when it is not empty, nothing otherwise |
| Codec.FindMatchSound | vcdiff.js:256 | a match for a full window is at least `size` long, a prefix of the rest of the target, and a span of the dictionary |
| Codec.FinderSound | vcdiff.js:256 | the encoder's matcher always advances and only emits real copies |
| Codec.ScanUnfoldMiss | vcdiff.js:257-259 | on a miss the loop moves one character into the buffer |
| Codec.ScanUnfoldHit | vcdiff.js:260-268 | on a hit the loop flushes the buffer, emits offset and length, and skips the match |
| Codec.CanonicalWellFormed | vcdiff.js:285-291 | a canonical delta is one the decoder can replay |
| Codec.ReplayPrefix | vcdiff.js:285-293 | replaying a literal or a copy pair and then the rest gives that piece followed by the rest's output |
| Codec.CanonicalPrefix | vcdiff.js:261-266 | a non-empty literal before a copy, or an in-range copy of at least `size`, keeps a delta canonical |
| Codec.ScanCanonical | vcdiff.js:243-271 | every delta the loop emits has non-empty literals, never two literals in a row, and in-range copies of at least `blockSize` characters |
| Codec.HitCanonical | vcdiff.js:260-268 | a flush and a copy in front of canonical output keep it canonical |
| Codec.ScanReplay | vcdiff.js:243-293 | what the loop emits from cursor i with buffer b decodes to b followed by the target from i |
| Codec.HitReplay | vcdiff.js:260-268 | a flush and a copy in front of output that replays to the tail replays to buffer, match and tail |
| Codec.RoundTrip | vcdiff.js:233-294 | `decode(d, encode(d, t)) == t` whenever `t` is not empty or equals `d`; the delta is always decodable |
| Codec.EncodeCanonical | vcdiff.js:233-273 | every delta `encode` emits is canonical |
| Codec.ScanLeavesNothing | vcdiff.js:243-271 | with a block size of 2 or more, the loop never ends with a buffer still held |
| Codec.AsWrittenAgrees | vcdiff.js:233-273 | for block sizes of 2 or more, the source's encoder and the corrected one emit the same delta |
| Codec.AsWrittenDropsTail | vcdiff.js:243-272 | with block size 1, the source's encoder turns "b" against the dictionary "a" into the empty delta, which decodes to "a"; the corrected encoder emits the literal "b" |
| Codec.Join | vcdiff.js:293 | `output.join('')`: the pieces concatenated in order, the empty string for none |
| Codec.JoinSnoc | vcdiff.js:293 | joining one more piece appends it |
| Codec.EncodeMissStep | vcdiff.js:257-259 | a miss keeps the loop invariant: emitted so far + what the scan emits from here = the whole delta |
| Codec.EncodeHitStep | vcdiff.js:260-268 | a hit keeps that invariant and moves the cursor past the match |
| Codec.PushCopy | vcdiff.js:261-266 | the pushes of a hit are the flush followed by the offset and the length |
| Codec.EncodeTailStep | vcdiff.js:244-246 | once fewer than `blockSize` characters remain, exactly one literal (buffer plus tail) completes the delta |
| Codec.EncodeEndStep | vcdiff.js:243-272 | when the loop runs off the end, pushing a held buffer completes the delta |
| Codec.ScanAgree | vcdiff.js:256 | two matchers that agree everywhere emit the same delta |
| Codec.MatcherEncodes | vcdiff.js:239-256 | the loop driven by the dictionary's lookup emits `EncodeSpec` |
| Codec.GetMatchFinds | vcdiff.js:249-256 | `getMatch` under a window's hash, over the populated dictionary, answers the encoder's matcher for that window |
| Codec.WindowSlide | vcdiff.js:251 | the next window is the previous one without its first character, plus `target[i + blockSize - 1]` |
| Codec.WindowPrefix | vcdiff.js:249 | the window at i is `target.substring(i, i + blockSize)` |
| Codec.ReplayCopy | vcdiff.js:286-288 | a copy at the front of a well-formed delta replays to its dictionary slice followed by the rest after the length |
| Codec.DecodeLiteralStep | vcdiff.js:289-291 | pushing a literal keeps the decoder invariant: joined output + replay of the rest = replay of all |
| Codec.DecodeCopyStep | vcdiff.js:286-288 | pushing a copy's slice and skipping its length keeps that invariant |
| Codec.Vcdiff.constructor | vcdiff.js:220-225 | a fresh dictionary with no buckets and no text, block size 20, and a fresh hasher with the default base and modulus and an empty cache (power 0, window "", hash 0) |
| Codec.Vcdiff.WindowHash | vcdiff.js:248-255 | returns the hash of the window at i, computed fresh or rolled from the previous window; the hasher then holds that window |
| Codec.Vcdiff.Probe | vcdiff.js:248-256 | hashes the window at i, fresh or rolled, and looks it up: the hash is the window's, the hasher then holds that window, and the match is the encoder's matcher result |
| Codec.Vcdiff.Advance | vcdiff.js:257-268 | a miss moves one character into the buffer and the cursor on by one; a hit flushes, pushes offset and length and skips the match; the loop invariant is kept |
| Codec.Vcdiff.MatchAt | vcdiff.js:256 | `getMatch` on the window's hash returns the encoder's matcher result for the rest of the target |
| Codec.Vcdiff.EncodeTarget | vcdiff.js:240-272 | the loop emits exactly `Scan(find, target, blockSize, 0, "", true)`; the hasher is left holding the last window the loop hashed, `LastWindowFrom(find, target, blockSize, 0)`, consistent with its hash and power, or is unchanged when no window is hashed |
| Codec.Vcdiff.Encode | vcdiff.js:233-273 | the result is `EncodeSpec(dict, target, blockSize)`: the empty delta if `dict == target` and nothing is touched; otherwise the dictionary is repopulated with the blocks of `dict` cut at the encoder's `blockSize`, and the hasher holds the window at `LastWindow(dict, target, blockSize)`, or the last block of `dict` when no window of the target is hashed, or is unchanged when `dict` is empty too |
| Codec.Vcdiff.Decode | vcdiff.js:280-294 | the result is `DecodeSpec`: the dictionary for the empty delta; otherwise literals verbatim and copies as dictionary slices, joined in order |
| Scenarios.HashValues | tests/vcdiff_srv.js:6-15 | `hash("abc")` with base 3 is 1266; `hash("abcabc")` with the defaults is 232878305 |
| Scenarios.OneBlock | tests/vcdiff_srv.js:28-33 | "abc" in blocks of 5 is the one block "abc" at 0 |
| Scenarios.ThreeBlocks | tests/vcdiff_srv.js:35-52 | "abcdefgh" in blocks of 3 is "abc"@0, "def"@3, "gh"@6; "abcdefghi" has three blocks |
| Scenarios.PutThenMatch | tests/vcdiff_srv.js:54-63 | after putting "abc"@0 under 1, hash 0 misses and hash 1 finds "abc"@0 |
| Scenarios.LongestMatch | tests/vcdiff_srv.js:65-88 | with "abc" under 1 and "def" under 2, "def" finds "def"@3 and "abcdef" extends to "abcdef"@0 |
| Scenarios.EncodeShortTargets | tests/vcdiff_srv.js:90-98 | block size 20: "d" → ["d"], "defghijk" → ["defghijk"]; equal texts → [] |
| Scenarios.ScanMissRun | vcdiff.js:257-259 | k misses in a row move k characters of the target into the buffer |
| Scenarios.EncodeCopyAfterLiteral | tests/vcdiff_srv.js:100 | `encode("abc", "defabc")` with block size 3 is ["def", 0, 3] |
| Scenarios.EncodeTwoCopies | tests/vcdiff_srv.js:102 | `encode("abcdef", "defghiabc")` with block size 3 is [3, 3, "ghi", 0, 3] |
| Scenarios.DecodeCopyAfterLiteral | tests/vcdiff_srv.js:125-128 | ["def", 0, 3] against "abc" decodes to "defabc" |
| Scenarios.DecodeTwoCopies | tests/vcdiff_srv.js:130-133 | [3, 3, "ghi", 0, 3] against "abcdef" decodes to "defghiabc" |

## Left out

- The export shim at vcdiff.js:298-303 (`window` / `module.exports`) is host plumbing.
- JavaScript numbers are doubles. `hash * primeBase` in `nextHash` can pass 2^53 and lose precision. The model uses unbounded integers.
- Rolling.RollingHash.Configured: the model requires a non-negative base and a positive modulus. `primeBase` and `primeMod` are public fields, but with a negative base JavaScript's sign-keeping `%` would make `hash` differ from the Euclidean polynomial, and a modulus of 0 has no remainder.
- `Block.nextBlock`, `setNextBlock` and `getNextBlock` (vcdiff.js:92, 105-115) are left out. Nothing calls `setNextBlock`, so the link is always null. The branches on it at vcdiff.js:189 and 201-205 therefore always take the null case. The getters of `Block` and `BlockText` are plain field reads.
- Blocks.BlockText.constructor: it requires a block size of at least 1, and so do `Codec.Vcdiff.Encode` and `Codec.Vcdiff.EncodeTarget`. With a block size of 0 or less and a non-empty text the loop at vcdiff.js:129 never ends, and `blockSize` is a public field of `Vcdiff` that callers could set so.
- Codec.Vcdiff.constructor: the source's `hasher` and `dictText` arguments are ignored by the source itself (vcdiff.js:220-224), so the model's constructor takes none.
- Codec.Vcdiff.Decode: it requires a well-formed delta, meaning numbers come in pairs that lie inside the dictionary. The source does not check this. On malformed input it clamps and truncates through `substring`, and the model does not reproduce that.
- `populateDictionary` takes any object with a `hash` method. The test's `FakeHash` hands out 1, 2, 3, … in turn. The model always passes the `RollingHash`. `Scenarios.LongestMatch` states the fake-hash case directly on the bucket map it produces.
- Rolling.RollingHash.NextHash: it requires a non-empty cached window. With an empty window the source reads `lastString[0]` as undefined and its `charCodeAt` call at vcdiff.js:68-69 throws a TypeError; the encoder never rolls before hashing a full window.
- Rolling.RollingHash.NextHash: it takes one character. The source takes a string: the hash uses its first code unit (vcdiff.js:70), but the window gets the whole string (vcdiff.js:76-77), so a longer string would make the window stop matching its hash. The encoder only ever passes one character (vcdiff.js:251).
- Characters are Dafny `char`s, whose codes stand for the UTF-16 code units `charCodeAt` reads. Surrogate pairs are not modelled.
- The recompute at vcdiff.js:252-254 is not modelled: `NextHash` is proved never negative, so the branch is dead. It would also have hashed from position 0 rather than from the window's start. It appears as `assert false` in `WindowHash`.
- Codec.Vcdiff.EncodeTarget: after the tail literal, the model clears the buffer before `break` so that the closing flush does not push it again. The source has no closing flush (see Findings).
- Codec.Vcdiff.Encode: `encode` is one function in the source. The model splits it into `Encode` (rebuild the dictionary) and `EncodeTarget` (the loop), with `Probe` for hashing and looking up one window (through `WindowHash` and `MatchAt`, the calls at vcdiff.js:248-256) and `Advance` for the miss or hit step at vcdiff.js:257-268. The encoder's matcher is a ghost value that the loop sees only through its contract.
- Codec.Vcdiff.Encode follows the corrected encoder, `EncodeSpec`. For block size 1 it differs from the source, which drops a trailing literal (see Findings). `Codec.EncodeAsWritten` models the source's version.
- `tests/vcdiff_client.js`, the `nextHash` equalities of the test at tests/vcdiff_srv.js:17-25, and the test harness's reporting are not restated one by one. `NextHash`'s contract covers the `nextHash` cases for every window.

## Findings

| source | as written | input that shows it | evidently intended | confidence | as-written member | corrected member |
|---|---|---|---|---|---|---|
| vcdiff.js:243-272 | the loop ends when `targetIndex` reaches the end. When `blockSize` is 1 the tail rule (fewer than `blockSize` characters left) can never fire, so a literal buffer still held at that point is never pushed | `blockSize = 1`, `encode("a", "b")` returns `[]`, and `decode("a", [])` returns "a" instead of "b" | the pending buffer is pushed as a last literal, so the round trip holds for every block size | not executed | Codec.EncodeAsWritten, Codec.AsWrittenDropsTail | Codec.EncodeSpec, Codec.RoundTrip |

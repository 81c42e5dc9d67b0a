# sparsebitset in Dafny

A model of the hierarchical sparse bit set of `org.sparsebitset`. It covers the level tree, the set class that owns it, and the five index encodings that address it.

## What is modelled

A set of `levels` levels addresses a bit by an index that is cut into byte segments. Tier `k` of the tree reads only `segment(k)`. The top tier is `levels - 1` and the leaf is tier 0. Every tier has 256 slots (`LEVEL_SIZE`).

A slot of an intermediate tier (`SparseBitLevelN`) is in one of three states:
- absent: all of its bits are clear;
- collapsed: all of its bits are set;
- materialised: it holds a lower level.

The leaf (`SparseBitLevel0`) is a 256-bit map with an occupancy counter. Two shared stateless levels stand for "every bit clear" and "every bit set": `SparseBitLevelNull` and `SparseBitLevelFull`.

A level is collapsed when it reports `isFull()`, meaning its occupancy reached `maximumOccupancy` (written `m`). With `m = 256` the set is precise. With a smaller `m`, a collapse may set bits nobody set: these are the documented false positives.

In Dafny the tree is one tagged union, `Node = Empty | Full | Leaf(bits, occupancy) | Inner(level, slots, occupancy, usage)`:
- `Empty` is the NULL level, or an absent slot.
- `Full` is the FULL level, or a collapse bit.
- `Leaf` and `Inner` are the materialised levels.
- `Validate` is the source's `validate()`: the occupancy counters agree with the bitmap and with the collapse bits, the usage counter agrees with the materialised slots, and no slot is both collapsed and materialised.

Keys are the segments as the tree reads them: `seq<Byte>` with `key[k] = segment(k)`. The abstraction function is `Contains(n, key)`, the bit a node holds for a key. Every operation is a pure function that returns the new node, together with the `boolean` that `set`/`clear` return.

Exceptions are values:
- A single-bit or bulk operation on a tier returns an `Outcome`: `Done(node)`, or `Raised(node, error)` with the state the exception left behind.
- The set class returns `Result<…>`: `Ok`, or `Fail(error)`, which leaves the caller's set unchanged.

The index kinds are `SparseBitIntIndex`, `SparseBitLongIndex`, `SparseBitLong2Index`, `SparseBitBytesIndex` and `SparseBitConstIndex`. They are modelled with Java's two's-complement arithmetic written out: sign extension, `>>`, `(int)` narrowing and `& 0xFF`. Each one's segments are proved to be the base-256 digits of its value read as unsigned. Where a round trip exists, it is proved in both directions.

Four defects are modelled by a `Revision` parameter, so that both behaviours live in one definition. Three are in the level code; the fourth is a reversed range that the set class lets through:
- `AsWritten` follows the code.
- `Corrected` follows the documented contract.
- The set class passes the revision through for `set(index)` and the range operations, so each of its contracts says what the code does and what the documentation promises. The other operations do not depend on it.
- `findings.dfy` exhibits each difference on a concrete input.

The main properties:
- Every operation keeps `Validate`.
- The single-bit operations have their exact set semantics: `get` after `set`, `clear` and `flip`.
  - `clear` is exact at every `m`.
  - `set` and `flip` are exact when `m = 256`; below that they only add bits.
- The range operations change exactly the bits in `[from, to]`. This holds under the same conditions on `m` as the single-bit operations. It holds for the corrected shortcut, and for the shortcut as written when the bounds are aligned.
- The split into `[from, MAX]`, whole slots and `[MIN, to]` covers the range exactly.
- `flipAll` toggles every bit when `m = 256`, and below that sets at least every bit that was clear.
- In a precise set the single-bit operations keep every materialised level neither full nor empty (`Tidy`). That is what makes `isEmpty()`/`isFull()` answer for the bits.
- The key order the tree uses is the numeric order of the index, and `Long2Index.compareTo` agrees with it.

## Model

| member | source | states |
|---|---|---|
| SparseBitUtil.ByteMask | src/main/java/org/sparsebitset/util/SparseBitUtil.java:17 | `BYTE_MASK & x` lies in 0..255, agrees with x modulo 256, and is x itself when x is already a byte |
| SparseBitUtil.CheckSegment | src/main/java/org/sparsebitset/util/SparseBitUtil.java:22-26 | accepts exactly the segments 0..255 and otherwise raises IllegalArgumentException |
| SparseBitUtil.CheckSegments | src/main/java/org/sparsebitset/util/SparseBitUtil.java:28-41 | accepts exactly 0 <= from <= to <= 255 and otherwise raises IllegalArgumentException |
| Levels.Type | src/main/java/org/sparsebitset/level/SparseBitLevelType.java:14-31 | NULL exactly for the all-clear level, FULL exactly for the all-set level, REAL exactly for the materialised ones |
| Levels.CreateLevel | src/main/java/org/sparsebitset/level/SparseBitLevels.java:23-31 | a leaf exactly when levels - 1 <= 0, otherwise a tier at level levels - 1; the new level validates, is empty, is not full for any threshold >= 1 and holds no key |
| Levels.TallyUpdate | src/main/java/org/sparsebitset/level/SparseBitLevelN.java:351-409 | changing one slot moves a count of marked slots by exactly the change in that slot, which is what each counter update of collapse/unfold/require/dismiss relies on |
| Levels.TallyNegate | src/main/java/org/sparsebitset/level/SparseBitLevel0.java:57-61 | negating every bit turns a count of c set bits into 256 - c, the occupancy `flipAll` stores |
| Levels.TallyNone | src/main/java/org/sparsebitset/level/SparseBitLevel0.java:33-35 | a count is 0 exactly when no bit is set |
| Levels.TallyAll | src/main/java/org/sparsebitset/level/SparseBitLevel0.java:38-40 | a count equals the length exactly when every bit is set |
| Levels.EmptyHoldsNothing | src/main/java/org/sparsebitset/level/SparseBitLevelN.java:40-42 | a valid level whose counters say empty holds no key at all |
| Levels.FullHoldsEverything | src/main/java/org/sparsebitset/level/SparseBitLevelN.java:45-47 | a valid level whose counters say full at threshold 256 holds every key |
| Levels.LeafEmptyFull | src/main/java/org/sparsebitset/level/SparseBitLevel0.java:32-40 | a leaf is empty exactly when it holds no bit, and full exactly when its set bits reach the threshold |
| Levels.ContainsReadsLowSegments | src/main/java/org/sparsebitset/level/SparseBitLevelN.java:112-126 | a level of height h answers alike for two keys that agree on segments 0..h: nothing above its own tier is read |
| Level0.SetAll | src/main/java/org/sparsebitset/level/SparseBitLevel0.java:50-54 | the leaf validates with occupancy 256 and holds every key |
| Level0.ClearAll | src/main/java/org/sparsebitset/level/SparseBitLevel0.java:43-47 | the leaf validates, is empty and holds no key |
| Level0.FlipAll | src/main/java/org/sparsebitset/level/SparseBitLevel0.java:57-61 | every bit is negated and validity is kept both ways |
| Level0.Set | src/main/java/org/sparsebitset/level/SparseBitLevel0.java:79-92 | returns true exactly when the bit was clear; afterwards that bit is set and every other bit is unchanged; validity is kept |
| Level0.Clear | src/main/java/org/sparsebitset/level/SparseBitLevel0.java:95-108 | returns true exactly when the bit was set; afterwards that bit is clear and every other bit is unchanged; validity is kept |
| Level0.Flip | src/main/java/org/sparsebitset/level/SparseBitLevel0.java:111-122 | toggles exactly the addressed bit and keeps occupancy equal to the number of set bits |
| Level0.Range | src/main/java/org/sparsebitset/level/SparseBitLevel0.java:125-158 | succeeds exactly when segFrom <= segTo and then changes exactly the bits segFrom..segTo; a reversed range raises IllegalArgumentException before any bit changes |
| Sentinels.Get | src/main/java/org/sparsebitset/level/SparseBitLevelFull.java:56-58 | a shared level answers true exactly when it holds every key (FULL) and false when it holds none (NULL) |
| Sentinels.Update | src/main/java/org/sparsebitset/level/SparseBitLevelNull.java:56-63 | single-bit set/clear succeed, reporting no change, exactly on the shared level whose bits they would not change, and otherwise raise UnsupportedOperationException |
| Sentinels.Bulk | src/main/java/org/sparsebitset/level/SparseBitLevelFull.java:36-88 | flip, the range operations and the whole-set operations succeed exactly when they would leave every bit of the shared level as it is, and otherwise raise UnsupportedOperationException |
| LevelN.ReplaceSlotValid | src/main/java/org/sparsebitset/level/SparseBitLevelN.java:79-109 | replacing one slot keeps the tier valid when the occupancy and usage counters move by exactly that slot's change |
| LevelN.SetAll | src/main/java/org/sparsebitset/level/SparseBitLevelN.java:62-71 | all 256 slots collapsed and none materialised: valid, full at every threshold, holding every key |
| LevelN.ClearAll | src/main/java/org/sparsebitset/level/SparseBitLevelN.java:50-59 | no slot collapsed or materialised: valid, empty, holding no key |
| LevelN.Collapse | src/main/java/org/sparsebitset/level/SparseBitLevelN.java:351-358 | a materialised slot becomes a collapse bit, no other slot changes, and the tier stays valid |
| LevelN.MarkCollapsed | src/main/java/org/sparsebitset/level/SparseBitLevelN.java:223-226 | an absent slot becomes a collapse bit, no other slot changes, and the tier stays valid |
| LevelN.ClearCollapsed | src/main/java/org/sparsebitset/level/SparseBitLevelN.java:261-263 | a collapse bit is cleared, no other slot changes, and the tier stays valid |
| LevelN.Unfold | src/main/java/org/sparsebitset/level/SparseBitLevelN.java:365-377 | a collapsed slot becomes a materialised level holding every key below it, so no bit changes; no other slot changes and the tier stays valid |
| LevelN.Require | src/main/java/org/sparsebitset/level/SparseBitLevelN.java:386-398 | an absent slot gets an empty level and a materialised one is kept as it is; no other slot changes and the tier stays valid |
| LevelN.Dismiss | src/main/java/org/sparsebitset/level/SparseBitLevelN.java:405-409 | a materialised slot becomes absent, no other slot changes, and the tier stays valid |
| LevelN.Get | src/main/java/org/sparsebitset/level/SparseBitLevelN.java:112-126 | the answer is the bit the level holds: true under a collapse bit, false under an absent slot, the child's answer otherwise |
| LevelN.Set | src/main/java/org/sparsebitset/level/SparseBitLevelN.java:129-146 | keeps the level's shape and validity; corrected, the result is true exactly when the bit was clear |
| LevelN.Clear | src/main/java/org/sparsebitset/level/SparseBitLevelN.java:149-169 | keeps shape and validity and returns true exactly when the bit was set |
| LevelN.Flip | src/main/java/org/sparsebitset/level/SparseBitLevelN.java:172-192 | keeps shape and validity |
| BitSemantics.SetRevisions | src/main/java/org/sparsebitset/level/SparseBitLevelN.java:127-146 | as written and corrected, `set` builds the same level; as written it returns true exactly when the bit was clear or the key's path meets a collapsed slot |
| BitSemantics.SetEffect | src/main/java/org/sparsebitset/level/SparseBitLevelN.java:129-146 | after `set(key)` the key and every bit already set are set; at threshold 256 no other bit is |
| BitSemantics.ClearEffect | src/main/java/org/sparsebitset/level/SparseBitLevelN.java:149-169 | after `clear(key)` a bit is set exactly when it was set and is not the key, at every threshold (unfolding keeps the siblings) |
| BitSemantics.FlipEffect | src/main/java/org/sparsebitset/level/SparseBitLevelN.java:172-192 | after `flip(key)` the key is toggled and every other set bit stays set; at threshold 256 exactly the key changes |
| LevelNRange.AffectedAllMeansCovered | src/main/java/org/sparsebitset/level/SparseBitLevelN.java:218-220 | read correctly (or with aligned bounds), the whole-slot test holds exactly when from is all zeros and to all 255s below the slot |
| LevelNRange.Range | src/main/java/org/sparsebitset/level/SparseBitLevelN.java:195-303 | a range operation keeps shape and validity, succeeds whenever from <= to, raises only IllegalArgumentException, and corrected refuses a reversed range without any change |
| LevelNRange.Slots | src/main/java/org/sparsebitset/level/SparseBitLevelN.java:203-205 | the loop over the interior slots keeps the tier's level and validity and never raises |
| LevelNRange.Segment | src/main/java/org/sparsebitset/level/SparseBitLevelN.java:200-210 | the per-slot step changes only slot s, keeps validity, and succeeds whenever the lower bounds are ordered |
| LevelNRange.SetSegment | src/main/java/org/sparsebitset/level/SparseBitLevelN.java:213-236 | `setSegment` changes only slot s, keeps validity, and raises only IllegalArgumentException, only for reversed lower bounds |
| LevelNRange.SetInside | src/main/java/org/sparsebitset/level/SparseBitLevelN.java:229-235 | delegating to the materialised slot changes only that slot and keeps validity |
| LevelNRange.Drop | src/main/java/org/sparsebitset/level/SparseBitLevelN.java:260-269 | the whole-slot clear leaves slot s absent, changes no other slot, and keeps validity |
| LevelNRange.StoreCleared | src/main/java/org/sparsebitset/level/SparseBitLevelN.java:271-282 | the cleared child is stored, or dismissed when asked to and empty; no other slot changes and validity is kept |
| LevelNRange.ClearSegment | src/main/java/org/sparsebitset/level/SparseBitLevelN.java:257-284 | `clearSegment` changes only slot s, keeps validity, and raises only IllegalArgumentException, only for reversed lower bounds |
| LevelNRange.ClearInside | src/main/java/org/sparsebitset/level/SparseBitLevelN.java:270-283 | clearing inside a materialised or unfolded slot changes only that slot and keeps validity |
| LevelNRange.FlipSegment | src/main/java/org/sparsebitset/level/SparseBitLevelN.java:305-344 | `flipSegment` changes only slot s, keeps validity, and raises only IllegalArgumentException, only for reversed lower bounds |
| LevelNRange.FlipInside | src/main/java/org/sparsebitset/level/SparseBitLevelN.java:313-342 | flipping inside a materialised slot changes only that slot and keeps validity |
| LevelNRange.FlipAll | src/main/java/org/sparsebitset/level/SparseBitLevelN.java:74-76 | `flipAll` keeps the level's shape and validity |
| RangeSemantics.ShortcutCovers | src/main/java/org/sparsebitset/level/SparseBitLevelN.java:218-227 | when the whole-slot test passes (corrected, or with aligned bounds) every key below the slot lies in the range |
| RangeSemantics.InRangeOrdered | src/main/java/org/sparsebitset/level/SparseBitLevelN.java:196-198 | a range that contains any key has from <= to, so a reversed range holds no key |
| RangeSemantics.RangeEffect | src/main/java/org/sparsebitset/level/SparseBitLevelN.java:195-303 | after set/clear/flip of [from, to] every bit that should be set is set, and for clear at any threshold and set/flip at 256 no other bit is: exactly the bits in the range change |
| RangeSemantics.SplitEffect | src/main/java/org/sparsebitset/level/SparseBitLevelN.java:200-207 | the three pieces [from, MAX], the interior slots and [MIN, to] together do to every key what the range should |
| RangeSemantics.SlotsEffect | src/main/java/org/sparsebitset/level/SparseBitLevelN.java:203-205 | the interior loop applies the operation to every key under slots lo..hi-1 and leaves every other key as it was |
| RangeSemantics.SegmentEffect | src/main/java/org/sparsebitset/level/SparseBitLevelN.java:213-344 | one segment step applies the operation to the keys of slot s that lie in the bounds and leaves all others |
| RangeSemantics.SetSegmentEffect | src/main/java/org/sparsebitset/level/SparseBitLevelN.java:213-236 | `setSegment` sets every in-range key of slot s, keeps every set bit, and at threshold 256 sets nothing else |
| RangeSemantics.ClearSegmentEffect | src/main/java/org/sparsebitset/level/SparseBitLevelN.java:257-284 | `clearSegment` clears exactly the in-range keys of slot s, at every threshold |
| RangeSemantics.FlipSegmentEffect | src/main/java/org/sparsebitset/level/SparseBitLevelN.java:305-344 | `flipSegment` toggles the in-range keys of slot s; at threshold 256 nothing else changes |
| RangeSemantics.FlipAllEffect | src/main/java/org/sparsebitset/level/SparseBitLevelN.java:74-76 | `flipAll` sets every clear bit, and at threshold 256 toggles every bit |
| Tidy.ExactEmptyFull | src/main/java/org/sparsebitset/level/SparseBitLevelN.java:40-47 | in a tidy precise level the counters answer for the bits: empty exactly when no key is held, full exactly when every key is |
| Tidy.FreshTidy | src/main/java/org/sparsebitset/level/SparseBitLevels.java:23-31 | a new level, and the result of setAll or clearAll, is tidy |
| Tidy.SetKeepsTidy | src/main/java/org/sparsebitset/level/SparseBitLevelN.java:137-143 | `set` keeps every materialised level neither full nor empty |
| Tidy.ClearKeepsTidy | src/main/java/org/sparsebitset/level/SparseBitLevelN.java:153-163 | at threshold 256, `clear` keeps every materialised level neither full nor empty |
| Tidy.FlipKeepsTidy | src/main/java/org/sparsebitset/level/SparseBitLevelN.java:176-191 | `flip` keeps every materialised level neither full nor empty |
| Tidy.SparesOtherSlots | src/main/java/org/sparsebitset/level/SparseBitLevelN.java:127-191 | set and flip of a tier change only the slot the key selects, so every key under another slot keeps its bit |
| Tidy.HolderNotEmpty | src/main/java/org/sparsebitset/level/SparseBitLevelN.java:40-42 | a valid level that holds some key does not report empty |
| Keys.FloorIsLeast | src/main/java/org/sparsebitset/index/SparseBitConstIndex.java:16 | MIN is at or below every key at every depth |
| Keys.CeilIsGreatest | src/main/java/org/sparsebitset/index/SparseBitConstIndex.java:11 | MAX is at or above every key at every depth |
| Keys.SingletonRange | src/main/java/org/sparsebitset/DefaultSparseBitSet.java:146-151 | the range [key, key] holds exactly the keys that agree with key on every segment read |
| Keys.RangeBySlot | src/main/java/org/sparsebitset/level/SparseBitLevelN.java:200-210 | by the key's slot at this tier: outside [segFrom, segTo] it is out of range; in the first, last or one shared slot it is in range exactly when it lies in the lower bounds passed down; in an interior slot it is in range |
| Keys.CoveringBounds | src/main/java/org/sparsebitset/level/SparseBitLevelN.java:218-220 | when from is all zeros and to all 255s below the slot, every key of the slot lies in the range |
| Keys.LeUpToIsNumericOrder | src/main/java/org/sparsebitset/index/SparseBitIndex.java:14-16 | the order the tree uses, highest segment first, is the numeric order of sum(segment(l) * 256^l) |
| Indices.SegmentsInRange | src/main/java/org/sparsebitset/index/SparseBitIndex.java:20-22 | every index kind answers each level below levels() with a value in 0..255 |
| Indices.KeyOf | src/main/java/org/sparsebitset/index/SparseBitIndex.java:8-22 | the first n segments as the tree reads them, each equal to `segment(l)` |
| IntIndex.Segment | src/main/java/org/sparsebitset/index/SparseBitIntIndex.java:23-36 | byte `level` of the int read as unsigned for levels 0..3, IndexOutOfBoundsException otherwise |
| IntIndex.Key | src/main/java/org/sparsebitset/index/SparseBitIntIndex.java:39-41 | four segments, each what `segment(l)` answers |
| IntIndex.KeyValue | src/main/java/org/sparsebitset/index/SparseBitIntIndex.java:23-36 | sum(segment(l) * 256^l) is the int read as unsigned |
| IntIndex.DecodeKey | src/main/java/org/sparsebitset/index/SparseBitIntIndex.java:18-20 | decoding the segments gives the int back |
| IntIndex.KeyDecode | src/main/java/org/sparsebitset/index/SparseBitIntIndex.java:23-36 | every four-byte key is the key of exactly one int |
| IntIndex.InterfaceExample | src/main/java/org/sparsebitset/index/SparseBitIndex.java:11-12 | 0x00112233 gives 0x11 at level 2 and 0x33 at level 0, and level 4 is out of bounds |
| LongIndex.ByteOf | src/main/java/org/sparsebitset/index/SparseBitLongIndex.java:26-40 | shift, narrow to int and mask yields byte k of the unsigned 64-bit value |
| LongIndex.Segment | src/main/java/org/sparsebitset/index/SparseBitLongIndex.java:23-44 | byte `level` of the long read as unsigned for levels 0..7, IndexOutOfBoundsException otherwise |
| LongIndex.Key | src/main/java/org/sparsebitset/index/SparseBitLongIndex.java:47-49 | eight segments, each what `segment(l)` answers |
| LongIndex.KeyValue | src/main/java/org/sparsebitset/index/SparseBitLongIndex.java:23-44 | sum(segment(l) * 256^l) is the long read as unsigned |
| LongIndex.KeyIsDigits | src/main/java/org/sparsebitset/index/SparseBitLongIndex.java:23-44 | the key is the eight low base-256 digits of the unsigned value |
| LongIndex.DecodeKey | src/main/java/org/sparsebitset/index/SparseBitLongIndex.java:18-20 | decoding the segments gives the long back |
| LongIndex.KeyDecode | src/main/java/org/sparsebitset/index/SparseBitLongIndex.java:23-44 | every eight-byte key is the key of exactly one long |
| LongIndex.NegativeTopSegment | src/main/java/org/sparsebitset/index/SparseBitLongIndex.java:26 | a negative long has top segment 0x80 or more, never a negative value |
| Long2Index.WrapLong | src/main/java/org/sparsebitset/index/SparseBitLong2Index.java:54-61 | Java's 64-bit wrap keeps the value modulo 2^64 |
| Long2Index.Segment | src/main/java/org/sparsebitset/index/SparseBitLong2Index.java:74-113 | levels 15..8 are the bytes of index1 and 7..0 those of index2, unsigned; other levels are out of bounds |
| Long2Index.Key | src/main/java/org/sparsebitset/index/SparseBitLong2Index.java:116-118 | sixteen segments, each what `segment(l)` answers |
| Long2Index.KeyHalves | src/main/java/org/sparsebitset/index/SparseBitLong2Index.java:74-113 | the key is the long key of index2 followed by the long key of index1 |
| Long2Index.KeyValue | src/main/java/org/sparsebitset/index/SparseBitLong2Index.java:74-113 | the segments spell the 128-bit number index1 * 2^64 + index2, both halves unsigned |
| Long2Index.ShiftToSigned | src/main/java/org/sparsebitset/index/SparseBitLong2Index.java:121-129 | adding Long.MIN_VALUE with wrap-around maps the unsigned reading onto the signed range |
| Long2Index.CompareUnsignedOrder | src/main/java/org/sparsebitset/index/SparseBitLong2Index.java:121-129 | `Long.compareUnsigned` is negative, zero or positive exactly as the unsigned readings compare |
| Long2Index.CompareToIsKeyOrder | src/main/java/org/sparsebitset/index/SparseBitLong2Index.java:121-129 | `compareTo` agrees with comparing segments 15 down to 0: <= 0 exactly when the keys are ordered, 0 exactly when they are equal |
| Long2Index.EqualsIsKeyEquality | src/main/java/org/sparsebitset/index/SparseBitLong2Index.java:132-147 | `equals` holds exactly between indices with the same segments, never with null, and equal indices hash alike |
| Long2Index.Join | src/main/java/org/sparsebitset/index/SparseBitLong2Index.java:27-34 | the long whose high and low 32 bits are the two ints read as unsigned |
| Long2Index.JoinKey | src/main/java/org/sparsebitset/index/SparseBitLong2Index.java:27-34 | the joined long has the low int's segments below the high int's |
| Long2Index.FromIntsLayout | src/main/java/org/sparsebitset/index/SparseBitLong2Index.java:27-38 | as documented, the four ints supply segments 15..12, 11..8, 7..4 and 3..0 |
| Long2Index.FromIntsAsWrittenLosesLowInt | src/main/java/org/sparsebitset/index/SparseBitLong2Index.java:35-38 | joining with `&` as written gives segment 8 the value 0 for (0, 1, 0, 1), where the documented layout gives 1 |
| Long2Index.CheckBytes | src/main/java/org/sparsebitset/index/SparseBitLong2Index.java:46-52 | a null array or one of a length other than 16 raises IllegalArgumentException |
| Long2Index.FromBytesAsWritten | src/main/java/org/sparsebitset/index/SparseBitLong2Index.java:45-71 | the byte constructor as written accepts exactly the 16-byte arrays |
| Long2Index.FromBytes | src/main/java/org/sparsebitset/index/SparseBitLong2Index.java:40-52 | the documented byte constructor accepts exactly the 16-byte arrays |
| Long2Index.OrBytesKey | src/main/java/org/sparsebitset/index/SparseBitLong2Index.java:54-61 | a half assembled from bytes o..o+7 has the unsigned byte o+7-k as its segment k |
| Long2Index.FromBytesLayout | src/main/java/org/sparsebitset/index/SparseBitLong2Index.java:40-44 | as documented, segment 15 - k is the unsigned value of bytes[k] |
| Long2Index.FromBytesAsWrittenLosesBytes | src/main/java/org/sparsebitset/index/SparseBitLong2Index.java:54-70 | for fifteen zero bytes then 1, the code as written gives segment 0 the value 0, where the documented layout gives 1 |
| BytesIndex.Of | src/main/java/org/sparsebitset/index/SparseBitBytesIndex.java:12-26 | a null or empty array raises IllegalArgumentException; any other is kept as the index |
| BytesIndex.Segment | src/main/java/org/sparsebitset/index/SparseBitBytesIndex.java:29-36 | level l in 0..length-1 reads the unsigned byte length-1-l; any other level is out of bounds |
| BytesIndex.Key | src/main/java/org/sparsebitset/index/SparseBitBytesIndex.java:39-41 | one segment per byte, each what `segment(l)` answers |
| BytesIndex.DecodeKey | src/main/java/org/sparsebitset/index/SparseBitBytesIndex.java:29-36 | decoding the segments gives the byte array back |
| BytesIndex.KeyDecode | src/main/java/org/sparsebitset/index/SparseBitBytesIndex.java:29-36 | every key is the key of exactly one byte array |
| ConstIndex.Bounds | src/main/java/org/sparsebitset/index/SparseBitConstIndex.java:11-32 | MIN is all zeros and MAX all 255s, each bounds every segment of every key, so [x, MAX] and [MIN, x] run to the ends of x's slot |
| DefaultSparseBitSet.Create | src/main/java/org/sparsebitset/DefaultSparseBitSet.java:31-42 | succeeds exactly for levels > 0 and 2 <= maximumOccupancy <= 256, giving an empty set that is not full; otherwise IllegalArgumentException |
| DefaultSparseBitSet.CreatePrecise | src/main/java/org/sparsebitset/DefaultSparseBitSet.java:49-51 | succeeds exactly for levels > 0, with threshold 256 and no bit set |
| DefaultSparseBitSet.CreateWithLevels | src/main/java/org/sparsebitset/DefaultSparseBitSet.java:60-66 | fails exactly for levels <= 0 and is the precise constructor otherwise |
| DefaultSparseBitSet.CreateWithBits | src/main/java/org/sparsebitset/DefaultSparseBitSet.java:75-85 | succeeds exactly when bits > 0 and bits % 8 == 0, giving bits / 8 levels at threshold 256 |
| DefaultSparseBitSet.CheckIndex | src/main/java/org/sparsebitset/DefaultSparseBitSet.java:169-177 | rejects a null index and one with fewer levels than the set; an accepted index yields exactly the segments the tree reads |
| DefaultSparseBitSet.SameBitIsSameKey | src/main/java/org/sparsebitset/DefaultSparseBitSet.java:118-122 | two accepted indices address the same bit exactly when their first `levels` segments agree |
| DefaultSparseBitSet.Get | src/main/java/org/sparsebitset/DefaultSparseBitSet.java:118-122 | fails exactly when the index is rejected, and otherwise answers the bit the set holds |
| DefaultSparseBitSet.Set | src/main/java/org/sparsebitset/DefaultSparseBitSet.java:125-129 | fails exactly on a rejected index and keeps the invariant; corrected it reports true exactly when the bit was clear, as written also when the index's path meets a collapsed slot |
| DefaultSparseBitSet.SetRevisionsAgree | src/main/java/org/sparsebitset/DefaultSparseBitSet.java:125-129 | the code's `set` and the corrected one leave the same set; only the returned flag differs |
| DefaultSparseBitSet.Clear | src/main/java/org/sparsebitset/DefaultSparseBitSet.java:132-136 | fails exactly on a rejected index; keeps the invariant and reports true exactly when the bit was set |
| DefaultSparseBitSet.Flip | src/main/java/org/sparsebitset/DefaultSparseBitSet.java:139-143 | fails exactly on a rejected index and keeps the invariant |
| DefaultSparseBitSet.SetThenGet | src/main/java/org/sparsebitset/DefaultSparseBitSet.java:125-129 | after set(i), in either revision, bit i and every bit set before read true; in a precise set no other bit does |
| DefaultSparseBitSet.ClearThenGet | src/main/java/org/sparsebitset/DefaultSparseBitSet.java:132-136 | after clear(i) a bit reads true exactly when it did before and is not i |
| DefaultSparseBitSet.FlipThenGet | src/main/java/org/sparsebitset/DefaultSparseBitSet.java:139-143 | after flip(i) bit i is toggled and every other set bit stays set; in a precise set exactly i changes |
| DefaultSparseBitSet.SetIdempotent | src/main/java/org/sparsebitset/SparseBitSet.java:56-63 | a second set of the same index reports a change exactly when, as written, the index's path meets a collapsed slot; corrected it never does |
| DefaultSparseBitSet.ClearIdempotent | src/main/java/org/sparsebitset/DefaultSparseBitSet.java:132-136 | a second clear of the same index reports no change |
| DefaultSparseBitSet.FlipTwice | src/main/java/org/sparsebitset/DefaultSparseBitSet.java:139-143 | in a precise set, flipping an index twice restores every bit |
| DefaultSparseBitSet.SetSparesOtherSlots | src/test/java/org/sparsebitset/DeepSparseBitSetTest.java:420-443 | at any threshold, set and flip leave every bit under another top-level slot as it was: an early collapse stays inside the slot of the index |
| DefaultSparseBitSet.IsEmptySet | src/main/java/org/sparsebitset/DefaultSparseBitSet.java:88-90 | a set that reports empty holds no bit |
| DefaultSparseBitSet.IsFullSet | src/main/java/org/sparsebitset/DefaultSparseBitSet.java:93-95 | a precise set that reports full holds every bit |
| DefaultSparseBitSet.SetAll | src/main/java/org/sparsebitset/DefaultSparseBitSet.java:103-105 | keeps the invariant; afterwards the set reports full and every bit reads true |
| DefaultSparseBitSet.ClearAll | src/main/java/org/sparsebitset/DefaultSparseBitSet.java:98-100 | keeps the invariant; afterwards the set reports empty and no bit reads true |
| DefaultSparseBitSet.FlipAll | src/main/java/org/sparsebitset/DefaultSparseBitSet.java:108-110 | keeps the invariant |
| DefaultSparseBitSet.FlipAllThenGet | src/main/java/org/sparsebitset/DefaultSparseBitSet.java:108-110 | every clear bit becomes set; in a precise set every bit is toggled |
| DefaultSparseBitSet.ValidateSet | src/main/java/org/sparsebitset/DefaultSparseBitSet.java:113-115 | raises IllegalStateException exactly when the root does not validate, which never happens to a set the operations produced |
| DefaultSparseBitSet.RangeOp | src/main/java/org/sparsebitset/DefaultSparseBitSet.java:146-167 | fails on a rejected index and never on an ordered range, raising only IllegalArgumentException; corrected it also fails on every reversed range; a result keeps the invariant |
| DefaultSparseBitSet.RangeOpRefusesTopReversal | src/main/java/org/sparsebitset/level/SparseBitLevelN.java:195-198 | in both revisions, bounds reversed in the root's own segment are an illegal argument |
| DefaultSparseBitSet.RangeThenGet | src/main/java/org/sparsebitset/DefaultSparseBitSet.java:146-167 | an ordered range runs, and after set/clear/flip(from, to) exactly the bits in [from, to] have changed as the operation says; at a smaller threshold, set and flip may additionally set bits; as written this holds for bounds aligned to the slots the shortcut reads |
| DefaultSparseBitSet.PreciseEmptyFull | src/main/java/org/sparsebitset/DefaultSparseBitSet.java:11-15 | in a tidy precise set `isEmpty()` holds exactly when no bit is set and `isFull()` exactly when every bit is |
| DefaultSparseBitSet.PreciseKept | src/main/java/org/sparsebitset/DefaultSparseBitSet.java:11-15 | set, clear, flip, setAll and clearAll keep a precise set tidy |
| DefaultSparseBitSet.CreatedPrecise | src/main/java/org/sparsebitset/DefaultSparseBitSet.java:49-51 | a new precise set is tidy |
| DefaultSparseBitSet.ClearOneAfterSetAll | src/test/java/org/sparsebitset/DefaultSparseBitSetTest.java:121-152 | after setAll and one clear the set is not full, that bit reads false and every other reads true; setting it again makes the set full |
| Findings.SetOnCollapsedSlot | src/main/java/org/sparsebitset/level/SparseBitLevelN.java:133-135 | under a collapsed slot, set reports a change as written although the bit was set, and corrected reports none |
| Findings.RangeShortcutOverreach | src/main/java/org/sparsebitset/level/SparseBitLevelN.java:218-227 | `set(0x11220001, 0x1122FFFF)` as written also sets 0x11220000, which is outside the range; corrected it does not |
| Findings.ReversedRangeAccepted | src/main/java/org/sparsebitset/DefaultSparseBitSet.java:146-167 | as written, `clear(0x0005, 0x0003)` on an empty two-level set and `set(0x0005, 0x0003)` after `setAll()` return normally and change nothing; corrected both are illegal arguments |
| Findings.ReversedRangeLeavesTrace | src/main/java/org/sparsebitset/level/SparseBitLevelN.java:229-230 | `set(0x0005, 0x0003)` on an empty set raises, yet as written the set is no longer empty; corrected it stays empty |

## Left out

- Concurrency and the immutable view: the lock-based proxy only adds a read/write lock around the same operations, and the immutable proxy only throws from mutators.
- `MixedSparseBitSet`: it combines a `java.util.HashSet` with a deep set class that is not part of this model.
- `SparseBitInetAddressIndex`: it only hands `InetAddress.getAddress()`, a foreign call, to the byte index.
- `copy()` and `toString()`. `hashCode` is modelled only as far as consistency with `equals`.
- Aliasing of the caller's byte array inside the byte index: values are immutable here.
- `createUnderlying` is not part of this model. The tiers create their children with `createLevel(m, level)`, which has the depth rule the calls evidently mean.
- The generic index type parameter: indices are the closed union of the five kinds. Every kind answers 0..255 below `levels()`, so the tree's own `checkSegment` on single-bit operations never fires. A user-written index that answers other values is not modelled.
- The threshold `maximumOccupancy` is a parameter of every operation rather than a field of every level, since the whole tree shares one value.
- The leaf's `java.util.BitSet` is a `seq<bool>` of 256 bits, and `cardinality()` is the count of true entries.
- A range operation that raises inside the tree leaves a partly changed tree as written (see Findings). The set class returns `Fail` for it and drops that partial state, so its `Fail` does not show the trace.
- The code's set class does not check that from <= to; the tree's own checks decide. A reversed range is refused as soon as a level compares the reversed segments. It passes without an exception when the reversal lies only below a slot that the operation handles whole (see Findings). The corrected revision refuses every reversed range before changing anything.
- Two asymmetries between the per-slot range steps are modelled as the code has them:
  - `flipSegment` (src/main/java/org/sparsebitset/level/SparseBitLevelN.java:305-344) compares the affected sub-slots only with 256, never with the threshold `m` as `setSegment` does (:218-227). So a partly covered slot is collapsed only when the child it has flipped reports full, and never on the threshold alone.
  - `clearSegment` does not ask the child `isEmpty()` after it unfolds a collapsed slot and clears part of it (:270-273). It asks only in the branch for a child that was already materialised (:275-280).
- The comments on `SparseBitLevels.NULL`/`FULL` and on `SparseBitLevelFull` describe the two shared levels the wrong way round. The model follows their behaviour and `SparseBitLevelType`.
- Tidy: the tidiness invariant is proved only for the single-bit operations and setAll/clearAll. It is not proved for the range operations or `flipAll`, and for `clear` it is proved only at threshold 256.
- RangeSemantics.RangeEffect: for the shortcut as written, the contract requires aligned bounds (all zeros below `from`'s slot and all 255s below `to`'s). Without them the code is wrong; see Findings.
- DefaultSparseBitSet.SetThenGet: below threshold 256 it states only that the bit and every earlier bit read true. Collapsing a slot at `m` set bits also sets the rest of it, as the class documentation says.
- DefaultSparseBitSet.FlipThenGet: below threshold 256 it states only that bits which should be set are set, for the same reason.
- DefaultSparseBitSet.FlipAllThenGet: below threshold 256 it states only that every clear bit becomes set, for the same reason.
- DefaultSparseBitSet.RangeThenGet: below threshold 256, set and flip may set further bits of a slot they collapse, so only the "every bit that should be set is set" half is stated.
- DefaultSparseBitSet.RangeThenGet: as written it is stated for aligned bounds only, for the reason given under RangeSemantics.RangeEffect. With unaligned bounds the code's `set` can set a bit outside the range (see Findings).
- DefaultSparseBitSet.FlipTwice: stated for a precise set only. Below 256 a flip can make a slot collapse and swallow the second flip.
- DefaultSparseBitSet.SetSparesOtherSlots: stated for keys under another top-level slot only. Neighbours that share the top slot can be reached when a collapse cascades upwards, so they are untouched only in states like the one that test builds.
- DefaultSparseBitSet.IsEmptySet: states one direction. The converse needs a tidy precise set and is PreciseEmptyFull.
- DefaultSparseBitSet.IsFullSet: states the direction for precise sets only. The converse needs tidiness and is PreciseEmptyFull.
- LevelN.Flip: its own contract states shape and validity. The bit semantics are BitSemantics.FlipEffect.
- LevelNRange.FlipAll: its own contract states shape and validity. The bit semantics are RangeSemantics.FlipAllEffect.

## Findings

| source | as written | input that shows it | evidently intended | confidence | as-written member | corrected member |
|---|---|---|---|---|---|---|
| src/main/java/org/sparsebitset/level/SparseBitLevelN.java:133-135 | `set` on a collapsed slot returns true | two-level set after `setAll()`, then `set(0)` | "true if bit is switched": false, the bit was already set | high, not executed | Findings.SetOnCollapsedSlot | LevelN.Set |
| src/main/java/org/sparsebitset/level/SparseBitLevelN.java:218-227 | the whole-slot shortcut reads only `segment(level - 1)` of the bounds | empty precise four-level set, `set(0x11220001, 0x1122FFFF)`: 0x11220000 becomes set | only the bits in [from, to] change | high, not executed | Findings.RangeShortcutOverreach | RangeSemantics.RangeEffect |
| src/main/java/org/sparsebitset/DefaultSparseBitSet.java:146-167 | the set class passes the range to the root without checking from <= to, and a level checks only its own segments | empty two-level set, `clear(0x0005, 0x0003)`; or after `setAll()`, `set(0x0005, 0x0003)`: both return normally | a reversed range is an illegal argument, as `testInvalidRanges` (src/test/java/org/sparsebitset/DefaultSparseBitSetTest.java:333-338) expects | high, not executed | Findings.ReversedRangeAccepted | DefaultSparseBitSet.RangeOp |
| src/main/java/org/sparsebitset/level/SparseBitLevelN.java:229-230 | a child is materialised before the child's own bounds check raises | empty two-level set, `set(0x0005, 0x0003)`: raises, then `isEmpty()` is false | a refused range leaves the set unchanged | high, not executed | Findings.ReversedRangeLeavesTrace | LevelNRange.Range |
| src/main/java/org/sparsebitset/index/SparseBitLong2Index.java:35-38 | the two ints of each half are joined with `&`, after sign extension | `new SparseBitLong2Index(0, 1, 0, 1)`: segment 8 is 0 | index1 = i1 · 2^32 + unsigned i2, so segment 8 is 1 | high, not executed | Long2Index.FromIntsAsWrittenLosesLowInt | Long2Index.FromIntsLayout |
| src/main/java/org/sparsebitset/index/SparseBitLong2Index.java:54-70 | the sixteen sign-extended bytes are joined with `&` | fifteen zero bytes then 1: segment 0 is 0 | the first byte is the highest, so segment 15 - k is unsigned bytes[k] and segment 0 is 1 | high, not executed | Long2Index.FromBytesAsWrittenLosesBytes | Long2Index.FromBytesLayout |

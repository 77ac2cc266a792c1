/** The repacking step of `Chunk::Load` for protocol versions after 1.15.2.
    From 1.16 on, the wire format no longer lets an entry straddle two words:
    each word holds `k = 64 / bpb` whole entries, entry `i` in word `i / k` at
    bit `bpb * (i % k)`, and the top `64 % bpb` bits of every word are unused.
    When `64 % bpb != 0` the source copies every entry into a fresh array in
    the straddling layout that `GetBlock` and `SetBlock` expect. */
module Repacking {
  import opened Bits
  import opened Packing

  /** `blocksPerLong`. */
  function EntriesPerWord(bpb: nat): nat
    requires bpb >= 1
  {
    64 / bpb
  }

  /** What the source needs for the repack to stay in bounds: a width the
      division `64 / bpb` and the shifts accept, and enough words for entry 4095. */
  predicate RepackFits(words: seq<Word>, bpb: nat) {
    1 <= bpb < 64 && (SectionEntries - 1) / EntriesPerWord(bpb) < |words|
  }

  /** `shiftingFLag`. The source shifts the 32-bit constant `0xFFFFFFFF` right by
      `64 - bpb`; for `bpb <= 32` that shift is undefined in C++ and the model
      takes the intended mask of `bpb` low bits. */
  function RepackMask(bpb: nat): Word
    requires 1 <= bpb < 64
  {
    if 64 - bpb >= 32 then Mask(bpb) else Shr(Mask(32), 64 - bpb)
  }

  /** The number of bits `RepackMask` keeps: never more than `bpb`. */
  function RepackMaskWidth(bpb: nat): (n: nat)
    requires 1 <= bpb < 64
    ensures n <= bpb
  {
    if bpb <= 32 then bpb else bpb - 32
  }

  lemma RepackMaskBit(bpb: nat, t: nat)
    requires 1 <= bpb < 64 && t < 64
    ensures RepackMask(bpb)[t] == (t < RepackMaskWidth(bpb))
  {
  }

  /** `blockIndex / blocksPerLong`: the word holding entry `i` before the repack. */
  function AlignedWord(i: nat, bpb: nat): nat
    requires 1 <= bpb <= 64
  {
    i / EntriesPerWord(bpb)
  }

  /** `bpb * (blockIndex % blocksPerLong)`: the entry's first bit in that word. */
  function AlignedShift(i: nat, bpb: nat): nat
    requires 1 <= bpb <= 64
  {
    bpb * (i % EntriesPerWord(bpb))
  }

  /** An entry of the non-straddling layout lies inside its word. */
  lemma EntryInWord(i: nat, bpb: nat)
    requires 1 <= bpb <= 64
    ensures AlignedShift(i, bpb) + bpb <= 64
  {
    var k := EntriesPerWord(bpb);
    DivModUnique(64, bpb, k, 64 % bpb);
    assert i % k + 1 <= k;
    MulMonotone(i % k + 1, k, bpb);
  }

  lemma DivMonotone(a: nat, b: nat, m: nat)
    requires a <= b && m > 0
    ensures a / m <= b / m
  {
    if a / m > b / m {
      MulMonotone(b / m + 1, a / m, m);
    }
  }

  /** Entry `i` of the non-straddling layout is in a word the source has, at a
      shift the C++ operators accept. */
  lemma AlignedInBounds(words: seq<Word>, bpb: nat, i: nat)
    requires RepackFits(words, bpb) && i < SectionEntries
    ensures AlignedWord(i, bpb) < |words|
    ensures AlignedShift(i, bpb) + bpb <= 64
  {
    DivMonotone(i, SectionEntries - 1, EntriesPerWord(bpb));
    EntryInWord(i, bpb);
  }

  /** `blockData` for entry `i`: its bits in the non-straddling layout, masked. */
  function BlockData(words: seq<Word>, bpb: nat, i: nat): Word
    requires RepackFits(words, bpb) && i < SectionEntries
  {
    AlignedInBounds(words, bpb, i);
    And(Shr(words[AlignedWord(i, bpb)], AlignedShift(i, bpb)), RepackMask(bpb))
  }

  /** `p / bpb`: the entry that bit `p` of a straddling stream belongs to. */
  function EntryOf(p: nat, bpb: nat): nat
    requires bpb >= 1
  {
    p / bpb
  }

  /** `p % bpb`: the position of bit `p` within its entry. */
  function BitOf(p: nat, bpb: nat): (t: nat)
    requires bpb >= 1
    ensures t < bpb
  {
    p % bpb
  }

  /** Bit `p` of the stream the repack is meant to build: bit `p % bpb` of
      `blockData` for entry `p / bpb`, for the 4096 entries of a section. */
  predicate TargetBit(words: seq<Word>, bpb: nat, p: nat)
    requires RepackFits(words, bpb)
  {
    p < SectionEntries * bpb &&
    (DivBelow(p, bpb, SectionEntries); BlockData(words, bpb, EntryOf(p, bpb))[BitOf(p, bpb)])
  }

  /** The words of `newData`, which has `4096 * bpb / sizeof(u64) + 1` words. */
  function RepackedLength(bpb: nat): nat {
    SectionEntries * bpb / 8 + 1
  }

  lemma RepackedLengthIs(bpb: nat)
    ensures RepackedLength(bpb) == 512 * bpb + 1
  {
    DivModUnique(SectionEntries * bpb, 8, 512 * bpb, 0);
  }

  /** The repacked data: the target stream cut into `RepackedLength` words. */
  function Repacked(words: seq<Word>, bpb: nat): (r: seq<Word>)
    requires RepackFits(words, bpb)
    ensures |r| == RepackedLength(bpb)
  {
    RepackedPrefix(words, bpb, RepackedLength(bpb))
  }

  /** Word `w` of the target stream. */
  function RepackedWord(words: seq<Word>, bpb: nat, w: nat): Word
    requires RepackFits(words, bpb)
  {
    seq(64, b requires 0 <= b < 64 => TargetBit(words, bpb, 64 * w + b))
  }

  /** The first `n` words of the target stream. */
  function RepackedPrefix(words: seq<Word>, bpb: nat, n: nat): (r: seq<Word>)
    requires RepackFits(words, bpb)
    ensures |r| == n
  {
    if n == 0 then [] else RepackedPrefix(words, bpb, n - 1) + [RepackedWord(words, bpb, n - 1)]
  }

  lemma {:induction false} RepackedPrefixAt(words: seq<Word>, bpb: nat, n: nat, w: nat)
    requires RepackFits(words, bpb) && w < n
    ensures RepackedPrefix(words, bpb, n)[w] == RepackedWord(words, bpb, w)
  {
    if w < n - 1 {
      RepackedPrefixAt(words, bpb, n - 1, w);
    }
  }

  lemma RepackedStream(words: seq<Word>, bpb: nat, p: nat)
    requires RepackFits(words, bpb)
    ensures StreamBit(Repacked(words, bpb), p) == TargetBit(words, bpb, p)
  {
    var r := Repacked(words, bpb);
    StreamAt(r, p / 64, p % 64);
    if p / 64 < |r| {
      RepackedPrefixAt(words, bpb, |r|, p / 64);
    }
    if p / 64 >= |r| {
      RepackedLengthIs(bpb);
      assert p >= 64 * (p / 64);
    }
  }

  /** Bit `p = i * bpb + t` of a straddling stream is bit `t` of entry `i`. */
  lemma EntryOfBit(bpb: nat, i: nat, q: nat, t: nat, p: nat)
    requires 1 <= bpb && q == i * bpb && t < bpb && p == q + t
    ensures EntryOf(p, bpb) == i && BitOf(p, bpb) == t
  {
    DivModUnique(p, bpb, i, t);
  }

  /** Entry `i` of a section ends by bit `4096 * bpb`. */
  lemma EntryInSection(bpb: nat, i: nat, q: nat)
    requires i < SectionEntries && q == i * bpb
    ensures q + bpb <= SectionEntries * bpb
  {
    MulMonotone(i + 1, SectionEntries, bpb);
    assert (i + 1) * bpb == q + bpb;
  }

  /** Bit `t` of entry `i` in the target stream, which starts at `q = i * bpb`,
      is bit `t` of `blockData` for `i`. */
  lemma TargetWindow(words: seq<Word>, bpb: nat, i: nat, q: nat, t: nat)
    requires RepackFits(words, bpb) && i < SectionEntries
    requires q == i * bpb && t < bpb
    ensures TargetBit(words, bpb, q + t) == BlockData(words, bpb, i)[t]
  {
    EntryInSection(bpb, i, q);
    EntryOfBit(bpb, i, q, t, q + t);
  }

  /** Entry `i`'s bits in the target stream, which start at `q = i * bpb`, are
      `blockData` for `i`. */
  lemma WindowBit(words: seq<Word>, bpb: nat, i: nat, q: nat, p: nat)
    requires RepackFits(words, bpb) && i < SectionEntries
    requires q == i * bpb && q <= p < q + bpb
    ensures TargetBit(words, bpb, p) == BlockData(words, bpb, i)[p - q]
  {
    EntryInSection(bpb, i, q);
    EntryOfBit(bpb, i, q, p - q, p);
  }

  /** One iteration of the loop on the words built so far: `d` is OR-ed in at
      bit `off` of word `c`, spilling into word `c + 1` when it does not fit. */
  function Step(s: seq<Word>, c: nat, off: nat, bpb: nat, d: Word): seq<Word>
    requires off < 64 && 1 <= bpb < 64 && c + 1 < |s|
  {
    if 64 - off < bpb
    then s[c := Or(s[c], Shl(d, off))][c + 1 := Or(s[c + 1], Shr(d, bpb - (off + bpb - 64)))]
    else s[c := Or(s[c], Shl(d, off))]
  }

  /** `Step` ORs the low `bpb` bits of `d` into the stream at `64 * c + off`. */
  lemma StepStream(s: seq<Word>, c: nat, off: nat, bpb: nat, d: Word, p: nat)
    requires off < 64 && 1 <= bpb < 64 && c + 1 < |s|
    requires forall t :: bpb <= t < 64 ==> !d[t]
    ensures StreamBit(Step(s, c, off, bpb, d), p) ==
      (StreamBit(s, p) || (64 * c + off <= p < 64 * c + off + bpb && d[p - (64 * c + off)]))
  {
    var s' := Step(s, c, off, bpb, d);
    StreamAt(s, p / 64, p % 64);
    StreamAt(s', p / 64, p % 64);
    assert p == 64 * (p / 64) + p % 64;
  }

  /** The first `n` bits of the target stream are in place and nothing else is set. */
  ghost predicate Built(s: seq<Word>, words: seq<Word>, bpb: nat, n: nat)
    requires RepackFits(words, bpb)
  {
    forall p: nat :: StreamBit(s, p) == (p < n && TargetBit(words, bpb, p))
  }

  /** The loop's word index stays inside `newData`. */
  lemma StepInBounds(bpb: nat, i: nat, c: nat, off: nat)
    requires 1 <= bpb < 64 && i < SectionEntries && off < 64
    requires 64 * c + off == i * bpb
    ensures c + 1 < RepackedLength(bpb)
  {
    MulMonotone(i + 1, SectionEntries, bpb);
    assert (i + 1) * bpb == i * bpb + bpb;
    assert 64 * c < SectionEntries * bpb;
    RepackedLengthIs(bpb);
  }

  /** `blockData` has no bit set at or above `bpb`. */
  lemma BlockDataHighClear(words: seq<Word>, bpb: nat, i: nat)
    requires RepackFits(words, bpb) && i < SectionEntries
    ensures forall t :: bpb <= t < 64 ==> !BlockData(words, bpb, i)[t]
  {
    forall t | bpb <= t < 64
      ensures !BlockData(words, bpb, i)[t]
    {
      RepackMaskBit(bpb, t);
    }
  }

  /** `Step` on one stream bit `p`: if the bits below `64 * c + off` were the
      target's, and the target's bits in the entry's window are those of `d`,
      the bits below `64 * c + off + bpb` now are. */
  lemma StepKeepsBit(s: seq<Word>, c: nat, off: nat, bpb: nat, d: Word, p: nat, target: bool)
    requires off < 64 && 1 <= bpb < 64 && c + 1 < |s|
    requires forall t :: bpb <= t < 64 ==> !d[t]
    requires StreamBit(s, p) == (p < 64 * c + off && target)
    requires 64 * c + off <= p < 64 * c + off + bpb ==> target == d[p - (64 * c + off)]
    ensures StreamBit(Step(s, c, off, bpb, d), p) == (p < 64 * c + off + bpb && target)
  {
    StepStream(s, c, off, bpb, d, p);
  }

  /** The loop keeps `Built`: after entry `i`, the stream is built up to bit
      `(i + 1) * bpb`. */
  lemma StepKeepsBuilt(s: seq<Word>, words: seq<Word>, bpb: nat, i: nat, c: nat, off: nat)
    requires RepackFits(words, bpb) && i < SectionEntries && off < 64
    requires 64 * c + off == i * bpb && c + 1 < |s|
    requires Built(s, words, bpb, 64 * c + off)
    ensures Built(Step(s, c, off, bpb, BlockData(words, bpb, i)), words, bpb, 64 * c + off + bpb)
  {
    BlockDataHighClear(words, bpb, i);
    forall p: nat
      ensures StreamBit(Step(s, c, off, bpb, BlockData(words, bpb, i)), p) ==
        (p < 64 * c + off + bpb && TargetBit(words, bpb, p))
    {
      if 64 * c + off <= p < 64 * c + off + bpb {
        WindowBit(words, bpb, i, 64 * c + off, p);
      }
      StepKeepsBit(s, c, off, bpb, BlockData(words, bpb, i), p, TargetBit(words, bpb, p));
    }
  }

  /** The body of the repack loop: OR `blockData` into `newData` at bit
      `longOffset` of word `currentLong`, overfilling into the next word when
      the entry does not fit. */
  method OrInto(newData: array<Word>, currentLong: nat, longOffset: nat, bpb: nat, blockData: Word)
    requires longOffset < 64 && 1 <= bpb < 64 && currentLong + 1 < newData.Length
    modifies newData
    ensures newData[..] == Step(old(newData[..]), currentLong, longOffset, bpb, blockData)
  {
    if 64 - longOffset < bpb {
      newData[currentLong] := Or(newData[currentLong], Shl(blockData, longOffset));
      newData[currentLong + 1] := Or(newData[currentLong + 1], Shr(blockData, bpb - (longOffset + bpb - 64)));
    } else {
      newData[currentLong] := Or(newData[currentLong], Shl(blockData, longOffset));
    }
  }

  /** One iteration of the repack loop for entry `blockIndex`: take
      `blockData` from its old word, OR it in at the current position and
      advance the position by `bpb` bits. */
  method RepackEntry(newData: array<Word>, words: seq<Word>, bpb: nat, blockIndex: nat,
                     currentLong: nat, longOffset: nat) returns (nextLong: nat, nextOffset: nat)
    requires RepackFits(words, bpb) && blockIndex < SectionEntries
    requires newData.Length == RepackedLength(bpb)
    requires 64 * currentLong + longOffset == blockIndex * bpb && longOffset < 64
    requires Built(newData[..], words, bpb, 64 * currentLong + longOffset)
    modifies newData
    ensures 64 * nextLong + nextOffset == 64 * currentLong + longOffset + bpb && nextOffset < 64
    ensures Built(newData[..], words, bpb, 64 * nextLong + nextOffset)
  {
    var blocksPerLong := 64 / bpb;
    AlignedInBounds(words, bpb, blockIndex);
    var blockLong := words[blockIndex / blocksPerLong];
    var blockData := And(Shr(blockLong, bpb * (blockIndex % blocksPerLong)), RepackMask(bpb));
    assert blockData == BlockData(words, bpb, blockIndex);
    StepInBounds(bpb, blockIndex, currentLong, longOffset);
    StepKeepsBuilt(newData[..], words, bpb, blockIndex, currentLong, longOffset);
    OrInto(newData, currentLong, longOffset, bpb, blockData);
    nextLong, nextOffset := currentLong, longOffset + bpb;
    if nextOffset >= 64 {
      nextLong, nextOffset := nextLong + 1, nextOffset - 64;
    }
  }

  /** The repack loop of `Chunk::Load`, over a fresh zeroed array of
      `RepackedLength(bpb)` words. */
  method Repack(words: seq<Word>, bpb: nat) returns (r: seq<Word>)
    requires RepackFits(words, bpb)
    ensures r == Repacked(words, bpb)
  {
    var newData := new Word[RepackedLength(bpb)](w => Zeros(64));
    var currentLong: nat, longOffset: nat := 0, 0;
    BuiltNone(newData[..], words, bpb);
    for blockIndex := 0 to SectionEntries
      invariant 64 * currentLong + longOffset == blockIndex * bpb && longOffset < 64
      invariant Built(newData[..], words, bpb, 64 * currentLong + longOffset)
    {
      currentLong, longOffset := RepackEntry(newData, words, bpb, blockIndex, currentLong, longOffset);
      assert (blockIndex + 1) * bpb == blockIndex * bpb + bpb;
    }
    r := newData[..];
    BuiltAll(r, words, bpb);
  }

  /** The zeroed array has nothing built. */
  lemma BuiltNone(s: seq<Word>, words: seq<Word>, bpb: nat)
    requires RepackFits(words, bpb)
    requires forall w :: 0 <= w < |s| ==> s[w] == Zeros(64)
    ensures Built(s, words, bpb, 0)
  {
    forall p: nat
      ensures !StreamBit(s, p)
    {
      StreamAt(s, p / 64, p % 64);
    }
  }

  /** Once all entries are built, the words are the repacked data. */
  lemma BuiltAll(s: seq<Word>, words: seq<Word>, bpb: nat)
    requires RepackFits(words, bpb) && |s| == RepackedLength(bpb)
    requires Built(s, words, bpb, SectionEntries * bpb)
    ensures s == Repacked(words, bpb)
  {
    forall p | 0 <= p < 64 * |s|
      ensures StreamBit(s, p) == StreamBit(Repacked(words, bpb), p)
    {
      RepackedStream(words, bpb, p);
    }
    StreamDeterminesWords(s, Repacked(words, bpb));
  }

  // ---------------------------------------------------------------------
  // What the repack achieves

  /** Entry `i` as the non-straddling layout holds it. */
  function AlignedEntry(words: seq<Word>, bpb: nat, i: nat): Word
    requires RepackFits(words, bpb) && i < SectionEntries
  {
    AlignedInBounds(words, bpb, i);
    And(Shr(words[AlignedWord(i, bpb)], AlignedShift(i, bpb)), Mask(bpb))
  }

  /** The window of entry `i` in the repacked stream, which starts at bit
      `q = i * bpb`, holds `blockData` for `i`. */
  lemma RepackWindow(words: seq<Word>, bpb: nat, i: nat, q: nat, t: nat)
    requires RepackFits(words, bpb) && i < SectionEntries && t < bpb
    requires q == i * bpb
    ensures StreamBit(Repacked(words, bpb), q + t) == BlockData(words, bpb, i)[t]
  {
    RepackedStream(words, bpb, q + t);
    TargetWindow(words, bpb, i, q, t);
  }

  /** `blockData` for `i` is bits `[bpb * (i % k), bpb * (i % k) + bpb)` of old
      word `i / k`, cut to the width of the mask. */
  lemma BlockDataBit(words: seq<Word>, bpb: nat, i: nat, t: nat)
    requires RepackFits(words, bpb) && i < SectionEntries && t < bpb
    ensures AlignedWord(i, bpb) < |words|
    ensures AlignedShift(i, bpb) + t < 64
    ensures BlockData(words, bpb, i)[t] ==
      (t < RepackMaskWidth(bpb) && words[AlignedWord(i, bpb)][AlignedShift(i, bpb) + t])
  {
    AlignedInBounds(words, bpb, i);
    RepackMaskBit(bpb, t);
  }

  /** The words past the first `64 * bpb` of the repacked data are zero. */
  lemma RepackSurplusZero(words: seq<Word>, bpb: nat, w: nat)
    requires RepackFits(words, bpb) && 64 * bpb <= w < RepackedLength(bpb)
    ensures Repacked(words, bpb)[w] == Zeros(64)
  {
    RepackedPrefixAt(words, bpb, RepackedLength(bpb), w);
    forall b | 0 <= b < 64
      ensures !Repacked(words, bpb)[w][b]
    {
      assert 64 * w + b >= SectionEntries * bpb;
      assert !TargetBit(words, bpb, 64 * w + b);
    }
  }

  /** After the repack, `GetBlock`'s extraction of entry `i` yields the entry the
      non-straddling layout held (for the widths `GetBlock` handles, where the
      mask keeps all `bpb` bits). */
  lemma ReadAfterRepack(words: seq<Word>, bpb: nat, i: nat)
    requires RepackFits(words, bpb) && bpb <= MaxEntryBits && i < SectionEntries
    ensures EndWord(i, bpb) < |Repacked(words, bpb)|
    ensures ReadEntry(Repacked(words, bpb), bpb, i) == AlignedEntry(words, bpb, i)
  {
    LastEntryWord(i, bpb);
    RepackedLengthIs(bpb);
    var r, q := Repacked(words, bpb), i * bpb;
    assert ReadEntry(r, bpb, i) == ReadAt(r, bpb, q);
    forall t | 0 <= t < 64
      ensures ReadAt(r, bpb, q)[t] == AlignedEntry(words, bpb, i)[t]
    {
      ReadAfterRepackBit(words, bpb, i, q, t);
    }
  }

  lemma ReadAfterRepackBit(words: seq<Word>, bpb: nat, i: nat, q: nat, t: nat)
    requires RepackFits(words, bpb) && bpb <= MaxEntryBits && i < SectionEntries && t < 64
    requires q == i * bpb && LastWord(q, bpb) < |Repacked(words, bpb)|
    ensures ReadAt(Repacked(words, bpb), bpb, q)[t] == AlignedEntry(words, bpb, i)[t]
  {
    ReadAtBit(Repacked(words, bpb), bpb, q, t);
    AlignedInBounds(words, bpb, i);
    if t < bpb {
      RepackWindow(words, bpb, i, q, t);
      BlockDataBit(words, bpb, i, t);
    }
  }

  /** When `bpb` divides 64 the two layouts coincide, so the source skips the
      repack: `GetBlock`'s extraction already yields the aligned entry. */
  lemma AlignedLayoutsAgree(words: seq<Word>, bpb: nat, i: nat)
    requires RepackFits(words, bpb) && bpb <= MaxEntryBits && 64 % bpb == 0
    requires i < SectionEntries
    ensures EndWord(i, bpb) < |words|
    ensures ReadEntry(words, bpb, i) == AlignedEntry(words, bpb, i)
  {
    var k, q := EntriesPerWord(bpb), i * bpb;
    DivModUnique(64, bpb, k, 0);
    AlignedInBounds(words, bpb, i);
    assert q == 64 * (i / k) + bpb * (i % k) by {
      assert i == k * (i / k) + i % k;
      assert i * bpb == (k * bpb) * (i / k) + bpb * (i % k);
    }
    SpanWords(q, bpb);
    DivModUnique(q, 64, i / k, bpb * (i % k));
    assert ReadEntry(words, bpb, i) == ReadAt(words, bpb, q);
    forall t | 0 <= t < 64
      ensures ReadAt(words, bpb, q)[t] == AlignedEntry(words, bpb, i)[t]
    {
      ReadAtBit(words, bpb, q, t);
      if t < bpb {
        StreamAt(words, i / k, bpb * (i % k) + t);
      }
    }
  }
}

/** The packed storage of a chunk section: 4096 entries of `bpb` bits each, laid
    end to end in a sequence of 64-bit words, so that entry `i` occupies bits
    `[i * bpb, (i + 1) * bpb)` of the stream formed by the words in order (bit `p`
    of the stream is bit `p % 64` of word `p / 64`). An entry may straddle two words.
    This module holds the word arithmetic of `Chunk::GetBlock` and `Chunk::SetBlock`
    and what that arithmetic means for the stream. */
module Packing {
  import opened Bits

  /** Entries in a 16x16x16 section. */
  const SectionEntries: nat := 4096

  /** The widest entry `GetBlock` and `SetBlock` handle: they build the mask
      `(1 << bpb) - 1` in a 32-bit `int`, which overflows from 31 bits on. */
  const MaxEntryBits: nat := 30

  /** Bit `p` of the stream formed by `data`; positions past the end read as clear. */
  predicate StreamBit(data: seq<Word>, p: nat) {
    p / 64 < |data| && data[p / 64][p % 64]
  }

  /** Stream position `64 * w + b` is bit `b` of word `w`. */
  lemma StreamAt(data: seq<Word>, w: nat, b: nat)
    requires b < 64
    ensures (64 * w + b) / 64 == w && (64 * w + b) % 64 == b
    ensures StreamBit(data, 64 * w + b) == (w < |data| && data[w][b])
  {
    DivModUnique(64 * w + b, 64, w, b);
  }

  /** Two word sequences of one length with the same stream are equal. */
  lemma StreamDeterminesWords(a: seq<Word>, b: seq<Word>)
    requires |a| == |b|
    requires forall p :: 0 <= p < 64 * |a| ==> StreamBit(a, p) == StreamBit(b, p)
    ensures a == b
  {
    forall w | 0 <= w < |a|
      ensures a[w] == b[w]
    {
      forall t | 0 <= t < 64
        ensures a[w][t] == b[w][t]
      {
        StreamAt(a, w, t);
        StreamAt(b, w, t);
      }
    }
  }

  // ---------------------------------------------------------------------
  // Locating an entry

  /** `startIndex`, `startSubIndex` and `endIndex` of the source, for the
      entry whose first bit is at stream position `q = index * bpb`. The
      source's `((index + 1) * bpb - 1) / 64` is `(q + bpb - 1) / 64`. */
  function FirstWord(q: nat): nat { q / 64 }
  function FirstBit(q: nat): nat { q % 64 }
  function LastWord(q: nat, bpb: nat): nat
    requires bpb >= 1
  {
    (q + bpb - 1) / 64
  }

  function StartWord(i: nat, bpb: nat): nat { FirstWord(i * bpb) }
  function StartBit(i: nat, bpb: nat): nat { FirstBit(i * bpb) }
  function EndWord(i: nat, bpb: nat): nat
    requires bpb >= 1
  {
    LastWord(i * bpb, bpb)
  }

  /** A span of at most 64 bits from `q` lies in its first word or in that
      word and the next one, and it straddles exactly when its last bit is
      past bit 63. */
  lemma SpanWords(q: nat, bpb: nat)
    requires 1 <= bpb <= 64
    ensures q == 64 * FirstWord(q) + FirstBit(q)
    ensures LastWord(q, bpb) == FirstWord(q) || LastWord(q, bpb) == FirstWord(q) + 1
    ensures (LastWord(q, bpb) == FirstWord(q)) == (FirstBit(q) + bpb <= 64)
  {
    DivModUnique(q, 64, q / 64, q % 64);
    if q % 64 + bpb <= 64 {
      DivModUnique(q + bpb - 1, 64, q / 64, q % 64 + bpb - 1);
    } else {
      DivModUnique(q + bpb - 1, 64, q / 64 + 1, q % 64 + bpb - 1 - 64);
    }
  }

  /** The same for entry `i`. */
  lemma EntryWords(i: nat, bpb: nat)
    requires 1 <= bpb <= 64
    ensures i * bpb == 64 * StartWord(i, bpb) + StartBit(i, bpb)
    ensures EndWord(i, bpb) == StartWord(i, bpb) || EndWord(i, bpb) == StartWord(i, bpb) + 1
    ensures (EndWord(i, bpb) == StartWord(i, bpb)) == (StartBit(i, bpb) + bpb <= 64)
  {
    SpanWords(i * bpb, bpb);
  }

  /** Every entry of a section lies within the first `64 * bpb` words. */
  lemma LastEntryWord(i: nat, bpb: nat)
    requires 1 <= bpb && i < SectionEntries
    ensures EndWord(i, bpb) < 64 * bpb
  {
    MulMonotone(i + 1, SectionEntries, bpb);
    assert (i + 1) * bpb == i * bpb + bpb;
    DivBelow(i * bpb + bpb - 1, 64, 64 * bpb);
  }

  lemma DivBelow(x: nat, m: nat, n: nat)
    requires m > 0 && x < m * n
    ensures x / m < n
  {
    if x / m >= n {
      MulMonotone(n, x / m, m);
    }
  }

  lemma MulMonotone(a: nat, b: nat, c: nat)
    requires a <= b
    ensures a * c <= b * c
  {
  }

  /** With 4 bits per entry (the constructor's width) no entry straddles. */
  lemma NarrowEntriesFitOneWord(i: nat)
    ensures StartWord(i, 4) == EndWord(i, 4)
  {
    EntryWords(i, 4);
    DivModUnique(i * 4, 64, i / 16, (i % 16) * 4);
  }

  // ---------------------------------------------------------------------
  // Reading an entry (Chunk::GetBlock)

  /** The bits of entry `i`, read straight off the stream. */
  function Window(data: seq<Word>, bpb: nat, i: nat): (w: seq<bool>)
    ensures |w| == bpb
  {
    seq(bpb, t requires 0 <= t < bpb => StreamBit(data, i * bpb + t))
  }

  /** A span of `bpb` bits starting at bit `sub` of word `start` and ending in
      word `end`, which is `start` or the word after it. */
  predicate Span(start: nat, end: nat, sub: nat, bpb: nat) {
    1 <= bpb <= MaxEntryBits && sub < 64 &&
    (end == start || end == start + 1) && ((end == start) == (sub + bpb <= 64))
  }

  /** The word arithmetic of `GetBlock`: one word, or the high bits of one
      word joined to the low bits of the next, masked to `bpb` bits. */
  function ReadWords(data: seq<Word>, start: nat, end: nat, sub: nat, bpb: nat): Word
    requires Span(start, end, sub, bpb) && end < |data|
  {
    if start == end then
      And(Shr(data[start], sub), Mask(bpb))
    else
      And(Or(Shr(data[start], sub), Shl(data[end], 64 - sub)), Mask(bpb))
  }

  /** The extraction for the span of `bpb` bits at stream position `q`. */
  function ReadAt(data: seq<Word>, bpb: nat, q: nat): Word
    requires 1 <= bpb <= MaxEntryBits
    requires LastWord(q, bpb) < |data|
  {
    SpanWords(q, bpb);
    ReadWords(data, FirstWord(q), LastWord(q, bpb), FirstBit(q), bpb)
  }

  /** The value `GetBlock` extracts for entry `i`, before palette resolution. */
  function ReadEntry(data: seq<Word>, bpb: nat, i: nat): Word
    requires 1 <= bpb <= MaxEntryBits
    requires EndWord(i, bpb) < |data|
  {
    ReadAt(data, bpb, i * bpb)
  }

  /** The single-word extraction: bits `[sub, sub + bpb)` of `w`. */
  lemma ExtractOneBit(w: Word, sub: nat, bpb: nat, t: nat)
    requires 1 <= bpb <= MaxEntryBits && sub + bpb <= 64 && t < 64
    ensures And(Shr(w, sub), Mask(bpb))[t] == (t < bpb && w[sub + t])
  {
  }

  /** The two-word extraction: the high bits of `w0` from `sub` on, continued
      by the low bits of `w1`. */
  lemma ExtractTwoBit(w0: Word, w1: Word, sub: nat, bpb: nat, t: nat)
    requires 1 <= bpb <= MaxEntryBits && 0 < sub < 64 && t < 64
    ensures And(Or(Shr(w0, sub), Shl(w1, 64 - sub)), Mask(bpb))[t] ==
      (t < bpb && if sub + t < 64 then w0[sub + t] else w1[sub + t - 64])
  {
  }

  /** Bit `t` of the extraction is stream bit `q + t` for `t < bpb`, and
      clear above, where `q` is the span's first stream position. */
  lemma ReadWordsBit(data: seq<Word>, start: nat, end: nat, sub: nat, bpb: nat, q: nat, t: nat)
    requires Span(start, end, sub, bpb) && end < |data|
    requires q == 64 * start + sub && t < 64
    ensures ReadWords(data, start, end, sub, bpb)[t] == (t < bpb && StreamBit(data, q + t))
  {
    if start == end {
      ExtractOneBit(data[start], sub, bpb, t);
      if t < bpb {
        StreamAt(data, start, sub + t);
      }
    } else {
      ExtractTwoBit(data[start], data[end], sub, bpb, t);
      if t < bpb {
        if sub + t < 64 {
          StreamAt(data, start, sub + t);
        } else {
          StreamAt(data, end, sub + t - 64);
        }
      }
    }
  }

  lemma ReadAtBit(data: seq<Word>, bpb: nat, q: nat, t: nat)
    requires 1 <= bpb <= MaxEntryBits
    requires LastWord(q, bpb) < |data|
    requires t < 64
    ensures ReadAt(data, bpb, q)[t] == (t < bpb && StreamBit(data, q + t))
  {
    SpanWords(q, bpb);
    ReadWordsBit(data, FirstWord(q), LastWord(q, bpb), FirstBit(q), bpb, q, t);
  }

  /** The extraction depends on the span's stream bits only. */
  lemma ReadAtSameStream(a: seq<Word>, b: seq<Word>, bpb: nat, q: nat)
    requires 1 <= bpb <= MaxEntryBits
    requires LastWord(q, bpb) < |a| && LastWord(q, bpb) < |b|
    requires forall p :: q <= p < q + bpb ==> StreamBit(a, p) == StreamBit(b, p)
    ensures ReadAt(a, bpb, q) == ReadAt(b, bpb, q)
  {
    forall t | 0 <= t < 64
      ensures ReadAt(a, bpb, q)[t] == ReadAt(b, bpb, q)[t]
    {
      ReadAtBit(a, bpb, q, t);
      ReadAtBit(b, bpb, q, t);
      if t < bpb {
        assert StreamBit(a, q + t) == StreamBit(b, q + t);
      }
    }
  }

  /** A span whose stream bits are the low bits of `v` reads as `v` masked. */
  lemma ReadAtStreamValue(data: seq<Word>, bpb: nat, q: nat, v: Word)
    requires 1 <= bpb <= MaxEntryBits
    requires LastWord(q, bpb) < |data|
    requires forall p :: q <= p < q + bpb ==> StreamBit(data, p) == v[p - q]
    ensures ReadAt(data, bpb, q) == And(v, Mask(bpb))
  {
    forall t | 0 <= t < 64
      ensures ReadAt(data, bpb, q)[t] == And(v, Mask(bpb))[t]
    {
      ReadAtBit(data, bpb, q, t);
      if t < bpb {
        assert StreamBit(data, q + t) == v[q + t - q];
      }
    }
  }

  /** The extraction is the span's window of the stream with the bits above it clear. */
  lemma ReadAtIsWindow(data: seq<Word>, bpb: nat, q: nat, window: seq<bool>)
    requires 1 <= bpb <= MaxEntryBits
    requires LastWord(q, bpb) < |data|
    requires |window| == bpb && forall t :: 0 <= t < bpb ==> window[t] == StreamBit(data, q + t)
    ensures ReadAt(data, bpb, q) == window + Zeros(64 - bpb)
  {
    forall t | 0 <= t < 64
      ensures ReadAt(data, bpb, q)[t] == (window + Zeros(64 - bpb))[t]
    {
      ReadAtBit(data, bpb, q, t);
    }
  }

  /** Bit `t` of what `ReadEntry` reads is bit `i * bpb + t` of the stream for
      `t < bpb`, and clear above. */
  lemma ReadEntryBit(data: seq<Word>, bpb: nat, i: nat, t: nat)
    requires 1 <= bpb <= MaxEntryBits
    requires EndWord(i, bpb) < |data|
    requires t < 64
    ensures ReadEntry(data, bpb, i)[t] == (t < bpb && StreamBit(data, i * bpb + t))
  {
    var q := i * bpb;
    assert ReadEntry(data, bpb, i) == ReadAt(data, bpb, q);
    ReadAtBit(data, bpb, q, t);
  }

  /** The source's one- or two-word extraction is the entry's window of the
      stream with the bits above it clear; as a number it is below 2^bpb. */
  lemma ReadEntryIsWindow(data: seq<Word>, bpb: nat, i: nat)
    requires 1 <= bpb <= MaxEntryBits
    requires EndWord(i, bpb) < |data|
    ensures ReadEntry(data, bpb, i) == Window(data, bpb, i) + Zeros(64 - bpb)
    ensures ToNat(ReadEntry(data, bpb, i)) == FromBits(Window(data, bpb, i)) < Pow2(bpb)
  {
    var q := i * bpb;
    assert ReadEntry(data, bpb, i) == ReadAt(data, bpb, q);
    ReadAtIsWindow(data, bpb, q, Window(data, bpb, i));
    ZerosOnTop(Window(data, bpb, i), 64 - bpb);
  }

  // ---------------------------------------------------------------------
  // Writing an entry (Chunk::SetBlock)

  /** The start word after the write: `(w & ~(maxValue << sub)) | ((value & maxValue) << sub)`. */
  function SpliceLow(w: Word, sub: nat, bpb: nat, value: Word): Word
    requires sub < 64 && 1 <= bpb <= MaxEntryBits
  {
    Or(And(w, Not(Shl(Mask(bpb), sub))), Shl(And(value, Mask(bpb)), sub))
  }

  /** The end word after the write, as written:
      `(w >> (64 - sub) << (64 - sub)) | ((value & maxValue) >> (64 - sub))`. */
  function SpliceHighAsWritten(w: Word, sub: nat, bpb: nat, value: Word): Word
    requires 0 < sub < 64 && 1 <= bpb <= MaxEntryBits
  {
    Or(Shl(Shr(w, 64 - sub), 64 - sub), Shr(And(value, Mask(bpb)), 64 - sub))
  }

  /** The end word after the corrected write:
      `(w & ~(maxValue >> (64 - sub))) | ((value & maxValue) >> (64 - sub))`. */
  function SpliceHigh(w: Word, sub: nat, bpb: nat, value: Word): Word
    requires 0 < sub < 64 && 1 <= bpb <= MaxEntryBits
  {
    Or(And(w, Not(Shr(Mask(bpb), 64 - sub))), Shr(And(value, Mask(bpb)), 64 - sub))
  }

  /** The start word keeps its bits outside `[sub, sub + bpb)` and takes the
      value's low bits inside. */
  lemma SpliceLowBit(w: Word, sub: nat, bpb: nat, value: Word, b: nat)
    requires sub < 64 && 1 <= bpb <= MaxEntryBits && b < 64
    ensures SpliceLow(w, sub, bpb, value)[b] ==
      if sub <= b < sub + bpb then value[b - sub] else w[b]
  {
  }

  /** The corrected end word keeps its bits from `sub + bpb - 64` on and takes
      the value's high bits below. */
  lemma SpliceHighBit(w: Word, sub: nat, bpb: nat, value: Word, b: nat)
    requires 0 < sub < 64 && 1 <= bpb <= MaxEntryBits && b < 64
    ensures SpliceHigh(w, sub, bpb, value)[b] ==
      if b + 64 - sub < bpb then value[b + 64 - sub] else w[b]
  {
  }

  /** The end word as written: its low `64 - sub` bits are cleared, whatever
      the width of the entry, and the value's high bits are OR-ed in. */
  lemma SpliceHighAsWrittenBit(w: Word, sub: nat, bpb: nat, value: Word, b: nat)
    requires 0 < sub < 64 && 1 <= bpb <= MaxEntryBits && b < 64
    ensures SpliceHighAsWritten(w, sub, bpb, value)[b] ==
      ((b >= 64 - sub && w[b]) || (b + 64 - sub < bpb && value[b + 64 - sub]))
  {
  }

  /** The write as written: the start word has the span's bits cleared and
      the value OR-ed in; when the span straddles, the next word has its low
      `64 - startSubIndex` bits cleared and the value's high bits OR-ed in. */
  function WriteWords(data: seq<Word>, start: nat, end: nat, sub: nat, bpb: nat, value: Word): (r: seq<Word>)
    requires Span(start, end, sub, bpb) && end < |data|
    ensures |r| == |data|
  {
    var first := data[start := SpliceLow(data[start], sub, bpb, value)];
    if start == end then first
    else first[end := SpliceHighAsWritten(first[end], sub, bpb, value)]
  }

  /** The write with the end word cleared over the span's own bits only. */
  function WriteFixedWords(data: seq<Word>, start: nat, end: nat, sub: nat, bpb: nat, value: Word): (r: seq<Word>)
    requires Span(start, end, sub, bpb) && end < |data|
    ensures |r| == |data|
  {
    var first := data[start := SpliceLow(data[start], sub, bpb, value)];
    if start == end then first
    else first[end := SpliceHigh(first[end], sub, bpb, value)]
  }

  /** The write as written for the span of `bpb` bits at stream position `q`. */
  function WriteAt(data: seq<Word>, bpb: nat, q: nat, value: Word): (r: seq<Word>)
    requires 1 <= bpb <= MaxEntryBits
    requires LastWord(q, bpb) < |data|
    ensures |r| == |data|
  {
    SpanWords(q, bpb);
    WriteWords(data, FirstWord(q), LastWord(q, bpb), FirstBit(q), bpb, value)
  }

  /** The corrected write for the span at `q`. */
  function WriteFixedAt(data: seq<Word>, bpb: nat, q: nat, value: Word): (r: seq<Word>)
    requires 1 <= bpb <= MaxEntryBits
    requires LastWord(q, bpb) < |data|
    ensures |r| == |data|
  {
    SpanWords(q, bpb);
    WriteFixedWords(data, FirstWord(q), LastWord(q, bpb), FirstBit(q), bpb, value)
  }

  /** `SetBlock`'s write of entry `i`, as written. */
  function WriteEntry(data: seq<Word>, bpb: nat, i: nat, value: Word): (r: seq<Word>)
    requires 1 <= bpb <= MaxEntryBits
    requires EndWord(i, bpb) < |data|
    ensures |r| == |data|
  {
    WriteAt(data, bpb, i * bpb, value)
  }

  /** The write of entry `i` in terms of the words and the bit offset of its
      location. */
  lemma WriteEntryWords(data: seq<Word>, bpb: nat, i: nat, value: Word)
    requires 1 <= bpb <= MaxEntryBits && EndWord(i, bpb) < |data|
    ensures Span(StartWord(i, bpb), EndWord(i, bpb), StartBit(i, bpb), bpb)
    ensures WriteEntry(data, bpb, i, value) ==
      WriteWords(data, StartWord(i, bpb), EndWord(i, bpb), StartBit(i, bpb), bpb, value)
  {
    SpanWords(i * bpb, bpb);
  }

  /** The write of entry `i` as evidently intended. */
  function WriteEntryFixed(data: seq<Word>, bpb: nat, i: nat, value: Word): (r: seq<Word>)
    requires 1 <= bpb <= MaxEntryBits
    requires EndWord(i, bpb) < |data|
    ensures |r| == |data|
  {
    WriteFixedAt(data, bpb, i * bpb, value)
  }

  /** A write within one word changes exactly the span's bits of the stream,
      which then hold the low `bpb` bits of the value; `q` is the span's first
      stream position. */
  lemma WriteWordsSingleBit(data: seq<Word>, start: nat, sub: nat, bpb: nat, value: Word, q: nat, p: nat)
    requires Span(start, start, sub, bpb) && start < |data|
    requires q == 64 * start + sub
    ensures StreamBit(WriteWords(data, start, start, sub, bpb, value), p) ==
      if q <= p < q + bpb then value[p - q] else StreamBit(data, p)
  {
    var r := WriteWords(data, start, start, sub, bpb, value);
    StreamAt(data, p / 64, p % 64);
    StreamAt(r, p / 64, p % 64);
    if p / 64 == start {
      SpliceLowBit(data[start], sub, bpb, value, p % 64);
    }
  }

  /** The corrected write changes exactly the span's bits of the stream, in
      both branches. */
  lemma WriteFixedWordsBit(data: seq<Word>, start: nat, end: nat, sub: nat, bpb: nat, value: Word, q: nat, p: nat)
    requires Span(start, end, sub, bpb) && end < |data|
    requires q == 64 * start + sub
    ensures StreamBit(WriteFixedWords(data, start, end, sub, bpb, value), p) ==
      if q <= p < q + bpb then value[p - q] else StreamBit(data, p)
  {
    var r := WriteFixedWords(data, start, end, sub, bpb, value);
    StreamAt(data, p / 64, p % 64);
    StreamAt(r, p / 64, p % 64);
    if p / 64 == start {
      SpliceLowBit(data[start], sub, bpb, value, p % 64);
    } else if p / 64 == end {
      SpliceHighBit(data[end], sub, bpb, value, p % 64);
    }
  }

  /** A write at `q` that fits in one word changes exactly the span's bits of
      the stream, which then hold the low `bpb` bits of the value. */
  lemma WriteAtSingleWord(data: seq<Word>, bpb: nat, q: nat, value: Word, p: nat)
    requires 1 <= bpb <= MaxEntryBits
    requires LastWord(q, bpb) < |data|
    requires FirstWord(q) == LastWord(q, bpb)
    ensures StreamBit(WriteAt(data, bpb, q, value), p) ==
      if q <= p < q + bpb then value[p - q] else StreamBit(data, p)
  {
    SpanWords(q, bpb);
    WriteWordsSingleBit(data, FirstWord(q), FirstBit(q), bpb, value, q, p);
  }

  /** The corrected write at `q` changes exactly the span's bits of the
      stream, in both branches. */
  lemma WriteFixedAtWindow(data: seq<Word>, bpb: nat, q: nat, value: Word, p: nat)
    requires 1 <= bpb <= MaxEntryBits
    requires LastWord(q, bpb) < |data|
    ensures StreamBit(WriteFixedAt(data, bpb, q, value), p) ==
      if q <= p < q + bpb then value[p - q] else StreamBit(data, p)
  {
    SpanWords(q, bpb);
    WriteFixedWordsBit(data, FirstWord(q), LastWord(q, bpb), FirstBit(q), bpb, value, q, p);
  }

  /** Writing an entry that fits in one word changes exactly the entry's window
      of the stream, which then holds the low `bpb` bits of the value. */
  lemma WriteEntrySingleWord(data: seq<Word>, bpb: nat, i: nat, value: Word, p: nat)
    requires 1 <= bpb <= MaxEntryBits
    requires EndWord(i, bpb) < |data|
    requires StartWord(i, bpb) == EndWord(i, bpb)
    ensures StreamBit(WriteEntry(data, bpb, i, value), p) ==
      if i * bpb <= p < i * bpb + bpb then value[p - i * bpb] else StreamBit(data, p)
  {
    var q := i * bpb;
    assert WriteEntry(data, bpb, i, value) == WriteAt(data, bpb, q, value);
    WriteAtSingleWord(data, bpb, q, value, p);
  }

  /** The corrected write changes exactly the entry's window of the stream, in
      both branches, and the window then holds the low `bpb` bits of the value. */
  lemma WriteEntryFixedWindow(data: seq<Word>, bpb: nat, i: nat, value: Word, p: nat)
    requires 1 <= bpb <= MaxEntryBits
    requires EndWord(i, bpb) < |data|
    ensures StreamBit(WriteEntryFixed(data, bpb, i, value), p) ==
      if i * bpb <= p < i * bpb + bpb then value[p - i * bpb] else StreamBit(data, p)
  {
    var q := i * bpb;
    assert WriteEntryFixed(data, bpb, i, value) == WriteFixedAt(data, bpb, q, value);
    WriteFixedAtWindow(data, bpb, q, value, p);
  }

  /** After the corrected write at `q` the span reads back as the value's low
      `bpb` bits. */
  lemma WriteFixedAtThenRead(data: seq<Word>, bpb: nat, q: nat, value: Word)
    requires 1 <= bpb <= MaxEntryBits
    requires LastWord(q, bpb) < |data|
    ensures ReadAt(WriteFixedAt(data, bpb, q, value), bpb, q) == And(value, Mask(bpb))
  {
    var r := WriteFixedAt(data, bpb, q, value);
    forall p | q <= p < q + bpb
      ensures StreamBit(r, p) == value[p - q]
    {
      WriteFixedAtWindow(data, bpb, q, value, p);
    }
    ReadAtStreamValue(r, bpb, q, value);
  }

  /** After the corrected write the entry reads back as the value's low `bpb` bits. */
  lemma WriteThenReadFixed(data: seq<Word>, bpb: nat, i: nat, value: Word)
    requires 1 <= bpb <= MaxEntryBits
    requires EndWord(i, bpb) < |data|
    ensures ReadEntry(WriteEntryFixed(data, bpb, i, value), bpb, i) == And(value, Mask(bpb))
  {
    // The steps spell out the argument.
    var q := i * bpb;
    var r := WriteEntryFixed(data, bpb, i, value);
    assert r == WriteFixedAt(data, bpb, q, value);
    assert ReadEntry(r, bpb, i) == ReadAt(r, bpb, q);
    WriteFixedAtThenRead(data, bpb, q, value);
  }

  /** A write as written at `q` within one word reads back as the value's low
      `bpb` bits. */
  lemma WriteAtThenReadSingleWord(data: seq<Word>, bpb: nat, q: nat, value: Word)
    requires 1 <= bpb <= MaxEntryBits
    requires LastWord(q, bpb) < |data|
    requires FirstWord(q) == LastWord(q, bpb)
    ensures ReadAt(WriteAt(data, bpb, q, value), bpb, q) == And(value, Mask(bpb))
  {
    var r := WriteAt(data, bpb, q, value);
    forall p | q <= p < q + bpb
      ensures StreamBit(r, p) == value[p - q]
    {
      WriteAtSingleWord(data, bpb, q, value, p);
    }
    ReadAtStreamValue(r, bpb, q, value);
  }

  /** When the entry fits in one word, the write as written reads back too. */
  lemma WriteThenReadSingleWord(data: seq<Word>, bpb: nat, i: nat, value: Word)
    requires 1 <= bpb <= MaxEntryBits
    requires EndWord(i, bpb) < |data|
    requires StartWord(i, bpb) == EndWord(i, bpb)
    ensures ReadEntry(WriteEntry(data, bpb, i, value), bpb, i) == And(value, Mask(bpb))
  {
    var q := i * bpb;
    var r := WriteEntry(data, bpb, i, value);
    assert r == WriteAt(data, bpb, q, value);
    assert ReadEntry(r, bpb, i) == ReadAt(r, bpb, q);
    WriteAtThenReadSingleWord(data, bpb, q, value);
  }

  /** Entry `j`'s window starts at `i * bpb + bpb` or later, or ends at
      `i * bpb` or earlier. */
  lemma DisjointWindows(i: nat, j: nat, bpb: nat, q: nat, q': nat)
    requires i != j && q == i * bpb && q' == j * bpb
    ensures q' + bpb <= q || q + bpb <= q'
  {
    if i < j {
      MulMonotone(i + 1, j, bpb);
      assert (i + 1) * bpb == i * bpb + bpb;
    } else {
      MulMonotone(j + 1, i, bpb);
      assert (j + 1) * bpb == j * bpb + bpb;
    }
  }

  /** A corrected write at `q` leaves a disjoint span `q'` as it was. */
  lemma WriteFixedAtKeeps(data: seq<Word>, bpb: nat, q: nat, q': nat, value: Word)
    requires 1 <= bpb <= MaxEntryBits
    requires LastWord(q, bpb) < |data| && LastWord(q', bpb) < |data|
    requires q' + bpb <= q || q + bpb <= q'
    ensures ReadAt(WriteFixedAt(data, bpb, q, value), bpb, q') == ReadAt(data, bpb, q')
  {
    var r := WriteFixedAt(data, bpb, q, value);
    forall p | q' <= p < q' + bpb
      ensures StreamBit(r, p) == StreamBit(data, p)
    {
      WriteFixedAtWindow(data, bpb, q, value, p);
    }
    ReadAtSameStream(r, data, bpb, q');
  }

  /** The corrected write leaves every other entry as it was. */
  lemma WriteFixedKeepsOthers(data: seq<Word>, bpb: nat, i: nat, j: nat, value: Word)
    requires 1 <= bpb <= MaxEntryBits
    requires EndWord(i, bpb) < |data| && EndWord(j, bpb) < |data|
    requires i != j
    ensures ReadEntry(WriteEntryFixed(data, bpb, i, value), bpb, j) == ReadEntry(data, bpb, j)
  {
    var q, q' := i * bpb, j * bpb;
    DisjointWindows(i, j, bpb, q, q');
    var r := WriteEntryFixed(data, bpb, i, value);
    assert r == WriteFixedAt(data, bpb, q, value);
    assert ReadEntry(r, bpb, j) == ReadAt(r, bpb, q');
    assert ReadEntry(data, bpb, j) == ReadAt(data, bpb, q');
    WriteFixedAtKeeps(data, bpb, q, q', value);
  }

  /** A write as written at `q` within one word leaves a disjoint span `q'`
      as it was. */
  lemma WriteAtSingleWordKeeps(data: seq<Word>, bpb: nat, q: nat, q': nat, value: Word)
    requires 1 <= bpb <= MaxEntryBits
    requires LastWord(q, bpb) < |data| && LastWord(q', bpb) < |data|
    requires FirstWord(q) == LastWord(q, bpb)
    requires q' + bpb <= q || q + bpb <= q'
    ensures ReadAt(WriteAt(data, bpb, q, value), bpb, q') == ReadAt(data, bpb, q')
  {
    var r := WriteAt(data, bpb, q, value);
    forall p | q' <= p < q' + bpb
      ensures StreamBit(r, p) == StreamBit(data, p)
    {
      WriteAtSingleWord(data, bpb, q, value, p);
    }
    ReadAtSameStream(r, data, bpb, q');
  }

  /** The write as written, when the entry fits in one word, leaves every other
      entry as it was. */
  lemma WriteSingleWordKeepsOthers(data: seq<Word>, bpb: nat, i: nat, j: nat, value: Word)
    requires 1 <= bpb <= MaxEntryBits
    requires EndWord(i, bpb) < |data| && EndWord(j, bpb) < |data|
    requires StartWord(i, bpb) == EndWord(i, bpb)
    requires i != j
    ensures ReadEntry(WriteEntry(data, bpb, i, value), bpb, j) == ReadEntry(data, bpb, j)
  {
    var q, q' := i * bpb, j * bpb;
    DisjointWindows(i, j, bpb, q, q');
    var r := WriteEntry(data, bpb, i, value);
    assert r == WriteAt(data, bpb, q, value);
    assert ReadEntry(r, bpb, j) == ReadAt(r, bpb, q');
    assert ReadEntry(data, bpb, j) == ReadAt(data, bpb, q');
    WriteAtSingleWordKeeps(data, bpb, q, q', value);
  }
}

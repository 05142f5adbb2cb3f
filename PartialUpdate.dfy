/** The partial-update encoder of `tfa_cont_write_vstepMax2_One`: compare a
    volume-step message with the one sent before it, word by word, and
    describe the differences as a list of `struct tfa_partial_msg_block`s,
    each a skip count, a 16-bit change mask (stored big-endian) and the
    3-byte words the mask selects.

    The data being compared is the message's parameter data: `W` words of
    three bytes. */
module PartialUpdate {
  import opened Types
  import opened Bytes
  import opened Bits

  /** `sizeof(struct tfa_partial_msg_block)`: the worst-case size of one block. */
  const BlockMaxSize := 51
  /** Words one block can cover. */
  const BlockWords := 16
  /** The skip count is a `uint8_t`; at 255 a block is forced. */
  const MaxSkip := 255

  const SbParamSetAlgoParams: byte := 0x00 // SB_PARAM_SET_ALGO_PARAMS
  const SbParamSetMbdrc: byte := 0x07      // SB_PARAM_SET_MBDRC

  /** Word `w` of the data: three bytes. */
  function Word(s: seq<byte>, w: nat): (r: seq<byte>)
    requires 3 * w + 3 <= |s|
    ensures |r| == 3
  {
    s[3 * w .. 3 * w + 3]
  }

  /** The `memcmp` of one word of the new and the old data is non-zero. */
  predicate Differs(n: seq<byte>, o: seq<byte>, w: nat)
    requires 3 * w + 3 <= |n| && |o| == |n|
  {
    Word(n, w) != Word(o, w)
  }

  /** The change mask of the first `i` words of a block starting at word
      `w`: bit `k` is set when word `w + k` differs. */
  function MaskUpTo(n: seq<byte>, o: seq<byte>, w: nat, i: nat): nat
    requires |o| == |n| && 3 * (w + i) <= |n|
  {
    if i == 0 then 0
    else MaskUpTo(n, o, w, i - 1) + (if Differs(n, o, w + i - 1) then Pow2(i - 1) else 0)
  }

  /** The new words the block copies, in order, for its first `i` words. */
  function LitsUpTo(n: seq<byte>, o: seq<byte>, w: nat, i: nat): (r: seq<byte>)
    requires |o| == |n| && 3 * (w + i) <= |n|
    ensures |r| % 3 == 0 && |r| <= 3 * i
  {
    if i == 0 then []
    else LitsUpTo(n, o, w, i - 1) + (if Differs(n, o, w + i - 1) then Word(n, w + i - 1) else [])
  }

  /** Exactly the differing words of a block have their bit set in its mask. */
  lemma {:induction false} MaskBits(n: seq<byte>, o: seq<byte>, w: nat, i: nat)
    requires |o| == |n| && 3 * (w + i) <= |n|
    ensures MaskUpTo(n, o, w, i) < Pow2(i)
    ensures forall k :: 0 <= k < i ==> (Bit(MaskUpTo(n, o, w, i), k) <==> Differs(n, o, w + k))
    ensures forall k :: i <= k ==> !Bit(MaskUpTo(n, o, w, i), k)
  {
    if i > 0 {
      MaskBits(n, o, w, i - 1);
      var m := MaskUpTo(n, o, w, i - 1);
      BitBelow(m, i - 1, i - 1);
      forall k | 0 <= k
        ensures Bit(MaskUpTo(n, o, w, i), k) <==> (k < i && Differs(n, o, w + k))
      {
        if Differs(n, o, w + i - 1) {
          BitSet(m, i - 1, k);
        }
      }
      forall k | i <= k
        ensures !Bit(MaskUpTo(n, o, w, i), k)
      {
        if Differs(n, o, w + i - 1) {
          BitSet(m, i - 1, k);
        }
      }
    } else {
      forall k | 0 <= k
        ensures !Bit(0, k)
      {
        BitBelow(0, 0, k);
      }
    }
  }

  /** One partial-message block: words skipped since the previous block,
      change mask, new words. */
  datatype Block = Block(skip: nat, mask: nat, lits: seq<byte>)

  /** The bytes of a block: the skip count, the mask high byte first
      (`cpu_to_be16` stored on a little-endian host), then the new words. */
  function BlockBytes(b: Block): (r: seq<byte>)
    requires b.skip <= MaxSkip && IsU16(b.mask)
    ensures |r| == 3 + |b.lits|
  {
    [b.skip as byte] + StoreLE16(CpuToBe16(b.mask)) + b.lits
  }

  predicate BlocksEncodable(bs: seq<Block>)
  {
    forall k :: 0 <= k < |bs| ==> bs[k].skip <= MaxSkip && IsU16(bs[k].mask)
  }

  /** The bytes of a list of blocks, one after the other. */
  function PatchBytes(bs: seq<Block>): seq<byte>
    requires BlocksEncodable(bs)
  {
    if bs == [] then [] else BlockBytes(bs[0]) + PatchBytes(bs[1..])
  }

  /** The result of the scan: the blocks written and the word where it stopped. */
  datatype ScanResult = ScanResult(blocks: seq<Block>, end: nat)

  /** The scan loop from word `w`, with `skip` words skipped since the last
      block and `p` bytes of partial message written: it goes on while words
      remain and fewer than `3 * W - 3` bytes are written. A block starts at
      a differing word, or when the skip count has reached 255, and covers
      the next sixteen words (fewer at the end). */
  function Scan(n: seq<byte>, o: seq<byte>, W: nat, w: nat, skip: nat, p: nat): (r: ScanResult)
    requires |n| == 3 * W && |o| == |n| && w <= W && skip <= MaxSkip
    ensures w <= r.end <= W && BlocksEncodable(r.blocks)
    decreases W - w
  {
    if w < W && p < 3 * W - 3 then
      if skip == MaxSkip || Differs(n, o, w) then
        var c := Min(BlockWords, W - w);
        var lits := LitsUpTo(n, o, w, c);
        MaskBits(n, o, w, c);
        Pow2Monotone(c, BlockWords);
        Pow2Of16();
        var rest := Scan(n, o, W, w + c, 0, p + 3 + |lits|);
        ScanResult([Block(skip, MaskUpTo(n, o, w, c), lits)] + rest.blocks, rest.end)
      else
        Scan(n, o, W, w + 1, skip + 1, p)
    else
      ScanResult([], w)
  }

  /** The blocks up to the last one that carries new words: the source's
      `trim` cuts the partial message after the last copied word. */
  function Trimmed(bs: seq<Block>): (r: seq<Block>)
    ensures |r| <= |bs| && r == bs[..|r|]
    ensures r != [] ==> r[|r| - 1].lits != []
  {
    if bs == [] then []
    else if bs[|bs| - 1].lits == [] then Trimmed(bs[..|bs| - 1])
    else bs
  }

  /** Every block the trim drops carries no new words. */
  lemma {:induction false} TrimmedTail(bs: seq<Block>)
    ensures forall k :: |Trimmed(bs)| <= k < |bs| ==> bs[k].lits == []
    decreases |bs|
  {
    if bs != [] && bs[|bs| - 1].lits == [] {
      var front := bs[..|bs| - 1];
      TrimmedTail(front);
      assert forall k :: 0 <= k < |front| ==> front[k] == bs[k];
    }
  }

  /** The value of `trim - partial` after the blocks `bs`: 0 when no word
      was copied, else the end of the last copied word. */
  function TrimPos(bs: seq<Block>): nat
    requires BlocksEncodable(bs)
  {
    if Trimmed(bs) == [] then 0 else 3 + |PatchBytes(Trimmed(bs))|
  }

  /** What the encoder decides for a message. */
  datatype Update =
    | NoChange                    // nothing differs: the message is not sent
    | Partial(payload: seq<byte>) // the partial message, terminator included
    | Full                        // the partial message is too big: send it all

  /** `dspFiltersReset`, the three bytes every partial message starts with. */
  const PartialHeader: seq<byte> := [2, 0, 0]
  /** The terminating marker. */
  const Terminator: seq<byte> := [0, 0, 0]

  /** The encoder's decision for new data `n` against old data `o`. */
  function Choose(n: seq<byte>, o: seq<byte>, W: nat): Update
    requires |n| == 3 * W && |o| == |n|
  {
    var r := Scan(n, o, W, 0, 0, 3);
    var t := TrimPos(r.blocks);
    if t == 0 then NoChange
    else if t < 3 * W - 3 then Partial(PartialHeader + PatchBytes(Trimmed(r.blocks)) + Terminator)
    else Full
  }

  /** The bytes of the blocks up to `k`, then of the rest. */
  lemma {:induction false} PatchBytesSplit(bs: seq<Block>, k: nat)
    requires BlocksEncodable(bs) && k <= |bs|
    ensures PatchBytes(bs) == PatchBytes(bs[..k]) + PatchBytes(bs[k..])
  {
    if k > 0 {
      PatchBytesSplit(bs[1..], k - 1);
      assert bs[1..][..k - 1] == bs[..k][1..];
      assert bs[1..][k - 1..] == bs[k..];
    }
  }

  /** Appending a block appends its bytes; `trim` moves only when the block
      copies a word. */
  lemma PatchBytesSnoc(bs: seq<Block>, b: Block)
    requires BlocksEncodable(bs) && b.skip <= MaxSkip && IsU16(b.mask)
    ensures BlocksEncodable(bs + [b])
    ensures PatchBytes(bs + [b]) == PatchBytes(bs) + BlockBytes(b)
    ensures PartialHeader + PatchBytes(bs + [b]) == (PartialHeader + PatchBytes(bs)) + BlockBytes(b)
    ensures TrimPos(bs + [b]) == if b.lits == [] then TrimPos(bs) else 3 + |PatchBytes(bs + [b])|
  {
    assert (bs + [b])[..|bs|] == bs;
    PatchBytesSplit(bs + [b], |bs|);
    assert (bs + [b])[|bs|..] == [b];
    assert PatchBytes([b]) == BlockBytes(b) + PatchBytes([]);
  }

  /** The inner loop of the scan: for up to sixteen words from `w0`, set the
      bit of each differing word in the change mask and copy the word to
      `partial` at `q + 3` onwards; `trim` follows the last copied word. */
  method CopyChangedWords(n: seq<byte>, o: seq<byte>, W: nat, w0: nat, partial: array<byte>, q: nat, trim0: nat)
    returns (change: nat, p: nat, w: nat, trim: nat)
    requires |n| == 3 * W && |o| == |n| && w0 < W && q + 3 + 3 * BlockWords <= partial.Length
    modifies partial
    ensures w == w0 + Min(BlockWords, W - w0)
    ensures change == MaskUpTo(n, o, w0, w - w0)
    ensures p == q + 3 + |LitsUpTo(n, o, w0, w - w0)|
    ensures forall k :: q + 3 <= k < p ==> partial[k] == LitsUpTo(n, o, w0, w - w0)[k - (q + 3)]
    ensures forall k :: 0 <= k < q + 3 ==> partial[k] == old(partial[k])
    ensures trim == if LitsUpTo(n, o, w0, w - w0) == [] then trim0 else p
  {
    p, w, trim := q + 3, w0, trim0;
    change := 0;
    var i := 0;
    ghost var lits: seq<byte> := [];
    while i < BlockWords && w < W
      invariant 0 <= i <= Min(BlockWords, W - w0) && w == w0 + i
      invariant change == MaskUpTo(n, o, w0, i)
      invariant lits == LitsUpTo(n, o, w0, i)
      invariant p == q + 3 + |lits| && p + 3 * (BlockWords - i) <= partial.Length
      invariant forall k :: q + 3 <= k < p ==> partial[k] == lits[k - (q + 3)]
      invariant forall k :: 0 <= k < q + 3 ==> partial[k] == old(partial[k])
      invariant trim == if lits == [] then trim0 else p
    {
      if Word(n, w) != Word(o, w) {
        // `*change |= BIT(i)`: bit `i` is still clear, so setting it adds `2^i`.
        change := change + Pow2(i);
        var word := Word(n, w);
        partial[p] := word[0];
        partial[p + 1] := word[1];
        partial[p + 2] := word[2];
        lits := lits + word;
        p := p + 3;
        trim := p;
      }
      i := i + 1;
      w := w + 1;
    }
  }

  /** One step of the scan that writes a block. */
  lemma ScanBlockStep(n: seq<byte>, o: seq<byte>, W: nat, w: nat, skip: nat, p: nat, done: seq<Block>)
    requires |n| == 3 * W && |o| == |n| && w < W && skip <= MaxSkip && p < 3 * W - 3
    requires skip == MaxSkip || Differs(n, o, w)
    ensures var c := Min(BlockWords, W - w);
      var b := Block(skip, MaskUpTo(n, o, w, c), LitsUpTo(n, o, w, c));
      b.skip <= MaxSkip && IsU16(b.mask) &&
      Scan(n, o, W, w, skip, p).blocks == [b] + Scan(n, o, W, w + c, 0, p + 3 + |b.lits|).blocks &&
      done + Scan(n, o, W, w, skip, p).blocks == (done + [b]) + Scan(n, o, W, w + c, 0, p + 3 + |b.lits|).blocks
  {
    var c := Min(BlockWords, W - w);
    MaskBits(n, o, w, c);
    Pow2Monotone(c, BlockWords);
    Pow2Of16();
  }

  /** One step of the scan that skips a word. */
  lemma ScanSkipStep(n: seq<byte>, o: seq<byte>, W: nat, w: nat, skip: nat, p: nat, done: seq<Block>)
    requires |n| == 3 * W && |o| == |n| && w < W && skip < MaxSkip && p < 3 * W - 3
    requires !Differs(n, o, w)
    ensures Scan(n, o, W, w, skip, p) == Scan(n, o, W, w + 1, skip + 1, p)
    ensures done + Scan(n, o, W, w, skip, p).blocks == done + Scan(n, o, W, w + 1, skip + 1, p).blocks
  {
  }

  /** The scan ends when the words or the room run out. */
  lemma ScanStops(n: seq<byte>, o: seq<byte>, W: nat, w: nat, skip: nat, p: nat)
    requires |n| == 3 * W && |o| == |n| && w <= W && skip <= MaxSkip
    requires !(w < W && p < 3 * W - 3)
    ensures Scan(n, o, W, w, skip, p) == ScanResult([], w)
  {
  }

  /** The block the scan writes at word `w` after `skip` skipped words. */
  function BlockAt(n: seq<byte>, o: seq<byte>, W: nat, w: nat, skip: nat): (b: Block)
    requires |n| == 3 * W && |o| == |n| && w < W
  {
    var c := Min(BlockWords, W - w);
    Block(skip, MaskUpTo(n, o, w, c), LitsUpTo(n, o, w, c))
  }

  /** Write the block at word `w` to `partial` at `q`: the skip count, then
      the words that differ, then the mask in the two bytes left for it. */
  method WriteBlockBytes(n: seq<byte>, o: seq<byte>, W: nat, w: nat, offset: nat, partial: array<byte>, q: nat, trim0: nat)
    returns (p: nat, w': nat, trim: nat)
    requires |n| == 3 * W && |o| == |n| && w < W && offset <= MaxSkip
    requires q + BlockMaxSize <= partial.Length
    modifies partial
    ensures BlockAt(n, o, W, w, offset).skip <= MaxSkip && IsU16(BlockAt(n, o, W, w, offset).mask)
    ensures w' == w + Min(BlockWords, W - w)
    ensures p == q + 3 + |BlockAt(n, o, W, w, offset).lits|
    ensures partial[..p] == old(partial[..q]) + BlockBytes(BlockAt(n, o, W, w, offset))
    ensures trim == if BlockAt(n, o, W, w, offset).lits == [] then trim0 else p
  {
    var c := Min(BlockWords, W - w);
    var change;
    change, p, w', trim := WriteSkipAndWords(n, o, W, w, offset, partial, q, trim0);
    MaskBits(n, o, w, c);
    Pow2Monotone(c, BlockWords);
    Pow2Of16();
    var be := StoreLE16(CpuToBe16(change));
    partial[q + 1] := be[0];
    partial[q + 2] := be[1];
    ghost var lits := LitsUpTo(n, o, w, c);
    Splice(partial[..p], old(partial[..q]), q, [offset as byte] + be, lits);
    BlockAtBytes(n, o, W, w, offset, change, be, old(partial[..q]));
  }

  /** The bytes of the block at `w`: the skip count, the mask, the new words. */
  lemma BlockAtBytes(n: seq<byte>, o: seq<byte>, W: nat, w: nat, offset: nat, change: nat, be: seq<byte>, pre: seq<byte>)
    requires |n| == 3 * W && |o| == |n| && w < W && offset <= MaxSkip
    requires change == MaskUpTo(n, o, w, Min(BlockWords, W - w)) && IsU16(change)
    requires be == StoreLE16(CpuToBe16(change))
    ensures pre + ([offset as byte] + be) + LitsUpTo(n, o, w, Min(BlockWords, W - w)) == pre + BlockBytes(BlockAt(n, o, W, w, offset))
  {
  }

  /** The skip count at `q`, then the words that differ from `q + 3` on. */
  method WriteSkipAndWords(n: seq<byte>, o: seq<byte>, W: nat, w: nat, offset: nat, partial: array<byte>, q: nat, trim0: nat)
    returns (change: nat, p: nat, w': nat, trim: nat)
    requires |n| == 3 * W && |o| == |n| && w < W && offset <= MaxSkip
    requires q + BlockMaxSize <= partial.Length
    modifies partial
    ensures w' == w + Min(BlockWords, W - w)
    ensures change == MaskUpTo(n, o, w, w' - w)
    ensures p == q + 3 + |LitsUpTo(n, o, w, w' - w)|
    ensures forall k :: 0 <= k < q ==> partial[k] == old(partial[k])
    ensures partial[q] == offset as byte
    ensures forall k :: q + 3 <= k < p ==> partial[k] == LitsUpTo(n, o, w, w' - w)[k - (q + 3)]
    ensures trim == if LitsUpTo(n, o, w, w' - w) == [] then trim0 else p
  {
    partial[q] := offset as byte;
    change, p, w', trim := CopyChangedWords(n, o, W, w, partial, q, trim0);
  }

  /** Bytes that agree with `pre`, then `h`, then `lits`, position by
      position, are their concatenation. */
  lemma Splice(s: seq<byte>, pre: seq<byte>, q: nat, h: seq<byte>, lits: seq<byte>)
    requires |pre| == q && |h| == 3 && |s| == q + 3 + |lits|
    requires forall k :: 0 <= k < q ==> s[k] == pre[k]
    requires s[q] == h[0] && s[q + 1] == h[1] && s[q + 2] == h[2]
    requires forall k :: q + 3 <= k < |s| ==> s[k] == lits[k - (q + 3)]
    ensures s == pre + h + lits
  {
  }

  /** The block step of the scan loop: after blocks `done`, the partial
      message and `trim` account for one block more, and the scan goes on
      from the word after the block. */
  method WriteBlock(n: seq<byte>, o: seq<byte>, W: nat, w: nat, offset: nat, partial: array<byte>, q: nat, trim0: nat,
                    ghost done: seq<Block>)
    returns (p: nat, w': nat, trim: nat)
    requires |n| == 3 * W && |o| == |n| && w < W && offset <= MaxSkip && q < 3 * W - 3
    requires offset == MaxSkip || Differs(n, o, w)
    requires q + BlockMaxSize <= partial.Length
    requires BlocksEncodable(done) && partial[..q] == PartialHeader + PatchBytes(done) && trim0 == TrimPos(done)
    modifies partial
    ensures w' == w + Min(BlockWords, W - w) && p <= q + BlockMaxSize
    ensures BlocksEncodable(done + [BlockAt(n, o, W, w, offset)])
    ensures done + Scan(n, o, W, w, offset, q).blocks == (done + [BlockAt(n, o, W, w, offset)]) + Scan(n, o, W, w', 0, p).blocks
    ensures partial[..p] == PartialHeader + PatchBytes(done + [BlockAt(n, o, W, w, offset)])
    ensures trim == TrimPos(done + [BlockAt(n, o, W, w, offset)])
  {
    ghost var b := BlockAt(n, o, W, w, offset);
    ScanBlockStep(n, o, W, w, offset, q, done);
    p, w', trim := WriteBlockBytes(n, o, W, w, offset, partial, q, trim0);
    PatchBytesSnoc(done, b);
  }

  /** One turn of the scan loop: write a block where the word differs or the
      skip count is full, otherwise skip the word. */
  method ScanWord(n: seq<byte>, o: seq<byte>, W: nat, w: nat, offset: nat, partial: array<byte>, q: nat, trim0: nat,
                  ghost done: seq<Block>)
    returns (p: nat, w': nat, offset': nat, trim: nat, ghost done': seq<Block>)
    requires |n| == 3 * W && |o| == |n| && w < W && offset <= MaxSkip && 3 <= q < 3 * W - 3
    requires q + BlockMaxSize <= partial.Length
    requires BlocksEncodable(done) && partial[..q] == PartialHeader + PatchBytes(done) && trim0 == TrimPos(done)
    modifies partial
    ensures w < w' <= W && offset' <= MaxSkip && 3 <= p <= q + BlockMaxSize
    ensures BlocksEncodable(done')
    ensures done + Scan(n, o, W, w, offset, q).blocks == done' + Scan(n, o, W, w', offset', p).blocks
    ensures partial[..p] == PartialHeader + PatchBytes(done')
    ensures trim == TrimPos(done')
  {
    if offset == MaxSkip || Word(n, w) != Word(o, w) {
      p, w', trim := WriteBlock(n, o, W, w, offset, partial, q, trim0, done);
      done' := done + [BlockAt(n, o, W, w, offset)];
      offset' := 0;
    } else {
      ScanSkipStep(n, o, W, w, offset, q, done);
      p, w', offset', trim, done' := q, w + 1, offset + 1, trim0, done;
    }
  }

  /** The scan loop of `tfa_cont_write_vstepMax2_One`: write the partial
      message for new data `n` against old data `o` into `partial`, and
      return how many bytes it holds and the `trim` position. */
  method BuildPatch(n: seq<byte>, o: seq<byte>, W: nat, partial: array<byte>) returns (p: nat, trim: nat)
    requires |n| == 3 * W && |o| == |n| && 3 * W + BlockMaxSize <= partial.Length
    modifies partial
    ensures p <= partial.Length
    ensures partial[..p] == PartialHeader + PatchBytes(Scan(n, o, W, 0, 0, 3).blocks)
    ensures trim == TrimPos(Scan(n, o, W, 0, 0, 3).blocks)
  {
    partial[0] := 2;
    partial[1] := 0;
    partial[2] := 0;
    p, trim := 3, 0;
    var w: nat, offset: nat := 0, 0;
    ghost var done: seq<Block> := [];
    ghost var all := Scan(n, o, W, 0, 0, 3).blocks;
    assert PatchBytes(done) == [];
    assert partial[..p] == [2, 0, 0];
    while w < W && p < 3 * W - 3
      invariant w <= W && offset <= MaxSkip && 3 <= p <= 3 * W + 47
      invariant BlocksEncodable(done)
      invariant all == done + Scan(n, o, W, w, offset, p).blocks
      invariant partial[..p] == PartialHeader + PatchBytes(done)
      invariant trim == TrimPos(done)
      decreases W - w
    {
      p, w, offset, trim, done := ScanWord(n, o, W, w, offset, partial, p, trim, done);
    }
    ScanStops(n, o, W, w, offset, p);
    assert done + [] == done;
  }

  /** A block has new words exactly when one of the words it covers differs. */
  lemma {:induction false} LitsNonEmpty(n: seq<byte>, o: seq<byte>, w: nat, c: nat)
    requires |o| == |n| && 3 * (w + c) <= |n|
    ensures LitsUpTo(n, o, w, c) == [] <==> forall k :: w <= k < w + c ==> !Differs(n, o, k)
  {
    if c > 0 {
      LitsNonEmpty(n, o, w, c - 1);
      var last := if Differs(n, o, w + c - 1) then Word(n, w + c - 1) else [];
      assert LitsUpTo(n, o, w, c) == LitsUpTo(n, o, w, c - 1) + last;
      assert last == [] <==> !Differs(n, o, w + c - 1);
    }
  }

  /** Equal words make equal data. */
  lemma {:induction false} SameWords(n: seq<byte>, o: seq<byte>, a: nat, b: nat)
    requires |o| == |n| && a <= b && 3 * b <= |n|
    requires forall k :: a <= k < b ==> !Differs(n, o, k)
    ensures n[3 * a .. 3 * b] == o[3 * a .. 3 * b]
    decreases b
  {
    if a < b {
      SameWords(n, o, a, b - 1);
      assert !Differs(n, o, b - 1);
      assert n[3 * a .. 3 * b] == n[3 * a .. 3 * (b - 1)] + Word(n, b - 1);
      assert o[3 * a .. 3 * b] == o[3 * a .. 3 * (b - 1)] + Word(o, b - 1);
    }
  }

  /** Unequal data has a differing word. */
  lemma SomeWordDiffers(n: seq<byte>, o: seq<byte>, W: nat) returns (d: nat)
    requires |n| == 3 * W && |o| == |n| && n != o
    ensures d < W && Differs(n, o, d)
  {
    if forall k :: 0 <= k < W ==> !Differs(n, o, k) {
      SameWords(n, o, 0, W);
      assert false;
    }
    d :| 0 <= d < W && Differs(n, o, d);
  }

  /** When nothing differs no block carries a word. */
  lemma {:induction false} ScanOfSame(n: seq<byte>, W: nat, w: nat, skip: nat, p: nat)
    requires |n| == 3 * W && w <= W && skip <= MaxSkip
    ensures forall k :: 0 <= k < |Scan(n, n, W, w, skip, p).blocks| ==> Scan(n, n, W, w, skip, p).blocks[k].lits == []
    decreases W - w
  {
    if w < W && p < 3 * W - 3 {
      if skip == MaxSkip || Differs(n, n, w) {
        var c := Min(BlockWords, W - w);
        LitsNonEmpty(n, n, w, c);
        ScanBlockStep(n, n, W, w, skip, p, []);
        ScanOfSame(n, W, w + c, 0, p + 3 + |LitsUpTo(n, n, w, c)|);
      } else {
        ScanOfSame(n, W, w + 1, skip + 1, p);
      }
    }
  }

  /** A scan that has reached a word before a differing word `d`, with at
      most three bytes written per 256 words passed, goes on to copy a word:
      the room runs out only after the data length. */
  lemma {:induction false} ScanFindsChange(n: seq<byte>, o: seq<byte>, W: nat, w: nat, skip: nat, p: nat, d: nat)
    requires |n| == 3 * W && |o| == |n| && skip <= MaxSkip && skip <= w <= d < W && 3 <= W
    requires Differs(n, o, d) && 3 <= p && 256 * (p - 3) <= 3 * (w - skip)
    ensures HasLits(Scan(n, o, W, w, skip, p).blocks)
    decreases W - w, 1
  {
    if skip == MaxSkip || Differs(n, o, w) {
      BlockFindsChange(n, o, W, w, skip, p, d);
    } else {
      ScanSkipStep(n, o, W, w, skip, p, []);
      ScanFindsChange(n, o, W, w + 1, skip + 1, p, d);
    }
  }

  /** The block branch: the block copies a word, or the differing word lies
      past it and the scan from its end copies one. */
  lemma {:induction false} BlockFindsChange(n: seq<byte>, o: seq<byte>, W: nat, w: nat, skip: nat, p: nat, d: nat)
    requires |n| == 3 * W && |o| == |n| && skip <= MaxSkip && skip <= w <= d < W && 3 <= W
    requires Differs(n, o, d) && 3 <= p && 256 * (p - 3) <= 3 * (w - skip)
    requires skip == MaxSkip || Differs(n, o, w)
    ensures HasLits(Scan(n, o, W, w, skip, p).blocks)
    decreases W - w, 0
  {
    var c := Min(BlockWords, W - w);
    var b := Block(skip, MaskUpTo(n, o, w, c), LitsUpTo(n, o, w, c));
    ScanBlockStep(n, o, W, w, skip, p, []);
    if b.lits == [] {
      LitsNonEmpty(n, o, w, c);
      ScanFindsChange(n, o, W, w + c, 0, p + 3, d);
    }
    ConsHasLits(b, Scan(n, o, W, w + c, 0, p + 3 + |b.lits|).blocks);
  }

  /** Some block of `bs` copies a word. */
  predicate HasLits(bs: seq<Block>)
  {
    exists k :: 0 <= k < |bs| && bs[k].lits != []
  }

  lemma ConsHasLits(b: Block, rest: seq<Block>)
    requires b.lits != [] || HasLits(rest)
    ensures HasLits([b] + rest)
  {
    if b.lits != [] {
      assert ([b] + rest)[0] == b;
    } else {
      var k :| 0 <= k < |rest| && rest[k].lits != [];
      assert ([b] + rest)[k + 1] == rest[k];
    }
  }

  /** Identical data is never sent, whatever its length. */
  lemma ChooseSame(n: seq<byte>, W: nat)
    requires |n| == 3 * W
    ensures Choose(n, n, W) == NoChange
  {
    var bs := Scan(n, n, W, 0, 0, 3).blocks;
    ScanOfSame(n, W, 0, 0, 3);
  }

  /** From three words on, the encoder finds nothing to send exactly when
      the new data equals the old data. */
  lemma ChooseNoChange(n: seq<byte>, o: seq<byte>, W: nat)
    requires |n| == 3 * W && |o| == |n| && 3 <= W
    ensures Choose(n, o, W) == NoChange <==> n == o
  {
    if n == o {
      ChooseSame(n, W);
    } else {
      var d := SomeWordDiffers(n, o, W);
      ScanFindsChange(n, o, W, 0, 0, 3, d);
      var bs := Scan(n, o, W, 0, 0, 3).blocks;
      var k :| 0 <= k < |bs| && bs[k].lits != [];
      TrimmedTail(bs);
      assert Trimmed(bs) != [];
    }
  }

  /** As written, a message of one or two parameter words is never sent
      once partial updates are enabled: the scan loop needs more than
      `3 * W - 3` bytes of room beyond the three-byte header to run at all,
      so every change of such a message is dropped as "no change". */
  lemma ShortChangeDropped(n: seq<byte>, o: seq<byte>, W: nat)
    requires |n| == 3 * W && |o| == |n| && W <= 2
    ensures Choose(n, o, W) == NoChange
  {
    ScanStops(n, o, W, 0, 0, 3);
  }

  /** A one-word message whose word changed from 000000 to 010000. */
  lemma ShortChangeExample()
    ensures var n: seq<byte>, o: seq<byte> := [1, 0, 0], [0, 0, 0]; n != o && Choose(n, o, 1) == NoChange
  {
    var n: seq<byte>, o: seq<byte> := [1, 0, 0], [0, 0, 0];
    assert n[0] != o[0];
    ShortChangeDropped(n, o, 1);
  }

  /** The decision the encoder evidently intends: a message whose data
      changed is sent, as a regular update when no partial message was
      built. From three words on it is the decision of `Choose`. */
  function ChooseCorrected(n: seq<byte>, o: seq<byte>, W: nat): (u: Update)
    requires |n| == 3 * W && |o| == |n|
    ensures u == NoChange <==> n == o
    ensures 3 <= W ==> u == Choose(n, o, W)
  {
    if n == o then ChooseSame(n, W); NoChange
    else if 3 <= W then ChooseNoChange(n, o, W); Choose(n, o, W)
    else if Choose(n, o, W) == NoChange then Full
    else Choose(n, o, W)
  }

  /** `cmdid[2] |= BIT(6)`: the partial-update flag of the parameter id. */
  function SetPartialFlag(b: byte): (r: byte)
    ensures ByteBit(r, 6)
    ensures forall k: nat :: k != 6 ==> (ByteBit(r, k) <==> ByteBit(b, k))
  {
    BitSixRoom(b as nat);
    if Bit(b as nat, 6) then b
    else
      assert Pow2(6) == 64;
      var r := (b as int + 64) as byte;
      forall k: nat ensures ByteBit(r, k) <==> (k == 6 || ByteBit(b, k)) {
        BitSet(b as nat, 6, k);
      }
      assert ByteBit(r, 6);
      r
  }

  /** Bit `k` of a byte. */
  predicate ByteBit(b: byte, k: nat)
  {
    Bit(b as nat, k)
  }

  /** A byte whose bit 6 is clear has room for it below 256. */
  lemma BitSixRoom(m: nat)
    requires m < 256
    ensures !Bit(m, 6) ==> m + 64 < 256
  {
    var m1 := m / 2;
    var m2 := m1 / 2;
    var m3 := m2 / 2;
    var m4 := m3 / 2;
    var m5 := m4 / 2;
    var m6 := m5 / 2;
    assert Bit(m, 6) == Bit(m1, 5) == Bit(m2, 4) == Bit(m3, 3) == Bit(m4, 2) == Bit(m5, 1) == Bit(m6, 0);
    assert m < 64 * m6 + 64 && m6 < 4;
  }

  /** The parameter id after the cold-start rule: a set-algo-params message
      (type 0) and a set-MBDRC message (type 2) use their resetting variant
      when the device starts cold; every other id is sent as stored. */
  function ColdCmd(msgType: byte, cmd: seq<byte>, isCold: bool): (r: seq<byte>)
    requires |cmd| == 3
    ensures |r| == 3 && r[..2] == cmd[..2]
    ensures isCold && msgType == 0 ==> r[2] == SbParamSetAlgoParams
    ensures isCold && msgType == 2 ==> r[2] == SbParamSetMbdrc
    ensures !(isCold && (msgType == 0 || msgType == 2)) ==> r == cmd
  {
    if isCold && msgType == 0 then cmd[..2] + [SbParamSetAlgoParams]
    else if isCold && msgType == 2 then cmd[..2] + [SbParamSetMbdrc]
    else cmd
  }
}

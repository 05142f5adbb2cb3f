/** The receiving side of a partial message, as the layout of
    `struct tfa_partial_msg_block` and the encoder define it: after the
    three-byte header, each block is a skip count, a big-endian change mask
    and one three-byte word per set mask bit; three zero bytes end the list.
    The receiver moves its cursor past `skip` unchanged words, then rebuilds
    the next sixteen words (fewer at the end): a word whose mask bit is set
    is the next new word, any other keeps its old value.

    The DSP firmware that really receives these messages is not part of
    this model; these definitions are the meaning the encoder's output is
    proved against. */
module PatchReceiver {
  import opened Types
  import opened Bytes
  import opened Bits
  import opened PartialUpdate

  /** The window of a block: `c` words from word `w` of the old data `o`,
      with the words whose mask bit is set taken in order from `lits`
      (built here from the last word back). */
  function Window(o: seq<byte>, w: nat, c: nat, mask: nat, lits: seq<byte>): (r: seq<byte>)
    requires 3 * (w + c) <= |o| && |lits| == 3 * Pop(mask, c)
    ensures |r| == 3 * c
    decreases c, |lits|
  {
    if c == 0 then []
    else if Bit(mask, c - 1) then Window(o, w, c - 1, mask, lits[..|lits| - 3]) + lits[|lits| - 3..]
    else Window(o, w, c - 1, mask, lits) + Word(o, w + c - 1)
  }

  /** Word `k` of a window is new word number `Pop(mask, k)` when bit `k` is
      set, and old word `w + k` otherwise. */
  lemma {:induction false} WindowWord(o: seq<byte>, w: nat, c: nat, mask: nat, lits: seq<byte>, k: nat)
    requires 3 * (w + c) <= |o| && |lits| == 3 * Pop(mask, c) && k < c
    ensures Bit(mask, k) ==> 3 * Pop(mask, k) + 3 <= |lits|
    ensures Window(o, w, c, mask, lits)[3 * k .. 3 * k + 3] ==
      if Bit(mask, k) then lits[3 * Pop(mask, k) .. 3 * Pop(mask, k) + 3] else Word(o, w + k)
    decreases c, |lits|
  {
    var win := Window(o, w, c, mask, lits);
    if k < c - 1 {
      var lits' := if Bit(mask, c - 1) then lits[..|lits| - 3] else lits;
      WindowWord(o, w, c - 1, mask, lits', k);
      assert win[3 * k .. 3 * k + 3] == Window(o, w, c - 1, mask, lits')[3 * k .. 3 * k + 3];
      if Bit(mask, k) {
        assert lits'[3 * Pop(mask, k) .. 3 * Pop(mask, k) + 3] == lits[3 * Pop(mask, k) .. 3 * Pop(mask, k) + 3];
      }
    }
  }

  /** The window the receiver rebuilds from a block of the scan is the new
      data of the words the block covers. */
  lemma {:induction false} WindowOfScan(n: seq<byte>, o: seq<byte>, w: nat, c: nat, m: nat)
    requires |o| == |n| && 3 * (w + c) <= |n|
    requires forall k :: 0 <= k < c ==> (Bit(m, k) <==> Differs(n, o, w + k))
    ensures |LitsUpTo(n, o, w, c)| == 3 * Pop(m, c)
    ensures Window(o, w, c, m, LitsUpTo(n, o, w, c)) == n[3 * w .. 3 * (w + c)]
  {
    if c > 0 {
      WindowOfScan(n, o, w, c - 1, m);
      assert Bit(m, c - 1) <==> Differs(n, o, w + c - 1);
      WindowOfScanStep(n, o, w, c, m);
    }
  }

  /** The last word of a block's window, given the words before it. */
  lemma WindowOfScanStep(n: seq<byte>, o: seq<byte>, w: nat, c: nat, m: nat)
    requires |o| == |n| && 3 * (w + c) <= |n| && 0 < c
    requires Bit(m, c - 1) <==> Differs(n, o, w + c - 1)
    requires |LitsUpTo(n, o, w, c - 1)| == 3 * Pop(m, c - 1)
    requires Window(o, w, c - 1, m, LitsUpTo(n, o, w, c - 1)) == n[3 * w .. 3 * (w + c - 1)]
    ensures |LitsUpTo(n, o, w, c)| == 3 * Pop(m, c)
    ensures Window(o, w, c, m, LitsUpTo(n, o, w, c)) == n[3 * w .. 3 * (w + c)]
  {
    var lits := LitsUpTo(n, o, w, c);
    var prev := LitsUpTo(n, o, w, c - 1);
    if Differs(n, o, w + c - 1) {
      AppendParts(prev, Word(n, w + c - 1));
      assert Window(o, w, c, m, lits) == Window(o, w, c - 1, m, prev) + Word(n, w + c - 1);
    } else {
      AppendNil(prev);
      assert Window(o, w, c, m, lits) == Window(o, w, c - 1, m, prev) + Word(o, w + c - 1);
    }
    SliceSplit(n, 3 * w, 3 * (w + c - 1), 3 * (w + c));
  }

  /** A window with no mask bit set keeps the old words. */
  lemma {:induction false} WindowOld(o: seq<byte>, w: nat, c: nat, mask: nat, lits: seq<byte>)
    requires 3 * (w + c) <= |o| && Pop(mask, c) == 0 && lits == []
    ensures Window(o, w, c, mask, lits) == o[3 * w .. 3 * (w + c)]
  {
    if c > 0 {
      WindowOld(o, w, c - 1, mask, lits);
      assert Window(o, w, c, mask, lits) == Window(o, w, c - 1, mask, lits) + Word(o, w + c - 1);
      SliceSplit(o, 3 * w, 3 * (w + c - 1), 3 * (w + c));
    }
  }

  /** Block `b` applied at word `w` stays inside the data of `W` words
      and carries one new word per set bit of its window. */
  predicate BlockFits(W: nat, b: Block, w: nat)
  {
    w + b.skip < W && |b.lits| == 3 * Pop(b.mask, Min(BlockWords, W - (w + b.skip)))
  }

  /** The words from `w` to the end of the window of block `b` applied at
      `w`: the skipped words as they were, then the window. */
  function ApplyOne(o: seq<byte>, W: nat, b: Block, w: nat): (r: seq<byte>)
    requires |o| == 3 * W && BlockFits(W, b, w)
    ensures |r| == 3 * (b.skip + Min(BlockWords, W - (w + b.skip)))
  {
    var w1 := w + b.skip;
    o[3 * w .. 3 * w1] + Window(o, w1, Min(BlockWords, W - w1), b.mask, b.lits)
  }

  /** The word after the window of block `b` applied at `w`. */
  function After(W: nat, b: Block, w: nat): (r: nat)
    requires w + b.skip < W
    ensures w < r <= W
  {
    w + b.skip + Min(BlockWords, W - (w + b.skip))
  }

  /** The data after applying blocks `bs` to old data `o` of `W` words from
      word `w` on, or `None` when a block does not fit. */
  function ApplyFrom(o: seq<byte>, W: nat, bs: seq<Block>, w: nat): Option<seq<byte>>
    requires |o| == 3 * W && w <= W
    decreases |bs|
  {
    if bs == [] then Some(o[3 * w..])
    else if !BlockFits(W, bs[0], w) then None
    else
      var tail := ApplyFrom(o, W, bs[1..], After(W, bs[0], w));
      if tail.None? then None else Some(ApplyOne(o, W, bs[0], w) + tail.value)
  }

  /** Applied to the old data from where the skipped words before `w`
      start, the blocks of the scan from `w` rebuild the new data. */
  ghost predicate RoundTrips(n: seq<byte>, o: seq<byte>, W: nat, w: nat, skip: nat, p: nat)
    requires |n| == 3 * W && |o| == |n| && w <= W && skip <= MaxSkip && skip <= w
  {
    ApplyFrom(o, W, Scan(n, o, W, w, skip, p).blocks, w - skip) == Some(n[3 * (w - skip)..])
  }

  /** The scan is a faithful description of the new data: applied to the old
      data from where the last block ended, the blocks of a scan that gets
      to the last word rebuild the new data. */
  lemma {:induction false} ScanRoundTrip(n: seq<byte>, o: seq<byte>, W: nat, w: nat, skip: nat, p: nat)
    requires |n| == 3 * W && |o| == |n| && w <= W && skip <= MaxSkip && skip <= w
    requires forall k :: w - skip <= k < w ==> !Differs(n, o, k)
    requires Scan(n, o, W, w, skip, p).end == W
    ensures RoundTrips(n, o, W, w, skip, p)
    decreases W - w, 1
  {
    if w < W && p < 3 * W - 3 {
      if skip == MaxSkip || Differs(n, o, w) {
        BlockRoundTrips(n, o, W, w, skip, p);
      } else {
        ScanSkipStep(n, o, W, w, skip, p, []);
        ScanRoundTrip(n, o, W, w + 1, skip + 1, p);
        RoundTripSkip(n, o, W, w, skip, p);
      }
    } else {
      RoundTripEnd(n, o, W, w, skip, p);
    }
  }

  /** The block branch of the induction: the scan from the end of the block
      round-trips, and the block in front of it extends that. */
  lemma {:induction false} BlockRoundTrips(n: seq<byte>, o: seq<byte>, W: nat, w: nat, skip: nat, p: nat)
    requires |n| == 3 * W && |o| == |n| && w < W && skip <= MaxSkip && skip <= w && p < 3 * W - 3
    requires skip == MaxSkip || Differs(n, o, w)
    requires forall k :: w - skip <= k < w ==> !Differs(n, o, k)
    requires Scan(n, o, W, w, skip, p).end == W
    ensures RoundTrips(n, o, W, w, skip, p)
    decreases W - w, 0
  {
    var c := Min(BlockWords, W - w);
    var q := p + 3 + |BlockAt(n, o, W, w, skip).lits|;
    assert Scan(n, o, W, w + c, 0, q).end == W by {
      ScanCons(n, o, W, w, skip, p);
    }
    ScanRoundTrip(n, o, W, w + c, 0, q);
    RoundTripStep(n, o, W, w, skip, p);
  }

  /** A word the scan skips is rebuilt with the run it belongs to. */
  lemma RoundTripSkip(n: seq<byte>, o: seq<byte>, W: nat, w: nat, skip: nat, p: nat)
    requires |n| == 3 * W && |o| == |n| && w < W && skip < MaxSkip && skip <= w && p < 3 * W - 3
    requires !Differs(n, o, w)
    requires RoundTrips(n, o, W, w + 1, skip + 1, p)
    ensures RoundTrips(n, o, W, w, skip, p)
  {
    ScanSkipStep(n, o, W, w, skip, p, []);
  }

  /** The block the scan emits at word `w`, put in front of the rest of the
      scan, rebuilds the new data from where the skipped words start. */
  lemma RoundTripStep(n: seq<byte>, o: seq<byte>, W: nat, w: nat, skip: nat, p: nat)
    requires |n| == 3 * W && |o| == |n| && w < W && skip <= MaxSkip && skip <= w && p < 3 * W - 3
    requires skip == MaxSkip || Differs(n, o, w)
    requires forall k :: w - skip <= k < w ==> !Differs(n, o, k)
    requires RoundTrips(n, o, W, w + Min(BlockWords, W - w), 0, p + 3 + |BlockAt(n, o, W, w, skip).lits|)
    ensures RoundTrips(n, o, W, w, skip, p)
  {
    var c := Min(BlockWords, W - w);
    var b := BlockAt(n, o, W, w, skip);
    var rest := Scan(n, o, W, w + c, 0, p + 3 + |b.lits|).blocks;
    ScanCons(n, o, W, w, skip, p);
    BlockRoundTrip(n, o, W, w, skip, rest);
  }

  /** The block the scan emits at word `w`, put in front of blocks that
      rebuild the data after its window, rebuilds the data from where the
      skipped words start. */
  lemma BlockRoundTrip(n: seq<byte>, o: seq<byte>, W: nat, w: nat, skip: nat, rest: seq<Block>)
    requires |n| == 3 * W && |o| == |n| && skip <= w < W
    requires forall k :: w - skip <= k < w ==> !Differs(n, o, k)
    requires var c := Min(BlockWords, W - w);
      ApplyFrom(o, W, rest, w + c) == Some(n[3 * (w + c)..])
    ensures ApplyFrom(o, W, [BlockAt(n, o, W, w, skip)] + rest, w - skip) == Some(n[3 * (w - skip)..])
  {
    var c := Min(BlockWords, W - w);
    var b := BlockAt(n, o, W, w, skip);
    OneOfScan(n, o, W, w, skip);
    ApplyConsSome(o, W, b, rest, w - skip, n[3 * (w + c)..]);
    SuffixSplit(n, 3 * (w - skip), 3 * (w + c));
  }

  /** A scan that emits a block at word `w` is that block followed by the
      scan from the end of its window. */
  lemma ScanCons(n: seq<byte>, o: seq<byte>, W: nat, w: nat, skip: nat, p: nat)
    requires |n| == 3 * W && |o| == |n| && w < W && skip <= MaxSkip && p < 3 * W - 3
    requires skip == MaxSkip || Differs(n, o, w)
    ensures var c := Min(BlockWords, W - w);
      var b := BlockAt(n, o, W, w, skip);
      var rest := Scan(n, o, W, w + c, 0, p + 3 + |b.lits|);
      Scan(n, o, W, w, skip, p) == ScanResult([b] + rest.blocks, rest.end)
  {
    var c := Min(BlockWords, W - w);
    MaskBits(n, o, w, c);
    Pow2Monotone(c, BlockWords);
    Pow2Of16();
  }

  /** No block left: the rest of the data is the old data, equal to the new. */
  lemma RoundTripEnd(n: seq<byte>, o: seq<byte>, W: nat, w: nat, skip: nat, p: nat)
    requires |n| == 3 * W && |o| == |n| && w <= W && skip <= MaxSkip && skip <= w
    requires !(w < W && p < 3 * W - 3) && Scan(n, o, W, w, skip, p).end == W
    requires forall k :: w - skip <= k < w ==> !Differs(n, o, k)
    ensures RoundTrips(n, o, W, w, skip, p)
  {
    ScanStops(n, o, W, w, skip, p);
    SameWords(n, o, w - skip, W);
    SuffixSplit(o, 3 * (w - skip), 3 * W);
    SuffixSplit(n, 3 * (w - skip), 3 * W);
  }

  lemma ConsParts<T>(x: T, xs: seq<T>)
    ensures ([x] + xs)[0] == x && ([x] + xs)[1..] == xs
  {
  }

  /** The words a block of the scan covers, skipped words included, rebuilt
      from the old data are the new data. */
  lemma OneOfScan(n: seq<byte>, o: seq<byte>, W: nat, w: nat, skip: nat)
    requires |n| == 3 * W && |o| == |n| && skip <= w < W
    requires forall k :: w - skip <= k < w ==> !Differs(n, o, k)
    ensures var b := BlockAt(n, o, W, w, skip);
      var c := Min(BlockWords, W - w);
      BlockFits(W, b, w - skip) && After(W, b, w - skip) == w + c &&
      ApplyOne(o, W, b, w - skip) == n[3 * (w - skip) .. 3 * (w + c)]
  {
    var c := Min(BlockWords, W - w);
    MaskBits(n, o, w, c);
    WindowOfScan(n, o, w, c, MaskUpTo(n, o, w, c));
    SameWords(n, o, w - skip, w);
    SliceSplit(n, 3 * (w - skip), 3 * w, 3 * (w + c));
  }

  /** A block with no new word rebuilds the old words it covers. */
  lemma OneOld(o: seq<byte>, W: nat, b: Block, w: nat)
    requires |o| == 3 * W && BlockFits(W, b, w) && b.lits == []
    ensures ApplyOne(o, W, b, w) == o[3 * w .. 3 * After(W, b, w)]
  {
    var w1 := w + b.skip;
    var c := Min(BlockWords, W - w1);
    WindowOld(o, w1, c, b.mask, b.lits);
    SliceSplit(o, 3 * w, 3 * w1, 3 * (w1 + c));
  }

  /** `ApplyFrom` on a list that starts with a block that fits. */
  lemma ApplyCons(o: seq<byte>, W: nat, b: Block, rest: seq<Block>, w: nat)
    requires |o| == 3 * W && w <= W && BlockFits(W, b, w)
    ensures var tail := ApplyFrom(o, W, rest, After(W, b, w));
      ApplyFrom(o, W, [b] + rest, w) == if tail.None? then None else Some(ApplyOne(o, W, b, w) + tail.value)
  {
    ConsParts(b, rest);
  }

  /** `ApplyFrom` on a list that starts with a block that fits, when the
      rest of the list applies. */
  lemma ApplyConsSome(o: seq<byte>, W: nat, b: Block, rest: seq<Block>, w: nat, t: seq<byte>)
    requires |o| == 3 * W && w <= W && BlockFits(W, b, w)
    requires ApplyFrom(o, W, rest, After(W, b, w)) == Some(t)
    ensures ApplyFrom(o, W, [b] + rest, w) == Some(ApplyOne(o, W, b, w) + t)
  {
    ApplyCons(o, W, b, rest, w);
  }

  /** Blocks that carry no word change nothing. */
  lemma {:induction false} ApplyEmpty(o: seq<byte>, W: nat, bs: seq<Block>, w: nat)
    requires |o| == 3 * W && w <= W
    requires forall j :: 0 <= j < |bs| ==> bs[j].lits == []
    requires ApplyFrom(o, W, bs, w).Some?
    ensures ApplyFrom(o, W, bs, w) == Some(o[3 * w..])
    decreases |bs|
  {
    if bs != [] {
      var b := bs[0];
      ApplyCons(o, W, b, bs[1..], w);
      assert [b] + bs[1..] == bs;
      var a := After(W, b, w);
      ApplyEmpty(o, W, bs[1..], a);
      OneOld(o, W, b, w);
      assert o[3 * w..] == o[3 * w .. 3 * a] + o[3 * a..];
    }
  }

  /** Dropping trailing blocks that carry no word, as `trim` does, changes
      nothing the receiver rebuilds. */
  lemma {:induction false} ApplyDropEmpty(o: seq<byte>, W: nat, bs: seq<Block>, k: nat, w: nat)
    requires |o| == 3 * W && w <= W && k <= |bs|
    requires forall j :: k <= j < |bs| ==> bs[j].lits == []
    requires ApplyFrom(o, W, bs, w).Some?
    ensures ApplyFrom(o, W, bs[..k], w) == ApplyFrom(o, W, bs, w)
    decreases |bs|
  {
    if k == 0 {
      ApplyEmpty(o, W, bs, w);
    } else {
      var t := bs[..k];
      assert t[0] == bs[0] && t[1..] == bs[1..][..k - 1];
      ApplyCons(o, W, bs[0], bs[1..], w);
      ApplyCons(o, W, bs[0], bs[1..][..k - 1], w);
      assert [bs[0]] + bs[1..] == bs && [bs[0]] + bs[1..][..k - 1] == t;
      ApplyDropEmpty(o, W, bs[1..], k - 1, After(W, bs[0], w));
    }
  }

  /** A block as the encoder puts it on the wire: a skip count and a
      16-bit mask that are not both zero (so it cannot be mistaken for the
      terminator) and one word per set mask bit. */
  predicate WireBlock(b: Block)
  {
    b.skip <= MaxSkip && IsU16(b.mask) && (b.skip != 0 || b.mask != 0) &&
    |b.lits| == 3 * Pop(b.mask, BlockWords)
  }

  /** Read the blocks of a partial message after its header, up to and
      including the terminator. */
  function DecodeBlocks(bs: seq<byte>): Option<seq<Block>>
    decreases |bs|
  {
    if |bs| < 3 then None
    else
      var skip, mask := bs[0] as nat, 0x100 * bs[1] as nat + bs[2] as nat;
      if skip == 0 && mask == 0 then (if |bs| == 3 then Some([]) else None)
      else
        var end := 3 + 3 * Pop(mask, BlockWords);
        if |bs| < end then None
        else match DecodeBlocks(bs[end..])
          case None => None
          case Some(rest) => Some([Block(skip, mask, bs[3..end])] + rest)
  }

  /** The wire bytes of blocks, terminator added, read back as the same
      blocks. */
  lemma {:induction false} DecodePatch(bs: seq<Block>)
    requires AllWire(bs)
    ensures BlocksEncodable(bs)
    ensures DecodeBlocks(PatchBytes(bs) + Terminator) == Some(bs)
    decreases |bs|
  {
    if bs == [] {
      assert PatchBytes(bs) + Terminator == [0, 0, 0];
    } else {
      var b, rest := bs[0], bs[1..];
      assert AllWire(rest) by {
        forall k | 0 <= k < |rest| ensures WireBlock(rest[k]) {
          assert rest[k] == bs[k + 1];
        }
      }
      DecodePatch(rest);
      DecodeOne(b, PatchBytes(rest) + Terminator);
      AppendAssoc(BlockBytes(b), PatchBytes(rest), Terminator);
      ConsParts(b, rest);
      assert [b] + rest == bs;
    }
  }

  /** A wire block followed by more bytes is read as that block, then the
      blocks of the bytes that follow it. */
  lemma DecodeOne(b: Block, rest: seq<byte>)
    requires WireBlock(b)
    ensures DecodeBlocks(BlockBytes(b) + rest) ==
      match DecodeBlocks(rest)
      case None => None
      case Some(r) => Some([b] + r)
  {
    StoreBigEndian(b.mask);
    var h := BlockBytes(b);
    var bytes := h + rest;
    AppendParts(h, rest);
    assert h[0] as nat == b.skip && 0x100 * h[1] as nat + h[2] as nat == b.mask;
    assert h[3..] == b.lits;
  }

  predicate AllWire(bs: seq<Block>)
  {
    forall k :: 0 <= k < |bs| ==> WireBlock(bs[k])
  }

  lemma ConsWire(b: Block, rest: seq<Block>)
    requires WireBlock(b) && AllWire(rest)
    ensures AllWire([b] + rest)
  {
  }

  /** A block the scan emits is a wire block: its skip count fits, it is
      not a terminator and it carries one word per mask bit. */
  lemma BlockWire(n: seq<byte>, o: seq<byte>, W: nat, w: nat, skip: nat)
    requires |n| == 3 * W && |o| == |n| && w < W && skip <= MaxSkip
    requires skip == MaxSkip || Differs(n, o, w)
    ensures WireBlock(BlockAt(n, o, W, w, skip))
  {
    var c := Min(BlockWords, W - w);
    var m := MaskUpTo(n, o, w, c);
    MaskBits(n, o, w, c);
    Pow2Monotone(c, BlockWords);
    Pow2Of16();
    WindowOfScan(n, o, w, c, m);
    PopUpTo(m, c, BlockWords);
    if skip == 0 {
      assert Bit(m, 0);
    }
  }

  /** Every block of the scan is a wire block. */
  lemma {:induction false} ScanWire(n: seq<byte>, o: seq<byte>, W: nat, w: nat, skip: nat, p: nat)
    requires |n| == 3 * W && |o| == |n| && w <= W && skip <= MaxSkip
    ensures AllWire(Scan(n, o, W, w, skip, p).blocks)
    decreases W - w
  {
    if w < W && p < 3 * W - 3 {
      if skip == MaxSkip || Differs(n, o, w) {
        var c := Min(BlockWords, W - w);
        var b := BlockAt(n, o, W, w, skip);
        ScanCons(n, o, W, w, skip, p);
        ScanWire(n, o, W, w + c, 0, p + 3 + |b.lits|);
        BlockWire(n, o, W, w, skip);
        ConsWire(b, Scan(n, o, W, w + c, 0, p + 3 + |b.lits|).blocks);
      } else {
        ScanSkipStep(n, o, W, w, skip, p, []);
        ScanWire(n, o, W, w + 1, skip + 1, p);
      }
    }
  }

  /** The blocks `bs`, written from byte `p` on, end at least at the
      full-message size `3 * W - 3`, and the last of them has new words. */
  predicate ReachesFull(bs: seq<Block>, W: nat, p: nat)
    requires BlocksEncodable(bs)
  {
    if bs == [] then 3 * W - 3 <= p
    else bs[|bs| - 1].lits != [] && 3 * W - 3 <= p + |PatchBytes(bs)|
  }

  /** A scan that stops before the last word stopped because its output
      reached the full-message size: the bytes it wrote end at least at
      `3 * W - 3`, and its last block carries new words. The byte count
      grows by at most 51 for every 16 words, and a block without new words
      is only forced after 255 unchanged words, so below 4576 words an empty
      forced block never reaches that size. */
  lemma {:induction false} CutShortIsFull(n: seq<byte>, o: seq<byte>, W: nat, w: nat, skip: nat, p: nat)
    requires |n| == 3 * W && |o| == |n| && w <= W && skip <= MaxSkip && skip <= w
    requires 3 <= p && 16 * (p - 3) <= 51 * (w - skip) && W < 4576
    requires Scan(n, o, W, w, skip, p).end < W
    ensures ReachesFull(Scan(n, o, W, w, skip, p).blocks, W, p)
    decreases W - w
  {
    if w < W && p < 3 * W - 3 {
      if skip == MaxSkip || Differs(n, o, w) {
        var q := p + 3 + |BlockAt(n, o, W, w, skip).lits|;
        CutShortBlockDown(n, o, W, w, skip, p);
        CutShortIsFull(n, o, W, w + BlockWords, 0, q);
        CutShortBlockUp(n, o, W, w, skip, p, Scan(n, o, W, w, skip, p).blocks, Scan(n, o, W, w + BlockWords, 0, q).blocks);
      } else {
        ScanSkipStep(n, o, W, w, skip, p, []);
        CutShortIsFull(n, o, W, w + 1, skip + 1, p);
      }
    } else {
      ScanStops(n, o, W, w, skip, p);
    }
  }

  /** A block forced after 255 unchanged words, sixteen words before the
      end, starts too early for its bytes to reach the full-message size
      below 4576 words. */
  lemma ForcedBlockShort(W: nat, w: nat, p: nat)
    requires 3 <= p && 16 * (p - 3) <= 51 * (w - MaxSkip) && w + BlockWords < W && W < 4576
    ensures p + 3 < 3 * W - 3
  {
  }

  /** A cut-short scan that emits a block at `w` emits a whole block of
      sixteen words, and the scan after it is cut short too. */
  lemma CutShortBlockDown(n: seq<byte>, o: seq<byte>, W: nat, w: nat, skip: nat, p: nat)
    requires |n| == 3 * W && |o| == |n| && w < W && skip <= MaxSkip && skip <= w && p < 3 * W - 3
    requires skip == MaxSkip || Differs(n, o, w)
    requires 3 <= p && 16 * (p - 3) <= 51 * (w - skip)
    requires Scan(n, o, W, w, skip, p).end < W
    ensures var q := p + 3 + |BlockAt(n, o, W, w, skip).lits|;
      w + BlockWords < W && 3 <= q && 16 * (q - 3) <= 51 * (w + BlockWords) &&
      Scan(n, o, W, w + BlockWords, 0, q).end < W
    ensures var rest := Scan(n, o, W, w + BlockWords, 0, p + 3 + |BlockAt(n, o, W, w, skip).lits|).blocks;
      Scan(n, o, W, w, skip, p).blocks == [BlockAt(n, o, W, w, skip)] + rest &&
      BlocksEncodable([BlockAt(n, o, W, w, skip)] + rest)
  {
    ScanCons(n, o, W, w, skip, p);
  }

  /** The block emitted at `w` put in front of a cut-short rest keeps the
      conclusion of `CutShortIsFull`. */
  lemma CutShortBlockUp(n: seq<byte>, o: seq<byte>, W: nat, w: nat, skip: nat, p: nat, bs: seq<Block>, rest: seq<Block>)
    requires |n| == 3 * W && |o| == |n| && w + BlockWords < W && skip <= MaxSkip && skip <= w
    requires skip == MaxSkip || Differs(n, o, w)
    requires 3 <= p && 16 * (p - 3) <= 51 * (w - skip) && W < 4576
    requires bs == [BlockAt(n, o, W, w, skip)] + rest
    requires BlocksEncodable([BlockAt(n, o, W, w, skip)] + rest) && BlocksEncodable(rest)
    requires ReachesFull(rest, W, p + 3 + |BlockAt(n, o, W, w, skip).lits|)
    ensures BlocksEncodable(bs) && ReachesFull(bs, W, p)
  {
    if rest == [] {
      if skip == MaxSkip {
        ForcedBlockShort(W, w, p);
      }
      LitsNonEmpty(n, o, w, BlockWords);
    }
    CutShortCons(BlockAt(n, o, W, w, skip), rest, W, p);
  }

  /** The step of `CutShortIsFull` for a block put in front of the rest. */
  lemma CutShortCons(b: Block, rest: seq<Block>, W: nat, p: nat)
    requires BlocksEncodable([b] + rest) && BlocksEncodable(rest)
    requires ReachesFull(rest, W, p + 3 + |b.lits|) && (rest == [] ==> b.lits != [])
    ensures ReachesFull([b] + rest, W, p)
  {
    ConsParts(b, rest);
  }

  /** Below 4576 words, a partial message is only chosen when the scan
      reached the last word: a scan cut short by the size bound would have
      trimmed to a full-size message. */
  lemma PartialReachesEnd(n: seq<byte>, o: seq<byte>, W: nat)
    requires |n| == 3 * W && |o| == |n| && W < 4576
    requires Choose(n, o, W).Partial?
    ensures Scan(n, o, W, 0, 0, 3).end == W
  {
    if Scan(n, o, W, 0, 0, 3).end < W {
      CutShortNotPartial(n, o, W);
    }
  }

  lemma CutShortNotPartial(n: seq<byte>, o: seq<byte>, W: nat)
    requires |n| == 3 * W && |o| == |n| && W < 4576
    requires Scan(n, o, W, 0, 0, 3).end < W
    ensures !Choose(n, o, W).Partial?
  {
    var bs := Scan(n, o, W, 0, 0, 3).blocks;
    CutShortIsFull(n, o, W, 0, 0, 3);
    assert bs != [] ==> Trimmed(bs) == bs;
  }

  /** Below 4576 words, the partial message the encoder chooses always
      reads back to the new data. */
  lemma ChooseRoundTripShort(n: seq<byte>, o: seq<byte>, W: nat)
    requires |n| == 3 * W && |o| == |n| && W < 4576
    requires Choose(n, o, W).Partial?
    ensures var pl := Choose(n, o, W).payload;
      |pl| >= 3 && pl[..3] == PartialHeader && DecodeBlocks(pl[3..]).Some? &&
      ApplyFrom(o, W, DecodeBlocks(pl[3..]).value, 0) == Some(n)
  {
    PartialReachesEnd(n, o, W);
    ChooseRoundTrip(n, o, W);
  }

  /** The partial message the encoder chooses, when its scan reached the
      last word, starts with the filter-reset header, and its blocks read
      back and applied to the old data give the new data. */
  lemma ChooseRoundTrip(n: seq<byte>, o: seq<byte>, W: nat)
    requires |n| == 3 * W && |o| == |n|
    requires Choose(n, o, W).Partial? && Scan(n, o, W, 0, 0, 3).end == W
    ensures var pl := Choose(n, o, W).payload;
      |pl| >= 3 && pl[..3] == PartialHeader && DecodeBlocks(pl[3..]).Some? &&
      ApplyFrom(o, W, DecodeBlocks(pl[3..]).value, 0) == Some(n)
  {
    var bs := Scan(n, o, W, 0, 0, 3).blocks;
    var tb := Trimmed(bs);
    var pl := Choose(n, o, W).payload;
    var rest := PatchBytes(tb) + Terminator;
    assert pl == PartialHeader + rest && |PartialHeader| == 3;
    assert pl[..3] == PartialHeader && pl[3..] == rest;
    assert DecodeBlocks(rest) == Some(tb) by {
      ScanWire(n, o, W, 0, 0, 3);
      DecodePatch(tb);
    }
    assert ApplyFrom(o, W, tb, 0) == Some(n) by {
      ScanRoundTrip(n, o, W, 0, 0, 3);
      TrimmedTail(bs);
      ApplyDropEmpty(o, W, bs, |tb|, 0);
      assert n[0..] == n;
    }
  }
}

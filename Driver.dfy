/** The writers of the tool: `tfa_cont_write_vstepMax2_One` sends one
    volume-step message, regular or partial, through buffers of the pool;
    `tfa_cont_write_vstepMax2` sends the messages of one volume step;
    `tfa_cont_write_file`, `tfa_cont_write_files` and
    `tfa_cont_write_files_prof` walk the files and commands of a device or
    profile list. Each writer is specified by the messages it appends to
    the log of `dsp_msg`. */
module Driver {
  import opened Types
  import opened Bytes
  import opened Bits
  import opened Codec24
  import opened Transport
  import opened Container
  import opened VstepChain
  import opened PartialUpdate
  import opened PatchReceiver
  import opened Pool

  /** `is_cold`: the tool always writes for a cold-started device. */
  const IsCold := true
  /** `TFA_MAX_VSTEP_MSG_MARKER`: a message index from here on selects every
      message of the step. */
  const MaxVstepMsgMarker := 100
  /** Message type 1 holds filter coefficients and is never sent partially. */
  const CoefficientsType: byte := 1
  /** `(MEMTRACK_MAX_WORDS * 3) + 3`: the writers' local message buffer. */
  const WriterBufferSize := 150 * 3 + 3

  /** A volume-step message as the encoder expects it: a three-byte command
      id, at least the command word, and no more words than `g_out32buf`
      holds. */
  predicate MsgOk(m: VstepMsg)
  {
    |m.cmdId| == 3 && 1 <= m.length <= Out32Words && |m.data| == 3 * (m.length - 1)
  }

  /** The encoder keeps the partial update only when it is asked for, the
      previous message has the same type and length, and the message is not
      a coefficient message. */
  predicate PartialApplies(nw: VstepMsg, prev: Option<VstepMsg>, enable: bool)
  {
    enable && prev.Some? && prev.value.msgType == nw.msgType &&
    prev.value.length == nw.length && nw.msgType != CoefficientsType
  }

  /** The message `tfa_cont_write_vstepMax2_One` builds for `nw`, with the
      corrected no-change decision: nothing, the partial message under the
      flagged command id, or the command id and the whole data. `partial`
      says whether a partial buffer was obtained. */
  function OneMessage(nw: VstepMsg, prev: Option<VstepMsg>, partial: bool): (m: seq<byte>)
    requires MsgOk(nw)
    requires partial ==> prev.Some? && MsgOk(prev.value) && prev.value.length == nw.length
  {
    var cmd := ColdCmd(nw.msgType, nw.cmdId, IsCold);
    var u := if partial then ChooseCorrected(nw.data, prev.value.data, nw.length - 1) else Full;
    match u
    case NoChange => []
    case Partial(pl) => cmd[..2] + [SetPartialFlag(cmd[2])] + pl
    case Full => if nw.data == [] then [] else cmd + nw.data
  }

  /** What one call of `tfa_cont_write_vstepMax2_One` sends, given the
      buffers of the pool and whether each of its two `malloc` calls
      succeeds: the partial buffer comes from the pool or the first
      `malloc` (without it the whole message is sent), the send buffer from
      the pool or the second, and a message whose send buffer cannot be had
      is dropped. */
  function OneSent(slots: seq<Slot>, nw: VstepMsg, prev: Option<VstepMsg>, enable: bool, partialMallocOk: bool, mallocOk: bool): seq<seq<byte>>
    requires PoolOk(slots) && MsgOk(nw) && (prev.Some? ==> MsgOk(prev.value))
  {
    var use := PartialApplies(nw, prev, enable);
    var pi := if use then FirstFit(slots, |nw.data| + BlockMaxSize) else -1;
    var mid := if pi >= 0 then Lease(slots, pi) else slots;
    var m := OneMessage(nw, prev, use && (pi >= 0 || partialMallocOk));
    if m != [] && (FirstFit(mid, |m|) >= 0 || mallocOk) then [m] else []
  }

  /** The two allocations are independent: when no partial buffer can be
      had, neither from the pool nor from the first `malloc`, the whole
      message is still sent if the second `malloc` succeeds. */
  lemma NoPartialBufferSendsWhole(slots: seq<Slot>, nw: VstepMsg, prev: Option<VstepMsg>, enable: bool)
    requires PoolOk(slots) && MsgOk(nw) && (prev.Some? ==> MsgOk(prev.value))
    requires FirstFit(slots, |nw.data| + BlockMaxSize) < 0 && nw.data != []
    ensures OneSent(slots, nw, prev, enable, false, true) == [ColdCmd(nw.msgType, nw.cmdId, IsCold) + nw.data]
  {
  }

  /** What the message `tfa_cont_write_vstepMax2_One` builds carries: it is
      empty exactly when nothing changed since the previous message (or,
      without a partial buffer, when there is no data); otherwise it is the
      command id and the whole data, or a shorter partial message with the
      flagged id whose blocks, read back and applied to the previous data,
      give the new data. */
  lemma OneMessageCarriesData(nw: VstepMsg, prev: Option<VstepMsg>, partial: bool)
    requires MsgOk(nw)
    requires partial ==> prev.Some? && MsgOk(prev.value) && prev.value.length == nw.length
    ensures var m := OneMessage(nw, prev, partial);
      m == [] <==> (if partial then nw.data == prev.value.data else nw.data == [])
    ensures var m := OneMessage(nw, prev, partial);
      m != [] && 3 + |nw.data| <= |m| ==> m == ColdCmd(nw.msgType, nw.cmdId, IsCold) + nw.data
    ensures var m := OneMessage(nw, prev, partial);
      m != [] && |m| < 3 + |nw.data| ==> partial && PartialCarries(nw, prev.value, m)
  {
    if partial && ChooseCorrected(nw.data, prev.value.data, nw.length - 1).Partial? {
      PartialMessage(nw, prev.value);
    }
  }

  /** A partial message: the flagged command id, the partial header, and
      blocks that turn the previous data into the new data. */
  ghost predicate PartialCarries(nw: VstepMsg, pv: VstepMsg, m: seq<byte>)
    requires MsgOk(nw) && MsgOk(pv) && pv.length == nw.length
  {
    var cmd := ColdCmd(nw.msgType, nw.cmdId, IsCold);
    6 <= |m| && m[..2] == cmd[..2] && m[2] == SetPartialFlag(cmd[2]) && m[3..6] == PartialHeader &&
    DecodeBlocks(m[6..]).Some? &&
    ApplyFrom(pv.data, nw.length - 1, DecodeBlocks(m[6..]).value, 0) == Some(nw.data)
  }

  /** The payload of a partial update: header first, shorter than the data,
      and read back it applies when the scan reached the last word, which
      it always does below 4576 words. */
  lemma PayloadCarries(n: seq<byte>, o: seq<byte>, W: nat)
    requires |n| == 3 * W && |o| == |n| && Choose(n, o, W).Partial?
    ensures var pl := Choose(n, o, W).payload;
      3 <= |pl| < |n| && pl[..3] == PartialHeader &&
      (Scan(n, o, W, 0, 0, 3).end == W || W < 4576 ==>
         DecodeBlocks(pl[3..]).Some? && ApplyFrom(o, W, DecodeBlocks(pl[3..]).value, 0) == Some(n))
  {
    PartialWords(n, o, W);
    var bs := Scan(n, o, W, 0, 0, 3).blocks;
    assert Choose(n, o, W).payload == PartialHeader + PatchBytes(Trimmed(bs)) + Terminator;
    if W < 4576 {
      PartialReachesEnd(n, o, W);
    }
    if Scan(n, o, W, 0, 0, 3).end == W {
      ChooseRoundTrip(n, o, W);
    }
  }

  lemma PartialMessage(nw: VstepMsg, pv: VstepMsg)
    requires MsgOk(nw) && MsgOk(pv) && pv.length == nw.length
    requires ChooseCorrected(nw.data, pv.data, nw.length - 1).Partial?
    ensures var m := OneMessage(nw, Some(pv), true);
      m != [] && |m| < 3 + |nw.data| && PartialCarries(nw, pv, m)
  {
    var n, o, W := nw.data, pv.data, nw.length - 1;
    var u := ChooseCorrected(n, o, W);
    assert u == Choose(n, o, W);
    var pl := u.payload;
    assert 3 <= |pl| < |n| && pl[..3] == PartialHeader && DecodeBlocks(pl[3..]).Some? &&
      ApplyFrom(o, W, DecodeBlocks(pl[3..]).value, 0) == Some(n) by {
      PartialWords(n, o, W);
      ChooseRoundTripShort(n, o, W);
    }
    var cmd := ColdCmd(nw.msgType, nw.cmdId, IsCold);
    var m := OneMessage(nw, Some(pv), true);
    assert m == cmd[..2] + [SetPartialFlag(cmd[2])] + pl;
    assert m[3..6] == pl[..3];
    assert m[6..] == pl[3..];
  }

  /** `OneSent` in the terms of the two halves of the writer: the partial
      buffer taken and the message encoded in it, then the send buffer. */
  lemma SentByParts(slots: seq<Slot>, nw: VstepMsg, prev: Option<VstepMsg>, enable: bool, partialMallocOk: bool, mallocOk: bool,
                    use: bool, pIndex: int, cmd: seq<byte>, payload: seq<byte>)
    requires PoolOk(slots) && MsgOk(nw) && (prev.Some? ==> MsgOk(prev.value))
    requires use == PartialApplies(nw, prev, enable)
    requires pIndex == if use then FirstFit(slots, |nw.data| + BlockMaxSize) else -1
    requires |cmd| == 3
    requires OneMessage(nw, prev, use && (pIndex >= 0 || partialMallocOk)) == if payload == [] then [] else cmd + payload
    ensures var mid := if pIndex != -1 then Lease(slots, pIndex) else slots;
      OneSent(slots, nw, prev, enable, partialMallocOk, mallocOk) ==
        if payload != [] && (FirstFit(mid, 3 + |payload|) >= 0 || mallocOk) then [cmd + payload] else []
  {
  }

  /** The blocks kept by the trim are a prefix of the scanned blocks, so
      their bytes are a prefix of the patch. */
  lemma TrimmedPrefix(bs: seq<Block>)
    requires BlocksEncodable(bs) && TrimPos(bs) != 0
    ensures BlocksEncodable(Trimmed(bs))
    ensures TrimPos(bs) <= 3 + |PatchBytes(bs)|
    ensures (PartialHeader + PatchBytes(bs))[..TrimPos(bs)] == PartialHeader + PatchBytes(Trimmed(bs))
  {
    var t := Trimmed(bs);
    PatchBytesSplit(bs, |t|);
    assert bs[..|t|] == t;
    AppendAssoc(PartialHeader, PatchBytes(t), PatchBytes(bs[|t|..]));
    var whole := PartialHeader + PatchBytes(t) + PatchBytes(bs[|t|..]);
    assert whole[..|PartialHeader + PatchBytes(t)|] == PartialHeader + PatchBytes(t);
  }

  /** The bytes of wire blocks are whole words. */
  lemma {:induction false} WireWords(bs: seq<Block>)
    requires AllWire(bs)
    ensures BlocksEncodable(bs) && |PatchBytes(bs)| == 3 * PatchWordCount(bs)
    decreases |bs|
  {
    assert BlocksEncodable(bs) by {
      forall k | 0 <= k < |bs| ensures bs[k].skip <= MaxSkip && IsU16(bs[k].mask) {
        assert WireBlock(bs[k]);
      }
    }
    if bs != [] {
      assert AllWire(bs[1..]) by {
        forall k | 0 <= k < |bs[1..]| ensures WireBlock(bs[1..][k]) {
          assert bs[1..][k] == bs[k + 1];
        }
      }
      WireWords(bs[1..]);
      assert WireBlock(bs[0]);
      assert |BlockBytes(bs[0])| == 3 + 3 * Pop(bs[0].mask, BlockWords);
    }
  }

  /** How many words the bytes of the blocks make: each block's skip and mask
      word, then its new words. */
  ghost function PatchWordCount(bs: seq<Block>): nat
  {
    if bs == [] then 0 else 1 + Pop(bs[0].mask, BlockWords) + PatchWordCount(bs[1..])
  }

  /** The partial message is whole words, shorter than the data it
      replaces. */
  lemma PartialWords(n: seq<byte>, o: seq<byte>, W: nat)
    requires |n| == 3 * W && |o| == |n| && Choose(n, o, W).Partial?
    ensures |Choose(n, o, W).payload| % 3 == 0 && |Choose(n, o, W).payload| < |n|
  {
    var bs := Scan(n, o, W, 0, 0, 3).blocks;
    var t := Trimmed(bs);
    ScanWire(n, o, W, 0, 0, 3);
    assert AllWire(t) by {
      forall k | 0 <= k < |t| ensures WireBlock(t[k]) {
        assert t[k] == bs[k];
      }
    }
    WireWords(t);
    var pb := PatchBytes(t);
    var payload := Choose(n, o, W).payload;
    assert payload == PartialHeader + pb + Terminator;
    assert |payload| == 6 + |pb|;
    assert TrimPos(bs) == 3 + |pb| < 3 * W - 3;
    assert |payload| < |n|;
    assert |payload| % 3 == 0 by {
      assert |payload| == 3 * (2 + PatchWordCount(t));
    }
  }

  /** The message with a partial buffer, read off the position of the
      trim the scan leaves: nothing, the terminated patch of the kept blocks
      under the flagged command id, or the command id and the data. */
  lemma MessageByTrim(nw: VstepMsg, prev: VstepMsg, bs: seq<Block>, t: nat)
    requires MsgOk(nw) && MsgOk(prev) && prev.length == nw.length
    requires bs == Scan(nw.data, prev.data, nw.length - 1, 0, 0, 3).blocks && t == TrimPos(bs)
    ensures BlocksEncodable(Trimmed(bs))
    ensures var cmd := ColdCmd(nw.msgType, nw.cmdId, IsCold);
      OneMessage(nw, Some(prev), true) ==
        if t == 0 && (3 <= nw.length - 1 || nw.data == prev.data) then []
        else if t != 0 && t < |nw.data| - 3 then
          cmd[..2] + [SetPartialFlag(cmd[2])] + (PartialHeader + PatchBytes(Trimmed(bs)) + Terminator)
        else cmd + nw.data
    ensures t != 0 && t < |nw.data| - 3 ==> (3 + t) % 3 == 0 && 3 + t <= |nw.data|
    ensures !(t == 0 && (3 <= nw.length - 1 || nw.data == prev.data)) ==> nw.data != []
  {
    TrimmedPrefixEncodable(bs);
    if t == 0 && (3 <= nw.length - 1 || nw.data == prev.data) {
      DecisionByTrim(nw.data, prev.data, nw.length - 1);
    } else if t != 0 && t < |nw.data| - 3 {
      MessagePartialByTrim(nw, prev, bs, t);
    } else {
      MessageFullByTrim(nw, prev, bs, t);
    }
  }

  /** The partial branch of `MessageByTrim`. */
  lemma MessagePartialByTrim(nw: VstepMsg, prev: VstepMsg, bs: seq<Block>, t: nat)
    requires MsgOk(nw) && MsgOk(prev) && prev.length == nw.length
    requires bs == Scan(nw.data, prev.data, nw.length - 1, 0, 0, 3).blocks && t == TrimPos(bs)
    requires t != 0 && t < |nw.data| - 3
    ensures var cmd := ColdCmd(nw.msgType, nw.cmdId, IsCold);
      OneMessage(nw, Some(prev), true) == cmd[..2] + [SetPartialFlag(cmd[2])] + (PartialHeader + PatchBytes(Trimmed(bs)) + Terminator)
    ensures (3 + t) % 3 == 0 && 3 + t <= |nw.data| && nw.data != []
  {
    var n, o, W := nw.data, prev.data, nw.length - 1;
    var pl := PartialHeader + PatchBytes(Trimmed(bs)) + Terminator;
    assert 3 <= W && ChooseCorrected(n, o, W) == Partial(pl) by {
      DecisionByTrim(n, o, W);
    }
    assert |pl| % 3 == 0 && |pl| < |n| by {
      PartialWords(n, o, W);
    }
    assert |pl| == 3 + t;
    assert (3 + t) % 3 == 0 by {
      assert |pl| % 3 == 0 && 3 + t == |pl|;
    }
    OneMessagePartial(nw, prev, pl);
  }

  /** The full branch of `MessageByTrim`. */
  lemma MessageFullByTrim(nw: VstepMsg, prev: VstepMsg, bs: seq<Block>, t: nat)
    requires MsgOk(nw) && MsgOk(prev) && prev.length == nw.length
    requires bs == Scan(nw.data, prev.data, nw.length - 1, 0, 0, 3).blocks && t == TrimPos(bs)
    requires !(t == 0 && (3 <= nw.length - 1 || nw.data == prev.data)) && !(t != 0 && t < |nw.data| - 3)
    ensures OneMessage(nw, Some(prev), true) == ColdCmd(nw.msgType, nw.cmdId, IsCold) + nw.data
    ensures nw.data != []
  {
    var n, o, W := nw.data, prev.data, nw.length - 1;
    DecisionByTrim(n, o, W);
    assert ChooseCorrected(n, o, W) == Full;
    assert n != [];
  }

  /** A partial decision puts its payload under the flagged command id. */
  lemma OneMessagePartial(nw: VstepMsg, prev: VstepMsg, pl: seq<byte>)
    requires MsgOk(nw) && MsgOk(prev) && prev.length == nw.length
    requires ChooseCorrected(nw.data, prev.data, nw.length - 1) == Partial(pl)
    ensures var cmd := ColdCmd(nw.msgType, nw.cmdId, IsCold);
      OneMessage(nw, Some(prev), true) == cmd[..2] + [SetPartialFlag(cmd[2])] + pl
  {
  }

  /** The kept blocks can be written. */
  lemma TrimmedPrefixEncodable(bs: seq<Block>)
    ensures BlocksEncodable(bs) ==> BlocksEncodable(Trimmed(bs))
  {
    var t := Trimmed(bs);
    if BlocksEncodable(bs) {
      forall k | 0 <= k < |t| ensures t[k].skip <= MaxSkip && IsU16(t[k].mask) {
        assert t[k] == bs[k];
      }
    }
  }

  /** `memcpy(&dst[at], src, |src|)`. */
  method Copy(dst: array<byte>, at: nat, src: seq<byte>)
    requires at + |src| <= dst.Length
    modifies dst
    ensures forall k :: 0 <= k < dst.Length ==> dst[k] == if at <= k < at + |src| then src[k - at] else old(dst[k])
  {
    for i := 0 to |src|
      invariant forall k :: 0 <= k < dst.Length ==> dst[k] == if at <= k < at + i then src[k - at] else old(dst[k])
    {
      dst[at + i] := src[i];
    }
  }

  /** The two `memcpy` calls that fill the send buffer: the command id,
      then the payload. */
  method Fill(buffer: array<byte>, cmd: seq<byte>, payload: seq<byte>)
    requires |cmd| == 3 && 3 + |payload| <= buffer.Length
    modifies buffer
    ensures buffer[..3 + |payload|] == cmd + payload
  {
    Copy(buffer, 0, cmd);
    Copy(buffer, 3, payload);
    assert forall k :: 0 <= k < 3 + |payload| ==> buffer[k] == (cmd + payload)[k];
  }

  /** `memset(trim, 0x00, 3)`: the terminator after the last copied word;
      the partial message is everything up to it. */
  method Terminate(partial: array<byte>, trim: nat) returns (payload: seq<byte>)
    requires trim + 3 <= partial.Length
    modifies partial
    ensures payload == old(partial[..trim]) + Terminator
  {
    partial[trim] := 0;
    partial[trim + 1] := 0;
    partial[trim + 2] := 0;
    payload := partial[..trim + 3];
    assert forall k :: 0 <= k < trim + 3 ==> payload[k] == (old(partial[..trim]) + Terminator)[k];
  }

  /** The corrected decision read off the position of the trim: no copied
      word means no change, unless the data was too short to be scanned;
      a copied word means the data has three words or more, where the
      corrected decision is the encoder's. */
  lemma DecisionByTrim(n: seq<byte>, o: seq<byte>, W: nat)
    requires |n| == 3 * W && |o| == |n|
    ensures var t := TrimPos(Scan(n, o, W, 0, 0, 3).blocks);
      (t == 0 && (3 <= W || n == o) ==> ChooseCorrected(n, o, W) == NoChange) &&
      (t == 0 && !(3 <= W || n == o) ==> ChooseCorrected(n, o, W) == Full) &&
      (t != 0 ==> 3 <= W && ChooseCorrected(n, o, W) == Choose(n, o, W))
  {
    if W < 3 {
      ShortChangeDropped(n, o, W);
    } else {
      ChooseNoChange(n, o, W);
    }
  }

  /** The encoding half of `tfa_cont_write_vstepMax2_One` once a partial
      buffer is at hand: scan the data against the previous data, then
      choose nothing, the terminated partial message under the flagged
      command id, or the whole data. */
  method Encode(nw: VstepMsg, prev: VstepMsg, partial: array<byte>) returns (cmd: seq<byte>, payload: seq<byte>)
    requires MsgOk(nw) && MsgOk(prev) && prev.length == nw.length
    requires |nw.data| + BlockMaxSize <= partial.Length
    modifies partial
    ensures |cmd| == 3 && |payload| % 3 == 0 && |payload| <= |nw.data|
    ensures OneMessage(nw, Some(prev), true) == if payload == [] then [] else cmd + payload
  {
    var p, trim := BuildPatch(nw.data, prev.data, nw.length - 1, partial);
    cmd, payload := Decide(nw, prev, partial, p, trim);
  }

  /** The decision of the encoder once the patch is in `partial[..p]` and
      `trim` marks the end of its last copied word. */
  method Decide(nw: VstepMsg, prev: VstepMsg, partial: array<byte>, p: nat, trim: nat) returns (cmd: seq<byte>, payload: seq<byte>)
    requires MsgOk(nw) && MsgOk(prev) && prev.length == nw.length
    requires |nw.data| + BlockMaxSize <= partial.Length && p <= partial.Length
    requires var bs := Scan(nw.data, prev.data, nw.length - 1, 0, 0, 3).blocks;
      partial[..p] == PartialHeader + PatchBytes(bs) && trim == TrimPos(bs)
    modifies partial
    ensures |cmd| == 3 && |payload| % 3 == 0 && |payload| <= |nw.data|
    ensures OneMessage(nw, Some(prev), true) == if payload == [] then [] else cmd + payload
  {
    var W := nw.length - 1;
    var n, o := nw.data, prev.data;
    cmd := ColdCmd(nw.msgType, nw.cmdId, IsCold);
    payload := n;
    ghost var bs := Scan(n, o, W, 0, 0, 3).blocks;
    assert |n| % 3 == 0 by {
      assert |n| == 3 * W;
    }
    if trim == 0 {
      // Nothing was copied: the data is unchanged, unless it was too short
      // to be scanned at all.
      if 3 <= W || n == o {
        payload := [];
      }
      assert OneMessage(nw, Some(prev), true) == if payload == [] then [] else cmd + payload by {
        MessageByTrim(nw, prev, bs, trim);
      }
    } else if trim < |n| - 3 {
      cmd, payload := DecidePartial(nw, prev, partial, p, trim);
    } else {
      assert OneMessage(nw, Some(prev), true) == cmd + n && n != [] by {
        MessageByTrim(nw, prev, bs, trim);
      }
    }
  }

  /** The partial branch of `Decide`: the trim lies inside the data, so
      the terminated patch goes out under the flagged command id. */
  method DecidePartial(nw: VstepMsg, prev: VstepMsg, partial: array<byte>, p: nat, trim: nat) returns (cmd: seq<byte>, payload: seq<byte>)
    requires MsgOk(nw) && MsgOk(prev) && prev.length == nw.length
    requires |nw.data| + BlockMaxSize <= partial.Length && p <= partial.Length
    requires var bs := Scan(nw.data, prev.data, nw.length - 1, 0, 0, 3).blocks;
      partial[..p] == PartialHeader + PatchBytes(bs) && trim == TrimPos(bs)
    requires trim != 0 && trim < |nw.data| - 3
    modifies partial
    ensures |cmd| == 3 && |payload| % 3 == 0 && |payload| <= |nw.data|
    ensures OneMessage(nw, Some(prev), true) == if payload == [] then [] else cmd + payload
  {
    ghost var bs := Scan(nw.data, prev.data, nw.length - 1, 0, 0, 3).blocks;
    var c := ColdCmd(nw.msgType, nw.cmdId, IsCold);
    cmd := c[..2] + [SetPartialFlag(c[2])];
    assert BlocksEncodable(Trimmed(bs)) && (3 + trim) % 3 == 0 && 3 + trim <= |nw.data| &&
      OneMessage(nw, Some(prev), true) == cmd + (PartialHeader + PatchBytes(Trimmed(bs)) + Terminator) by {
      MessageByTrim(nw, prev, bs, trim);
    }
    payload := TrimmedPatch(partial, p, trim, bs);
    assert |payload| == 3 + trim;
    assert payload != [] && |payload| % 3 == 0 && |payload| <= |nw.data|;
  }

  /** The partial message: the patch in `partial[..p]` cut at the end of
      its last copied word, then the terminator. */
  method TrimmedPatch(partial: array<byte>, p: nat, trim: nat, ghost bs: seq<Block>) returns (payload: seq<byte>)
    requires BlocksEncodable(bs) && p <= partial.Length && partial[..p] == PartialHeader + PatchBytes(bs)
    requires trim == TrimPos(bs) != 0 && trim + 3 <= partial.Length
    modifies partial
    ensures payload == PartialHeader + PatchBytes(Trimmed(bs)) + Terminator
  {
    ghost var patch := partial[..p];
    TrimmedPrefix(bs);
    assert partial[..trim] == patch[..trim];
    payload := Terminate(partial, trim);
  }

  /** A buffer of `size` bytes: from the pool when one is free, else from
      `malloc`, which may fail. */
  method Acquire(pools: Handles, devIdx: int, size: nat, mallocOk: bool) returns (index: int, buf: array?<byte>)
    requires pools.Valid() && 0 <= devIdx < MaxHandles && 0 < size
    modifies pools.handles[devIdx], pools.handles[devIdx].Arrays()
    ensures pools.Valid() && pools.handles[devIdx].vstep == old(pools.handles[devIdx].vstep)
    ensures index == FirstFit(old(pools.handles[devIdx].slots), size)
    ensures pools.handles[devIdx].slots ==
      if index == -1 then old(pools.handles[devIdx].slots) else Lease(old(pools.handles[devIdx].slots), index)
    ensures index != -1 ==> buf != null && buf in old(pools.handles[devIdx].Arrays())
    ensures index == -1 ==> if mallocOk then buf != null && fresh(buf) else buf == null
    ensures buf != null ==> size <= buf.Length
  {
    index := pools.Access(devIdx, -1, size, Get);
    if index != -1 {
      buf := pools.handles[devIdx].slots[index].pool;
    } else if mallocOk {
      buf := new byte[size];
    } else {
      buf := null;
    }
  }

  /** The sending half of `tfa_cont_write_vstepMax2_One`: a buffer for the
      command id and payload, `dsp_msg`, and the buffer back to the pool.
      Without a buffer nothing is sent and the result is still OK. */
  method Send(dsp: Dsp, pools: Handles, devIdx: int, cmd: seq<byte>, payload: seq<byte>, mallocOk: bool) returns (err: Tfa98xxError)
    requires dsp.Valid() && pools.Valid() && 0 <= devIdx < MaxHandles && |cmd| == 3
    requires |payload| % 3 == 0 && 3 + |payload| <= 3 * Out32Words
    modifies dsp, dsp.out32, pools.handles[devIdx], pools.handles[devIdx].Arrays()
    ensures dsp.Valid() && pools.Valid() && err == ErrorOk
    ensures pools.handles[devIdx].slots == old(pools.handles[devIdx].slots)
    ensures pools.handles[devIdx].vstep == old(pools.handles[devIdx].vstep)
    ensures dsp.sent == old(dsp.sent) +
      if FirstFit(old(pools.handles[devIdx].slots), 3 + |payload|) >= 0 || mallocOk then [cmd + payload] else []
  {
    ghost var slots0 := pools.handles[devIdx].slots;
    var size := 3 + |payload|;
    var index, buffer := Acquire(pools, devIdx, size, mallocOk);
    if buffer == null {
      return ErrorOk;
    }
    err := FillAndSend(dsp, devIdx, buffer, cmd, payload);
    if index != -1 {
      GiveBack(pools, devIdx, slots0, index, size);
    }
  }

  /** The two `memcpy` calls into the send buffer, then `dsp_msg` of its
      first `3 + |payload|` bytes. */
  method FillAndSend(dsp: Dsp, devIdx: int, buffer: array<byte>, cmd: seq<byte>, payload: seq<byte>) returns (err: Tfa98xxError)
    requires dsp.Valid() && |cmd| == 3 && 3 + |payload| <= buffer.Length
    requires |payload| % 3 == 0 && 3 + |payload| <= 3 * Out32Words
    modifies dsp, dsp.out32, buffer
    ensures dsp.Valid() && err == ErrorOk
    ensures dsp.sent == old(dsp.sent) + [cmd + payload]
  {
    Fill(buffer, cmd, payload);
    err := dsp.DspMsg(devIdx, buffer[..], 3 + |payload|);
  }

  /** `tfa98xx_buffer_pool_access(POOL_RETURN)` for a buffer leased by
      the last `POOL_GET` of `size` bytes: the pool is as it was before. */
  method GiveBack(pools: Handles, devIdx: int, ghost slots0: seq<Slot>, index: int, size: nat)
    requires pools.Valid() && 0 <= devIdx < MaxHandles
    requires index == FirstFit(slots0, size) && index >= 0 && pools.handles[devIdx].slots == Lease(slots0, index)
    modifies pools.handles[devIdx], pools.handles[devIdx].Arrays()
    ensures pools.Valid() && pools.handles[devIdx].vstep == old(pools.handles[devIdx].vstep)
    ensures pools.handles[devIdx].slots == slots0
  {
    ReturnUndoesGet(slots0, size);
    StorageFlags(slots0, index);
    var _ := pools.Access(devIdx, index, 0, Return);
  }

  /** The first half of `tfa_cont_write_vstepMax2_One`: when the partial
      update applies, take a partial buffer from the pool or `malloc` and
      encode into it; the partial buffer stays leased. */
  method Prepare(pools: Handles, devIdx: int, nw: VstepMsg, prev: Option<VstepMsg>, use: bool, partialMallocOk: bool)
    returns (pIndex: int, cmd: seq<byte>, payload: seq<byte>)
    requires pools.Valid() && 0 <= devIdx < MaxHandles && MsgOk(nw)
    requires use ==> prev.Some? && MsgOk(prev.value) && prev.value.length == nw.length
    modifies pools.handles[devIdx], pools.handles[devIdx].Arrays()
    ensures pools.Valid() && pools.handles[devIdx].vstep == old(pools.handles[devIdx].vstep)
    ensures pIndex == if use then FirstFit(old(pools.handles[devIdx].slots), |nw.data| + BlockMaxSize) else -1
    ensures pools.handles[devIdx].slots ==
      if pIndex == -1 then old(pools.handles[devIdx].slots) else Lease(old(pools.handles[devIdx].slots), pIndex)
    ensures |cmd| == 3 && |payload| % 3 == 0 && |payload| <= |nw.data|
    ensures OneMessage(nw, prev, use && (pIndex >= 0 || partialMallocOk)) == if payload == [] then [] else cmd + payload
  {
    cmd := ColdCmd(nw.msgType, nw.cmdId, IsCold);
    payload := nw.data;
    pIndex := -1;
    var partial: array?<byte> := null;
    if use {
      pIndex, partial := Acquire(pools, devIdx, |nw.data| + BlockMaxSize, partialMallocOk);
    }
    if partial != null {
      cmd, payload := Encode(nw, prev.value, partial);
    }
  }

  /** `tfa_cont_write_vstepMax2_One`: send `nw`, as a partial update
      against `prev` when that applies. It always returns OK, leaves the
      pool as it found it, and sends what `OneSent` says. */
  method WriteOne(dsp: Dsp, pools: Handles, devIdx: int, nw: VstepMsg, prev: Option<VstepMsg>, enable: bool,
                  partialMallocOk: bool, mallocOk: bool) returns (err: Tfa98xxError)
    requires dsp.Valid() && pools.Valid() && 0 <= devIdx < MaxHandles && MsgOk(nw) && (prev.Some? ==> MsgOk(prev.value))
    modifies dsp, dsp.out32, pools.handles[devIdx], pools.handles[devIdx].Arrays()
    ensures dsp.Valid() && pools.Valid() && err == ErrorOk
    ensures pools.handles[devIdx].slots == old(pools.handles[devIdx].slots)
    ensures pools.handles[devIdx].vstep == old(pools.handles[devIdx].vstep)
    ensures dsp.sent == old(dsp.sent) + OneSent(old(pools.handles[devIdx].slots), nw, prev, enable, partialMallocOk, mallocOk)
  {
    ghost var slots0 := pools.handles[devIdx].slots;
    var use := enable && prev.Some? && prev.value.msgType == nw.msgType && prev.value.length == nw.length;
    if use && nw.msgType == CoefficientsType {
      use := false;
    }
    var pIndex, cmd, payload := Prepare(pools, devIdx, nw, prev, use, partialMallocOk);
    ghost var mid := if pIndex != -1 then Lease(slots0, pIndex) else slots0;
    if pIndex != -1 {
      StorageFlags(slots0, pIndex);
    }
    SentByParts(slots0, nw, prev, enable, partialMallocOk, mallocOk, use, pIndex, cmd, payload);
    if payload != [] {
      err := Send(dsp, pools, devIdx, cmd, payload, mallocOk);
    }
    if pIndex != -1 {
      GiveBack(pools, devIdx, slots0, pIndex, |nw.data| + BlockMaxSize);
    }
    err := ErrorOk;
  }

  // ---------------------------------------------------------------------
  // One volume step: `tfa_cont_write_vstepMax2`

  /** The rounds the register walk takes for step `idx`: none for a
      negative index. */
  function Rounds(idx: int): nat
  {
    if idx < 0 then 0 else idx
  }

  /** The messages at step positions `ps` can be read, and every one that is
      not an info message is a whole message `g_out32buf` holds. */
  predicate MsgsSendable(s: seq<byte>, ps: seq<nat>)
  {
    forall k :: 0 <= k < |ps| ==>
      HeaderFits(s, ps[k]) &&
      (MsgType(s, ps[k]) != InfoMessageType ==> MsgFits(s, ps[k]) && MsgLen(s, ps[k]) <= Out32Words)
  }

  /** Volume step `idx` of the max2 file at `vp` can be read and its
      messages sent. */
  predicate VstepOk(s: seq<byte>, vp: nat, idx: int)
  {
    vp + 40 <= |s| &&
    (idx < NrOfVsteps(s, vp) ==>
      WalkFits(s, VstepsBin(vp), Rounds(idx)) &&
      RoundFits(s, RegFrom(s, VstepsBin(vp), Rounds(idx))) &&
      MsgsSendable(s, RoundMessages(s, RegFrom(s, VstepsBin(vp), Rounds(idx)))))
  }

  /** What the message at `m` contributes when it is selected: info
      messages are never sent, any other goes through
      `tfa_cont_write_vstepMax2_One` with the partial update off, so no
      partial buffer is asked for. */
  function MsgSent(s: seq<byte>, m: nat, slots: seq<Slot>, mallocOk: bool): seq<seq<byte>>
    requires HeaderFits(s, m) && PoolOk(slots)
    requires MsgType(s, m) != InfoMessageType ==> MsgFits(s, m) && MsgLen(s, m) <= Out32Words
  {
    if MsgType(s, m) == InfoMessageType then []
    else OneSent(slots, MessageAt(s, m), None, false, false, mallocOk)
  }

  /** What each message of a round sends when it is selected. */
  function MsgOuts(s: seq<byte>, ps: seq<nat>, slots: seq<Slot>, mallocOk: bool): (r: seq<seq<seq<byte>>>)
    requires MsgsSendable(s, ps) && PoolOk(slots)
    ensures |r| == |ps| && forall k :: 0 <= k < |ps| ==> r[k] == MsgSent(s, ps[k], slots, mallocOk)
  {
    seq(|ps|, k requires 0 <= k < |ps| => MsgSent(s, ps[k], slots, mallocOk))
  }

  /** What the first `n` of `outs` give for the message index `sel`: all
      of them from the marker on, else only the `sel`-th. */
  function Picked(outs: seq<seq<seq<byte>>>, n: nat, sel: int): seq<seq<byte>>
    requires n <= |outs|
  {
    if n == 0 then []
    else Picked(outs, n - 1, sel) + (if sel >= MaxVstepMsgMarker || sel == n - 1 then outs[n - 1] else [])
  }

  /** What the first `n` messages of a round send for the message index
      `sel`: every message from the marker on, else only the `sel`-th
      (info messages count for the index). */
  function RoundSent(s: seq<byte>, ps: seq<nat>, n: nat, sel: int, slots: seq<Slot>, mallocOk: bool): seq<seq<byte>>
    requires n <= |ps| && MsgsSendable(s, ps) && PoolOk(slots)
  {
    Picked(MsgOuts(s, ps, slots, mallocOk), n, sel)
  }

  /** The volume step a writer saves with `tfa_set_swvstep`, and the
      register info it leaves in `p_reg_info`. */
  datatype Step = Step(vstep: int, reg: nat)

  /** What a writer does: the messages it sends, the error it returns, and
      the volume step it saves last, if any. */
  datatype Effect = Effect(sent: seq<seq<byte>>, err: Tfa98xxError, step: Option<Step>)

  const NoEffect := Effect([], ErrorOk, None)

  /** One writer after another: both sends, the second error, the last
      saved step. */
  function Then(a: Effect, b: Effect): (r: Effect)
    ensures r.sent == a.sent + b.sent && r.err == b.err
    ensures r.step == if b.step.Some? then b.step else a.step
  {
    Effect(a.sent + b.sent, b.err, if b.step.Some? then b.step else a.step)
  }

  /** The two entries of `vstep` after `e`. */
  function VstepAfter(v: seq<int>, e: Effect): seq<int>
  {
    if e.step.Some? then [e.step.value.vstep, e.step.value.vstep] else v
  }

  /** `p_reg_info` after `e`. */
  function RegAfter(r: Option<nat>, e: Effect): Option<nat>
  {
    if e.step.Some? then Some(e.step.value.reg) else r
  }

  /** `tfa_cont_write_vstepMax2`: an unknown step is refused with
      BAD_PARAMETER; otherwise the selected messages of the step's round
      are sent, and the step (as an `unsigned short`) and its register
      info are saved. */
  function VstepEffect(s: seq<byte>, vp: nat, idx: int, sel: int, slots: seq<Slot>, mallocOk: bool): Effect
    requires VstepOk(s, vp, idx) && PoolOk(slots)
  {
    if idx >= NrOfVsteps(s, vp) then Effect([], ErrorBadParameter, None)
    else
      var r := RegFrom(s, VstepsBin(vp), Rounds(idx));
      WalkAdvances(s, MsgInfoFromReg(s, r), NrMessages(s, r));
      Effect(RoundSent(s, RoundMessages(s, r), NrMessages(s, r), sel, slots, mallocOk), ErrorOk,
             Some(Step(idx % 0x1_0000, r)))
  }

  /** An index below the marker picks one of `outs`: the `sel`-th when
      there is one, none otherwise. */
  lemma {:induction false} PickOne(outs: seq<seq<seq<byte>>>, n: nat, sel: int)
    requires n <= |outs| && sel < MaxVstepMsgMarker
    ensures Picked(outs, n, sel) == if 0 <= sel < n then outs[sel] else []
    decreases n
  {
    if n > 0 {
      PickOne(outs, n - 1, sel);
      if sel == n - 1 {
        assert Picked(outs, n, sel) == [] + outs[sel];
      } else {
        assert Picked(outs, n, sel) == Picked(outs, n - 1, sel) + [];
      }
    }
  }

  /** A message index below the marker selects one message of the round:
      that message when the round has it, none otherwise (a negative index
      selects nothing). */
  lemma SelectOne(s: seq<byte>, ps: seq<nat>, n: nat, sel: int, slots: seq<Slot>, mallocOk: bool)
    requires n <= |ps| && MsgsSendable(s, ps) && PoolOk(slots) && sel < MaxVstepMsgMarker
    ensures RoundSent(s, ps, n, sel, slots, mallocOk) ==
      if 0 <= sel < n then MsgSent(s, ps[sel], slots, mallocOk) else []
  {
    PickOne(MsgOuts(s, ps, slots, mallocOk), n, sel);
  }

  /** What the indexes `0 .. m-1` pick one at a time, in order. */
  function EachPicked(outs: seq<seq<seq<byte>>>, n: nat, m: nat): seq<seq<byte>>
    requires m <= n <= |outs|
  {
    if m == 0 then [] else EachPicked(outs, n, m - 1) + Picked(outs, n, m - 1)
  }

  /** An index from the marker on picks what the indexes below `m` pick
      one at a time, in order. */
  lemma {:induction false} PickAll(outs: seq<seq<seq<byte>>>, n: nat, m: nat, sel: int)
    requires m <= n <= |outs| && n <= MaxVstepMsgMarker && sel >= MaxVstepMsgMarker
    ensures Picked(outs, m, sel) == EachPicked(outs, n, m)
    decreases m
  {
    if m > 0 {
      PickAll(outs, n, m - 1, sel);
      PickOne(outs, n, m - 1);
      assert Picked(outs, m, sel) == Picked(outs, m - 1, sel) + outs[m - 1];
      assert Picked(outs, n, m - 1) == outs[m - 1];
    }
  }

  /** The messages the index selects one at a time, in order. */
  function EachSelected(s: seq<byte>, ps: seq<nat>, n: nat, m: nat, slots: seq<Slot>, mallocOk: bool): seq<seq<byte>>
    requires m <= n <= |ps| && MsgsSendable(s, ps) && PoolOk(slots)
  {
    EachPicked(MsgOuts(s, ps, slots, mallocOk), n, m)
  }

  /** An index from the marker on sends what the indexes of the round's
      messages send one at a time, in order. */
  lemma SelectAll(s: seq<byte>, ps: seq<nat>, n: nat, m: nat, sel: int, slots: seq<Slot>, mallocOk: bool)
    requires m <= n <= |ps| && n <= MaxVstepMsgMarker && MsgsSendable(s, ps) && PoolOk(slots) && sel >= MaxVstepMsgMarker
    ensures RoundSent(s, ps, m, sel, slots, mallocOk) == EachSelected(s, ps, n, m, slots, mallocOk)
  {
    PickAll(MsgOuts(s, ps, slots, mallocOk), n, m, sel);
  }

  // ---------------------------------------------------------------------
  // Files: `tfa_cont_write_file`

  /** `sizeof(struct tfa_speaker_file)` plus `sizeof(struct tfa_fw_ver)`
      in the packed layout: where the speaker parameters start, and what
      the header size counts beyond them. */
  const SpeakerDataStart := 76

  /** The header tags `tfa_cont_write_file` knows. */
  predicate KnownHeader(t: nat)
  {
    t == MsgHdr || t == VolstepHdr || t == SpeakerHdr || t == PresetHdr || t == EqualizerHdr ||
    t == PatchHdr || t == ConfigHdr || t == DrcHdr || t == InfoHdr
  }

  /** The file whose header is at `h` can be written for step `vstepIdx`:
      its header lies in the container, and a message or speaker file's
      payload is whole and fits `g_out32buf`. */
  predicate FileOk(s: seq<byte>, h: nat, vstepIdx: int)
  {
    h + 8 <= |s| &&
    (U16LE(s, h) == MsgHdr ==>
      h + FileHeaderSize <= |s| && Dsp.Sendable(s[h + FileHeaderSize..], U16LE(s, h + 6) - FileHeaderSize)) &&
    (U16LE(s, h) == SpeakerHdr ==>
      h + SpeakerDataStart <= |s| && Dsp.Sendable(s[h + SpeakerDataStart..], U16LE(s, h + 6) - SpeakerDataStart)) &&
    (U16LE(s, h) == VolstepHdr ==> VstepOk(s, h, vstepIdx))
  }

  /** `tfa_cont_write_file` on the file whose header is at `h`: a message
      file sends its payload, a speaker file its parameters, a volume-step
      file its step (its error is ignored), the other known kinds nothing;
      an unknown header is refused with BAD_PARAMETER. */
  function FileEffect(s: seq<byte>, h: nat, vstepIdx: int, sel: int, slots: seq<Slot>, mallocOk: bool): (r: Effect)
    requires FileOk(s, h, vstepIdx) && PoolOk(slots)
    ensures r.err == if FileKnown(s, h) then ErrorOk else ErrorBadParameter
    ensures r.err != ErrorOk ==> r.sent == [] && r.step.None?
  {
    var t := U16LE(s, h);
    if t == MsgHdr then
      Effect([s[h + FileHeaderSize..][..U16LE(s, h + 6) - FileHeaderSize]], ErrorOk, None)
    else if t == VolstepHdr then
      var e := VstepEffect(s, h, vstepIdx, sel, slots, mallocOk);
      Effect(e.sent, ErrorOk, e.step)
    else if t == SpeakerHdr then
      Effect([s[h + SpeakerDataStart..][..U16LE(s, h + 6) - SpeakerDataStart]], ErrorOk, None)
    else if KnownHeader(t) then NoEffect
    else Effect([], ErrorBadParameter, None)
  }

  // ---------------------------------------------------------------------
  // Device lists: `tfa_cont_write_files`

  /** The file item at header `h` is refused only when its header is
      unknown. */
  predicate FileKnown(s: seq<byte>, h: nat)
  {
    h + 2 <= |s| && KnownHeader(U16LE(s, h))
  }

  /** No file among the first `k` items of the device list at `d` was
      refused, so item `k` is reached. */
  predicate Reached(s: seq<byte>, d: nat, k: nat)
    requires DevListFits(s, d) && k <= s[d] as nat
    decreases k
  {
    k == 0 ||
    (Reached(s, d, k - 1) && (ItemType(s, d, k - 1) == DscFile ==> FileKnown(s, ItemOffset(s, d, k - 1) + 8)))
  }

  /** The `size` the writer holds before item `k`: that of the last command
      item before it, or 0. */
  function LastCmdSize(s: seq<byte>, d: nat, k: nat): nat
    requires DevListFits(s, d) && k <= s[d] as nat
  {
    if k == 0 then 0
    else if ItemType(s, d, k - 1) == DscCmd && ItemOffset(s, d, k - 1) + 2 <= |s| then U16LE(s, ItemOffset(s, d, k - 1))
    else LastCmdSize(s, d, k - 1)
  }

  /** Item `k` can be written: a file as a file, a set message within the
      writer's buffer, a command's payload whole and within `g_out32buf`. */
  predicate DevItemOk(s: seq<byte>, d: nat, k: nat)
    requires DevListFits(s, d) && k < s[d] as nat
  {
    var t, off := ItemType(s, d, k), ItemOffset(s, d, k);
    (t == DscFile ==> FileOk(s, off + 8, 0)) &&
    (IsSetMessage(t) ==> LastCmdSize(s, d, k) <= WriterBufferSize) &&
    (t == DscCmd ==> off + 2 <= |s| && Dsp.Sendable(s[off + 2..], U16LE(s, off)))
  }

  /** Every item among the first `n` that the writer reaches can be
      written. */
  predicate DevItemsOkUpTo(s: seq<byte>, d: nat, n: nat)
    requires DevListFits(s, d) && n <= s[d] as nat
    decreases n
  {
    n == 0 || (DevItemsOkUpTo(s, d, n - 1) && (Reached(s, d, n - 1) ==> DevItemOk(s, d, n - 1)))
  }

  /** Every item the writer reaches can be written. */
  predicate DevItemsOk(s: seq<byte>, d: nat)
    requires DevListFits(s, d)
  {
    DevItemsOkUpTo(s, d, s[d] as nat)
  }

  /** A reached item of a list whose reached items can be written can be
      written. */
  lemma {:induction false} DevItemOkAt(s: seq<byte>, d: nat, k: nat, n: nat)
    requires DevListFits(s, d) && n <= s[d] as nat && DevItemsOkUpTo(s, d, n) && k < n && Reached(s, d, k)
    ensures DevItemOk(s, d, k)
    decreases n
  {
    if k < n - 1 {
      DevItemOkAt(s, d, k, n - 1);
    }
  }

  /** What item `k` of the device list does: a file is written for step 0
      and every message; a set message sends the first `size` bytes of the
      writer's zeroed buffer, `size` being the last command's; a command
      sends its payload; anything else does nothing. */
  function DevItemEffect(s: seq<byte>, d: nat, k: nat, slots: seq<Slot>, mallocOk: bool): Effect
    requires DevListFits(s, d) && k < s[d] as nat && DevItemOk(s, d, k) && PoolOk(slots)
  {
    var t, off := ItemType(s, d, k), ItemOffset(s, d, k);
    if t == DscFile then FileEffect(s, off + 8, 0, MaxVstepMsgMarker, slots, mallocOk)
    else if IsSetMessage(t) then Effect([seq(LastCmdSize(s, d, k), _ => 0)], ErrorOk, None)
    else if t == DscCmd then Effect([s[off + 2..][..U16LE(s, off)]], ErrorOk, None)
    else NoEffect
  }

  /** What the first `n` items do: items after a refused file are never
      reached. */
  function DevItemsEffect(s: seq<byte>, d: nat, n: nat, slots: seq<Slot>, mallocOk: bool): Effect
    requires DevListFits(s, d) && n <= s[d] as nat && DevItemsOk(s, d) && PoolOk(slots)
    decreases n, 0
  {
    if n == 0 then NoEffect else DevItemsThrough(s, d, n - 1, slots, mallocOk)
  }

  /** What the items up to and including `k` do: item `k` is applied after
      the ones before it when it is reached. */
  function DevItemsThrough(s: seq<byte>, d: nat, k: nat, slots: seq<Slot>, mallocOk: bool): Effect
    requires DevListFits(s, d) && k < s[d] as nat && DevItemsOk(s, d) && PoolOk(slots)
    decreases k, 1
  {
    if !Reached(s, d, k) then DevItemsEffect(s, d, k, slots, mallocOk)
    else
      DevItemOkAt(s, d, k, s[d] as nat);
      Then(DevItemsEffect(s, d, k, slots, mallocOk), DevItemEffect(s, d, k, slots, mallocOk))
  }

  // ---------------------------------------------------------------------
  // Profile lists: `tfa_cont_write_files_prof`

  /** A profile list at `p` (length @0, group, id, name @4, items @8) lies
      inside the container. */
  predicate ProfListFits(s: seq<byte>, p: nat)
  {
    p + 8 <= |s| && p + 8 + 4 * s[p] as nat <= |s|
  }

  function ProfItemType(s: seq<byte>, p: nat, i: nat): nat
    requires ProfListFits(s, p) && i < s[p] as nat
  {
    DescType(s, p + 8 + 4 * i)
  }

  function ProfItemOffset(s: seq<byte>, p: nat, i: nat): nat
    requires ProfListFits(s, p) && i < s[p] as nat
  {
    DescOffset(s, p + 8 + 4 * i)
  }

  /** Item `i` can be written: a file as a file, a set message within the
      writer's buffer. */
  predicate ProfItemOk(s: seq<byte>, p: nat, i: nat, vstepIdx: int)
    requires ProfListFits(s, p) && i < s[p] as nat
  {
    var t, off := ProfItemType(s, p, i), ProfItemOffset(s, p, i);
    (t == DscFile ==> FileOk(s, off + 8, vstepIdx)) &&
    (IsSetMessage(t) ==> TfaMsgFits(s, off) && 3 + 3 * s[off] as nat <= WriterBufferSize)
  }

  predicate ProfItemsOk(s: seq<byte>, p: nat, vstepIdx: int)
    requires ProfListFits(s, p)
  {
    ProfItemsOkUpTo(s, p, s[p] as nat, vstepIdx)
  }

  /** Each of the first `n` items of the profile list can be written. */
  predicate ProfItemsOkUpTo(s: seq<byte>, p: nat, n: nat, vstepIdx: int)
    requires ProfListFits(s, p) && n <= s[p] as nat
    decreases n
  {
    n == 0 || (ProfItemsOkUpTo(s, p, n - 1, vstepIdx) && ProfItemOk(s, p, n - 1, vstepIdx))
  }

  /** Each item of a list whose first `n` items can be written can be. */
  lemma {:induction false} ProfItemOkAt(s: seq<byte>, p: nat, i: nat, n: nat, vstepIdx: int)
    requires ProfListFits(s, p) && n <= s[p] as nat && ProfItemsOkUpTo(s, p, n, vstepIdx) && i < n
    ensures ProfItemOk(s, p, i, vstepIdx)
    decreases n
  {
    if i < n - 1 {
      ProfItemOkAt(s, p, i, n - 1, vstepIdx);
    }
  }

  /** What item `i` of the profile list does after `e`: a file is written
      for step `vstepIdx` and every message, a set message is sent as built
      by `create_dsp_buffer_msg`; any other item leaves `e` as it was. */
  function ProfItemsStep(s: seq<byte>, p: nat, i: nat, vstepIdx: int, e: Effect, slots: seq<Slot>, mallocOk: bool): Effect
    requires ProfListFits(s, p) && i < s[p] as nat && ProfItemOk(s, p, i, vstepIdx) && PoolOk(slots)
  {
    var t, off := ProfItemType(s, p, i), ProfItemOffset(s, p, i);
    if t == DscFile then Then(e, FileEffect(s, off + 8, vstepIdx, MaxVstepMsgMarker, slots, mallocOk))
    else if IsSetMessage(t) then Then(e, Effect([DspBufferBytes(s, off)], ErrorOk, None))
    else e
  }

  /** What the first `n` items of the profile list do, in order. Nothing
      stops the walk. */
  function ProfItemsEffect(s: seq<byte>, p: nat, n: nat, vstepIdx: int, slots: seq<Slot>, mallocOk: bool): Effect
    requires ProfListFits(s, p) && n <= s[p] as nat && ProfItemsOk(s, p, vstepIdx) && PoolOk(slots)
    decreases n, 0
  {
    if n == 0 then NoEffect else ProfItemsThrough(s, p, n - 1, vstepIdx, slots, mallocOk)
  }

  /** What the items up to and including `k` do. */
  function ProfItemsThrough(s: seq<byte>, p: nat, k: nat, vstepIdx: int, slots: seq<Slot>, mallocOk: bool): Effect
    requires ProfListFits(s, p) && k < s[p] as nat && ProfItemsOk(s, p, vstepIdx) && PoolOk(slots)
    decreases k, 1
  {
    ProfItemOkAt(s, p, k, s[p] as nat, vstepIdx);
    ProfItemsStep(s, p, k, vstepIdx, ProfItemsEffect(s, p, k, vstepIdx, slots, mallocOk), slots, mallocOk)
  }

  /** The error after the first `n` items of the profile list: the last
      one's own error when it is a file, OK when it is a set message, and
      the error before it for any other item. */
  lemma ProfStepErr(s: seq<byte>, p: nat, n: nat, vstepIdx: int, slots: seq<Slot>, mallocOk: bool)
    requires ProfListFits(s, p) && 0 < n <= s[p] as nat && ProfItemsOk(s, p, vstepIdx) && PoolOk(slots)
    ensures var t, off := ProfItemType(s, p, n - 1), ProfItemOffset(s, p, n - 1);
      ProfItemsEffect(s, p, n, vstepIdx, slots, mallocOk).err ==
        if t == DscFile then (if FileKnown(s, off + 8) then ErrorOk else ErrorBadParameter)
        else if IsSetMessage(t) then ErrorOk
        else ProfItemsEffect(s, p, n - 1, vstepIdx, slots, mallocOk).err
  {
    ProfItemOkAt(s, p, n - 1, s[p] as nat, vstepIdx);
    var e := ProfItemsEffect(s, p, n - 1, vstepIdx, slots, mallocOk);
    assert ProfItemsEffect(s, p, n, vstepIdx, slots, mallocOk) == ProfItemsStep(s, p, n - 1, vstepIdx, e, slots, mallocOk);
  }

  /** A step applied to the error alone, then appended to what came before,
      is the step applied to what came before. */
  lemma ProfStepThen(s: seq<byte>, p: nat, i: nat, vstepIdx: int, e: Effect, slots: seq<Slot>, mallocOk: bool)
    requires ProfListFits(s, p) && i < s[p] as nat && ProfItemOk(s, p, i, vstepIdx) && PoolOk(slots)
    ensures var d := ProfItemsStep(s, p, i, vstepIdx, Effect([], e.err, None), slots, mallocOk);
      ProfItemsStep(s, p, i, vstepIdx, e, slots, mallocOk) ==
        Effect(e.sent + d.sent, d.err, if d.step.Some? then d.step else e.step)
  {
    var t, off := ProfItemType(s, p, i), ProfItemOffset(s, p, i);
    var e0 := Effect([], e.err, None);
    if t == DscFile {
      ThenSplit(e, FileEffect(s, off + 8, vstepIdx, MaxVstepMsgMarker, slots, mallocOk));
    } else if IsSetMessage(t) {
      ThenSplit(e, Effect([DspBufferBytes(s, off)], ErrorOk, None));
    } else {
      assert ProfItemsStep(s, p, i, vstepIdx, e0, slots, mallocOk) == e0;
    }
  }

  /** Appending `b` to `a` is appending it to nothing and then putting
      what `a` sent in front. */
  lemma ThenSplit(a: Effect, b: Effect)
    ensures var d := Then(Effect([], a.err, None), b);
      Then(a, b) == Effect(a.sent + d.sent, d.err, if d.step.Some? then d.step else a.step)
  {
    assert [] + b.sent == b.sent;
  }

  /** Device `devIdx` of container `s`, if it has a list, can be written. */
  predicate DeviceFilesOk(s: seq<byte>, devIdx: int)
    requires WellFormed(s)
  {
    DevList(s, devIdx).Some? ==> DevItemsOk(s, DevList(s, devIdx).value)
  }

  /** `tfa_cont_write_files`: a device without a list is refused with
      BAD_PARAMETER; otherwise its items are written in order. */
  function FilesEffect(s: seq<byte>, devIdx: int, slots: seq<Slot>, mallocOk: bool): Effect
    requires WellFormed(s) && DeviceFilesOk(s, devIdx) && PoolOk(slots)
  {
    match DevList(s, devIdx)
    case None => Effect([], ErrorBadParameter, None)
    case Some(d) => DevItemsEffect(s, d, s[d] as nat, slots, mallocOk)
  }

  /** Profile `profIdx` of device `devIdx`, if it exists, can be written
      for step `vstepIdx`. */
  predicate ProfileFilesOk(s: seq<byte>, devIdx: int, profIdx: int, vstepIdx: int)
    requires WellFormed(s)
  {
    ProfileAt(s, devIdx, profIdx).Some? ==>
      ProfListFits(s, ProfileAt(s, devIdx, profIdx).value) &&
      ProfItemsOk(s, ProfileAt(s, devIdx, profIdx).value, vstepIdx)
  }

  /** `tfa_cont_write_files_prof`: a missing profile is refused with
      BAD_PARAMETER; otherwise its items are written in order. */
  function ProfileFilesEffect(s: seq<byte>, devIdx: int, profIdx: int, vstepIdx: int, slots: seq<Slot>, mallocOk: bool): Effect
    requires WellFormed(s) && ProfileFilesOk(s, devIdx, profIdx, vstepIdx) && PoolOk(slots)
  {
    match ProfileAt(s, devIdx, profIdx)
    case None => Effect([], ErrorBadParameter, None)
    case Some(p) => ProfItemsEffect(s, p, s[p] as nat, vstepIdx, slots, mallocOk)
  }

  /** A volume step is written exactly when the file has it; a written step
      saves its index as an `unsigned short` and the register info it was
      found at. */
  lemma VstepOutcome(s: seq<byte>, vp: nat, idx: int, sel: int, slots: seq<Slot>, mallocOk: bool)
    requires VstepOk(s, vp, idx) && PoolOk(slots)
    ensures var e := VstepEffect(s, vp, idx, sel, slots, mallocOk);
      (e.err == ErrorOk <==> idx < NrOfVsteps(s, vp)) &&
      (e.err != ErrorOk ==> e.sent == [] && e.step.None?) &&
      (e.err == ErrorOk ==>
         (e.step.Some? && 0 <= e.step.value.vstep < 0x1_0000 &&
          e.step.value.vstep % 0x1_0000 == idx % 0x1_0000 &&
          e.step.value.reg == RegFrom(s, VstepsBin(vp), Rounds(idx))))
  {
    if idx < NrOfVsteps(s, vp) {
      var r := RegFrom(s, VstepsBin(vp), Rounds(idx));
      assert VstepEffect(s, vp, idx, sel, slots, mallocOk).step == Some(Step(idx % 0x1_0000, r));
    }
  }

  /** With a message index below the marker, a written step sends the one
      message of its round the index selects, if there is one. */
  lemma VstepSelected(s: seq<byte>, vp: nat, idx: int, sel: int, slots: seq<Slot>, mallocOk: bool)
    requires VstepOk(s, vp, idx) && PoolOk(slots) && idx < NrOfVsteps(s, vp) && sel < MaxVstepMsgMarker
    ensures var r := RegFrom(s, VstepsBin(vp), Rounds(idx));
      VstepEffect(s, vp, idx, sel, slots, mallocOk).sent ==
        if 0 <= sel < NrMessages(s, r) then MsgSent(s, RoundMessages(s, r)[sel], slots, mallocOk) else []
  {
    var r := RegFrom(s, VstepsBin(vp), Rounds(idx));
    var ps := RoundMessages(s, r);
    WalkAdvances(s, MsgInfoFromReg(s, r), NrMessages(s, r));
    assert VstepEffect(s, vp, idx, sel, slots, mallocOk).sent == RoundSent(s, ps, NrMessages(s, r), sel, slots, mallocOk);
    SelectOne(s, ps, NrMessages(s, r), sel, slots, mallocOk);
  }

  /** Once an item is not reached, nothing after it is: the writer stops at
      the first refused file. */
  lemma {:induction false} UnreachedStays(s: seq<byte>, d: nat, k: nat, n: nat, slots: seq<Slot>, mallocOk: bool)
    requires DevListFits(s, d) && k <= n <= s[d] as nat && DevItemsOk(s, d) && PoolOk(slots)
    requires !Reached(s, d, k)
    ensures !Reached(s, d, n)
    ensures DevItemsEffect(s, d, n, slots, mallocOk) == DevItemsEffect(s, d, k, slots, mallocOk)
    decreases n
  {
    if n > k {
      UnreachedStays(s, d, k, n - 1, slots, mallocOk);
    }
  }

  /** The device writer fails exactly when one of its files has a header it
      does not know, and then with BAD_PARAMETER. */
  lemma {:induction false} DevItemsErr(s: seq<byte>, d: nat, n: nat, slots: seq<Slot>, mallocOk: bool)
    requires DevListFits(s, d) && n <= s[d] as nat && DevItemsOk(s, d) && PoolOk(slots)
    ensures DevItemsEffect(s, d, n, slots, mallocOk).err == if Reached(s, d, n) then ErrorOk else ErrorBadParameter
    decreases n
  {
    if n > 0 {
      DevItemsErr(s, d, n - 1, slots, mallocOk);
      if Reached(s, d, n - 1) {
        DevItemOkAt(s, d, n - 1, s[d] as nat);
        var t, off := ItemType(s, d, n - 1), ItemOffset(s, d, n - 1);
        if t == DscFile && !FileKnown(s, off + 8) {
          assert !Reached(s, d, n);
        }
      } else {
        assert !Reached(s, d, n);
      }
    }
  }

  /** One more item of the device list: it is applied when reached, and
      its error says whether the next item is reached. */
  lemma DevItemsNext(s: seq<byte>, d: nat, i: nat, slots: seq<Slot>, mallocOk: bool)
    requires DevListFits(s, d) && i < s[d] as nat && DevItemsOk(s, d) && PoolOk(slots) && Reached(s, d, i)
    ensures DevItemOk(s, d, i)
    ensures DevItemsEffect(s, d, i + 1, slots, mallocOk) ==
      Then(DevItemsEffect(s, d, i, slots, mallocOk), DevItemEffect(s, d, i, slots, mallocOk))
    ensures DevItemEffect(s, d, i, slots, mallocOk).err == ErrorOk <==> Reached(s, d, i + 1)
  {
    DevItemOkAt(s, d, i, s[d] as nat);
    DevItemsErr(s, d, i + 1, slots, mallocOk);
  }

  /** The walk ends after the last item or at a refused file: nothing after
      that is applied, and the error is BAD_PARAMETER exactly when a file
      was refused. */
  lemma DevItemsDone(s: seq<byte>, d: nat, k: nat, slots: seq<Slot>, mallocOk: bool)
    requires DevListFits(s, d) && k <= s[d] as nat && DevItemsOk(s, d) && PoolOk(slots)
    requires k == s[d] as nat || !Reached(s, d, k)
    ensures DevItemsEffect(s, d, s[d] as nat, slots, mallocOk) == DevItemsEffect(s, d, k, slots, mallocOk)
    ensures DevItemsEffect(s, d, s[d] as nat, slots, mallocOk).err == if Reached(s, d, k) then ErrorOk else ErrorBadParameter
  {
    if k < s[d] as nat {
      UnreachedStays(s, d, k, s[d] as nat, slots, mallocOk);
    }
    DevItemsErr(s, d, s[d] as nat, slots, mallocOk);
  }

  /** The index of the last file or set item among the first `n` items of
      the profile list: the last item that sets the error. */
  function LastWriter(s: seq<byte>, p: nat, n: nat): (r: Option<nat>)
    requires ProfListFits(s, p) && n <= s[p] as nat
    ensures r.Some? ==> r.value < n
    ensures r.Some? ==> ProfItemType(s, p, r.value) == DscFile || IsSetMessage(ProfItemType(s, p, r.value))
  {
    if n == 0 then None
    else if ProfItemType(s, p, n - 1) == DscFile || IsSetMessage(ProfItemType(s, p, n - 1)) then Some(n - 1)
    else LastWriter(s, p, n - 1)
  }

  /** The error the last writer leaves: BAD_PARAMETER for a file of a kind
      the writer does not know, success for any other item or for none. */
  function WriterErr(s: seq<byte>, p: nat, r: Option<nat>): Tfa98xxError
    requires ProfListFits(s, p) && (r.Some? ==> r.value < s[p] as nat)
  {
    match r
    case Some(j) =>
      if ProfItemType(s, p, j) == DscFile && !FileKnown(s, ProfItemOffset(s, p, j) + 8) then ErrorBadParameter
      else ErrorOk
    case None => ErrorOk
  }

  /** No file or set item comes after the last writer. */
  lemma {:induction false} LastWriterIsLast(s: seq<byte>, p: nat, n: nat)
    requires ProfListFits(s, p) && n <= s[p] as nat
    ensures var r := LastWriter(s, p, n);
      forall j :: (if r.Some? then r.value + 1 else 0) <= j < n ==>
        ProfItemType(s, p, j) != DscFile && !IsSetMessage(ProfItemType(s, p, j))
  {
    if n > 0 && LastWriter(s, p, n) == LastWriter(s, p, n - 1) {
      LastWriterIsLast(s, p, n - 1);
    }
  }

  /** The profile writer does not stop at a failure: it returns the error of
      its last file or set item, which is BAD_PARAMETER exactly when that
      item is a file with a header it does not know. */
  lemma {:induction false} ProfItemsErr(s: seq<byte>, p: nat, n: nat, vstepIdx: int, slots: seq<Slot>, mallocOk: bool)
    requires ProfListFits(s, p) && n <= s[p] as nat && ProfItemsOk(s, p, vstepIdx) && PoolOk(slots)
    ensures ProfItemsEffect(s, p, n, vstepIdx, slots, mallocOk).err ==
      WriterErr(s, p, LastWriter(s, p, n))
    decreases n
  {
    if n > 0 {
      var t := ProfItemType(s, p, n - 1);
      ProfStepErr(s, p, n, vstepIdx, slots, mallocOk);
      if t == DscFile || IsSetMessage(t) {
        assert LastWriter(s, p, n) == Some(n - 1);
      } else {
        ProfItemsErr(s, p, n - 1, vstepIdx, slots, mallocOk);
        assert LastWriter(s, p, n) == LastWriter(s, p, n - 1);
      }
    }
  }

  /** Every item of the profile list is written, whatever the ones before
      it returned: what the first `m` items send starts what `n` send. */
  lemma {:induction false} ProfItemsPrefix(s: seq<byte>, p: nat, m: nat, n: nat, vstepIdx: int, slots: seq<Slot>, mallocOk: bool)
    requires ProfListFits(s, p) && m <= n <= s[p] as nat && ProfItemsOk(s, p, vstepIdx) && PoolOk(slots)
    ensures ProfItemsEffect(s, p, m, vstepIdx, slots, mallocOk).sent <= ProfItemsEffect(s, p, n, vstepIdx, slots, mallocOk).sent
    decreases n
  {
    if m < n {
      ProfItemsPrefix(s, p, m, n - 1, vstepIdx, slots, mallocOk);
      ProfItemOkAt(s, p, n - 1, s[p] as nat, vstepIdx);
    }
  }

  /** `tfa_cont_write_files` succeeds exactly when the device has a list
      and every file item on it is of a known kind; a device without a list
      sends nothing. */
  lemma FilesOutcome(s: seq<byte>, devIdx: int, slots: seq<Slot>, mallocOk: bool)
    requires WellFormed(s) && DeviceFilesOk(s, devIdx) && PoolOk(slots)
    ensures var e := FilesEffect(s, devIdx, slots, mallocOk);
      (e.err == ErrorOk <==>
         DevList(s, devIdx).Some? && Reached(s, DevList(s, devIdx).value, s[DevList(s, devIdx).value] as nat)) &&
      (DevList(s, devIdx).None? ==> e.sent == [] && e.step.None?)
  {
    if DevList(s, devIdx).Some? {
      var d := DevList(s, devIdx).value;
      DevItemsErr(s, d, s[d] as nat, slots, mallocOk);
    }
  }

  /** `tfa_cont_write_files_prof` fails only for a missing profile or when
      the last item that writes is a file of an unknown kind. */
  lemma ProfileFilesOutcome(s: seq<byte>, devIdx: int, profIdx: int, vstepIdx: int, slots: seq<Slot>, mallocOk: bool)
    requires WellFormed(s) && ProfileFilesOk(s, devIdx, profIdx, vstepIdx) && PoolOk(slots)
    ensures var e := ProfileFilesEffect(s, devIdx, profIdx, vstepIdx, slots, mallocOk);
      e.err == match ProfileAt(s, devIdx, profIdx)
        case None => ErrorBadParameter
        case Some(p) =>
          WriterErr(s, p, LastWriter(s, p, s[p] as nat))
    ensures ProfileAt(s, devIdx, profIdx).None? ==>
      ProfileFilesEffect(s, devIdx, profIdx, vstepIdx, slots, mallocOk).sent == []
  {
    if ProfileAt(s, devIdx, profIdx).Some? {
      var p := ProfileAt(s, devIdx, profIdx).value;
      ProfItemsErr(s, p, s[p] as nat, vstepIdx, slots, mallocOk);
    }
  }

  /** A set item of `tfa_cont_write_files_prof`: the `struct tfa_msg` at
      `t` built into `buffer` by `create_dsp_buffer_msg` and sent. */
  method SendSetMessage(dsp: Dsp, devIdx: int, s: seq<byte>, t: nat, buffer: array<byte>) returns (err: Tfa98xxError)
    requires dsp.Valid() && buffer.Length == WriterBufferSize
    requires TfaMsgFits(s, t) && 3 + 3 * s[t] as nat <= WriterBufferSize
    modifies dsp, dsp.out32, buffer
    ensures dsp.Valid() && err == ErrorOk
    ensures dsp.sent == old(dsp.sent) + [DspBufferBytes(s, t)]
  {
    var size := CreateDspBufferMsg(s, t, buffer);
    err := dsp.DspMsg(devIdx, buffer[..], size);
  }

  /** The message walk of `tfa_cont_write_vstepMax2` over the round of the
      register info at `reg`: each selected message that is not an info
      message goes through `tfa_cont_write_vstepMax2_One`. */
  method SendRound(dsp: Dsp, pools: Handles, devIdx: int, s: seq<byte>, reg: nat, sel: int, mallocOk: bool)
    returns (err: Tfa98xxError)
    requires dsp.Valid() && pools.Valid() && 0 <= devIdx < MaxHandles
    requires RoundFits(s, reg) && MsgsSendable(s, RoundMessages(s, reg))
    modifies dsp, dsp.out32, pools.handles[devIdx], pools.handles[devIdx].Arrays()
    ensures dsp.Valid() && pools.Valid() && err == ErrorOk
    ensures pools.handles[devIdx].slots == old(pools.handles[devIdx].slots)
    ensures pools.handles[devIdx].vstep == old(pools.handles[devIdx].vstep)
    ensures dsp.sent == old(dsp.sent) +
      RoundSent(s, RoundMessages(s, reg), NrMessages(s, reg), sel, old(pools.handles[devIdx].slots), mallocOk)
  {
    ghost var slots0 := pools.handles[devIdx].slots;
    var msg := MsgInfoFromReg(s, reg);
    var nr := s[msg] as nat;
    ghost var ps := RoundMessages(s, reg);
    WalkAdvances(s, msg, nr);
    err := ErrorOk;
    for i := 0 to nr
      invariant dsp.Valid() && pools.Valid() && pools.handles[devIdx].slots == slots0
      invariant pools.handles[devIdx].vstep == old(pools.handles[devIdx].vstep)
      invariant i < nr ==> msg == ps[i]
      invariant dsp.sent == old(dsp.sent) + RoundSent(s, ps, i, sel, slots0, mallocOk)
      invariant err == ErrorOk
    {
      RoundStep(s, ps, i, sel, slots0, mallocOk);
      if MsgType(s, msg) != InfoMessageType && (sel >= MaxVstepMsgMarker || sel == i) {
        err := WriteOne(dsp, pools, devIdx, MessageAt(s, msg), None, false, false, mallocOk);
        AppendAssoc(old(dsp.sent), RoundSent(s, ps, i, sel, slots0, mallocOk), OneSent(slots0, MessageAt(s, msg), None, false, false, mallocOk));
      } else {
        AppendNil(RoundSent(s, ps, i, sel, slots0, mallocOk));
      }
      msg := NextMsgInfo(s, msg);
    }
  }

  /** One more message of the round: it is sent through
      `tfa_cont_write_vstepMax2_One` when it is selected and not an info
      message. */
  lemma RoundStep(s: seq<byte>, ps: seq<nat>, i: nat, sel: int, slots: seq<Slot>, mallocOk: bool)
    requires i < |ps| && MsgsSendable(s, ps) && PoolOk(slots)
    ensures RoundSent(s, ps, i + 1, sel, slots, mallocOk) == RoundSent(s, ps, i, sel, slots, mallocOk) +
      (if MsgType(s, ps[i]) != InfoMessageType && (sel >= MaxVstepMsgMarker || sel == i)
       then OneSent(slots, MessageAt(s, ps[i]), None, false, false, mallocOk) else [])
  {
    var outs := MsgOuts(s, ps, slots, mallocOk);
    assert outs[i] == MsgSent(s, ps[i], slots, mallocOk);
  }

  /** `tfa_cont_write_vstepMax2` for the max2 file at `vp`, with `reg` the
      `p_reg_info` it keeps: refuse a step the file does not have; else walk
      the step's messages, sending the selected ones without partial update,
      and save the step. */
  method SendVstep(dsp: Dsp, pools: Handles, devIdx: int, s: seq<byte>, vp: nat, vstepIdx: int, sel: int,
                   mallocOk: bool, reg: Option<nat>) returns (err: Tfa98xxError, reg': Option<nat>)
    requires dsp.Valid() && pools.Valid() && 0 <= devIdx < MaxHandles
    requires VstepOk(s, vp, vstepIdx)
    modifies dsp, dsp.out32, pools.handles[devIdx], pools.handles[devIdx].Arrays()
    ensures dsp.Valid() && pools.Valid() && pools.handles[devIdx].slots == old(pools.handles[devIdx].slots)
    ensures var e := VstepEffect(s, vp, vstepIdx, sel, old(pools.handles[devIdx].slots), mallocOk);
      err == e.err && dsp.sent == old(dsp.sent) + e.sent &&
      pools.handles[devIdx].vstep == VstepAfter(old(pools.handles[devIdx].vstep), e) && reg' == RegAfter(reg, e)
  {
    reg' := reg;
    if vstepIdx >= NrOfVsteps(s, vp) {
      return ErrorBadParameter, reg';
    }
    var r := GetRegForVstep(s, vp, vstepIdx);
    err := SendRound(dsp, pools, devIdx, s, r, sel, mallocOk);
    reg' := Some(r);
    var _ := pools.SetSwVstep(devIdx, vstepIdx % 0x1_0000);
  }

  /** `tfa_cont_write_file` for the file descriptor at `f`, whose header
      follows its name and size. */
  method SendFile(dsp: Dsp, pools: Handles, devIdx: int, s: seq<byte>, f: nat, vstepIdx: int, sel: int,
                  mallocOk: bool, reg: Option<nat>) returns (err: Tfa98xxError, reg': Option<nat>)
    requires dsp.Valid() && pools.Valid() && 0 <= devIdx < MaxHandles
    requires FileOk(s, f + 8, vstepIdx)
    modifies dsp, dsp.out32, pools.handles[devIdx], pools.handles[devIdx].Arrays()
    ensures dsp.Valid() && pools.Valid() && pools.handles[devIdx].slots == old(pools.handles[devIdx].slots)
    ensures var e := FileEffect(s, f + 8, vstepIdx, sel, old(pools.handles[devIdx].slots), mallocOk);
      err == e.err && dsp.sent == old(dsp.sent) + e.sent &&
      pools.handles[devIdx].vstep == VstepAfter(old(pools.handles[devIdx].vstep), e) && reg' == RegAfter(reg, e)
  {
    var h := f + 8;
    var t := U16LE(s, h);
    err, reg' := ErrorOk, reg;
    if t == MsgHdr {
      var size := U16LE(s, h + 6) - FileHeaderSize;
      err := dsp.DspMsg(devIdx, s[h + FileHeaderSize..], size);
    } else if t == VolstepHdr {
      var ignored;
      ignored, reg' := SendVstep(dsp, pools, devIdx, s, h, vstepIdx, sel, mallocOk, reg);
    } else if t == SpeakerHdr {
      var size := U16LE(s, h + 6) - SpeakerDataStart;
      err := dsp.DspMsg(devIdx, s[h + SpeakerDataStart..], size);
    } else if KnownHeader(t) {
    } else {
      err := ErrorBadParameter;
    }
  }

  /** One pass of the `tfa_cont_write_files` loop: item `i` of the device
      list at `d`, with `size` the last command's size. */
  method SendDevItem(dsp: Dsp, pools: Handles, devIdx: int, s: seq<byte>, d: nat, i: nat, size: int,
                     mallocOk: bool, reg: Option<nat>) returns (err: Tfa98xxError, size': int, reg': Option<nat>)
    requires dsp.Valid() && pools.Valid() && 0 <= devIdx < MaxHandles
    requires DevListFits(s, d) && i < s[d] as nat && DevItemOk(s, d, i) && size == LastCmdSize(s, d, i)
    modifies dsp, dsp.out32, pools.handles[devIdx], pools.handles[devIdx].Arrays()
    ensures dsp.Valid() && pools.Valid() && pools.handles[devIdx].slots == old(pools.handles[devIdx].slots)
    ensures size' == LastCmdSize(s, d, i + 1)
    ensures var e := DevItemEffect(s, d, i, old(pools.handles[devIdx].slots), mallocOk);
      err == e.err && dsp.sent == old(dsp.sent) + e.sent &&
      pools.handles[devIdx].vstep == VstepAfter(old(pools.handles[devIdx].vstep), e) && reg' == RegAfter(reg, e)
  {
    var t, off := ItemType(s, d, i), ItemOffset(s, d, i);
    err, size', reg' := ErrorOk, size, reg;
    if t == DscFile {
      err, reg' := SendFile(dsp, pools, devIdx, s, off, 0, MaxVstepMsgMarker, mallocOk, reg);
    } else if IsSetMessage(t) {
      var buffer: seq<byte> := seq(WriterBufferSize, _ => 0);
      assert buffer[..size] == seq(size, _ => 0);
      err := dsp.DspMsg(devIdx, buffer, size);
    } else if t == DscCmd {
      size' := U16LE(s, off);
      err := dsp.DspMsg(devIdx, s[off + 2..], size');
    }
  }

  /** A pass of the `tfa_cont_write_files` loop in terms of the whole
      walk: after item `i`, the first `i + 1` items have been applied, and
      the walk stops exactly when item `i + 1` is not reached. */
  method SendDevStep(dsp: Dsp, pools: Handles, devIdx: int, s: seq<byte>, d: nat, i: nat, size: int,
                     mallocOk: bool, reg: Option<nat>, ghost slots0: seq<Slot>, ghost sent0: seq<seq<byte>>,
                     ghost vstep0: seq<int>, ghost reg0: Option<nat>)
    returns (stop: bool, size': int, reg': Option<nat>)
    requires dsp.Valid() && pools.Valid() && 0 <= devIdx < MaxHandles && pools.handles[devIdx].slots == slots0
    requires DevListFits(s, d) && DevItemsOk(s, d) && i < s[d] as nat && Reached(s, d, i) && size == LastCmdSize(s, d, i)
    requires var e := DevItemsEffect(s, d, i, slots0, mallocOk);
      dsp.sent == sent0 + e.sent && pools.handles[devIdx].vstep == VstepAfter(vstep0, e) && reg == RegAfter(reg0, e)
    modifies dsp, dsp.out32, pools.handles[devIdx], pools.handles[devIdx].Arrays()
    ensures dsp.Valid() && pools.Valid() && pools.handles[devIdx].slots == slots0
    ensures stop <==> !Reached(s, d, i + 1)
    ensures size' == LastCmdSize(s, d, i + 1)
    ensures var e := DevItemsEffect(s, d, i + 1, slots0, mallocOk);
      dsp.sent == sent0 + e.sent && pools.handles[devIdx].vstep == VstepAfter(vstep0, e) && reg' == RegAfter(reg0, e)
  {
    DevItemsNext(s, d, i, slots0, mallocOk);
    ghost var before := DevItemsEffect(s, d, i, slots0, mallocOk);
    ghost var item := DevItemEffect(s, d, i, slots0, mallocOk);
    var r;
    r, size', reg' := SendDevItem(dsp, pools, devIdx, s, d, i, size, mallocOk, reg);
    AppendAssoc(sent0, before.sent, item.sent);
    stop := r != ErrorOk;
  }

  /** The loop of `tfa_cont_write_files` over the device list at `d`: stop
      with BAD_PARAMETER at the first file that is refused. */
  method SendDevItems(dsp: Dsp, pools: Handles, devIdx: int, s: seq<byte>, d: nat,
                      mallocOk: bool, reg: Option<nat>) returns (err: Tfa98xxError, reg': Option<nat>)
    requires dsp.Valid() && pools.Valid() && 0 <= devIdx < MaxHandles
    requires DevListFits(s, d) && DevItemsOk(s, d)
    modifies dsp, dsp.out32, pools.handles[devIdx], pools.handles[devIdx].Arrays()
    ensures dsp.Valid() && pools.Valid() && pools.handles[devIdx].slots == old(pools.handles[devIdx].slots)
    ensures var e := DevItemsEffect(s, d, s[d] as nat, old(pools.handles[devIdx].slots), mallocOk);
      err == e.err && dsp.sent == old(dsp.sent) + e.sent &&
      pools.handles[devIdx].vstep == VstepAfter(old(pools.handles[devIdx].vstep), e) && reg' == RegAfter(reg, e)
  {
    ghost var slots0, sent0, vstep0 := pools.handles[devIdx].slots, dsp.sent, pools.handles[devIdx].vstep;
    var n := s[d] as nat;
    var size := 0;
    reg' := reg;
    var i, stop := 0, false;
    while i < n && !stop
      invariant i <= n && size == LastCmdSize(s, d, i) && (Reached(s, d, i) <==> !stop)
      invariant dsp.Valid() && pools.Valid() && pools.handles[devIdx].slots == slots0
      invariant var e := DevItemsEffect(s, d, i, slots0, mallocOk);
        dsp.sent == sent0 + e.sent && pools.handles[devIdx].vstep == VstepAfter(vstep0, e) && reg' == RegAfter(reg, e)
    {
      stop, size, reg' := SendDevStep(dsp, pools, devIdx, s, d, i, size, mallocOk, reg', slots0, sent0, vstep0, reg);
      i := i + 1;
    }
    DevItemsDone(s, d, i, slots0, mallocOk);
    err := if stop then ErrorBadParameter else ErrorOk;
  }

  /** One pass of the `tfa_cont_write_files_prof` loop: item `i` of the
      profile list at `p`; the error `err0` is kept when the item writes
      nothing. */
  method SendProfItem(dsp: Dsp, pools: Handles, devIdx: int, s: seq<byte>, p: nat, i: nat, vstepIdx: int,
                      buffer: array<byte>, err0: Tfa98xxError, mallocOk: bool, reg: Option<nat>)
    returns (err: Tfa98xxError, reg': Option<nat>)
    requires dsp.Valid() && pools.Valid() && 0 <= devIdx < MaxHandles
    requires buffer.Length == WriterBufferSize
    requires ProfListFits(s, p) && i < s[p] as nat && ProfItemOk(s, p, i, vstepIdx)
    modifies dsp, dsp.out32, pools.handles[devIdx], pools.handles[devIdx].Arrays(), buffer
    ensures dsp.Valid() && pools.Valid() && pools.handles[devIdx].slots == old(pools.handles[devIdx].slots)
    ensures var e := ProfItemsStep(s, p, i, vstepIdx, Effect([], err0, None), old(pools.handles[devIdx].slots), mallocOk);
      err == e.err && dsp.sent == old(dsp.sent) + e.sent &&
      pools.handles[devIdx].vstep == VstepAfter(old(pools.handles[devIdx].vstep), e) && reg' == RegAfter(reg, e)
  {
    var t, off := ProfItemType(s, p, i), ProfItemOffset(s, p, i);
    err, reg' := err0, reg;
    if t == DscFile {
      err, reg' := SendFile(dsp, pools, devIdx, s, off, vstepIdx, MaxVstepMsgMarker, mallocOk, reg);
      ThenFromNothing(err0, FileEffect(s, off + 8, vstepIdx, MaxVstepMsgMarker, old(pools.handles[devIdx].slots), mallocOk));
    } else if IsSetMessage(t) {
      err := SendSetMessage(dsp, devIdx, s, off, buffer);
      ThenFromNothing(err0, Effect([DspBufferBytes(s, off)], ErrorOk, None));
    } else {
      AppendNil(old(dsp.sent));
    }
  }

  /** Appending `b` to an effect that sent and saved nothing gives `b`. */
  lemma ThenFromNothing(err: Tfa98xxError, b: Effect)
    ensures Then(Effect([], err, None), b) == b
  {
    assert [] + b.sent == b.sent;
  }

  /** A pass of the `tfa_cont_write_files_prof` loop in terms of the whole
      walk: after item `i`, the first `i + 1` items have been applied. */
  method SendProfStep(dsp: Dsp, pools: Handles, devIdx: int, s: seq<byte>, p: nat, i: nat, vstepIdx: int,
                      buffer: array<byte>, err: Tfa98xxError, mallocOk: bool, reg: Option<nat>,
                      ghost slots0: seq<Slot>, ghost sent0: seq<seq<byte>>, ghost vstep0: seq<int>, ghost reg0: Option<nat>)
    returns (err': Tfa98xxError, reg': Option<nat>)
    requires dsp.Valid() && pools.Valid() && 0 <= devIdx < MaxHandles && pools.handles[devIdx].slots == slots0
    requires buffer.Length == WriterBufferSize
    requires ProfListFits(s, p) && ProfItemsOk(s, p, vstepIdx) && i < s[p] as nat
    requires var e := ProfItemsEffect(s, p, i, vstepIdx, slots0, mallocOk);
      err == e.err && dsp.sent == sent0 + e.sent && pools.handles[devIdx].vstep == VstepAfter(vstep0, e) && reg == RegAfter(reg0, e)
    modifies dsp, dsp.out32, pools.handles[devIdx], pools.handles[devIdx].Arrays(), buffer
    ensures dsp.Valid() && pools.Valid() && pools.handles[devIdx].slots == slots0
    ensures var e := ProfItemsEffect(s, p, i + 1, vstepIdx, slots0, mallocOk);
      err' == e.err && dsp.sent == sent0 + e.sent && pools.handles[devIdx].vstep == VstepAfter(vstep0, e) && reg' == RegAfter(reg0, e)
  {
    ghost var before := ProfItemsEffect(s, p, i, vstepIdx, slots0, mallocOk);
    ProfItemOkAt(s, p, i, s[p] as nat, vstepIdx);
    ghost var item := ProfItemsStep(s, p, i, vstepIdx, Effect([], before.err, None), slots0, mallocOk);
    ghost var after := ProfItemsEffect(s, p, i + 1, vstepIdx, slots0, mallocOk);
    assert after == ProfItemsThrough(s, p, i, vstepIdx, slots0, mallocOk);
    assert after == ProfItemsStep(s, p, i, vstepIdx, before, slots0, mallocOk);
    ProfStepThen(s, p, i, vstepIdx, before, slots0, mallocOk);
    err', reg' := SendProfItem(dsp, pools, devIdx, s, p, i, vstepIdx, buffer, err, mallocOk, reg);
    AppendAssoc(sent0, before.sent, item.sent);
  }

  /** The loop of `tfa_cont_write_files_prof` over the profile list at `p`,
      with its message buffer: every item is written, and the error is that
      of the last file or set item. */
  method SendProfItems(dsp: Dsp, pools: Handles, devIdx: int, s: seq<byte>, p: nat, vstepIdx: int,
                       mallocOk: bool, reg: Option<nat>) returns (err: Tfa98xxError, reg': Option<nat>)
    requires dsp.Valid() && pools.Valid() && 0 <= devIdx < MaxHandles
    requires ProfListFits(s, p) && ProfItemsOk(s, p, vstepIdx)
    modifies dsp, dsp.out32, pools.handles[devIdx], pools.handles[devIdx].Arrays()
    ensures dsp.Valid() && pools.Valid() && pools.handles[devIdx].slots == old(pools.handles[devIdx].slots)
    ensures var e := ProfItemsEffect(s, p, s[p] as nat, vstepIdx, old(pools.handles[devIdx].slots), mallocOk);
      err == e.err && dsp.sent == old(dsp.sent) + e.sent &&
      pools.handles[devIdx].vstep == VstepAfter(old(pools.handles[devIdx].vstep), e) && reg' == RegAfter(reg, e)
  {
    ghost var slots0, sent0, vstep0 := pools.handles[devIdx].slots, dsp.sent, pools.handles[devIdx].vstep;
    var n := s[p] as nat;
    var buffer := new byte[WriterBufferSize](_ => 0);
    err, reg' := ErrorOk, reg;
    for i := 0 to n
      invariant dsp.Valid() && pools.Valid() && pools.handles[devIdx].slots == slots0
      invariant var e := ProfItemsEffect(s, p, i, vstepIdx, slots0, mallocOk);
        err == e.err && dsp.sent == sent0 + e.sent && pools.handles[devIdx].vstep == VstepAfter(vstep0, e) && reg' == RegAfter(reg, e)
    {
      err, reg' := SendProfStep(dsp, pools, devIdx, s, p, i, vstepIdx, buffer, err, mallocOk, reg', slots0, sent0, vstep0, reg);
    }
  }

  /** The tool: the container cache, the DSP side of `dsp_msg`, the buffer
      pools of `handles_local`, and the `p_reg_info` that
      `tfa_cont_write_vstepMax2` keeps between calls. */
  class Tool {
    const cache: ContainerCache
    const dsp: Dsp
    const pools: Handles
    var pRegInfo: Option<nat>

    ghost predicate Valid()
      reads this, cache, cache.profs, dsp, pools, pools.handles
    {
      cache.Valid() && dsp.Valid() && pools.Valid() && dsp.out32 != cache.profs
    }

    /** The static initial state of the tool. */
    constructor ()
      ensures Valid() && pRegInfo == None && dsp.sent == []
      ensures cache.cont == None
      ensures forall h :: 0 <= h < MaxHandles ==> pools.handles[h].slots == seq(PoolMaxIndex, _ => Empty)
    {
      cache := new ContainerCache();
      dsp := new Dsp();
      pools := new Handles();
      pRegInfo := None;
    }


    /** `tfa_cont_write_vstepMax2`, keeping `p_reg_info`. */
    method WriteVstepMax2(devIdx: int, s: seq<byte>, vp: nat, vstepIdx: int, vstepMsgIdx: int, mallocOk: bool)
      returns (err: Tfa98xxError)
      requires Valid() && 0 <= devIdx < MaxHandles && VstepOk(s, vp, vstepIdx)
      modifies this, dsp, dsp.out32, pools.handles[devIdx], pools.handles[devIdx].Arrays()
      ensures Valid() && pools.handles[devIdx].slots == old(pools.handles[devIdx].slots)
      ensures var e := VstepEffect(s, vp, vstepIdx, vstepMsgIdx, old(pools.handles[devIdx].slots), mallocOk);
        err == e.err && dsp.sent == old(dsp.sent) + e.sent &&
        pools.handles[devIdx].vstep == VstepAfter(old(pools.handles[devIdx].vstep), e) &&
        pRegInfo == RegAfter(old(pRegInfo), e)
    {
      err, pRegInfo := SendVstep(dsp, pools, devIdx, s, vp, vstepIdx, vstepMsgIdx, mallocOk, pRegInfo);
    }

    /** `tfa_cont_write_file`, keeping `p_reg_info`. */
    method WriteFile(devIdx: int, s: seq<byte>, f: nat, vstepIdx: int, vstepMsgIdx: int, mallocOk: bool)
      returns (err: Tfa98xxError)
      requires Valid() && 0 <= devIdx < MaxHandles && FileOk(s, f + 8, vstepIdx)
      modifies this, dsp, dsp.out32, pools.handles[devIdx], pools.handles[devIdx].Arrays()
      ensures Valid() && pools.handles[devIdx].slots == old(pools.handles[devIdx].slots)
      ensures var e := FileEffect(s, f + 8, vstepIdx, vstepMsgIdx, old(pools.handles[devIdx].slots), mallocOk);
        err == e.err && dsp.sent == old(dsp.sent) + e.sent &&
        pools.handles[devIdx].vstep == VstepAfter(old(pools.handles[devIdx].vstep), e) &&
        pRegInfo == RegAfter(old(pRegInfo), e)
    {
      err, pRegInfo := SendFile(dsp, pools, devIdx, s, f, vstepIdx, vstepMsgIdx, mallocOk, pRegInfo);
    }

    /** `tfa_cont_write_files`: write the items of device `devIdx` in
        order, stopping with BAD_PARAMETER at a file that is refused; a
        device without a list, or no container at all, is refused with
        BAD_PARAMETER. */
    method WriteFiles(devIdx: int, mallocOk: bool) returns (err: Tfa98xxError)
      requires Valid() && 0 <= devIdx < MaxHandles
      requires cache.cont.Some? ==> cache.Indexed(cache.cont.value) && DeviceFilesOk(cache.cont.value, devIdx)
      requires cache.cont.None? ==> cache.devs <= devIdx
      modifies this, dsp, dsp.out32, pools.handles[devIdx], pools.handles[devIdx].Arrays()
      ensures Valid() && pools.handles[devIdx].slots == old(pools.handles[devIdx].slots)
      ensures cache.cont.None? ==>
        err == ErrorBadParameter && dsp.sent == old(dsp.sent) &&
        pools.handles[devIdx].vstep == old(pools.handles[devIdx].vstep) && pRegInfo == old(pRegInfo)
      ensures cache.cont.Some? ==>
        var e := FilesEffect(cache.cont.value, devIdx, old(pools.handles[devIdx].slots), mallocOk);
        err == e.err && dsp.sent == old(dsp.sent) + e.sent &&
        pools.handles[devIdx].vstep == VstepAfter(old(pools.handles[devIdx].vstep), e) &&
        pRegInfo == RegAfter(old(pRegInfo), e)
    {
      if cache.cont.None? {
        return ErrorBadParameter;
      }
      var s := cache.cont.value;
      CachedDevice(cache, s, devIdx);
      var dev := cache.Device(devIdx);
      if dev.None? {
        return ErrorBadParameter;
      }
      err, pRegInfo := SendDevItems(dsp, pools, devIdx, s, dev.value, mallocOk, pRegInfo);
    }

    /** `tfa_cont_write_files_prof`: write the items of profile `profIdx`
        of device `devIdx` in order for step `vstepIdx`, returning the error
        of the last file or set item; a missing profile, or no container at
        all, is refused with BAD_PARAMETER. */
    method WriteFilesProf(devIdx: int, profIdx: int, vstepIdx: int, mallocOk: bool) returns (err: Tfa98xxError)
      requires Valid() && 0 <= devIdx < MaxHandles && 0 <= profIdx
      requires cache.cont.Some? ==>
        cache.Indexed(cache.cont.value) && ProfileFilesOk(cache.cont.value, devIdx, profIdx, vstepIdx)
      requires cache.cont.None? ==> cache.devs <= devIdx
      modifies this, dsp, dsp.out32, pools.handles[devIdx], pools.handles[devIdx].Arrays()
      ensures Valid() && pools.handles[devIdx].slots == old(pools.handles[devIdx].slots)
      ensures cache.cont.None? ==>
        err == ErrorBadParameter && dsp.sent == old(dsp.sent) &&
        pools.handles[devIdx].vstep == old(pools.handles[devIdx].vstep) && pRegInfo == old(pRegInfo)
      ensures cache.cont.Some? ==>
        var e := ProfileFilesEffect(cache.cont.value, devIdx, profIdx, vstepIdx, old(pools.handles[devIdx].slots), mallocOk);
        err == e.err && dsp.sent == old(dsp.sent) + e.sent &&
        pools.handles[devIdx].vstep == VstepAfter(old(pools.handles[devIdx].vstep), e) &&
        pRegInfo == RegAfter(old(pRegInfo), e)
    {
      if cache.cont.None? {
        return ErrorBadParameter;
      }
      var s := cache.cont.value;
      CachedProfile(cache, s, devIdx, profIdx);
      var prof := cache.Profile(devIdx, profIdx);
      if prof.None? {
        return ErrorBadParameter;
      }
      err, pRegInfo := SendProfItems(dsp, pools, devIdx, s, prof.value, vstepIdx, mallocOk, pRegInfo);
    }
  }
}

/** The volume-step (`VP`, max2) file: a chain of register infos, each
    followed by a counted list of messages. A pointer into the file is
    modelled as a byte offset into the container.

    A register info at `r` is `nr_of_registers` followed by that many 4-byte
    entries. The message info at `m` that follows starts with
    `nr_of_messages`; the `k`-th message's type, 3-byte big-endian length,
    command id and data then sit one byte past the `k`-th step of the walk. */
module VstepChain {
  import opened Types
  import opened Bytes

  /** `sizeof(struct tfa_header)`. */
  const FileHeaderSize := 36

  /** Message type 3 carries tool information and is never sent. */
  const InfoMessageType: byte := 3

  /** `nr_of_vsteps` of the max2 file at `vp`. */
  function NrOfVsteps(s: seq<byte>, vp: nat): nat
    requires vp + 40 <= |s|
  {
    s[vp + 39] as nat
  }

  /** `vsteps_bin`: where the first register info starts. */
  function VstepsBin(vp: nat): nat
  {
    vp + 40
  }

  /** `tfa_cont_get_msg_info_from_reg`: skip the register entries. */
  function MsgInfoFromReg(s: seq<byte>, r: nat): nat
    requires r < |s|
  {
    r + 1 + 4 * s[r] as nat
  }

  /** A message header (type and length) can be read at step position `m`. */
  predicate HeaderFits(s: seq<byte>, m: nat)
  {
    m + 5 <= |s|
  }

  function MsgType(s: seq<byte>, m: nat): byte
    requires HeaderFits(s, m)
  {
    s[m + 1]
  }

  /** `tfa_cont_get_msg_len`: the big-endian 24-bit `message_length`. */
  function MsgLen(s: seq<byte>, m: nat): nat
    requires HeaderFits(s, m)
  {
    U24BE(s, m + 2)
  }

  /** Bytes of payload after type and length: `message_length` bytes for an
      info message, three per word otherwise. */
  function PayloadSize(s: seq<byte>, m: nat): nat
    requires HeaderFits(s, m)
  {
    if MsgType(s, m) == InfoMessageType then MsgLen(s, m) else 3 * MsgLen(s, m)
  }

  /** `tfa_cont_get_next_msg_info`. */
  function NextMsgInfo(s: seq<byte>, m: nat): (n: nat)
    requires HeaderFits(s, m)
    ensures n >= m + 4
  {
    m + 4 + PayloadSize(s, m)
  }

  /** The headers of `n` consecutive messages from `m` can be read. */
  predicate MsgsFit(s: seq<byte>, m: nat, n: nat)
    decreases n
  {
    n == 0 || (HeaderFits(s, m) && MsgsFit(s, NextMsgInfo(s, m), n - 1))
  }

  /** Where `n` steps of `tfa_cont_get_next_msg_info` from `m` end. */
  function WalkMsgs(s: seq<byte>, m: nat, n: nat): nat
    requires MsgsFit(s, m, n)
    decreases n
  {
    if n == 0 then m else WalkMsgs(s, NextMsgInfo(s, m), n - 1)
  }

  /** The step positions of `n` consecutive messages from `m`. */
  function MsgPositions(s: seq<byte>, m: nat, n: nat): (ps: seq<nat>)
    requires MsgsFit(s, m, n)
    ensures |ps| == n
    decreases n
  {
    if n == 0 then [] else [m] + MsgPositions(s, NextMsgInfo(s, m), n - 1)
  }

  /** Every message of a walk starts at least four bytes after the one
      before, and the walk ends past all of them. */
  lemma {:induction false} WalkAdvances(s: seq<byte>, m: nat, n: nat)
    requires MsgsFit(s, m, n)
    ensures WalkMsgs(s, m, n) >= m + 4 * n
    ensures forall k :: 0 <= k < n ==> m + 4 * k <= MsgPositions(s, m, n)[k] && HeaderFits(s, MsgPositions(s, m, n)[k])
    ensures forall k :: 0 <= k < n ==> MsgPositions(s, m, n)[k] + 4 <= WalkMsgs(s, m, n)
    ensures forall k :: 0 <= k < n - 1 ==> MsgPositions(s, m, n)[k + 1] == NextMsgInfo(s, MsgPositions(s, m, n)[k])
    decreases n
  {
    if n > 0 {
      var ps := MsgPositions(s, m, n);
      var rest := MsgPositions(s, NextMsgInfo(s, m), n - 1);
      WalkAdvances(s, NextMsgInfo(s, m), n - 1);
      assert ps == [m] + rest;
      forall k | 0 < k < n
        ensures ps[k] == rest[k - 1]
      {
      }
    }
  }

  /** One round of the register walk starting at `r` can be read. */
  predicate RoundFits(s: seq<byte>, r: nat)
  {
    r < |s| && MsgInfoFromReg(s, r) < |s| &&
    MsgsFit(s, MsgInfoFromReg(s, r), s[MsgInfoFromReg(s, r)] as nat)
  }

  /** `nr_of_messages` of the register info at `r`. */
  function NrMessages(s: seq<byte>, r: nat): nat
    requires RoundFits(s, r)
  {
    s[MsgInfoFromReg(s, r)] as nat
  }

  /** The step positions of the messages of the register info at `r`. */
  function RoundMessages(s: seq<byte>, r: nat): seq<nat>
    requires RoundFits(s, r)
  {
    MsgPositions(s, MsgInfoFromReg(s, r), NrMessages(s, r))
  }

  /** One round of `tfa_cont_get_reg_for_vstep`: the register info after
      the last message (`tfa_cont_get_next_reg_from_end_info`). */
  function NextReg(s: seq<byte>, r: nat): nat
    requires RoundFits(s, r)
  {
    WalkMsgs(s, MsgInfoFromReg(s, r), NrMessages(s, r)) + 1
  }

  /** `idx` rounds of the register walk from `r` can be read. */
  predicate WalkFits(s: seq<byte>, r: nat, idx: nat)
    decreases idx
  {
    idx == 0 || (RoundFits(s, r) && WalkFits(s, NextReg(s, r), idx - 1))
  }

  /** The register info `idx` rounds after `r`. */
  function RegFrom(s: seq<byte>, r: nat, idx: nat): nat
    requires WalkFits(s, r, idx)
    decreases idx
  {
    if idx == 0 then r else RegFrom(s, NextReg(s, r), idx - 1)
  }

  /** A round always moves forward: past the register entries, the message
      count and every message header. */
  lemma NextRegAdvances(s: seq<byte>, r: nat)
    requires RoundFits(s, r)
    ensures NextReg(s, r) >= r + 2 + 4 * s[r] as nat + 4 * NrMessages(s, r)
  {
    WalkAdvances(s, MsgInfoFromReg(s, r), NrMessages(s, r));
  }

  /** Walking `a + b` rounds is walking `a` rounds, then `b` more. */
  lemma {:induction false} RegFromAdd(s: seq<byte>, r: nat, a: nat, b: nat)
    requires WalkFits(s, r, a + b)
    ensures WalkFits(s, r, a) && WalkFits(s, RegFrom(s, r, a), b)
    ensures RegFrom(s, r, a + b) == RegFrom(s, RegFrom(s, r, a), b)
    decreases a
  {
    if a > 0 {
      RegFromAdd(s, NextReg(s, r), a - 1, b);
    }
  }

  /** Distinct volume steps have distinct register infos, in file order:
      step `k` lies at least two bytes per step beyond the first. */
  lemma {:induction false} RegFromIncreasing(s: seq<byte>, r: nat, k1: nat, k2: nat)
    requires k1 <= k2 && WalkFits(s, r, k2)
    ensures WalkFits(s, r, k1)
    ensures RegFrom(s, r, k1) + 2 * (k2 - k1) <= RegFrom(s, r, k2)
    decreases k2
  {
    if k1 < k2 {
      RegFromAdd(s, r, k2 - 1, 1);
      RegFromIncreasing(s, r, k1, k2 - 1);
      NextRegAdvances(s, RegFrom(s, r, k2 - 1));
    }
  }

  /** `tfa_cont_get_reg_for_vstep`: follow `idx` rounds from `vsteps_bin`,
      each round stepping over the messages of the current register info. */
  method GetRegForVstep(s: seq<byte>, vp: nat, idx: int) returns (reg: nat)
    requires WalkFits(s, VstepsBin(vp), if idx < 0 then 0 else idx)
    ensures reg == RegFrom(s, VstepsBin(vp), if idx < 0 then 0 else idx)
  {
    reg := VstepsBin(vp);
    var i := 0;
    while i < idx
      invariant if idx < 0 then i == 0 else 0 <= i <= idx
      invariant WalkFits(s, VstepsBin(vp), i) && reg == RegFrom(s, VstepsBin(vp), i)
    {
      RegFromAdd(s, VstepsBin(vp), i, idx - i);
      var msg := MsgInfoFromReg(s, reg);
      var nrMessage := s[msg] as nat;
      var j := 0;
      while j < nrMessage
        invariant 0 <= j <= nrMessage
        invariant MsgsFit(s, msg, nrMessage - j)
        invariant WalkMsgs(s, msg, nrMessage - j) == WalkMsgs(s, MsgInfoFromReg(s, reg), nrMessage)
      {
        msg := NextMsgInfo(s, msg);
        j := j + 1;
      }
      RegFromAdd(s, VstepsBin(vp), i + 1, idx - i - 1);
      RegFromAdd(s, VstepsBin(vp), i, 1);
      reg := msg + 1;
      i := i + 1;
    }
  }

  /** A message as the driver sees it: its type, its length in words
      (command id included), its command id and its `(length - 1) * 3`
      parameter bytes. */
  datatype VstepMsg = VstepMsg(msgType: byte, length: nat, cmdId: seq<byte>, data: seq<byte>)

  /** The command id and parameter data of the message at step position `m`
      lie inside the container. */
  predicate MsgFits(s: seq<byte>, m: nat)
  {
    HeaderFits(s, m) && MsgLen(s, m) >= 1 && m + 5 + 3 * MsgLen(s, m) <= |s|
  }

  /** The message at step position `m`: `cmd_id` at `m + 5`, `parameter_data`
      at `m + 8`. */
  function MessageAt(s: seq<byte>, m: nat): (msg: VstepMsg)
    requires MsgFits(s, m)
    ensures msg.msgType == MsgType(s, m) && msg.length == MsgLen(s, m)
    ensures |msg.cmdId| == 3 && msg.length >= 1 && |msg.data| == 3 * (msg.length - 1)
    ensures msg.cmdId + msg.data == s[m + 5 .. m + 5 + 3 * msg.length]
  {
    var L := MsgLen(s, m);
    VstepMsg(MsgType(s, m), L, s[m + 5 .. m + 8], s[m + 8 .. m + 8 + 3 * (L - 1)])
  }

  /** The next message's type byte is the first byte after this message:
      after its `message_length` info bytes for an info message, and
      otherwise right after the command id and parameter data that
      `MessageAt` reads. */
  lemma NextMsgFollows(s: seq<byte>, m: nat)
    requires HeaderFits(s, m)
    ensures MsgType(s, m) == InfoMessageType ==> NextMsgInfo(s, m) + 1 == m + 5 + MsgLen(s, m)
    ensures MsgFits(s, m) && MsgType(s, m) != InfoMessageType ==>
      var msg := MessageAt(s, m);
      NextMsgInfo(s, m) + 1 == m + 5 + |msg.cmdId + msg.data| &&
      s[m + 5 .. NextMsgInfo(s, m) + 1] == msg.cmdId + msg.data
  {
  }
}

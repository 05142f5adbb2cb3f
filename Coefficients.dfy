/** `dsp_partial_coefficients`: send a new biquad filter table either whole
    or as the equalizer groups and biquads that changed, whichever costs
    fewer bytes on the wire. The table is `struct dsp_msg_all_coeff`: three
    `select_eq` bytes, then 28 biquads of six 24-bit coefficients, grouped
    into six equalizers of 10, 10, 2, 2, 2 and 2 biquads. */
module Coefficients {
  import opened Types
  import opened Bits
  import opened Codec24
  import opened Transport

  const NrCoeffs := 6
  const NrBiquads := 28
  /** `BQ_SIZE`: the bytes of one biquad. */
  const BqSize := 3 * NrCoeffs
  /** `DSP_MSG_OVERHEAD`: the cost of one message besides its bytes. */
  const DspMsgOverhead := 27
  /** `sizeof(struct dsp_msg_all_coeff)`. */
  const AllCoeffSize := 3 + NrBiquads * BqSize
  /** `NR_EQ` and `eq_biquads[]`. */
  const NrEq := 6
  const EqBiquads: seq<nat> := [10, 10, 2, 2, 2, 2]
  /** The first biquad of each equalizer, and the end of the last one. */
  const EqOffsets: seq<nat> := [0, 10, 20, 22, 24, 26, 28]
  /** `old_cost`: sending the whole table. */
  const OldCost := DspMsgOverhead + 3 + AllCoeffSize
  /** The mask value that marks a group to be sent whole. */
  const AllBiquads := 0xffff_ffff
  /** The command id of every message: module `MODULE_BIQUADFILTERBANK`. */
  const CoeffCmd: seq<byte> := [0x00, 0x82, 0x00]

  lemma EqLayout()
    ensures |EqBiquads| == NrEq && |EqOffsets| == NrEq + 1
    ensures EqOffsets[0] == 0 && EqOffsets[NrEq] == NrBiquads && AllCoeffSize == 507 && OldCost == 537
    ensures forall eq :: 0 <= eq < NrEq ==> EqOffsets[eq + 1] == EqOffsets[eq] + EqBiquads[eq]
    ensures forall eq :: 0 <= eq < NrEq ==> 1 <= EqBiquads[eq] <= 10
  {
  }

  /** Each group ends where the next begins, inside the table. */
  lemma GroupBounds(eq: nat)
    requires eq < NrEq
    ensures GroupStart(eq) + BqSize * EqBiquads[eq] == GroupStart(eq + 1) <= AllCoeffSize
  {
    EqLayout();
    assert EqOffsets[eq + 1] <= NrBiquads;
  }

  /** A filter table: at least the bytes of `struct dsp_msg_all_coeff`. */
  predicate Table(t: seq<byte>)
  {
    |t| >= AllCoeffSize
  }

  /** Byte position of the first biquad of equalizer `k`; for `k == NrEq`,
      the end of the table. */
  function GroupStart(k: nat): nat
    requires k <= NrEq
  {
    3 + BqSize * EqOffsets[k]
  }

  /** Byte position of biquad `bq` of equalizer `eq`. */
  function BiquadPos(eq: nat, bq: nat): nat
    requires eq < NrEq
  {
    GroupStart(eq) + BqSize * bq
  }

  /** The bytes of biquad `bq` of equalizer `eq`. */
  function BiquadAt(t: seq<byte>, eq: nat, bq: nat): (r: seq<byte>)
    requires Table(t) && eq < NrEq && bq < EqBiquads[eq]
    ensures |r| == BqSize
  {
    EqLayout();
    t[BiquadPos(eq, bq) .. BiquadPos(eq, bq) + BqSize]
  }

  /** The bytes of all the biquads of equalizer `eq`. */
  function GroupAt(t: seq<byte>, eq: nat): (r: seq<byte>)
    requires Table(t) && eq < NrEq
    ensures |r| == BqSize * EqBiquads[eq]
  {
    EqLayout();
    t[GroupStart(eq) .. GroupStart(eq + 1)]
  }

  predicate Changed(prev: seq<byte>, next: seq<byte>, eq: nat, bq: nat)
    requires Table(prev) && Table(next) && eq < NrEq && bq < EqBiquads[eq]
  {
    BiquadAt(prev, eq, bq) != BiquadAt(next, eq, bq)
  }

  /** `eq_biquad_mask[eq]` after the first `k` biquads: bit `bq` for each
      changed biquad. */
  function ChangedMask(prev: seq<byte>, next: seq<byte>, eq: nat, k: nat): nat
    requires Table(prev) && Table(next) && eq < NrEq && k <= EqBiquads[eq]
    decreases k, |prev|
  {
    if k == 0 then 0
    else ChangedMask(prev, next, eq, k - 1) + (if Changed(prev, next, eq, k - 1) then Pow2(k - 1) else 0)
  }

  /** `nr_bq` after the first `k` biquads. */
  function ChangedCount(prev: seq<byte>, next: seq<byte>, eq: nat, k: nat): (r: nat)
    requires Table(prev) && Table(next) && eq < NrEq && k <= EqBiquads[eq]
    ensures r <= k
    decreases k, |prev|
  {
    if k == 0 then 0
    else ChangedCount(prev, next, eq, k - 1) + (if Changed(prev, next, eq, k - 1) then 1 else 0)
  }

  /** `bq_sz`: the cost of sending `c` biquads one by one. */
  function BiquadsCost(c: nat): nat
  {
    (2 * 3 + BqSize) * c + DspMsgOverhead * c
  }

  /** `eq_sz`: the cost of sending a group of `n` biquads whole. */
  function GroupCost(n: nat): nat
  {
    2 * 3 + BqSize * n + DspMsgOverhead
  }

  /** Send group `eq` whole: it changed, and biquad by biquad is not cheaper. */
  predicate SendWhole(prev: seq<byte>, next: seq<byte>, eq: nat)
    requires Table(prev) && Table(next) && eq < NrEq
  {
    EqLayout();
    GroupAt(prev, eq) != GroupAt(next, eq) &&
    BiquadsCost(ChangedCount(prev, next, eq, EqBiquads[eq])) >= GroupCost(EqBiquads[eq])
  }

  /** `eq_biquad_mask[eq]` after the first loop. */
  function GroupMask(prev: seq<byte>, next: seq<byte>, eq: nat): nat
    requires Table(prev) && Table(next) && eq < NrEq
  {
    EqLayout();
    if GroupAt(prev, eq) == GroupAt(next, eq) then 0
    else if SendWhole(prev, next, eq) then AllBiquads
    else ChangedMask(prev, next, eq, EqBiquads[eq])
  }

  /** What the first loop adds to `new_cost` for group `eq`. */
  function CostOf(prev: seq<byte>, next: seq<byte>, eq: nat): nat
    requires Table(prev) && Table(next) && eq < NrEq
  {
    EqLayout();
    if GroupAt(prev, eq) == GroupAt(next, eq) then 0
    else if SendWhole(prev, next, eq) then GroupCost(EqBiquads[eq])
    else BiquadsCost(ChangedCount(prev, next, eq, EqBiquads[eq]))
  }

  /** `new_cost` after the first `k` groups. */
  function NewCost(prev: seq<byte>, next: seq<byte>, k: nat): nat
    requires Table(prev) && Table(next) && k <= NrEq
    decreases k, |prev|
  {
    if k == 0 then 0 else NewCost(prev, next, k - 1) + CostOf(prev, next, k - 1)
  }

  /** The message that sends the whole table. */
  function TableMsg(next: seq<byte>): seq<byte>
    requires Table(next)
  {
    CoeffCmd + next[..AllCoeffSize]
  }

  /** The message that sends group `eq` whole: biquad selector 0. */
  function GroupMsg(next: seq<byte>, eq: nat): seq<byte>
    requires Table(next) && eq < NrEq
  {
    CoeffCmd + [0, (eq + 1) as byte, 0] + GroupAt(next, eq)
  }

  /** The message that sends biquad `bq` of group `eq`. */
  function BiquadMsg(next: seq<byte>, eq: nat, bq: nat): seq<byte>
    requires Table(next) && eq < NrEq && bq < EqBiquads[eq]
  {
    EqLayout();
    CoeffCmd + [0, (eq + 1) as byte, (bq + 1) as byte] + BiquadAt(next, eq, bq)
  }

  /** The messages for the biquads among the first `k` whose bit is set in
      `m`, in order. */
  function BiquadMsgs(next: seq<byte>, eq: nat, m: nat, k: nat): seq<seq<byte>>
    requires Table(next) && eq < NrEq && k <= EqBiquads[eq]
    decreases k, |next|
  {
    if k == 0 then []
    else BiquadMsgs(next, eq, m, k - 1) + (if Bit(m, k - 1) then [BiquadMsg(next, eq, k - 1)] else [])
  }

  /** The messages of group `eq` in the itemised branch. */
  function GroupMsgs(prev: seq<byte>, next: seq<byte>, eq: nat): seq<seq<byte>>
    requires Table(prev) && Table(next) && eq < NrEq
  {
    var m := GroupMask(prev, next, eq);
    if m == AllBiquads then [GroupMsg(next, eq)]
    else if m != 0 then BiquadMsgs(next, eq, m, EqBiquads[eq])
    else []
  }

  /** The messages of the first `k` groups in the itemised branch. */
  function ItemMsgs(prev: seq<byte>, next: seq<byte>, k: nat): seq<seq<byte>>
    requires Table(prev) && Table(next) && k <= NrEq
    decreases k, |prev|
  {
    if k == 0 then [] else ItemMsgs(prev, next, k - 1) + GroupMsgs(prev, next, k - 1)
  }

  /** Every message `dsp_partial_coefficients` sends, in order. */
  function CoeffMessages(prev: seq<byte>, next: seq<byte>): seq<seq<byte>>
    requires Table(prev) && Table(next)
  {
    if NewCost(prev, next, NrEq) >= OldCost then [TableMsg(next)] else ItemMsgs(prev, next, NrEq)
  }

  /** Exactly the changed biquads have their bit set in the mask, and the
      count of changed biquads is the number of bits set. */
  lemma {:induction false} ChangedMaskBits(prev: seq<byte>, next: seq<byte>, eq: nat, k: nat)
    requires Table(prev) && Table(next) && eq < NrEq && k <= EqBiquads[eq]
    ensures ChangedMask(prev, next, eq, k) < Pow2(k)
    ensures forall j :: 0 <= j < k ==> (Bit(ChangedMask(prev, next, eq, k), j) <==> Changed(prev, next, eq, j))
    ensures forall j :: k <= j ==> !Bit(ChangedMask(prev, next, eq, k), j)
    ensures ChangedCount(prev, next, eq, k) == Pop(ChangedMask(prev, next, eq, k), k)
  {
    if k == 0 {
      forall j | 0 <= j
        ensures !Bit(0, j)
      {
        BitBelow(0, 0, j);
      }
    } else {
      ChangedMaskBits(prev, next, eq, k - 1);
      var m := ChangedMask(prev, next, eq, k - 1);
      var m' := ChangedMask(prev, next, eq, k);
      BitBelow(m, k - 1, k - 1);
      forall j | 0 <= j
        ensures Bit(m', j) <==> (j < k && (j == k - 1 || Bit(m, j)) && (j < k - 1 || Changed(prev, next, eq, j)))
      {
        if Changed(prev, next, eq, k - 1) {
          BitSet(m, k - 1, j);
        }
      }
      PopAgree(m', m, k - 1);
    }
  }

  /** Masks of a group of at most ten biquads stay below `2^10`, far from
      the whole-group marker. */
  lemma ChangedMaskSmall(prev: seq<byte>, next: seq<byte>, eq: nat)
    requires Table(prev) && Table(next) && eq < NrEq
    ensures ChangedMask(prev, next, eq, EqBiquads[eq]) < 1024
  {
    EqLayout();
    ChangedMaskBits(prev, next, eq, EqBiquads[eq]);
    Pow2Monotone(EqBiquads[eq], 10);
    assert Pow2(10) == 1024;
  }

  /** A biquad is the matching slice of its group. */
  lemma BiquadInGroup(t: seq<byte>, eq: nat, bq: nat)
    requires Table(t) && eq < NrEq && bq < EqBiquads[eq]
    ensures BiquadAt(t, eq, bq) == GroupAt(t, eq)[BqSize * bq .. BqSize * bq + BqSize]
  {
    GroupBounds(eq);
    assert BqSize == 18;
    assert BqSize * bq + BqSize <= BqSize * EqBiquads[eq];
    var b, g := BiquadAt(t, eq, bq), GroupAt(t, eq);
    var s := g[BqSize * bq .. BqSize * bq + BqSize];
    forall i | 0 <= i < BqSize
      ensures b[i] == s[i]
    {
      assert b[i] == t[GroupStart(eq) + BqSize * bq + i];
      assert g[BqSize * bq + i] == t[GroupStart(eq) + BqSize * bq + i];
    }
  }

  /** `memcmp` over a group finds a difference exactly when one of its
      biquads changed. */
  lemma GroupSame(prev: seq<byte>, next: seq<byte>, eq: nat)
    requires Table(prev) && Table(next) && eq < NrEq
    ensures GroupAt(prev, eq) == GroupAt(next, eq) <==> forall bq :: 0 <= bq < EqBiquads[eq] ==> !Changed(prev, next, eq, bq)
  {
    if GroupAt(prev, eq) == GroupAt(next, eq) {
      forall bq | 0 <= bq < EqBiquads[eq]
        ensures !Changed(prev, next, eq, bq)
      {
        BiquadInGroup(prev, eq, bq);
        BiquadInGroup(next, eq, bq);
      }
    } else if forall bq :: 0 <= bq < EqBiquads[eq] ==> !Changed(prev, next, eq, bq) {
      SameBiquadsSameGroup(prev, next, eq);
    }
  }

  lemma SameBiquadsSameGroup(prev: seq<byte>, next: seq<byte>, eq: nat)
    requires Table(prev) && Table(next) && eq < NrEq
    requires forall bq :: 0 <= bq < EqBiquads[eq] ==> !Changed(prev, next, eq, bq)
    ensures GroupAt(prev, eq) == GroupAt(next, eq)
  {
    EqLayout();
    var n := EqBiquads[eq];
    var g1, g2 := GroupAt(prev, eq), GroupAt(next, eq);
    forall i | 0 <= i < |g1|
      ensures g1[i] == g2[i]
    {
      var bq, j := SplitIndex(i, n);
      assert !Changed(prev, next, eq, bq);
      BiquadInGroup(prev, eq, bq);
      BiquadInGroup(next, eq, bq);
      assert g1[i] == BiquadAt(prev, eq, bq)[j];
      assert g2[i] == BiquadAt(next, eq, bq)[j];
    }
  }

  /** Byte `i` of a group is byte `j` of its biquad `bq`. */
  lemma SplitIndex(i: nat, n: nat) returns (bq: nat, j: nat)
    requires i < BqSize * n
    ensures i == BqSize * bq + j && bq < n && j < BqSize
  {
    bq, j := i / 18, i % 18;
  }

  /** A group with no changed biquad counts none. */
  lemma {:induction false} CountZero(prev: seq<byte>, next: seq<byte>, eq: nat, k: nat)
    requires Table(prev) && Table(next) && eq < NrEq && k <= EqBiquads[eq]
    ensures ChangedCount(prev, next, eq, k) == 0 <==> forall bq :: 0 <= bq < k ==> !Changed(prev, next, eq, bq)
  {
    if k > 0 {
      CountZero(prev, next, eq, k - 1);
    }
  }

  /** The bytes a list of messages costs: its own bytes plus the overhead
      of each message. */
  function WireCost(msgs: seq<seq<byte>>): nat
  {
    if msgs == [] then 0 else WireCost(msgs[..|msgs| - 1]) + |msgs[|msgs| - 1]| + DspMsgOverhead
  }

  lemma WireCostOne(msg: seq<byte>)
    ensures WireCost([msg]) == |msg| + DspMsgOverhead
  {
    assert [msg][..0] == [];
  }

  lemma {:induction false} WireCostAppend(a: seq<seq<byte>>, b: seq<seq<byte>>)
    ensures WireCost(a + b) == WireCost(a) + WireCost(b)
    decreases |b|
  {
    if b != [] {
      var b' := b[..|b| - 1];
      assert (a + b)[..|a + b| - 1] == a + b';
      WireCostAppend(a, b');
    } else {
      assert a + b == a;
    }
  }

  /** The biquad messages cost `bq_sz` for the number of bits set. */
  lemma {:induction false} BiquadMsgsCost(next: seq<byte>, eq: nat, m: nat, k: nat)
    requires Table(next) && eq < NrEq && k <= EqBiquads[eq]
    ensures WireCost(BiquadMsgs(next, eq, m, k)) == BiquadsCost(Pop(m, k))
  {
    if k > 0 {
      BiquadMsgsCost(next, eq, m, k - 1);
      var a := BiquadMsgs(next, eq, m, k - 1);
      var tail := if Bit(m, k - 1) then [BiquadMsg(next, eq, k - 1)] else [];
      WireCostAppend(a, tail);
      if Bit(m, k - 1) {
        WireCostOne(BiquadMsg(next, eq, k - 1));
        BiquadMsgFields(next, eq, k - 1);
        SumStep(WireCost(a + tail), WireCost(a), WireCost(tail), BiquadsCost(Pop(m, k - 1)), BiquadsCost(1));
      } else {
        SumStep(WireCost(a + tail), WireCost(a), WireCost(tail), BiquadsCost(Pop(m, k - 1)), 0);
      }
    }
  }

  /** The cost the first loop charges for a group is what its messages cost
      on the wire. */
  lemma GroupMsgsCost(prev: seq<byte>, next: seq<byte>, eq: nat)
    requires Table(prev) && Table(next) && eq < NrEq
    ensures WireCost(GroupMsgs(prev, next, eq)) == CostOf(prev, next, eq)
  {
    EqLayout();
    var n := EqBiquads[eq];
    ChangedMaskSmall(prev, next, eq);
    if GroupAt(prev, eq) == GroupAt(next, eq) {
    } else if SendWhole(prev, next, eq) {
      WireCostOne(GroupMsg(next, eq));
      GroupMsgFields(next, eq);
    } else {
      var m := ChangedMask(prev, next, eq, n);
      ChangedMaskBits(prev, next, eq, n);
      BiquadMsgsCost(next, eq, m, n);
      GroupSame(prev, next, eq);
      CountZero(prev, next, eq, n);
    }
  }

  /** `new_cost` is the wire cost of the itemised messages. */
  lemma {:induction false} ItemMsgsCost(prev: seq<byte>, next: seq<byte>, k: nat)
    requires Table(prev) && Table(next) && k <= NrEq
    ensures WireCost(ItemMsgs(prev, next, k)) == NewCost(prev, next, k)
  {
    if k > 0 {
      ItemMsgsCost(prev, next, k - 1);
      var a, g := ItemMsgs(prev, next, k - 1), GroupMsgs(prev, next, k - 1);
      GroupMsgsCost(prev, next, k - 1);
      WireCostAppend(a, g);
      SumStep(WireCost(a + g), WireCost(a), WireCost(g), NewCost(prev, next, k - 1), CostOf(prev, next, k - 1));
    }
  }

  lemma SumStep(t: nat, a: nat, g: nat, na: nat, ng: nat)
    requires t == a + g && a == na && g == ng
    ensures t == na + ng
  {
  }

  /** The messages sent cost the smaller of `old_cost` and `new_cost`:
      `old_cost` is the wire cost of the whole-table message, `new_cost` that
      of the itemised ones, and a tie goes to the whole table. */
  lemma CoeffMessagesCost(prev: seq<byte>, next: seq<byte>)
    requires Table(prev) && Table(next)
    ensures WireCost(CoeffMessages(prev, next)) == Min(NewCost(prev, next, NrEq), OldCost)
    ensures WireCost([TableMsg(next)]) == OldCost
  {
    EqLayout();
    ItemMsgsCost(prev, next, NrEq);
    WireCostOne(TableMsg(next));
  }

  /** A changed group costs the cheaper of its two encodings. */
  lemma GroupCostIsLeast(prev: seq<byte>, next: seq<byte>, eq: nat)
    requires Table(prev) && Table(next) && eq < NrEq
    requires GroupAt(prev, eq) != GroupAt(next, eq)
    ensures CostOf(prev, next, eq) == Min(GroupCost(EqBiquads[eq]), BiquadsCost(ChangedCount(prev, next, eq, EqBiquads[eq])))
  {
  }

  /** The fields of a biquad message: its length, the equalizer and biquad
      selectors (counted from 1) and the biquad bytes. */
  lemma BiquadMsgFields(next: seq<byte>, eq: nat, bq: nat)
    requires Table(next) && eq < NrEq && bq < EqBiquads[eq]
    ensures var msg := BiquadMsg(next, eq, bq);
      |msg| == 6 + BqSize && msg[4] as nat == eq + 1 && msg[5] as nat == bq + 1 &&
      msg[6..] == BiquadAt(next, eq, bq)
  {
    EqLayout();
    var h: seq<byte> := [0, (eq + 1) as byte, (bq + 1) as byte];
    AppendParts(CoeffCmd + h, BiquadAt(next, eq, bq));
  }

  /** The fields of a group message: biquad selector 0 and the group bytes. */
  lemma GroupMsgFields(next: seq<byte>, eq: nat)
    requires Table(next) && eq < NrEq
    ensures var msg := GroupMsg(next, eq);
      |msg| == 6 + BqSize * EqBiquads[eq] && msg[4] as nat == eq + 1 && msg[5] == 0 &&
      msg[6..] == GroupAt(next, eq)
  {
    EqLayout();
    var h: seq<byte> := [0, (eq + 1) as byte, 0];
    AppendParts(CoeffCmd + h, GroupAt(next, eq));
  }

  /** Identical tables send nothing. */
  lemma SameTableSendsNothing(t: seq<byte>)
    requires Table(t)
    ensures CoeffMessages(t, t) == []
  {
    EqLayout();
    forall eq | 0 <= eq < NrEq
      ensures GroupAt(t, eq) == GroupAt(t, eq)
    {
    }
    SameGroupsSendNothing(t, t, NrEq);
  }

  /** Groups that are all the same cost nothing and send nothing. */
  lemma {:induction false} SameGroupsSendNothing(prev: seq<byte>, next: seq<byte>, k: nat)
    requires Table(prev) && Table(next) && k <= NrEq
    requires forall eq :: 0 <= eq < k ==> GroupAt(prev, eq) == GroupAt(next, eq)
    ensures NewCost(prev, next, k) == 0 && ItemMsgs(prev, next, k) == []
  {
    if k > 0 {
      SameGroupsSendNothing(prev, next, k - 1);
      assert GroupAt(prev, k - 1) == GroupAt(next, k - 1);
    }
  }

  /** `t` with `x` written at `p`. */
  function Put(t: seq<byte>, p: nat, x: seq<byte>): (r: seq<byte>)
    requires p + |x| <= |t|
    ensures |r| == |t|
    ensures forall i :: 0 <= i < |t| ==> r[i] == if p <= i < p + |x| then x[i - p] else t[i]
  {
    t[..p] + x + t[p + |x|..]
  }

  /** How the biquad filter bank takes one message into its table: the whole
      table after the three command bytes, a whole group for biquad selector
      0, or one biquad; selectors count from 1. Anything else leaves the
      table as it is. */
  function Receive(t: seq<byte>, msg: seq<byte>): (r: seq<byte>)
    requires |t| == AllCoeffSize
    ensures |r| == AllCoeffSize
  {
    EqLayout();
    if |msg| == 3 + AllCoeffSize then msg[3..]
    else if |msg| >= 6 && 1 <= msg[4] as nat <= NrEq then
      var eq := msg[4] as nat - 1;
      GroupBounds(eq);
      if msg[5] == 0 && |msg| == 6 + BqSize * EqBiquads[eq] then Put(t, GroupStart(eq), msg[6..])
      else if 1 <= msg[5] as nat <= EqBiquads[eq] && |msg| == 6 + BqSize then Put(t, BiquadPos(eq, msg[5] as nat - 1), msg[6..])
      else t
    else t
  }

  /** The table after a list of messages, in order. */
  function ReceiveAll(t: seq<byte>, msgs: seq<seq<byte>>): (r: seq<byte>)
    requires |t| == AllCoeffSize
    ensures |r| == AllCoeffSize
  {
    if msgs == [] then t else Receive(ReceiveAll(t, msgs[..|msgs| - 1]), msgs[|msgs| - 1])
  }

  lemma ReceiveOne(t: seq<byte>, msg: seq<byte>)
    requires |t| == AllCoeffSize
    ensures ReceiveAll(t, [msg]) == Receive(t, msg)
  {
    assert [msg][..0] == [];
  }

  lemma {:induction false} ReceiveAppend(t: seq<byte>, a: seq<seq<byte>>, b: seq<seq<byte>>)
    requires |t| == AllCoeffSize
    ensures ReceiveAll(t, a + b) == ReceiveAll(ReceiveAll(t, a), b)
    decreases |b|
  {
    if b == [] {
      assert a + b == a;
    } else {
      assert (a + b)[..|a + b| - 1] == a + b[..|b| - 1];
      ReceiveAppend(t, a, b[..|b| - 1]);
    }
  }

  /** `r` holds the new table before byte `a` (past the command bytes) and
      the old table from `a` on. */
  ghost predicate Agrees(r: seq<byte>, prev: seq<byte>, next: seq<byte>, a: nat)
  {
    |r| == AllCoeffSize && Table(prev) && Table(next) &&
    forall i :: 0 <= i < AllCoeffSize ==> r[i] == if 3 <= i < a then next[i] else prev[i]
  }

  /** The biquad messages of a group bring the table up to date one biquad
      at a time: a biquad without a message did not change. */
  lemma {:induction false} ReceiveBiquads(prev: seq<byte>, next: seq<byte>, eq: nat, m: nat, k: nat, r: seq<byte>)
    requires Table(prev) && Table(next) && eq < NrEq && k <= EqBiquads[eq]
    requires forall j :: 0 <= j < EqBiquads[eq] ==> (Bit(m, j) <==> Changed(prev, next, eq, j))
    requires Agrees(r, prev, next, GroupStart(eq))
    ensures Agrees(ReceiveAll(r, BiquadMsgs(next, eq, m, k)), prev, next, BiquadPos(eq, k))
  {
    if k == 0 {
      assert ReceiveAll(r, BiquadMsgs(next, eq, m, k)) == r;
      assert BiquadPos(eq, k) == GroupStart(eq);
    } else {
      ReceiveBiquads(prev, next, eq, m, k - 1, r);
      ReceiveBiquadsStep(prev, next, eq, m, k, r);
    }
  }

  /** One more biquad of the group: its message, if any, writes it. */
  lemma ReceiveBiquadsStep(prev: seq<byte>, next: seq<byte>, eq: nat, m: nat, k: nat, r: seq<byte>)
    requires Table(prev) && Table(next) && eq < NrEq && 1 <= k <= EqBiquads[eq] && |r| == AllCoeffSize
    requires Bit(m, k - 1) <==> Changed(prev, next, eq, k - 1)
    requires Agrees(ReceiveAll(r, BiquadMsgs(next, eq, m, k - 1)), prev, next, BiquadPos(eq, k - 1))
    ensures Agrees(ReceiveAll(r, BiquadMsgs(next, eq, m, k)), prev, next, BiquadPos(eq, k))
  {
    EqLayout();
    GroupBounds(eq);
    var a := BiquadMsgs(next, eq, m, k - 1);
    var r' := ReceiveAll(r, a);
    var tail := if Bit(m, k - 1) then [BiquadMsg(next, eq, k - 1)] else [];
    ReceiveAppend(r, a, tail);
    var r'' := ReceiveAll(r', tail);
    if Bit(m, k - 1) {
      assert tail == [BiquadMsg(next, eq, k - 1)];
      ReceiveBiquadMsg(r', next, eq, k - 1);
      BiquadStep(prev, next, eq, k, r', r'');
    } else {
      assert tail == [];
      assert r'' == r';
      BiquadStep(prev, next, eq, k, r', r'');
    }
    assert BiquadMsgs(next, eq, m, k) == a + tail;
  }

  /** The filter bank writes a biquad message over that biquad. */
  lemma ReceiveBiquadMsg(r: seq<byte>, next: seq<byte>, eq: nat, bq: nat)
    requires |r| == AllCoeffSize && Table(next) && eq < NrEq && bq < EqBiquads[eq]
    ensures BiquadPos(eq, bq) + BqSize <= AllCoeffSize
    ensures ReceiveAll(r, [BiquadMsg(next, eq, bq)]) == Put(r, BiquadPos(eq, bq), BiquadAt(next, eq, bq))
  {
    EqLayout();
    GroupBounds(eq);
    ReceiveOne(r, BiquadMsg(next, eq, bq));
    BiquadMsgFields(next, eq, bq);
  }

  /** The filter bank writes a group message over that group. */
  lemma ReceiveGroupMsg(r: seq<byte>, next: seq<byte>, eq: nat)
    requires |r| == AllCoeffSize && Table(next) && eq < NrEq
    ensures GroupStart(eq + 1) <= AllCoeffSize
    ensures ReceiveAll(r, [GroupMsg(next, eq)]) == Put(r, GroupStart(eq), GroupAt(next, eq))
  {
    EqLayout();
    GroupBounds(eq);
    var msg := GroupMsg(next, eq);
    ReceiveOne(r, msg);
    GroupMsgFields(next, eq);
    assert BqSize == 18 && EqBiquads[eq] <= 10;
    assert |msg| < 3 + AllCoeffSize;
    assert msg[4] as nat - 1 == eq && msg[5] == 0;
    assert Receive(r, msg) == Put(r, GroupStart(eq), msg[6..]);
  }

  /** After biquad `k - 1` holds its new bytes, the table agrees with the
      new one up to the end of that biquad. */
  lemma BiquadStep(prev: seq<byte>, next: seq<byte>, eq: nat, k: nat, r: seq<byte>, r': seq<byte>)
    requires Table(prev) && Table(next) && eq < NrEq && 1 <= k <= EqBiquads[eq]
    requires Agrees(r, prev, next, BiquadPos(eq, k - 1)) && |r'| == AllCoeffSize
    requires BiquadPos(eq, k - 1) + BqSize <= AllCoeffSize
    requires r' == Put(r, BiquadPos(eq, k - 1), BiquadAt(next, eq, k - 1)) || (r' == r && !Changed(prev, next, eq, k - 1))
    ensures Agrees(r', prev, next, BiquadPos(eq, k))
  {
    var p := BiquadPos(eq, k - 1);
    assert BiquadPos(eq, k) == p + BqSize;
    forall i | 0 <= i < AllCoeffSize
      ensures r'[i] == if 3 <= i < p + BqSize then next[i] else prev[i]
    {
      if p <= i < p + BqSize {
        assert BiquadAt(next, eq, k - 1)[i - p] == next[i];
        assert BiquadAt(prev, eq, k - 1)[i - p] == prev[i];
      }
    }
  }

  /** The messages of one group bring that group up to date. */
  lemma ReceiveGroup(prev: seq<byte>, next: seq<byte>, eq: nat, r: seq<byte>)
    requires Table(prev) && Table(next) && eq < NrEq
    requires Agrees(r, prev, next, GroupStart(eq))
    ensures Agrees(ReceiveAll(r, GroupMsgs(prev, next, eq)), prev, next, GroupStart(eq + 1))
  {
    EqLayout();
    GroupBounds(eq);
    var n := EqBiquads[eq];
    var msgs := GroupMsgs(prev, next, eq);
    var r' := ReceiveAll(r, msgs);
    ChangedMaskSmall(prev, next, eq);
    if GroupAt(prev, eq) == GroupAt(next, eq) {
      assert msgs == [];
      GroupStep(prev, next, eq, r, r');
    } else if SendWhole(prev, next, eq) {
      assert msgs == [GroupMsg(next, eq)];
      ReceiveGroupMsg(r, next, eq);
      GroupStep(prev, next, eq, r, r');
    } else {
      var m := ChangedMask(prev, next, eq, n);
      ChangedMaskNonZero(prev, next, eq);
      ChangedMaskBits(prev, next, eq, n);
      assert msgs == BiquadMsgs(next, eq, m, n);
      ReceiveBiquads(prev, next, eq, m, n, r);
    }
  }

  /** After group `eq` holds its new bytes, the table agrees with the new
      one up to the end of that group. */
  lemma GroupStep(prev: seq<byte>, next: seq<byte>, eq: nat, r: seq<byte>, r': seq<byte>)
    requires Table(prev) && Table(next) && eq < NrEq && GroupStart(eq + 1) <= AllCoeffSize
    requires Agrees(r, prev, next, GroupStart(eq)) && |r'| == AllCoeffSize
    requires r' == Put(r, GroupStart(eq), GroupAt(next, eq)) || (r' == r && GroupAt(prev, eq) == GroupAt(next, eq))
    ensures Agrees(r', prev, next, GroupStart(eq + 1))
  {
    var lo, hi := GroupStart(eq), GroupStart(eq + 1);
    forall i | 0 <= i < AllCoeffSize
      ensures r'[i] == if 3 <= i < hi then next[i] else prev[i]
    {
      if lo <= i < hi {
        assert GroupAt(next, eq)[i - lo] == next[i];
        assert GroupAt(prev, eq)[i - lo] == prev[i];
      }
    }
  }

  /** A group that changed has some bit set in its mask. */
  lemma ChangedMaskNonZero(prev: seq<byte>, next: seq<byte>, eq: nat)
    requires Table(prev) && Table(next) && eq < NrEq && GroupAt(prev, eq) != GroupAt(next, eq)
    ensures ChangedMask(prev, next, eq, EqBiquads[eq]) != 0
  {
    EqLayout();
    var n := EqBiquads[eq];
    ChangedMaskBits(prev, next, eq, n);
    GroupSame(prev, next, eq);
    var bq :| 0 <= bq < n && Changed(prev, next, eq, bq);
    BitBelow(0, 0, bq);
  }

  /** The itemised messages of the first `k` groups bring those groups up
      to date. */
  lemma {:induction false} ReceiveItems(prev: seq<byte>, next: seq<byte>, k: nat)
    requires Table(prev) && Table(next) && k <= NrEq
    ensures Agrees(ReceiveAll(prev[..AllCoeffSize], ItemMsgs(prev, next, k)), prev, next, GroupStart(k))
  {
    EqLayout();
    if k > 0 {
      ReceiveItems(prev, next, k - 1);
      var r := ReceiveAll(prev[..AllCoeffSize], ItemMsgs(prev, next, k - 1));
      ReceiveAppend(prev[..AllCoeffSize], ItemMsgs(prev, next, k - 1), GroupMsgs(prev, next, k - 1));
      ReceiveGroup(prev, next, k - 1, r);
    }
  }

  /** The messages sent, taken in by the filter bank holding the old table,
      leave it holding every biquad of the new table. */
  lemma CoeffRoundTrip(prev: seq<byte>, next: seq<byte>)
    requires Table(prev) && Table(next)
    ensures ReceiveAll(prev[..AllCoeffSize], CoeffMessages(prev, next))[3..] == next[3..AllCoeffSize]
  {
    EqLayout();
    var t := prev[..AllCoeffSize];
    if NewCost(prev, next, NrEq) >= OldCost {
      ReceiveOne(t, TableMsg(next));
      assert TableMsg(next)[3..] == next[..AllCoeffSize];
    } else {
      ReceiveItems(prev, next, NrEq);
      var r := ReceiveAll(t, ItemMsgs(prev, next, NrEq));
      assert forall i :: 3 <= i < AllCoeffSize ==> r[i] == next[i];
    }
  }

  /** A group lies within the biquads of the table. */
  lemma GroupInRegion(t: seq<byte>, eq: nat)
    requires Table(t) && eq < NrEq
    ensures 3 <= GroupStart(eq) <= GroupStart(eq + 1) <= AllCoeffSize
    ensures GroupAt(t, eq) == t[3..AllCoeffSize][GroupStart(eq) - 3 .. GroupStart(eq + 1) - 3]
  {
    GroupBounds(eq);
    var lo, hi := GroupStart(eq), GroupStart(eq + 1);
    var u := t[3..AllCoeffSize];
    forall i | 0 <= i < hi - lo
      ensures u[lo - 3 .. hi - 3][i] == t[lo..hi][i]
    {
    }
  }

  /** Nothing is sent exactly when the biquads of the two tables are the
      same. */
  lemma NothingSentIffSame(prev: seq<byte>, next: seq<byte>)
    requires Table(prev) && Table(next)
    ensures CoeffMessages(prev, next) == [] <==> prev[3..AllCoeffSize] == next[3..AllCoeffSize]
  {
    EqLayout();
    if prev[3..AllCoeffSize] == next[3..AllCoeffSize] {
      forall eq | 0 <= eq < NrEq
        ensures GroupAt(prev, eq) == GroupAt(next, eq)
      {
        GroupInRegion(prev, eq);
        GroupInRegion(next, eq);
      }
      SameGroupsSendNothing(prev, next, NrEq);
    }
    if CoeffMessages(prev, next) == [] {
      CoeffRoundTrip(prev, next);
      assert ReceiveAll(prev[..AllCoeffSize], []) == prev[..AllCoeffSize];
      assert prev[..AllCoeffSize][3..] == prev[3..AllCoeffSize];
    }
  }

  /** A message whose length is a whole number of 24-bit words that fit in
      `g_out32buf` can go to `dsp_msg`. */
  lemma MsgSendable(msg: seq<byte>)
    requires |msg| % 3 == 0 && |msg| <= 3 * Out32Words
    ensures Dsp.Sendable(msg, |msg|)
  {
    assert WordCount(|msg|) == |msg| / 3;
  }

  /** The biquad messages of the first `j` biquads come before those of the
      first `k`. */
  lemma {:induction false} BiquadMsgsPrefix(next: seq<byte>, eq: nat, m: nat, j: nat, k: nat)
    requires Table(next) && eq < NrEq && j <= k <= EqBiquads[eq]
    ensures IsPrefix(BiquadMsgs(next, eq, m, j), BiquadMsgs(next, eq, m, k))
    decreases k - j
  {
    if j < k {
      BiquadMsgsPrefix(next, eq, m, j + 1, k);
      var tail := if Bit(m, j) then [BiquadMsg(next, eq, j)] else [];
      assert BiquadMsgs(next, eq, m, j + 1) == BiquadMsgs(next, eq, m, j) + tail;
      PrefixOfAppend(BiquadMsgs(next, eq, m, j), tail);
      PrefixTrans(BiquadMsgs(next, eq, m, j), BiquadMsgs(next, eq, m, j + 1), BiquadMsgs(next, eq, m, k));
    }
  }

  /** The messages of the first `k` groups come before those of all groups. */
  lemma {:induction false} ItemMsgsPrefix(prev: seq<byte>, next: seq<byte>, k: nat)
    requires Table(prev) && Table(next) && k <= NrEq
    ensures IsPrefix(ItemMsgs(prev, next, k), ItemMsgs(prev, next, NrEq))
    decreases NrEq - k
  {
    if k < NrEq {
      ItemMsgsPrefix(prev, next, k + 1);
      PrefixOfAppend(ItemMsgs(prev, next, k), GroupMsgs(prev, next, k));
      PrefixTrans(ItemMsgs(prev, next, k), ItemMsgs(prev, next, k + 1), ItemMsgs(prev, next, NrEq));
    }
  }

  /** The inner loop of `dsp_partial_coefficients`: which biquads of group
      `eq` differ, as a mask with bit `bq` for biquad `bq`, and how many. */
  method ChangedBiquads(prev: seq<byte>, next: seq<byte>, eq: nat) returns (mask: nat, nrBq: nat)
    requires Table(prev) && Table(next) && eq < NrEq
    ensures mask == ChangedMask(prev, next, eq, EqBiquads[eq]) && mask < 1024
    ensures forall bq :: 0 <= bq < EqBiquads[eq] ==> (Bit(mask, bq) <==> Changed(prev, next, eq, bq))
    ensures nrBq == ChangedCount(prev, next, eq, EqBiquads[eq]) == Pop(mask, EqBiquads[eq])
  {
    EqLayout();
    var lo := GroupStart(eq);
    mask, nrBq := 0, 0;
    for bq := 0 to EqBiquads[eq]
      invariant mask == ChangedMask(prev, next, eq, bq) && nrBq == ChangedCount(prev, next, eq, bq)
    {
      // memcmp of the two biquads
      if prev[lo + BqSize * bq .. lo + BqSize * bq + BqSize] != next[lo + BqSize * bq .. lo + BqSize * bq + BqSize] {
        assert Changed(prev, next, eq, bq);
        // `|= (1 << bq)` on a clear bit
        mask := mask + Pow2(bq);
        nrBq := nrBq + 1;
      }
    }
    ChangedMaskBits(prev, next, eq, EqBiquads[eq]);
    ChangedMaskSmall(prev, next, eq);
  }

  /** A list cut inside the part that follows a prefix. */
  lemma PrefixTake<T>(a: seq<T>, b: seq<T>, c: seq<T>, k: nat)
    requires IsPrefix(a + b, c) && k <= |b|
    ensures |a| + |b| <= |c| && c[..|a| + k] == a + b[..k]
  {
    assert c[..|a| + k] == (a + b)[..|a| + k];
  }

  /** One turn of the first loop of `dsp_partial_coefficients`: the mask
      and the cost of group `eq`. A group that changed is sent biquad by
      biquad unless that costs at least as much as sending it whole. */
  method GroupChoice(prev: seq<byte>, next: seq<byte>, eq: nat) returns (mask: nat, cost: nat)
    requires Table(prev) && Table(next) && eq < NrEq
    ensures mask == GroupMask(prev, next, eq) && cost == CostOf(prev, next, eq)
  {
    EqLayout();
    GroupBounds(eq);
    var n := EqBiquads[eq];
    var lo := GroupStart(eq);
    mask, cost := 0, 0;
    if prev[lo .. lo + BqSize * n] != next[lo .. lo + BqSize * n] {
      var nrBq;
      mask, nrBq := ChangedBiquads(prev, next, eq);
      ChangedMaskNonZero(prev, next, eq);
      var bqSz := (2 * 3 + BqSize) * nrBq + DspMsgOverhead * nrBq;
      var eqSz := 2 * 3 + BqSize * n + DspMsgOverhead;
      if bqSz >= eqSz {
        mask := AllBiquads;
        cost := eqSz;
      } else {
        cost := bqSz;
      }
    }
  }

  /** What `eq_biquad_mask[eq]` says: 0 for a group that did not change,
      the whole-group marker for one sent whole, and otherwise a bit for
      each changed biquad. */
  lemma GroupMaskMeaning(prev: seq<byte>, next: seq<byte>, eq: nat)
    requires Table(prev) && Table(next) && eq < NrEq
    ensures var mask := GroupMask(prev, next, eq);
      && (mask == 0 <==> GroupAt(prev, eq) == GroupAt(next, eq))
      && (mask == AllBiquads <==> SendWhole(prev, next, eq))
      && (mask != AllBiquads ==> forall bq :: 0 <= bq < EqBiquads[eq] ==> (Bit(mask, bq) <==> Changed(prev, next, eq, bq)))
  {
    EqLayout();
    var n := EqBiquads[eq];
    ChangedMaskBits(prev, next, eq, n);
    ChangedMaskSmall(prev, next, eq);
    GroupSame(prev, next, eq);
    if GroupAt(prev, eq) != GroupAt(next, eq) {
      ChangedMaskNonZero(prev, next, eq);
    } else {
      forall bq | 0 <= bq < n
        ensures !Bit(0, bq)
      {
        BitBelow(0, 0, bq);
      }
    }
  }

  /** The first loop of `dsp_partial_coefficients`: `eq_biquad_mask` and
      `new_cost`. */
  method CostMasks(prev: seq<byte>, next: seq<byte>) returns (masks: array<nat>, newCost: nat)
    requires Table(prev) && Table(next)
    ensures fresh(masks) && masks.Length == NrEq
    ensures forall eq :: 0 <= eq < NrEq ==> masks[eq] == GroupMask(prev, next, eq)
    ensures newCost == NewCost(prev, next, NrEq)
  {
    masks := new nat[NrEq];
    newCost := 0;
    for eq := 0 to NrEq
      invariant newCost == NewCost(prev, next, eq)
      invariant forall e :: 0 <= e < eq ==> masks[e] == GroupMask(prev, next, e)
    {
      var cost;
      masks[eq], cost := GroupChoice(prev, next, eq);
      newCost := newCost + cost;
    }
  }

  /** The innermost loop of the itemised branch: one message per biquad of
      group `eq` whose bit is set in `m`. `allocs - mallocs0` more `malloc`s
      succeed; the first that fails stops the loop with
      `TFA98XX_ERROR_FAIL`. */
  method SendBiquads(dsp: Dsp, devIdx: int, next: seq<byte>, eq: nat, m: nat, allocs: nat, mallocs0: nat)
    returns (mallocs: nat, err: Tfa98xxError)
    requires dsp.Valid() && Table(next) && eq < NrEq && mallocs0 <= allocs
    modifies dsp, dsp.out32
    ensures dsp.Valid()
    ensures var g := BiquadMsgs(next, eq, m, EqBiquads[eq]);
      && mallocs == mallocs0 + Min(allocs - mallocs0, |g|)
      && dsp.sent == old(dsp.sent) + g[..mallocs - mallocs0]
      && err == (if allocs - mallocs0 >= |g| then ErrorOk else ErrorFail)
  {
    EqLayout();
    GroupBounds(eq);
    var n := EqBiquads[eq];
    var lo := GroupStart(eq);
    ghost var g := BiquadMsgs(next, eq, m, n);
    mallocs := mallocs0;
    for bq := 0 to n
      invariant dsp.Valid()
      invariant dsp.sent == old(dsp.sent) + BiquadMsgs(next, eq, m, bq)
      invariant mallocs == mallocs0 + |BiquadMsgs(next, eq, m, bq)| <= allocs
    {
      ghost var sent := BiquadMsgs(next, eq, m, bq);
      ghost var tail := if Bit(m, bq) then [BiquadMsg(next, eq, bq)] else [];
      assert BiquadMsgs(next, eq, m, bq + 1) == sent + tail;
      if Bit(m, bq) {
        BiquadMsgsPrefix(next, eq, m, bq + 1, n);
        if mallocs == allocs {
          PrefixTake(sent, tail, g, 0);
          return mallocs, ErrorFail;
        }
        var p := lo + BqSize * bq;
        assert p + BqSize <= GroupStart(eq + 1);
        var msg := CoeffCmd + [0x00, (eq + 1) as byte, (bq + 1) as byte] + next[p .. p + BqSize];
        assert msg == BiquadMsg(next, eq, bq) && msg[..|msg|] == msg;
        MsgSendable(msg);
        err := dsp.DspMsg(devIdx, msg, |msg|);
        mallocs := mallocs + 1;
        AppendAssoc(old(dsp.sent), sent, tail);
      } else {
        AppendNil(sent);
      }
    }
    assert g[..|g|] == g;
    err := ErrorOk;
  }

  /** One turn of the second loop of the itemised branch: the messages of
      group `eq`, whose mask is `mask`. */
  method SendGroup(dsp: Dsp, devIdx: int, prev: seq<byte>, next: seq<byte>, eq: nat, mask: nat, allocs: nat, mallocs0: nat)
    returns (mallocs: nat, err: Tfa98xxError)
    requires dsp.Valid() && Table(prev) && Table(next) && eq < NrEq && mallocs0 <= allocs
    requires mask == GroupMask(prev, next, eq)
    modifies dsp, dsp.out32
    ensures dsp.Valid()
    ensures var g := GroupMsgs(prev, next, eq);
      && mallocs == mallocs0 + Min(allocs - mallocs0, |g|)
      && dsp.sent == old(dsp.sent) + g[..mallocs - mallocs0]
      && err == (if allocs - mallocs0 >= |g| then ErrorOk else ErrorFail)
  {
    EqLayout();
    GroupBounds(eq);
    var n := EqBiquads[eq];
    var lo := GroupStart(eq);
    ghost var g := GroupMsgs(prev, next, eq);
    if mask == AllBiquads {
      assert g == [GroupMsg(next, eq)];
      if mallocs0 == allocs {
        return mallocs0, ErrorFail;
      }
      var msg := CoeffCmd + [0x00, (eq + 1) as byte, 0x00] + next[lo .. lo + BqSize * n];
      assert msg == GroupMsg(next, eq) && msg[..|msg|] == msg && g[..1] == g;
      MsgSendable(msg);
      err := dsp.DspMsg(devIdx, msg, |msg|);
      mallocs := mallocs0 + 1;
    } else if mask != 0 {
      assert g == BiquadMsgs(next, eq, mask, n);
      mallocs, err := SendBiquads(dsp, devIdx, next, eq, mask, allocs, mallocs0);
    } else {
      assert g == [];
      mallocs, err := mallocs0, ErrorOk;
    }
  }

  /** The itemised branch: each group's messages in turn, given the masks
      of the first loop. */
  method SendItems(dsp: Dsp, devIdx: int, prev: seq<byte>, next: seq<byte>, masks: seq<nat>, allocs: nat)
    returns (err: Tfa98xxError)
    requires dsp.Valid() && Table(prev) && Table(next) && |masks| == NrEq
    requires forall eq :: 0 <= eq < NrEq ==> masks[eq] == GroupMask(prev, next, eq)
    modifies dsp, dsp.out32
    ensures dsp.Valid()
    ensures var msgs := ItemMsgs(prev, next, NrEq); var k := Min(allocs, |msgs|);
      && dsp.sent == old(dsp.sent) + msgs[..k]
      && err == (if allocs >= |msgs| then ErrorOk else ErrorFail)
  {
    ghost var msgs := ItemMsgs(prev, next, NrEq);
    var mallocs := 0;
    for eq := 0 to NrEq
      invariant dsp.Valid()
      invariant dsp.sent == old(dsp.sent) + ItemMsgs(prev, next, eq)
      invariant mallocs == |ItemMsgs(prev, next, eq)| <= allocs
    {
      var before := mallocs;
      mallocs, err := SendGroup(dsp, devIdx, prev, next, eq, masks[eq], allocs, mallocs);
      ItemsStep(old(dsp.sent), prev, next, eq, before, mallocs, allocs, err == ErrorOk);
      if err != ErrorOk {
        return;
      }
    }
    assert msgs[..|msgs|] == msgs;
    err := ErrorOk;
  }

  /** One turn of the second loop, on values: either the whole group went
      out, or a `malloc` failed and the messages sent are the first
      `allocs` of the branch. */
  lemma ItemsStep(sent: seq<seq<byte>>, prev: seq<byte>, next: seq<byte>, eq: nat, before: nat, mallocs: nat, allocs: nat, ok: bool)
    requires Table(prev) && Table(next) && eq < NrEq
    requires before == |ItemMsgs(prev, next, eq)| <= allocs
    requires mallocs == before + Min(allocs - before, |GroupMsgs(prev, next, eq)|)
    requires ok == (allocs - before >= |GroupMsgs(prev, next, eq)|)
    ensures var after := (sent + ItemMsgs(prev, next, eq)) + GroupMsgs(prev, next, eq)[..mallocs - before];
      var msgs := ItemMsgs(prev, next, NrEq);
      && (ok ==> after == sent + ItemMsgs(prev, next, eq + 1) && mallocs == |ItemMsgs(prev, next, eq + 1)| <= allocs)
      && (!ok ==> after == sent + msgs[..Min(allocs, |msgs|)] && allocs < |msgs|)
  {
    ItemsSent(sent, prev, next, eq, mallocs - before);
  }

  /** What the itemised branch has sent after the first `k` messages of
      group `eq`: a prefix of all its messages, which is all of the first
      `eq + 1` groups' messages once `k` reaches the end of the group. */
  lemma ItemsSent(sent: seq<seq<byte>>, prev: seq<byte>, next: seq<byte>, eq: nat, k: nat)
    requires Table(prev) && Table(next) && eq < NrEq && k <= |GroupMsgs(prev, next, eq)|
    ensures var done, group, msgs := ItemMsgs(prev, next, eq), GroupMsgs(prev, next, eq), ItemMsgs(prev, next, NrEq);
      && |done| + |group| <= |msgs|
      && (sent + done) + group[..k] == sent + msgs[..|done| + k]
      && (k == |group| ==> (sent + done) + group[..k] == sent + ItemMsgs(prev, next, eq + 1) && |ItemMsgs(prev, next, eq + 1)| == |done| + k)
  {
    var done, group, msgs := ItemMsgs(prev, next, eq), GroupMsgs(prev, next, eq), ItemMsgs(prev, next, NrEq);
    ItemMsgsPrefix(prev, next, eq + 1);
    PrefixTake(done, group, msgs, k);
    AppendAssoc(sent, done, group[..k]);
    assert group[..|group|] == group;
  }

  /** `dsp_partial_coefficients`: send the filter table `next` to a filter
      bank that holds `prev`, whole or group by group, whichever costs less.
      Each message first takes a `malloc`: `allocs` is how many of them
      succeed, and the first that fails ends the call with
      `TFA98XX_ERROR_FAIL`. */
  method PartialCoefficients(dsp: Dsp, devIdx: int, prev: seq<byte>, next: seq<byte>, allocs: nat)
    returns (err: Tfa98xxError)
    requires dsp.Valid() && Table(prev) && Table(next)
    modifies dsp, dsp.out32
    ensures dsp.Valid()
    ensures var msgs := CoeffMessages(prev, next); var k := Min(allocs, |msgs|);
      && dsp.sent == old(dsp.sent) + msgs[..k]
      && err == (if allocs >= |msgs| then ErrorOk else ErrorFail)
  {
    EqLayout();
    var masks, newCost := CostMasks(prev, next);
    if newCost >= OldCost {
      if allocs == 0 {
        AppendNil(dsp.sent);
        return ErrorFail;
      }
      var buffer := CoeffCmd + next[..AllCoeffSize];
      MsgSendable(buffer);
      err := dsp.DspMsg(devIdx, buffer, |buffer|);
      assert buffer[..|buffer|] == buffer && [buffer][..1] == [buffer];
    } else {
      err := SendItems(dsp, devIdx, prev, next, masks[..], allocs);
    }
  }
}

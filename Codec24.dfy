/** The DSP's 24-bit wire words: `tfa_msg24to32` unpacks big-endian 3-byte
    words into sign-extended 32-bit integers, and `create_dsp_buffer_msg`
    packs a `struct tfa_msg` into such words. */
module Codec24 {
  import opened Types
  import opened Bytes

  const Two24 := 0x100_0000

  /** `((int32_t)tmp << 8) >> 8`: bit 23 becomes the sign. */
  function SignExtend24(t: int): (v: int)
    requires 0 <= t < Two24
    ensures -0x80_0000 <= v < 0x80_0000
    ensures v % Two24 == t
  {
    if t < 0x80_0000 then t else t - Two24
  }

  /** Sign extension is the inverse of taking a value modulo `2^24`. */
  lemma SignExtendOfMod(d: int)
    ensures SignExtend24(d % Two24) % Two24 == d % Two24
    ensures -0x80_0000 <= d < 0x80_0000 ==> SignExtend24(d % Two24) == d
  {
  }

  /** Number of words `tfa_msg24to32` writes for `length` bytes: its loop
      runs while `length > 0`, three bytes at a time. */
  function WordCount(length: int): (n: nat)
    ensures length >= 0 ==> 3 * n >= length && 3 * n < length + 3
  {
    if length <= 0 then 0 else (length + 2) / 3
  }

  /** The first `n` 24-bit words of `s`, sign-extended. */
  function Words24To32(s: seq<byte>, n: nat): (ws: seq<int>)
    requires 3 * n <= |s|
    ensures |ws| == n
    ensures forall k :: 0 <= k < n ==> ws[k] == SignExtend24(U24BE(s, 3 * k))
  {
    seq(n, k requires 0 <= k < n => SignExtend24(U24BE(s, 3 * k)))
  }

  /** `tfa_msg24to32`: unpack `length` bytes of `in24` into `out32` and
      return the size in bytes of the 32-bit message, `(length / 3) * 4`. */
  method Msg24To32(out32: array<int>, in24: seq<byte>, length: int) returns (buf32Len: int)
    requires 0 <= length && 3 * WordCount(length) <= |in24| && WordCount(length) <= out32.Length
    modifies out32
    ensures buf32Len == (length / 3) * 4
    ensures out32[..WordCount(length)] == Words24To32(in24, WordCount(length))
    ensures out32[WordCount(length)..] == old(out32[WordCount(length)..])
  {
    var i, cmdIndex := 0, 0;
    var remaining := length;
    buf32Len := (length / 3) * 4;
    while remaining > 0
      invariant i == 3 * cmdIndex && remaining == length - i
      invariant 0 <= cmdIndex <= WordCount(length)
      invariant remaining > 0 ==> cmdIndex < WordCount(length)
      invariant forall k :: 0 <= k < cmdIndex ==> out32[k] == SignExtend24(U24BE(in24, 3 * k))
      invariant out32[WordCount(length)..] == old(out32[WordCount(length)..])
    {
      var tmp := U24BE(in24, i);
      out32[cmdIndex] := SignExtend24(tmp);
      cmdIndex := cmdIndex + 1;
      i := i + 3;
      remaining := remaining - 3;
    }
    assert cmdIndex == WordCount(length);
  }

  /** The three bytes `create_dsp_buffer_msg` writes for one data word:
      `(d >> 16) & 0xff`, `(d >> 8) & 0xff`, `d & 0xff`, with an arithmetic
      shift. */
  function WordBytes(d: int): (b: seq<byte>)
    ensures |b| == 3
  {
    [((d / 0x1_0000) % 0x100) as byte, ((d / 0x100) % 0x100) as byte, (d % 0x100) as byte]
  }

  /** The three bytes of a word read back big-endian are the word modulo `2^24`. */
  lemma WordBytesValue(d: int)
    ensures U24BE(WordBytes(d), 0) == d % Two24
  {
    var q1, r1 := d / 0x100, d % 0x100;
    var q2, r2 := q1 / 0x100, q1 % 0x100;
    var r3 := q2 % 0x100;
    assert d == 0x100 * q1 + r1;
    assert q1 == 0x100 * q2 + r2;
    assert d / 0x1_0000 == q2;
    assert d == 0x1_0000 * q2 + 0x100 * r2 + r1;
    assert q2 == 0x100 * (q2 / 0x100) + r3;
    assert d == Two24 * (q2 / 0x100) + (0x1_0000 * r3 + 0x100 * r2 + r1);
  }

  /** The bytes of a sequence of words, three per word. */
  function PackWords(ws: seq<int>): (b: seq<byte>)
    ensures |b| == 3 * |ws|
  {
    if ws == [] then [] else PackWords(ws[..|ws| - 1]) + WordBytes(ws[|ws| - 1])
  }

  lemma {:induction false} PackWordsAt(ws: seq<int>, j: nat)
    requires j < |ws|
    ensures PackWords(ws)[3 * j .. 3 * j + 3] == WordBytes(ws[j])
  {
    var init := ws[..|ws| - 1];
    if j < |ws| - 1 {
      PackWordsAt(init, j);
      assert PackWords(ws)[3 * j .. 3 * j + 3] == PackWords(init)[3 * j .. 3 * j + 3];
      assert init[j] == ws[j];
    }
  }

  /** Unpacking packed words gives back every word modulo `2^24`, sign
      extended. */
  lemma PackUnpack(ws: seq<int>)
    ensures forall j :: 0 <= j < |ws| ==>
      Words24To32(PackWords(ws), |ws|)[j] == SignExtend24(ws[j] % Two24)
  {
    forall j | 0 <= j < |ws|
      ensures Words24To32(PackWords(ws), |ws|)[j] == SignExtend24(ws[j] % Two24)
    {
      PackUnpackAt(ws, j);
    }
  }

  /** Words that fit in 24 signed bits come back exactly. */
  lemma PackUnpackExact(ws: seq<int>)
    requires forall j :: 0 <= j < |ws| ==> -0x80_0000 <= ws[j] < 0x80_0000
    ensures Words24To32(PackWords(ws), |ws|) == ws
  {
    forall j | 0 <= j < |ws|
      ensures Words24To32(PackWords(ws), |ws|)[j] == ws[j]
    {
      PackUnpackAt(ws, j);
      SignExtendOfMod(ws[j]);
    }
  }

  /** Word `j` of packed words reads back as that word modulo `2^24`. */
  lemma PackUnpackAt(ws: seq<int>, j: nat)
    requires j < |ws|
    ensures U24BE(PackWords(ws), 3 * j) == ws[j] % Two24
    ensures Words24To32(PackWords(ws), |ws|)[j] == SignExtend24(ws[j] % Two24)
  {
    PackWordsAt(ws, j);
    WordBytesValue(ws[j]);
    U24Slice(PackWords(ws), 3 * j);
  }

  /** A `struct tfa_msg` at offset `t` of the container: `msg_size` @0,
      `cmd_id[3]` @1 and little-endian `int` data words from @4. The data
      is read for `msg_size` words, as far as the container goes. */
  predicate TfaMsgFits(s: seq<byte>, t: nat)
  {
    t < |s| && t + 4 + 4 * s[t] as nat <= |s|
  }

  function TfaMsgData(s: seq<byte>, t: nat): (ws: seq<int>)
    requires TfaMsgFits(s, t)
    ensures |ws| == s[t] as nat
    ensures forall j :: 0 <= j < |ws| ==>
      && -0x8000_0000 <= ws[j] < 0x8000_0000
      && ws[j] % 0x1_0000_0000 == s[t + 4 + 4 * j] as int + 0x100 * s[t + 5 + 4 * j] as int
           + 0x1_0000 * s[t + 6 + 4 * j] as int + 0x100_0000 * s[t + 7 + 4 * j] as int
  {
    seq(s[t] as nat, j requires 0 <= j < s[t] as nat => S32LE(s, t + 4 + 4 * j))
  }

  /** The DSP buffer for the message at `t`: the command id reversed, then
      the data words packed. */
  function DspBufferBytes(s: seq<byte>, t: nat): (b: seq<byte>)
    requires TfaMsgFits(s, t)
    ensures |b| == 3 + 3 * s[t] as nat
  {
    [s[t + 3], s[t + 2], s[t + 1]] + PackWords(TfaMsgData(s, t))
  }

  /** `create_dsp_buffer_msg`: fill `buffer` with the DSP buffer of the
      message at `t` and return its size. */
  method CreateDspBufferMsg(s: seq<byte>, t: nat, buffer: array<byte>) returns (size: int)
    requires TfaMsgFits(s, t) && 3 + 3 * s[t] as nat <= buffer.Length
    modifies buffer
    ensures size == 3 + 3 * s[t] as nat
    ensures buffer[..size] == DspBufferBytes(s, t)
    ensures buffer[size..] == old(buffer[size..])
  {
    ghost var target := DspBufferBytes(s, t);
    buffer[0] := s[t + 3];
    buffer[1] := s[t + 2];
    buffer[2] := s[t + 1];
    var i, j := 3, 0;
    while i < 3 + s[t] as nat * 3
      invariant 0 <= j <= s[t] as nat && i == 3 + 3 * j
      invariant forall k :: 0 <= k < i ==> buffer[k] == target[k]
      invariant buffer[3 + 3 * s[t] as nat..] == old(buffer[3 + 3 * s[t] as nat..])
    {
      var w := WordBytes(S32LE(s, t + 4 + 4 * j));
      DspBufferWord(s, t, j);
      buffer[i] := w[0];
      buffer[i + 1] := w[1];
      buffer[i + 2] := w[2];
      j := j + 1;
      i := i + 3;
    }
    size := 3 + s[t] as nat * 3;
    assert buffer[..size] == target;
  }

  /** Data word `j` of a message sits at bytes `3 + 3 * j ..` of its DSP
      buffer. */
  lemma DspBufferWord(s: seq<byte>, t: nat, j: nat)
    requires TfaMsgFits(s, t) && j < s[t] as nat
    ensures DspBufferBytes(s, t)[3 + 3 * j .. 3 + 3 * j + 3] == WordBytes(S32LE(s, t + 4 + 4 * j))
  {
    var data := TfaMsgData(s, t);
    PackWordsAt(data, j);
    AppendParts([s[t + 3], s[t + 2], s[t + 1]], PackWords(data));
    assert DspBufferBytes(s, t)[3 + 3 * j .. 3 + 3 * j + 3] == PackWords(data)[3 * j .. 3 * j + 3];
  }

  /** A packed `struct tfa_msg` unpacks to its command word followed by its
      data words, each taken modulo `2^24` and sign-extended. */
  lemma DspBufferUnpacks(s: seq<byte>, t: nat)
    requires TfaMsgFits(s, t)
    ensures Words24To32(DspBufferBytes(s, t), 1 + s[t] as nat)[0] ==
      SignExtend24(0x1_0000 * s[t + 3] as int + 0x100 * s[t + 2] as int + s[t + 1] as int)
    ensures forall j :: 0 <= j < s[t] as nat ==>
      Words24To32(DspBufferBytes(s, t), 1 + s[t] as nat)[1 + j] == SignExtend24(S32LE(s, t + 4 + 4 * j) % Two24)
  {
    var b := DspBufferBytes(s, t);
    U24Slice(b, 0);
    forall j | 0 <= j < s[t] as nat
      ensures Words24To32(b, 1 + s[t] as nat)[1 + j] == SignExtend24(S32LE(s, t + 4 + 4 * j) % Two24)
    {
      DspBufferWord(s, t, j);
      U24Slice(b, 3 + 3 * j);
      WordBytesValue(S32LE(s, t + 4 + 4 * j));
    }
  }
}

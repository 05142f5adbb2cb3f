/** `dsp_msg`, the one way a message leaves the tool. Each call unpacks the
    message into the 32-bit output buffer `g_out32buf`, appends it to the
    generated command file and counts it in `cmd_count`. The model keeps
    the bytes of every message in `sent`, in order: that log is what the
    rest of the model is specified against. */
module Transport {
  import opened Types
  import opened Codec24

  /** Entries of `g_out32buf`. */
  const Out32Words := 512

  class Dsp {
    const out32: array<int>   // g_out32buf
    var cmdCount: int         // cmd_count, a uint8_t
    var sent: seq<seq<byte>>  // every message sent, oldest first

    /** `cmd_count` starts at 1 and counts every message, modulo 256. */
    ghost predicate Valid()
      reads this
    {
      out32.Length == Out32Words && cmdCount == (1 + |sent|) % 0x100
    }

    /** The initial state: an all-zero output buffer, `cmd_count` 1 and
        nothing sent. */
    constructor ()
      ensures Valid() && cmdCount == 1 && sent == []
      ensures fresh(out32) && out32[..] == seq(Out32Words, _ => 0)
    {
      out32 := new int[Out32Words](_ => 0);
      cmdCount := 1;
      sent := [];
    }

    /** A message of `size` bytes read from `buffer` can be unpacked into
        `g_out32buf`: the unpacking reads whole words. */
    static predicate Sendable(buffer: seq<byte>, size: int)
    {
      0 <= size && 3 * WordCount(size) <= |buffer| && WordCount(size) <= Out32Words
    }

    /** `dsp_msg`: send the first `size` bytes of `buffer`. It never fails. */
    method DspMsg(devIdx: int, buffer: seq<byte>, size: int) returns (err: Tfa98xxError)
      requires Valid() && Sendable(buffer, size)
      modifies this, out32
      ensures Valid() && err == ErrorOk
      ensures sent == old(sent) + [buffer[..size]]
      ensures cmdCount == (old(cmdCount) + 1) % 0x100
      ensures out32[..WordCount(size)] == Words24To32(buffer, WordCount(size))
      ensures out32[WordCount(size)..] == old(out32[WordCount(size)..])
    {
      var length32 := Msg24To32(out32, buffer, size);
      sent := sent + [buffer[..size]];
      cmdCount := (cmdCount + 1) % 0x100;
      err := ErrorOk;
    }
  }
}

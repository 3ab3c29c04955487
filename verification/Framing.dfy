/** The pipe between a command and its caller (`kbexec.c`): output, a NUL and the exit code, written
    by the child, collected by the parent in a buffer that grows. */
module Framing {

  type Byte = b: int | 0 <= b < 256

  const INT_SIZE := 4

  // The values of a C int.
  type Int32 = n: int | -0x8000_0000 <= n < 0x8000_0000

  // ---------- The frame ----------

  // The bytes of an int in memory, least significant first, in two's complement.
  function EncodeInt(n: Int32): (b: seq<Byte>)
    ensures |b| == INT_SIZE
  {
    var u := n % 0x1_0000_0000;
    [u % 0x100, u / 0x100 % 0x100, u / 0x1_0000 % 0x100, u / 0x100_0000]
  }

  function DecodeInt(b: seq<Byte>): Int32
    requires |b| == INT_SIZE
  {
    var u := b[0] as int + 0x100 * (b[1] as int) + 0x1_0000 * (b[2] as int) + 0x100_0000 * (b[3] as int);
    if u < 0x8000_0000 then u else u - 0x1_0000_0000
  }

  lemma IntRoundTrip(n: Int32)
    ensures DecodeInt(EncodeInt(n)) == n
  {
    var u := n % 0x1_0000_0000;
    assert u == u % 0x100 + 0x100 * (u / 0x100);
    assert u / 0x100 == u / 0x100 % 0x100 + 0x100 * (u / 0x1_0000);
    assert u / 0x1_0000 == u / 0x1_0000 % 0x100 + 0x100 * (u / 0x100_0000);
  }

  function Frame(output: seq<Byte>, rc: Int32): seq<Byte> {
    output + [0] + EncodeInt(rc)
  }

  // What the parent makes of all that it received.
  function OutputOf(received: seq<Byte>): seq<Byte>
    requires |received| > INT_SIZE
  {
    received[..|received| - INT_SIZE - 1]
  }

  function CodeOf(received: seq<Byte>): Int32
    requires |received| > INT_SIZE
  {
    DecodeInt(received[|received| - INT_SIZE..])
  }

  /** Whatever bytes the command wrote, NULs included, the frame gives them and the code back. */
  lemma FrameRoundTrip(output: seq<Byte>, rc: Int32)
    ensures var f := Frame(output, rc);
            |f| == |output| + INT_SIZE + 1 && OutputOf(f) == output && CodeOf(f) == rc && f[|output|] == 0
  {
    var f := Frame(output, rc);
    assert f[|f| - INT_SIZE..] == EncodeInt(rc);
    IntRoundTrip(rc);
  }

  // ---------- The child ----------

  const CHUNK := 32

  // The end of spawn_child: the command's output is copied in pieces to the pipe.
  method WriteFrame(output: seq<Byte>, rc: Int32) returns (pipe: seq<Byte>)
    ensures pipe == Frame(output, rc)
  {
    pipe := [];
    var pos := 0;
    while pos < |output|
      invariant pos <= |output| && pipe == output[..pos]
    {
      var nbytes := if |output| - pos < CHUNK then |output| - pos else CHUNK;
      pipe := pipe + output[pos..pos + nbytes];
      pos := pos + nbytes;
    }
    pipe := pipe + [0];
    pipe := pipe + EncodeInt(rc);
  }

  // ---------- The parent ----------

  function Concat(chunks: seq<seq<Byte>>): seq<Byte> {
    if chunks == [] then [] else Concat(chunks[..|chunks| - 1]) + chunks[|chunks| - 1]
  }

  function Pow2(k: nat): nat {
    if k == 0 then 1 else 2 * Pow2(k - 1)
  }

  // The buffer that the caller of kbexec_shell gets.
  class Buffer {
    var data: array<Byte>
    var len: nat

    constructor ()
      ensures len == 0 && data.Length == 0 && fresh(data)
    {
      data, len := new Byte[0], 0;
    }

    // resize_buffer
    method Resize(index: nat) returns (moved: bool)
      requires len <= data.Length <= len + 2
      modifies this
      ensures len <= data.Length <= len + 2 && index + 2 < len && old(data.Length) <= data.Length
      ensures moved == (index + 2 >= old(len))
      ensures if moved then len == 2 * (index + 2) && data.Length == len + 2 && fresh(data)
              else len == old(len) && data == old(data)
      ensures data[..old(data.Length)] == old(data[..])
    {
      var needed := index + 2;
      if needed < len {
        return false;
      }
      var newsize := needed * 2;
      var src, bytes := data, new Byte[newsize + 2];
      for i := 0 to src.Length
        invariant bytes[..i] == src[..i]
      {
        bytes[i] := src[i];
      }
      data, len := bytes, newsize;
      return true;
    }

    // memcpy (&data[index], buf, nbytes), and the NUL after it
    method Write(index: nat, buf: seq<Byte>)
      requires index + |buf| < data.Length
      modifies data
      ensures data[..index] == old(data[..index]) && data[index..index + |buf|] == buf && data[index + |buf|] == 0
    {
      for i := 0 to |buf|
        invariant data[..index] == old(data[..index]) && data[index..index + i] == buf[..i]
      {
        data[index + i] := buf[i];
      }
      data[index + |buf|] := 0;
      assert data[index..index + |buf|] == buf;
    }
  }

  // After k reallocations the length has doubled at least k - 1 times from 4 on.
  ghost predicate Grew(k: nat, len: nat, received: nat) {
    && k > 0 && Pow2(k + 1) <= len
    && (k == 1 ==> len == 4) && (k > 1 ==> len <= 2 * (received + 3))
  }

  lemma GrowsAgain(k: nat, len: nat, received: nat, nbytes: nat, len': nat)
    requires Grew(k, len, received)
    ensures len' == len ==> Grew(k, len', received + nbytes)
    ensures received + nbytes + 3 >= len && len' == 2 * (received + nbytes + 3) ==> Grew(k + 1, len', received + nbytes)
  {
  }

  lemma FewReallocations(k: nat, len: nat, received: nat)
    requires Grew(k, len, received)
    ensures Pow2(k) <= received + 3
  {
  }

  // A chunk is appended to what was received.
  method Collect(buf: Buffer, index: nat, chunk: seq<Byte>, ghost received: seq<Byte>, ghost k: nat)
    returns (index': nat, ghost k': nat)
    requires buf.len <= buf.data.Length <= buf.len + 2 && index == |received| < buf.data.Length
    requires buf.data[..index] == received && Grew(k, buf.len, index)
    modifies buf, buf.data
    ensures buf.data == old(buf.data) || fresh(buf.data)
    ensures buf.len <= buf.data.Length <= buf.len + 2 && index' == |received + chunk| < buf.data.Length
    ensures buf.data[..index'] == received + chunk && buf.data[index'] == 0 && Grew(k', buf.len, index')
  {
    hide Grew, Pow2;
    GrowsAgain(k, buf.len, index, |chunk|, buf.len);
    GrowsAgain(k, buf.len, index, |chunk|, 2 * (index + |chunk| + 3));
    var moved := buf.Resize(index + |chunk| + 1);
    k' := if moved then k + 1 else k;
    assert buf.data[..index] == received;
    buf.Write(index, chunk);
    index' := index + |chunk|;
    assert buf.data[..index'] == buf.data[..index] + buf.data[index..index'];
  }

  /** The parent's side of kbexec_shell, for a complete frame however the pipe cuts it: the exit
      code and the output come back, with a NUL at the reported length. Every index is in bounds,
      and `k` reallocations are at most logarithmic in the number of bytes. */
  method ReadFrame(chunks: seq<seq<Byte>>, ghost output: seq<Byte>, ghost rc: Int32)
    returns (ret: Int32, data: array<Byte>, dstlen: nat, ghost k: nat)
    requires Concat(chunks) == Frame(output, rc)
    ensures ret == rc && dstlen == |output| < data.Length && data[..dstlen] == output && data[dstlen] == 0
    ensures Pow2(k) <= |Frame(output, rc)| + 3
  {
    hide Frame, Grew, Pow2;
    var buf := new Buffer();
    var moved := buf.Resize(0);
    buf.data[0] := 0;
    k := 1;
    FirstGrowth();
    var index := 0;
    assert chunks[..|chunks|] == chunks;
    for i := 0 to |chunks|
      invariant fresh(buf) && fresh(buf.data)
      invariant buf.len <= buf.data.Length <= buf.len + 2 && index == |Concat(chunks[..i])| < buf.data.Length
      invariant buf.data[..index] == Concat(chunks[..i]) && Grew(k, buf.len, index)
    {
      assert chunks[..i + 1][..i] == chunks[..i];
      index, k := Collect(buf, index, chunks[i], Concat(chunks[..i]), k);
    }
    FewReallocations(k, buf.len, index);
    FrameRoundTrip(output, rc);
    data := buf.data;
    ghost var received := Concat(chunks);
    index := index - INT_SIZE;
    assert data[index..index + INT_SIZE] == received[index..];
    ret := DecodeInt(data[index..index + INT_SIZE]);
    dstlen := index - 1;
    assert data[..dstlen] == received[..dstlen] && data[dstlen] == received[dstlen];
  }

  lemma FirstGrowth()
    ensures Grew(1, 4, 0)
  {
  }
}

/** Satisfiability.Challenge's `Solution` and its binary layout: a `BinaryWriter` writes
    the input's length as a little-endian 32-bit integer, one byte per boolean, the length
    of the state-update trace as a 32-bit integer and then the trace's raw bytes; `Read`
    reverses this through a `BinaryReader`. */
module ProofCodec {
  import opened Common

  type byte = x: int | 0 <= x < 256

  /** A `Solution`: the proposed assignment and the recorded trace of emitted values. */
  datatype Solution = Solution(input: seq<bool>, stateUpdates: seq<byte>)

  // ---- The byte-level formats of BinaryWriter / BinaryReader ----

  /** `BinaryReader.ReadInt32` on four bytes: little-endian two's complement. */
  function Int32FromBytes(b: seq<byte>): (x: int32)
    requires |b| == 4
  {
    var u: int := b[0] as int + 256 * (b[1] as int) + 65536 * (b[2] as int) + 16777216 * (b[3] as int);
    if u <= INT32_MAX then u else u - TWO_POW_32
  }

  /** `BinaryWriter.Write(int)`: four bytes, least significant first, of the value's
      two's complement. Reading them back gives the value. */
  function Int32Bytes(x: int32): (b: seq<byte>)
    ensures |b| == 4
    ensures Int32FromBytes(b) == x
  {
    var u: int := if x < 0 then x + TWO_POW_32 else x;
    var b0 := u % 256;
    var q1 := u / 256;
    var b1 := q1 % 256;
    var q2 := q1 / 256;
    var b2 := q2 % 256;
    var b3 := q2 / 256;
    assert u == b0 + 256 * q1 && q1 == b1 + 256 * q2 && q2 == b2 + 256 * b3;
    assert u == b0 + 256 * b1 + 65536 * b2 + 16777216 * b3;
    assert b3 < 256;
    [b0, b1, b2, b3]
  }

  /** `BinaryWriter.Write(bool)`: one byte, 1 for true and 0 for false. */
  function BoolByte(v: bool): byte
  {
    if v then 1 else 0
  }

  /** One byte per boolean. */
  function BoolBytes(vs: seq<bool>): (b: seq<byte>)
    ensures |b| == |vs|
    ensures forall k :: 0 <= k < |vs| ==> (b[k] != 0 <==> vs[k])
  {
    seq(|vs|, k requires 0 <= k < |vs| => BoolByte(vs[k]))
  }

  /** `Solution.Write`: count, booleans, trace length, trace bytes. */
  function Encode(s: Solution): (b: seq<byte>)
    requires |s.input| <= INT32_MAX && |s.stateUpdates| <= INT32_MAX
    ensures |b| == 8 + |s.input| + |s.stateUpdates|
  {
    Int32Bytes(|s.input|) + BoolBytes(s.input) + Int32Bytes(|s.stateUpdates|) + s.stateUpdates
  }

  /** `ReadInt32` at `pos`: an end-of-stream error when fewer than four bytes are left. */
  function Int32At(data: seq<byte>, pos: nat): (r: Result<int32, Error>)
    ensures r.Err? <==> pos + 4 > |data|
    ensures r.Err? ==> r.error == EndOfStream
  {
    if pos + 4 > |data| then Err(EndOfStream) else Ok(Int32FromBytes(data[pos..pos + 4]))
  }

  /** `count` calls of `ReadBoolean` from `pos`: a byte is true when it is not zero, and an
      end-of-stream error when the bytes run out. */
  function BoolsAt(data: seq<byte>, pos: nat, count: nat): (r: Result<seq<bool>, Error>)
    ensures r.Err? <==> pos + count > |data|
    ensures r.Err? ==> r.error == EndOfStream
    ensures r.Ok? ==> |r.value| == count && forall k :: 0 <= k < count ==> (r.value[k] <==> data[pos + k] != 0)
  {
    if pos + count > |data| then Err(EndOfStream)
    else Ok(seq(count, k requires 0 <= k < count => data[pos + k] != 0))
  }

  /** `ReadBytes(count)`: a negative count is an argument error; otherwise as many of the
      `count` bytes as the stream still holds, which at the end of the stream is fewer. */
  function BytesAt(data: seq<byte>, pos: nat, count: int32): (r: Result<seq<byte>, Error>)
    requires pos <= |data|
    ensures r.Err? <==> count < 0
    ensures r.Err? ==> r.error == ArgumentOutOfRange
    ensures r.Ok? ==> r.value <= data[pos..] && (|r.value| == count || r.value == data[pos..])
  {
    if count < 0 then Err(ArgumentOutOfRange)
    else if pos + count <= |data| then Ok(data[pos..pos + count])
    else Ok(data[pos..])
  }

  /** `Solution.Read` from position `pos`: the decoded solution and the position after it.
      A negative count reads no boolean at all. */
  function Decode(data: seq<byte>, pos: nat): (r: Result<(Solution, nat), Error>)
    requires pos <= |data|
    ensures pos + 4 > |data| ==> r == Err(EndOfStream)
    ensures r.Ok? ==> r.value.1 == pos + 8 + |r.value.0.input| + |r.value.0.stateUpdates| <= |data|
  {
    match Int32At(data, pos)
    case Err(e) => Err(e)
    case Ok(count) =>
      var n: nat := if count < 0 then 0 else count;
      match BoolsAt(data, pos + 4, n)
      case Err(e) => Err(e)
      case Ok(input) =>
        match Int32At(data, pos + 4 + n)
        case Err(e) => Err(e)
        case Ok(length) =>
          match BytesAt(data, pos + 8 + n, length)
          case Err(e) => Err(e)
          case Ok(updates) => Ok((Solution(input, updates), pos + 8 + n + |updates|))
  }

  /** The fields of a written solution followed by any `tail` of bytes: the count, the
      booleans, the trace length, and the tail, each where `Read` looks for it. */
  lemma Fields(input: seq<bool>, m: int32, tail: seq<byte>)
    requires |input| <= INT32_MAX
    ensures var n := |input|;
      var data := Int32Bytes(n) + BoolBytes(input) + Int32Bytes(m) + tail;
      && |data| == 8 + n + |tail|
      && Int32At(data, 0) == Ok(n)
      && BoolsAt(data, 4, n) == Ok(input)
      && Int32At(data, 4 + n) == Ok(m)
      && data[8 + n..] == tail
  {
    var n := |input|;
    var data := Int32Bytes(n) + BoolBytes(input) + Int32Bytes(m) + tail;
    assert data[0..4] == Int32Bytes(n);
    var bools := BoolsAt(data, 4, n);
    assert bools.value == input by {
      forall k | 0 <= k < n
        ensures bools.value[k] == input[k]
      {
        assert data[4 + k] == BoolBytes(input)[k];
      }
    }
    assert data[4 + n..8 + n] == Int32Bytes(m);
    assert data[8 + n..] == tail;
  }

  /** `Read` on the fields of a solution followed by `tail`: the booleans come back, and
      the trace is the first `m` bytes of the tail, or all of it when it is shorter. */
  lemma DecodeFields(input: seq<bool>, m: int32, tail: seq<byte>)
    requires |input| <= INT32_MAX && 0 <= m
    ensures var data := Int32Bytes(|input|) + BoolBytes(input) + Int32Bytes(m) + tail;
      var trace := if m <= |tail| then tail[..m] else tail;
      Decode(data, 0) == Ok((Solution(input, trace), 8 + |input| + |trace|))
  {
    var n := |input|;
    var data := Int32Bytes(n) + BoolBytes(input) + Int32Bytes(m) + tail;
    Fields(input, m, tail);
    if m <= |tail| {
      assert data[8 + n..8 + n + m] == tail[..m];
      assert BytesAt(data, 8 + n, m) == Ok(tail[..m]);
    } else {
      assert BytesAt(data, 8 + n, m) == Ok(tail);
    }
  }

  /** Reading back what `Write` wrote gives the same input and the same trace, and stops
      right after the encoding, whatever follows it. */
  lemma DecodeEncode(s: Solution, rest: seq<byte>)
    requires |s.input| <= INT32_MAX && |s.stateUpdates| <= INT32_MAX
    ensures Decode(Encode(s) + rest, 0) == Ok((s, |Encode(s)|))
  {
    var m := |s.stateUpdates|;
    var tail := s.stateUpdates + rest;
    assert Encode(s) + rest == Int32Bytes(|s.input|) + BoolBytes(s.input) + Int32Bytes(m) + tail;
    DecodeFields(s.input, m, tail);
    assert tail[..m] == s.stateUpdates;
  }

  /** The trace bytes are read with `ReadBytes`, which does not fail at the end of the
      stream: a solution whose trace was cut short still reads, with the shorter trace. */
  lemma DecodeTruncatedTrace(s: Solution, cut: nat)
    requires |s.input| <= INT32_MAX && |s.stateUpdates| <= INT32_MAX
    requires cut <= |s.stateUpdates|
    ensures var data := Encode(s)[..|Encode(s)| - cut];
      Decode(data, 0) == Ok((Solution(s.input, s.stateUpdates[..|s.stateUpdates| - cut]), |data|))
  {
    var m := |s.stateUpdates|;
    var kept := s.stateUpdates[..m - cut];
    var header := Int32Bytes(|s.input|) + BoolBytes(s.input) + Int32Bytes(m);
    var data := Encode(s)[..|Encode(s)| - cut];
    assert Encode(s) == header + s.stateUpdates;
    assert |Encode(s)| - cut == |header| + (m - cut);
    PrefixOfAppend(header, s.stateUpdates, m - cut);
    assert data == header + kept;
    DecodeFields(s.input, m, kept);
    assert m <= |kept| ==> kept[..m] == kept;
  }

  /** A prefix that cuts into the second part of a concatenation. */
  lemma PrefixOfAppend<T>(a: seq<T>, b: seq<T>, j: nat)
    requires j <= |b|
    ensures (a + b)[..|a| + j] == a + b[..j]
  {
  }

  /** A stream too short to hold the leading count is an end-of-stream error. */
  lemma DecodeShortStream(data: seq<byte>)
    requires |data| < 4
    ensures Decode(data, 0) == Err(EndOfStream)
  {
  }

  // ---- The streams ----

  /** A `BinaryWriter` over a `MemoryStream`: everything written so far. */
  class ByteWriter {
    var bytes: seq<byte>

    constructor ()
      ensures bytes == []
    {
      bytes := [];
    }

    method WriteInt32(x: int32)
      modifies this
      ensures bytes == old(bytes) + Int32Bytes(x)
    {
      bytes := bytes + Int32Bytes(x);
    }

    method WriteBool(v: bool)
      modifies this
      ensures bytes == old(bytes) + [BoolByte(v)]
    {
      bytes := bytes + [BoolByte(v)];
    }

    method WriteBytes(b: seq<byte>)
      modifies this
      ensures bytes == old(bytes) + b
    {
      bytes := bytes + b;
    }
  }

  /** A `BinaryReader` over a `MemoryStream`: the stream's bytes and its position. */
  class ByteReader {
    const data: seq<byte>
    var position: nat

    predicate Valid()
      reads this
    {
      position <= |data|
    }

    constructor (bytes: seq<byte>)
      ensures data == bytes && position == 0 && Valid()
    {
      data := bytes;
      position := 0;
    }

    method ReadInt32() returns (r: Result<int32, Error>)
      requires Valid()
      modifies this
      ensures Valid()
      ensures r == Int32At(data, old(position))
      ensures r.Ok? ==> position == old(position) + 4
    {
      if position + 4 > |data| {
        position := |data|;
        return Err(EndOfStream);
      }
      r := Ok(Int32FromBytes(data[position..position + 4]));
      position := position + 4;
    }

    method ReadBoolean() returns (r: Result<bool, Error>)
      requires Valid()
      modifies this
      ensures Valid()
      ensures old(position) < |data| ==> r == Ok(data[old(position)] != 0) && position == old(position) + 1
      ensures old(position) == |data| ==> r == Err(EndOfStream)
    {
      if position == |data| {
        return Err(EndOfStream);
      }
      r := Ok(data[position] != 0);
      position := position + 1;
    }

    method ReadBytes(count: int32) returns (r: Result<seq<byte>, Error>)
      requires Valid()
      modifies this
      ensures Valid()
      ensures r == BytesAt(data, old(position), count)
      ensures r.Ok? ==> position == old(position) + |r.value|
    {
      if count < 0 {
        return Err(ArgumentOutOfRange);
      }
      var end: nat := if position + count <= |data| then position + count else |data|;
      assert data[position..|data|] == data[position..];
      r := Ok(data[position..end]);
      position := end;
    }
  }

  /** `Solution.Write`. */
  method Write(s: Solution, writer: ByteWriter)
    requires |s.input| <= INT32_MAX && |s.stateUpdates| <= INT32_MAX
    modifies writer
    ensures writer.bytes == old(writer.bytes) + Encode(s)
  {
    writer.WriteInt32(|s.input|);
    for k := 0 to |s.input|
      invariant writer.bytes == old(writer.bytes) + Int32Bytes(|s.input|) + BoolBytes(s.input[..k])
    {
      assert BoolBytes(s.input[..k + 1]) == BoolBytes(s.input[..k]) + [BoolByte(s.input[k])];
      writer.WriteBool(s.input[k]);
    }
    assert s.input[..|s.input|] == s.input;
    writer.WriteInt32(|s.stateUpdates|);
    writer.WriteBytes(s.stateUpdates);
  }

  /** `Solution.Read`: the result and the reader's new position agree with `Decode`. */
  method Read(reader: ByteReader) returns (r: Result<Solution, Error>)
    requires reader.Valid()
    modifies reader
    ensures reader.Valid()
    ensures match Decode(reader.data, old(reader.position))
      case Ok((s, end)) => r == Ok(s) && reader.position == end
      case Err(e) => r == Err(e)
  {
    ghost var pos := reader.position;
    var input: seq<bool> := [];
    var numVariables := reader.ReadInt32();
    if numVariables.Err? {
      return Err(numVariables.error);
    }
    var count: int32 := numVariables.value;
    var i: int := 0;
    while i < count
      invariant reader.Valid()
      invariant 0 <= i && (count >= 0 ==> i <= count) && (count < 0 ==> i == 0)
      invariant pos + 4 + i <= |reader.data| && reader.position == pos + 4 + i
      invariant |input| == i
      invariant forall k :: 0 <= k < i ==> (input[k] <==> reader.data[pos + 4 + k] != 0)
    {
      var v := reader.ReadBoolean();
      if v.Err? {
        return Err(v.error);
      }
      input := input + [v.value];
      i := i + 1;
    }
    assert input == seq(i, k requires 0 <= k < i => reader.data[pos + 4 + k] != 0);
    assert BoolsAt(reader.data, pos + 4, i) == Ok(input);
    assert Int32At(reader.data, pos) == Ok(count);
    var length := reader.ReadInt32();
    if length.Err? {
      return Err(length.error);
    }
    var updates := reader.ReadBytes(length.value);
    if updates.Err? {
      return Err(updates.error);
    }
    r := Ok(Solution(input, updates.value));
  }
}

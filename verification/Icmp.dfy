/** The ICMP echo request as it is laid out and sealed in its byte buffer. */
module Icmp {

  import opened BB = ByteBuffer
  import opened CS = CheckSum
  import opened Shared

  const HEADER_SIZE := 8
  const ECHO_REQUEST: Byte := 8

  /** The eight bytes of the filler, as the host stores them. */
  function Filler(order: Order): (b: seq<Byte>)
    ensures |b| == 8
  {
    if order.Little? then [0x50, 0x49, 0x4E, 0x47, 0x50, 0x4F, 0x4E, 0x47]
    else [0x47, 0x4E, 0x4F, 0x50, 0x47, 0x4E, 0x49, 0x50]
  }

  function Fillers(order: Order, n: nat): (b: seq<Byte>)
    ensures |b| == 8 * n
  {
    if n == 0 then [] else Fillers(order, n - 1) + Filler(order)
  }

  function Nulls(n: nat): (b: seq<Byte>)
    ensures |b| == n
  {
    if n == 0 then [] else Nulls(n - 1) + [0x58]
  }

  class RawMessage {
    const buffer: BB.ByteBuffer
    const checksum: CS.CheckSum
    const order: Order
    var dataSize: int

    /** `_header`: the block that held the message when `sync` was last called.  A buffer that grows moves
        to another block and leaves it behind. */
    var header: array<Byte>

    ghost predicate Valid()
      reads this, buffer
    {
      buffer.Valid() && 16 <= buffer.size < 0x2_0000 && header.Length >= 17
    }

    /** The message as it is sent. */
    ghost function Message(): (bytes: seq<Byte>)
      reads this, buffer, buffer.buffer
      requires Valid()
    {
      buffer.buffer[..buffer.length]
    }

    constructor (order: Order, kind: Byte, id: nat, sequence: nat, msgSize: nat, code: Byte)
      requires 0 < msgSize < 65536 && id < 65536 && sequence < 65536
      ensures Valid() && this.order == order && dataSize == 0
      ensures buffer.size == RoundUp(msgSize) && buffer.length == msgSize
      ensures fresh(buffer) && fresh(buffer.buffer) && fresh(checksum)
    {
      this.buffer := new BB.ByteBuffer(msgSize);
      this.checksum := new CS.CheckSum();
      this.order := order;
      this.dataSize := 0;
      this.header := new Byte[17](_ => 0);
      new;
      UpdateHeader(kind, id, sequence, msgSize, code);
    }

    method StoreWord(at: nat, w: nat)
      requires at + 1 < header.Length && w < 65536
      modifies header
      ensures header[..] == Stored(order, old(header[..]), at, w)
    {
      var b := Bytes(order, w);
      header[at] := b[0];
      header[at + 1] := b[1];
    }

    /** The general `update`. */
    method UpdateHeader(kind: Byte, id: nat, sequence: nat, msgSize: nat, code: Byte)
      requires Valid() && id < 65536 && sequence < 65536 && msgSize < 65536
      modifies this`header, buffer, buffer.buffer
      ensures Valid() && header == buffer.buffer && (buffer.buffer == old(buffer.buffer) || fresh(buffer.buffer))
      ensures buffer.length == msgSize
      ensures buffer.size == if old(buffer.size) < msgSize then RoundUp(msgSize) else old(buffer.size)
      ensures buffer.buffer[..2] == [kind, code]
      ensures buffer.buffer[4..8] == Bytes(order, id) + Bytes(order, sequence)
      ensures old(buffer.size) >= msgSize ==> buffer.buffer[16..] == old(buffer.buffer[16..])
    {
      hide Bytes;
      if msgSize > buffer.size {
        var ok := buffer.Resize(msgSize);
      }
      header := buffer.buffer;
      header[0] := kind;
      header[1] := code;
      StoreWord(4, id);
      StoreWord(6, sequence);
      buffer.SetLength(msgSize);
    }

    /** `fillData` from the cursor on: `total` fillers, then `left` single bytes.  The block stays as long
        as the bytes end in front of its end. */
    method FillWords(total: nat)
      requires Valid() && buffer.pos + 8 * total < 65536
      requires buffer.pos + 8 * total <= buffer.size
      modifies buffer, buffer.buffer
      ensures Valid() && buffer.pos == old(buffer.pos) + 8 * total
      ensures buffer.length == if total > 0 then buffer.pos else old(buffer.length)
      ensures buffer.buffer[..buffer.pos] == old(buffer.buffer[..buffer.pos]) + Fillers(order, total)
      ensures if total > 0 && buffer.pos == old(buffer.size) then fresh(buffer.buffer)
              else buffer.buffer == old(buffer.buffer) && buffer.size == old(buffer.size)
    {
      hide Filler;
      ghost var head := buffer.buffer[..buffer.pos];
      for i := 0 to total
        invariant Valid() && buffer.pos == old(buffer.pos) + 8 * i
        invariant buffer.length == if i > 0 then buffer.pos else old(buffer.length)
        invariant buffer.buffer[..buffer.pos] == head + Fillers(order, i)
        invariant if i > 0 && buffer.pos == old(buffer.size) then fresh(buffer.buffer)
                  else buffer.buffer == old(buffer.buffer) && buffer.size == old(buffer.size)
      {
        var ok := buffer.WriteData(Filler(order));
        assert head + Fillers(order, i) + Filler(order) == head + Fillers(order, i + 1);
      }
    }

    method FillNulls(left: nat)
      requires Valid() && buffer.pos + left < 65536 && buffer.pos + left <= buffer.size
      modifies buffer, buffer.buffer
      ensures Valid() && buffer.pos == old(buffer.pos) + left
      ensures buffer.length == if left > 0 then buffer.pos else old(buffer.length)
      ensures buffer.buffer[..buffer.pos] == old(buffer.buffer[..buffer.pos]) + Nulls(left)
      ensures if left > 0 && buffer.pos == old(buffer.size) then fresh(buffer.buffer)
              else buffer.buffer == old(buffer.buffer) && buffer.size == old(buffer.size)
    {
      ghost var head := buffer.buffer[..buffer.pos];
      for i := 0 to left
        invariant Valid() && buffer.pos == old(buffer.pos) + i
        invariant buffer.length == if i > 0 then buffer.pos else old(buffer.length)
        invariant buffer.buffer[..buffer.pos] == head + Nulls(i)
        invariant if i > 0 && buffer.pos == old(buffer.size) then fresh(buffer.buffer)
                  else buffer.buffer == old(buffer.buffer) && buffer.size == old(buffer.size)
      {
        var ok := buffer.WriteData([0x58]);
        assert head + Nulls(i) + [0x58] == head + Nulls(i + 1);
      }
    }

    /** `fillData`: the filler behind the timestamp, unless `dataSize` says that it is there already.  It
        moves the message to another block exactly when the filler reaches the end of the buffer. */
    method FillData(size: nat)
      requires Valid() && size + 8 < 65536 && size + 8 <= buffer.size && buffer.length == size + 8
      modifies this`dataSize, buffer, buffer.buffer
      ensures Valid() && buffer.length == size + 8 && buffer.buffer[..16] == old(buffer.buffer[..16])
      ensures if Grows(old(dataSize), old(buffer.size), size) then fresh(buffer.buffer)
              else buffer.buffer == old(buffer.buffer)
      ensures dataSize == if old(dataSize) == size - 8 then old(dataSize) else (size - 8) % 65536
      ensures size >= 8 ==>
        Message()[16..] == if old(dataSize) == size - 8 then old(Message()[16..]) else Payload(order, size - 8)
    {
      hide Fillers, Nulls, Filler;
      var fill := size - 8;
      if dataSize != fill {
        var ok := buffer.SetPosition(HEADER_SIZE + 8);
        ghost var head := buffer.buffer[..16];
        if fill >= 0 {
          var total, left := fill / 8, fill % 8;
          FillWords(total);
          assert buffer.buffer[..buffer.pos][..16] == head;
          FillNulls(left);
          assert Message() == head + Payload(order, fill);
          assert buffer.buffer[..16] == Message()[..16] == head;
        }
        dataSize := fill % 65536;
      }
    }

    /** `doChecksum`: the value of the message goes to the checksum word of the block `header` names. */
    method DoChecksum()
      requires Valid() && buffer.length >= HEADER_SIZE
      modifies checksum, header
      ensures header[..] == Stored(order, old(header[..]), 2, Value16(Sum(order, old(Message()))))
      ensures header == buffer.buffer ==> Message() == Sealed(order, old(Message()))
      ensures header != buffer.buffer ==> Message() == old(Message())
    {
      hide Sum, Value16;
      ghost var b := Message();
      checksum.Clear();
      checksum.DoIpCheckSum(order, buffer.buffer, buffer.length);
      var v := checksum.DoValue16();
      ValueOfSigned(Sum(order, b));
      StoreWord(2, v);
      assert header == buffer.buffer ==> Message() == Stored(order, b, 2, v);
    }

    /** The fields of the echo request in front of its data, the checksum still zero. */
    method Prepare(id: nat, sequence: nat, size: nat, stamp: seq<Byte>)
      requires Valid() && id < 65536 && sequence < 65536 && size + HEADER_SIZE < 65536 && |stamp| == 8
      modifies this`header, buffer, buffer.buffer
      ensures Valid() && header == buffer.buffer && (buffer.buffer == old(buffer.buffer) || fresh(buffer.buffer))
      ensures buffer.length == size + HEADER_SIZE && buffer.size >= buffer.length
      ensures (buffer.size == size + HEADER_SIZE) <==> (old(buffer.size) == size + HEADER_SIZE)
      ensures buffer.buffer[..16] == Head(order, id, sequence, stamp)
      ensures old(buffer.size) >= size + HEADER_SIZE ==> buffer.buffer[16..] == old(buffer.buffer[16..])
    {
      hide Bytes;
      UpdateHeader(ECHO_REQUEST, id, sequence, size + HEADER_SIZE, 0);
      ghost var was := buffer.buffer[..];
      forall k | 0 <= k < 8 {
        header[8 + k] := stamp[k];
      }
      header[2] := 0;
      header[3] := 0;
      assert buffer.buffer[..2] == was[..2] && buffer.buffer[4..8] == was[4..8];
      assert buffer.buffer[..16]
          == buffer.buffer[..2] + buffer.buffer[2..4] + buffer.buffer[4..8] + buffer.buffer[8..16];
      assert buffer.buffer[8..16] == stamp;
      assert buffer.buffer[2..4] == [0, 0];
      assert buffer.buffer[16..] == was[16..];
    }

    /** The echo form of `update`; `stamp` is the timestamp as stored.  The message carries its checksum if
        and only if the filler has not moved it to another block; a message that moved keeps a zero checksum
        word, which is right only where the value happens to be zero. */
    method Update(id: nat, sequence: nat, size: nat, stamp: seq<Byte>)
      requires Valid() && id < 65536 && sequence < 65536 && size + HEADER_SIZE < 65536 && |stamp| == 8
      modifies this`dataSize, this`header, checksum, buffer, buffer.buffer
      ensures Valid() && |Message()| == HEADER_SIZE + size
      ensures
        var n := if size < 8 then HEADER_SIZE + size else 16;
        var plain := Head(order, id, sequence, stamp)[..n] + Message()[n..];
        var moved := Grows(old(dataSize), old(buffer.size), size);
        Message() == (if moved then plain else Sealed(order, plain))
        && (Value16(Sum(order, Message())) == 0 <==> !moved || Value16(Sum(order, plain)) == 0)
      ensures size >= 8 && old(dataSize) != size - 8 ==> Message()[16..] == Payload(order, size - 8)
      ensures size >= 8 && old(dataSize) == size - 8 && old(buffer.size) >= size + HEADER_SIZE ==>
        Message()[16..] == old(buffer.buffer[16..HEADER_SIZE + size])
    {
      hide Sum, Value16, Bytes, Payload, Stored, Head;
      ghost var tail := buffer.buffer[16..];
      ghost var moved := Grows(dataSize, buffer.size, size);
      Prepare(id, sequence, size, stamp);
      assert size >= 8 ==> Message()[16..] == buffer.buffer[16..][..size - 8];
      assert size >= 8 && old(buffer.size) >= size + HEADER_SIZE ==>
        tail[..size - 8] == old(buffer.buffer[16..HEADER_SIZE + size]);
      assert Grows(dataSize, buffer.size, size) == moved;
      ghost var n := if size < 8 then HEADER_SIZE + size else 16;
      ghost var head := Head(order, id, sequence, stamp);
      FillData(size);
      ghost var m := Message();
      assert m[..n] == head[..n] by {
        assert buffer.buffer[..16] == head;
        assert m[..n] == buffer.buffer[..16][..n];
      }
      assert m == m[..n] + m[n..];
      assert m[2] == head[2] && m[3] == head[3];
      DoChecksum();
      SealedKeeps(order, m);
      Verifies(order, m, 2);
      assert Message()[n..] == m[n..];
    }
  }

  /** The filler reaches the end of the buffer: it is written, there is some, and the message fills the
      buffer to the last byte. */
  predicate Grows(dataSize: int, bufferSize: nat, size: nat) {
    dataSize != size - 8 && size > 8 && bufferSize == size + HEADER_SIZE
  }

  /** The first 16 bytes of an echo request before its checksum is taken. */
  function Head(order: Order, id: nat, sequence: nat, stamp: seq<Byte>): (b: seq<Byte>)
    requires id < 65536 && sequence < 65536 && |stamp| == 8
    ensures |b| == 16 && b[2] == b[3] == 0
  {
    [ECHO_REQUEST, 0] + [0, 0] + (Bytes(order, id) + Bytes(order, sequence)) + stamp
  }

  function Payload(order: Order, n: nat): (b: seq<Byte>)
    ensures |b| == n
  {
    Fillers(order, n / 8) + Nulls(n % 8)
  }

  /** The data behind the timestamp: "PINGPONG" over and over as a little-endian host stores its two words, and
      an 'X' for each byte that is left. */
  lemma PayloadIs(order: Order, n: nat, i: nat)
    requires i < n
    ensures Payload(order, n)[i] as char ==
      if i >= n / 8 * 8 then 'X' else if order.Little? then "PINGPONG"[i % 8] else "GNOPGNIP"[i % 8]
  {
    hide Fillers, Nulls;
    if i < n / 8 * 8 {
      FillersAre(order, n / 8, i);
    } else {
      NullsAre(n % 8, i - n / 8 * 8);
    }
  }

  lemma {:induction false} FillersAre(order: Order, n: nat, i: nat)
    requires i < 8 * n
    ensures Fillers(order, n)[i] as char == if order.Little? then "PINGPONG"[i % 8] else "GNOPGNIP"[i % 8]
    decreases n
  {
    if i < 8 * (n - 1) {
      FillersAre(order, n - 1, i);
    } else {
      assert i % 8 == i - 8 * (n - 1);
    }
  }

  lemma {:induction false} NullsAre(n: nat, i: nat)
    requires i < n
    ensures Nulls(n)[i] as char == 'X'
    decreases n
  {
    if i < n - 1 {
      NullsAre(n - 1, i);
    }
  }

  /** A message with the value of its sum stored in the checksum word. */
  function Sealed(order: Order, b: seq<Byte>): (d: seq<Byte>)
    requires |b| >= HEADER_SIZE
    ensures |d| == |b|
  {
    Stored(order, b, 2, Value16(Sum(order, b)))
  }

  lemma SealedKeeps(order: Order, b: seq<Byte>)
    requires |b| >= HEADER_SIZE
    ensures Sealed(order, b)[..2] == b[..2] && Sealed(order, b)[4..] == b[4..]
  {
    hide Value16, Sum;
  }

  /** The value of the signed number is the value of the sum. */
  lemma ValueOfSigned(x: int)
    ensures Value16(Signed(x)) == Value16(x)
  {
    Adds(x, 0);
  }

  // ----- a request that misses its checksum ---------------------------------------------------------

  lemma {:induction false} FillerSum(order: Order, n: nat)
    ensures Sum(order, Fillers(order, n)) == 75580 * n
  {
    hide Sum, Filler;
    if n == 0 {
      NoSum(order);
    } else {
      FillerSum(order, n - 1);
      assert |Fillers(order, n - 1)| == 2 * (4 * (n - 1));
      CS.SumJoins(order, Fillers(order, n - 1), Filler(order));
      OneFiller(order);
    }
  }

  lemma NoSum(order: Order)
    ensures Sum(order, []) == 0
  {
  }

  lemma TwoSum(order: Order, a: Byte, b: Byte)
    ensures Sum(order, [a, b]) == Word(order, a, b)
  {
    assert [a, b][2..] == [];
  }

  lemma OneFiller(order: Order)
    ensures Sum(order, Filler(order)) == 75580
  {
    hide Sum;
    var f := Filler(order);
    assert f == [f[0], f[1]] + ([f[2], f[3]] + ([f[4], f[5]] + [f[6], f[7]]));
    CS.SumJoins(order, [f[0], f[1]], [f[2], f[3]] + ([f[4], f[5]] + [f[6], f[7]]));
    CS.SumJoins(order, [f[2], f[3]], [f[4], f[5]] + [f[6], f[7]]);
    CS.SumJoins(order, [f[4], f[5]], [f[6], f[7]]);
    TwoSum(order, f[0], f[1]);
    TwoSum(order, f[2], f[3]);
    TwoSum(order, f[4], f[5]);
    TwoSum(order, f[6], f[7]);
  }

  /** The word sum of the head of an echo request. */
  lemma HeadSum(order: Order, id: nat, sequence: nat, stamp: seq<Byte>)
    requires id < 65536 && sequence < 65536 && |stamp| == 8
    ensures Sum(order, Head(order, id, sequence, stamp))
         == Word(order, ECHO_REQUEST, 0) + id + sequence + Sum(order, stamp)
  {
    hide Sum, Word, Bytes;
    var a, b := Bytes(order, id), Bytes(order, sequence);
    assert Head(order, id, sequence, stamp) == [ECHO_REQUEST, 0] + ([0, 0] + (a + (b + stamp)));
    CS.SumJoins(order, [ECHO_REQUEST, 0], [0, 0] + (a + (b + stamp)));
    CS.SumJoins(order, [0, 0], a + (b + stamp));
    CS.SumJoins(order, a, b + stamp);
    CS.SumJoins(order, b, stamp);
    TwoSum(order, ECHO_REQUEST, 0);
    TwoSum(order, 0, 0);
    TwoSum(order, a[0], a[1]);
    TwoSum(order, b[0], b[1]);
    assert a == [a[0], a[1]] && b == [b[0], b[1]];
    assert Word(order, 0, 0) == 0 by { NoWord(order); }
  }

  lemma NoWord(order: Order)
    ensures Word(order, 0, 0) == 0
  {
  }

  /** Forty data bytes in the buffer of 48 that a request of 32 bytes is built with: the filler moves the
      message, and its zero checksum word is wrong. */
  lemma FortyBytesMiss(order: Order)
    ensures RoundUp(32) == 48 && Grows(0, 48, 40)
    ensures Value16(Sum(order, Head(order, 0, 0, [0, 0, 0, 0, 0, 0, 0, 0]) + Payload(order, 32))) != 0
  {
    hide Sum, Head, Fold, Residue, Fillers, Word;
    var stamp: seq<Byte> := [0, 0, 0, 0, 0, 0, 0, 0];
    HeadSum(order, 0, 0, stamp);
    NoStampSum(order);
    assert Nulls(0) == [] && Fillers(order, 4) + [] == Fillers(order, 4) == Payload(order, 32);
    FillerSum(order, 4);
    CS.SumJoins(order, Head(order, 0, 0, stamp), Fillers(order, 4));
    EchoWord(order);
    var s := Word(order, ECHO_REQUEST, 0) + 302320;
    assert Sum(order, Head(order, 0, 0, stamp) + Payload(order, 32)) == s;
    FoldIsResidue(s);
    ResidueOf(s, s - 4 * 65535, 4);
  }

  lemma EchoWord(order: Order)
    ensures Word(order, ECHO_REQUEST, 0) == if order.Little? then 8 else 2048
  {
  }

  lemma NoStampSum(order: Order)
    ensures Sum(order, [0, 0, 0, 0, 0, 0, 0, 0]) == 0
  {
    hide Sum;
    var z: seq<Byte> := [0, 0];
    CS.SumJoins(order, z, z);
    CS.SumJoins(order, z + z, z + z);
    TwoSum(order, 0, 0);
    NoWord(order);
    assert [0, 0, 0, 0, 0, 0, 0, 0] == (z + z) + (z + z);
  }

  /** The request object of the source's echo socket, updated with those forty bytes. */
  method MissedChecksum(order: Order) returns (message: seq<Byte>)
    ensures |message| == 48 && message[2] == message[3] == 0
    ensures Value16(Sum(order, message)) != 0
  {
    hide Sum, Value16, Head, Payload;
    FortyBytesMiss(order);
    var request := new RawMessage(order, ECHO_REQUEST, 0, 0, 32, 0);
    var stamp: seq<Byte> := [0, 0, 0, 0, 0, 0, 0, 0];
    request.Update(0, 0, 40, stamp);
    message := request.buffer.buffer[..request.buffer.length];
    assert message == request.Message();
    assert Head(order, 0, 0, stamp)[..16] == Head(order, 0, 0, stamp);
    assert message[16..] == Payload(order, 32);
  }
}

/** The growable byte buffer with one cursor that serves reading and writing in turn. */
module ByteBuffer {

  type Byte = x: int | 0 <= x < 256

  /** `ROUNDUP(n + 1, ROUNDVAL)`. */
  function RoundUp(n: nat): (r: nat)
    ensures r % 16 == 0 && n < r <= n + 16
  {
    (n + 16) / 16 * 16
  }

  const LIMIT := 0x1_0000_0000

  /** What `resize` makes of a wanted size; the sum wraps for the last sixteen. */
  function Rounded(n: nat): (r: nat)
    ensures r % 16 == 0 && r < LIMIT
    ensures 0 < n && n + 16 < LIMIT ==> r == RoundUp(n)
    ensures n == 0 || LIMIT <= n + 16 ==> r == 0
  {
    if 0 < n && n + 16 < LIMIT then RoundUp(n) else 0
  }

  /** The first place at or after `from` that holds `c`, or the length. */
  function IndexOf(s: seq<Byte>, c: Byte, from: nat): (i: nat)
    requires from <= |s|
    ensures from <= i <= |s|
    ensures i < |s| ==> s[i] == c
    ensures forall k :: from <= k < i ==> s[k] != c
    decreases |s| - from
  {
    if from == |s| || s[from] == c then from else IndexOf(s, c, from + 1)
  }

  class ByteBuffer {
    /** One cell more than `size`: `moveStart` stores a terminator behind the data, also when the data
        fill the buffer. */
    var buffer: array<Byte>
    var size: nat
    var length: nat
    var pos: nat

    ghost predicate Allocated()
      reads this
    {
      buffer.Length == size + 1
    }

    ghost predicate Valid()
      reads this
    {
      Allocated() && length <= size && pos <= size
    }

    /** What has been written and not yet read. */
    ghost function Unread(): (bytes: seq<Byte>)
      reads this, buffer
      requires Valid()
    {
      if pos <= length then buffer[pos..length] else []
    }

    constructor (newSize: nat)
      requires newSize < LIMIT
      ensures Valid() && pos == length == 0 && fresh(buffer)
      ensures size == Rounded(newSize)
    {
      buffer := new Byte[1](_ => 0);
      size, length, pos := 0, 0, 0;
      new;
      var ok := Resize(newSize);
    }

    /** The bytes that still fit stay in place; the last byte of the new size is cleared.  The length and
        the cursor stay as they are, even when the new size is smaller.  The block is another one exactly
        when the size changes.  False: the rounding wrapped to 0 and the clearing would hit the byte in
        front of the block. */
    method Resize(wanted: nat) returns (ok: bool)
      requires Allocated() && wanted < LIMIT
      modifies this`buffer, this`size, buffer
      ensures ok == (wanted == 0 || Rounded(wanted) > 0 || old(size) == 0)
      ensures !ok ==> buffer == old(buffer) && size == old(size) && buffer[..] == old(buffer[..])
      ensures Allocated() && (if size == old(size) then buffer == old(buffer) else fresh(buffer))
      ensures ok ==> size == Rounded(wanted)
      ensures ok ==> forall k :: 0 <= k < old(size) && k < size - 1 ==> buffer[k] == old(buffer[k])
      ensures ok && size > 0 ==> buffer[size - 1] == 0
    {
      var newSize := wanted;
      if newSize > 0 {
        newSize := Rounded(newSize);
        if newSize == size {
          if newSize > 0 {
            buffer[newSize - 1] := 0;
          }
          return true;
        }
        if newSize == 0 {
          return false;
        }
        var grown := new Byte[newSize + 1](_ => 0);
        forall k | 0 <= k < size && k < newSize {
          grown[k] := buffer[k];
        }
        buffer := grown;
        buffer[newSize - 1] := 0;
      } else if size != 0 {
        buffer := new Byte[1](_ => 0);
      }
      size := newSize;
      return true;
    }

    method SetPosition(p: nat) returns (ok: bool)
      requires Valid()
      modifies this`pos
      ensures ok == (p <= size)
      ensures pos == (if ok then p else old(pos))
    {
      if p > size {
        return false;
      }
      pos := p;
      return true;
    }

    /** Unlike the position, the length is taken as it is; the object stays valid when it fits. */
    method SetLength(l: nat)
      requires Valid()
      modifies this`length
      ensures length == l && (Valid() <==> l <= size)
    {
      length := l;
    }

    /** Moves the unread bytes to the front and the cursor behind them. */
    method MoveStart()
      requires Valid()
      modifies this`length, this`pos, buffer
      ensures Valid()
      ensures old(pos) < old(length) ==>
        pos == length == old(length) - old(pos) && buffer[..length] == old(buffer[pos..length])
        && buffer[pos] == 0 && buffer[pos + 1..] == old(buffer[..])[pos + 1..]
      ensures old(pos) >= old(length) ==>
        pos == old(pos) && length == old(length) && buffer[..] == old(buffer[..])
    {
      if pos < length && length > 0 {
        length := length - pos;
        forall k | 0 <= k < length {
          buffer[k] := buffer[pos + k];
        }
        assert buffer[..length] == old(buffer[pos..length]);
        pos := length;
        buffer[pos] := 0;
        assert buffer[pos + 1..] == old(buffer[..])[pos + 1..];
      }
    }

    /** To write mode: the unread bytes are at the front and the cursor is behind them.  To read mode:
        the cursor goes to the front. */
    method Toggle(writeMode: bool)
      requires Valid()
      modifies this`length, this`pos, buffer
      ensures Valid()
      ensures writeMode && old(pos) <= old(length) ==>
        pos == length && buffer[..length] == old(buffer[pos..length]) && (length > 0 ==> buffer[pos] == 0)
      ensures !writeMode ==> pos == 0 && length == old(length) && buffer[..] == old(buffer[..])
    {
      if writeMode {
        if pos == length {
          pos, length := 0, 0;
        } else {
          MoveStart();
        }
      } else {
        pos := 0;
      }
    }

    method Find(value: Byte) returns (at: int)
      requires Valid()
      ensures at == -1 || pos <= at < length
      ensures at == -1 ==> value !in Unread()
      ensures at >= 0 ==> buffer[at] == value && value !in buffer[pos..at]
    {
      var i := pos;
      while i < length
        invariant pos <= i && (pos <= length ==> i <= length && value !in buffer[pos..i])
      {
        if buffer[i] == value {
          return i;
        }
        i := i + 1;
      }
      return -1;
    }

    /** Takes the unread bytes up to and with the first `c`, if there is one. */
    method ReadUntil(c: Byte) returns (buf: seq<Byte>, count: nat)
      requires Valid()
      modifies this`pos
      ensures Valid() && (old(pos) <= length ==> pos <= length) && (count == 0 ==> pos == old(pos))
      ensures count == |buf| && old(Unread()) == buf + Unread()
      ensures c in old(Unread()) ==> count > 0 && buf[count - 1] == c && c !in buf[..count - 1]
      ensures c !in old(Unread()) ==> count == 0
    {
      var start := pos;
      var at := Find(c);
      if at >= 0 {
        var end := at + 1;
        count := end - start;
        buf := buffer[start..start + count];
        pos := end;
        assert old(Unread())[at - start] == c;
        assert buf[..count - 1] == buffer[start..at];
      } else {
        buf, count := [], 0;
      }
    }

    /** What a receive stores from the cursor on. */
    method Store(bytes: seq<Byte>)
      requires Valid() && pos + |bytes| <= size
      modifies buffer
      ensures buffer[..pos + |bytes|] == old(buffer[..pos]) + bytes
    {
      forall k | 0 <= k < |bytes| {
        buffer[pos + k] := bytes[k];
      }
    }

    /** Writes at the cursor, growing when the bytes do not fit, and ends the data there.  The block is
        another one exactly when they reach its end.  False: the size to grow to does not fit 32 bits. */
    method WriteData(bytes: seq<Byte>) returns (ok: bool)
      requires Valid() && size < LIMIT && |bytes| < LIMIT
      modifies this, buffer
      ensures ok == (old(pos) + |bytes| < old(size) || Rounded(old(pos) + |bytes|) > 0 || old(pos) + |bytes| == 0)
      ensures ok ==> Valid() && pos == length == old(pos) + |bytes| && size >= old(size)
      ensures ok ==>
        if old(pos) + |bytes| < old(size) then buffer == old(buffer) && size == old(size)
        else size == Rounded(pos) && (if size == old(size) then buffer == old(buffer) else fresh(buffer))
      ensures ok ==> buffer[..pos] == old(buffer[..pos]) + bytes
      ensures ok ==> buffer[pos] == 0 && (pos < size || pos == size == 0)
    {
      ghost var was := buffer[..pos];
      if |bytes| + pos >= size {
        if |bytes| + pos >= LIMIT {
          return false;
        }
        ok := Resize(|bytes| + pos);
        if Rounded(|bytes| + pos) == 0 && |bytes| + pos > 0 {
          return false;
        }
      }
      assert buffer[..pos] == was;
      Store(bytes);
      pos := pos + |bytes|;
      length := pos;
      buffer[pos] := 0;
      return true;
    }
  }
}

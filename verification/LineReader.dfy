/** Reading a socket line by line through the growable buffer. */
module LineReader {

  import opened ByteBuffer
  import opened Shared

  const MAX_SIZE := 512000

  /** The allocated size never exceeds the limit rounded up. */
  const FULL := 512016

  /** What a receive on the socket meets: bytes, nothing yet, or the end of the connection. */
  datatype Arrival = Data(bytes: seq<Byte>) | Gap | Broken

  datatype Error = OutOfMemory | Disconnected

  datatype Received = Got(count: nat) | Threw(error: Error)

  datatype Outcome = Line(bytes: seq<Byte>) | Nothing | Waiting | Failed(error: Error)

  /** All bytes still to arrive. */
  function Flat(wire: seq<Arrival>): (bytes: seq<Byte>) {
    if wire == [] then [] else (if wire[0].Data? then wire[0].bytes else []) + Flat(wire[1..])
  }

  function Weight(wire: seq<Arrival>): (n: nat) {
    |Flat(wire)| + |wire|
  }

  // ----- what the byte stream alone decides ---------------------------------------------------------

  predicate IsLine(b: seq<Byte>, c: Byte) {
    |b| > 0 && b[|b| - 1] == c && c !in b[..|b| - 1]
  }

  /** One call of `readUntil(c)` against the bytes not yet handed out: a line is the front of them up to
      the first `c`; a failure gives up bytes among which there is no `c`, as many as the buffer holds
      when it is full. */
  predicate Serves(c: Byte, before: seq<Byte>, o: Outcome, after: seq<Byte>) {
    match o
    case Line(b) => before == b + after && IsLine(b, c) && |b| <= FULL
    case Nothing => before == after
    case Waiting => before == after
    case Failed(e) =>
      |after| <= |before|
      && (var lost := |before| - |after|;
          before[lost..] == after && c !in before[..lost] && (e.OutOfMemory? ==> lost == FULL))
  }

  // ----- the socket as a value ----------------------------------------------------------------------

  /** The bytes received and not handed out, the allocated size, and what is still to arrive. */
  datatype Conn = Conn(unread: seq<Byte>, size: nat, wire: seq<Arrival>) {
    predicate Valid() {
      GoodSize(size) && |unread| <= size
    }
  }

  predicate GoodSize(size: nat) {
    (size % 1040 == 0 && 1040 <= size < MAX_SIZE) || size == FULL
  }

  datatype Receipt = Next(conn: Conn) | Fails(error: Error)

  /** The size once room has been made behind `used` bytes. */
  function Roomy(size: nat, used: nat): (r: nat)
    requires GoodSize(size) && used <= size
    ensures GoodSize(r) && used <= r
  {
    Grown(size);
    if size - used > 256 || (size == used && size >= MAX_SIZE) then size
    else RoundUp(if size + 1024 > MAX_SIZE then MAX_SIZE else size + 1024)
  }

  /** One receive: at most the next arrival, and of data at most what there is room for. */
  function Receive(s: Conn): (r: Receipt)
    requires s.Valid()
    ensures r.Next? ==> r.conn.Valid()
  {
    var size := Roomy(s.size, |s.unread|);
    if size == |s.unread| then Fails(OutOfMemory)
    else if s.wire == [] then Next(s.(size := size))
    else
      match s.wire[0]
      case Gap => Next(s.(size := size, wire := s.wire[1..]))
      case Broken => Fails(Disconnected)
      case Data(b) =>
        if |b| <= size - |s.unread| then Next(Conn(s.unread + b, size, s.wire[1..]))
        else
          var n := size - |s.unread|;
          Next(Conn(s.unread + b[..n], size, [Data(b[n..])] + s.wire[1..]))
  }

  /** After that many receives; None when one of them fails. */
  function After(s: Conn, n: nat): (r: Option<Conn>)
    requires s.Valid()
    ensures r.Some? ==> r.value.Valid()
    decreases n
  {
    if n == 0 then Some(s)
    else
      match Receive(s)
      case Next(t) => After(t, n - 1)
      case Fails(_) => None
  }

  /** What is left of the time after `n` turns of the timed loop; each turn takes off all that has passed
      since the start. */
  function TimeLeft(msec: int, elapsed: nat -> int, n: nat): (left: int) {
    if n == 0 then msec else TimeLeft(msec, elapsed, n - 1) - elapsed(n - 1)
  }

  /** Whether the waiting mode allows one more receive after `n`. */
  predicate May(wire: seq<Arrival>, msec: int, ready: nat -> bool, elapsed: nat -> int, n: nat) {
    if msec == -1 then wire != []
    else if msec == 0 then n == 0
    else TimeLeft(msec, elapsed, n) > 0 && wire != [] && ready(n)
  }

  /** Whether `readUntil` receives once more after `n` receives that have brought no `c`. */
  predicate Goes(s: Conn, c: Byte, msec: int, ready: nat -> bool, elapsed: nat -> int, n: nat)
    requires s.Valid()
  {
    After(s, n).Some? && c !in After(s, n).value.unread && May(After(s, n).value.wire, msec, ready, elapsed, n)
  }

  /** `n` receives have been made, and no `c` has come. */
  ghost predicate Going(s: Conn, c: Byte, msec: int, ready: nat -> bool, elapsed: nat -> int, n: nat, t: Conn)
    requires s.Valid()
  {
    After(s, n) == Some(t) && c !in t.unread && forall k: nat :: k < n ==> Goes(s, c, msec, ready, elapsed, k)
  }

  /** `readUntil` from the state `s` makes `n` receives, comes back with `o` and leaves the state `e`. */
  ghost predicate Reads(s: Conn, c: Byte, msec: int, ready: nat -> bool, elapsed: nat -> int,
                        n: nat, o: Outcome, e: Conn)
    requires s.Valid()
  {
    After(s, n).Some?
    && (forall k: nat :: k < n ==> Goes(s, c, msec, ready, elapsed, k))
    && Comes(s, c, msec, ready, elapsed, n, o, e)
  }

  predicate Comes(s: Conn, c: Byte, msec: int, ready: nat -> bool, elapsed: nat -> int,
                  n: nat, o: Outcome, e: Conn)
    requires s.Valid() && After(s, n).Some?
  {
    var t := After(s, n).value;
    var i := IndexOf(t.unread, c, 0);
    match o
    case Line(b) => i < |t.unread| && b == t.unread[..i + 1] && e == t.(unread := t.unread[i + 1..])
    case Nothing => c !in t.unread && msec != -1 && !Goes(s, c, msec, ready, elapsed, n) && e == t
    case Waiting => c !in t.unread && msec == -1 && t.wire == [] && e == t
    case Failed(error) =>
      Goes(s, c, msec, ready, elapsed, n) && Receive(t) == Fails(error)
      && e == Lost(t, error)
  }

  /** What a failed receive leaves: the unread bytes are gone. */
  function Lost(s: Conn, error: Error): (e: Conn)
    requires s.Valid()
  {
    Conn([], Roomy(s.size, |s.unread|), if error.Disconnected? && s.wire != [] then s.wire[1..] else s.wire)
  }

  predicate Meets(s: Conn, r: Received, e: Conn)
    requires s.Valid()
  {
    match Receive(s)
    case Next(t) => r.Got? && e == t
    case Fails(error) => r == Threw(error) && e == Lost(s, error)
  }

  /** A receive, and a look at the unread bytes. */
  predicate Turns(c: Byte, s: Conn, o: Outcome, e: Conn)
    requires s.Valid()
  {
    match Receive(s)
    case Next(t) => Found(c, t, o, e)
    case Fails(error) => o == Failed(error) && e == Lost(s, error)
  }

  /** A look at the unread bytes: the line up to the first `c` is taken out of them, if there is one. */
  predicate Found(c: Byte, s: Conn, o: Outcome, e: Conn) {
    var i := IndexOf(s.unread, c, 0);
    if i < |s.unread| then o == Line(s.unread[..i + 1]) && e == s.(unread := s.unread[i + 1..])
    else o == Nothing && e == s && c !in s.unread
  }

  /** `Socket::recv` into `free` bytes. */
  predicate Taken(wire: seq<Arrival>, free: nat, bytes: seq<Byte>, broken: bool, left: seq<Arrival>) {
    if wire == [] then bytes == [] && !broken && left == []
    else
      match wire[0]
      case Gap => bytes == [] && !broken && left == wire[1..]
      case Broken => bytes == [] && broken && left == wire[1..]
      case Data(b) =>
        !broken && (if |b| <= free then bytes == b && left == wire[1..]
                    else bytes == b[..free] && left == [Data(b[free..])] + wire[1..])
  }

  lemma TakenMeets(s: Conn, bytes: seq<Byte>, broken: bool, left: seq<Arrival>)
    requires s.Valid() && Roomy(s.size, |s.unread|) > |s.unread|
    requires Taken(s.wire, Roomy(s.size, |s.unread|) - |s.unread|, bytes, broken, left)
    ensures
      var size := Roomy(s.size, |s.unread|);
      if broken then Meets(s, Threw(Disconnected), Conn([], size, left))
      else Meets(s, Got(|bytes|), Conn(s.unread + bytes, size, left))
  {
    hide Roomy, GoodSize;
    assert s.unread + [] == s.unread;
  }

  /** A receive keeps the bytes in order and none is lost; it fails only when the largest buffer is full of
      unread bytes, which are then given up, or at the end of the connection. */
  lemma ReceiveKeeps(s: Conn)
    requires s.Valid()
    ensures
      match Receive(s)
      case Next(t) =>
        && s.unread <= t.unread && t.unread + Flat(t.wire) == s.unread + Flat(s.wire)
        && (s.wire == [] ==> t.wire == [] && t.unread == s.unread)
        && (s.wire != [] ==> Weight(t.wire) < Weight(s.wire))
        && (Broken in t.wire ==> Broken in s.wire)
      case Fails(error) =>
        && Flat(Lost(s, error).wire) == Flat(s.wire)
        && (if error.OutOfMemory? then |s.unread| == FULL else s.wire != [] && s.wire[0] == Broken)
  {
    hide Roomy, GoodSize, Flat;
    Resized(s.size, |s.unread|);
    if s.wire != [] {
      var room := Roomy(s.size, |s.unread|) - |s.unread|;
      FirstArrival(s.wire);
      if s.wire[0].Data? {
        DataKept(s.unread, s.wire, room);
      }
    }
  }

  lemma FirstArrival(wire: seq<Arrival>)
    requires wire != []
    ensures Flat(wire) == (if wire[0].Data? then wire[0].bytes else []) + Flat(wire[1..])
    ensures Broken in wire <==> wire[0] == Broken || Broken in wire[1..]
  {
    assert wire == [wire[0]] + wire[1..];
  }

  /** Data in front of the wire, taken whole or in part. */
  lemma DataKept(unread: seq<Byte>, wire: seq<Arrival>, room: nat)
    requires wire != [] && wire[0].Data?
    ensures
      var b := wire[0].bytes;
      if |b| <= room then (unread + b) + Flat(wire[1..]) == unread + Flat(wire)
      else
        var left := [Data(b[room..])] + wire[1..];
        (unread + b[..room]) + Flat(left) == unread + Flat(wire) && |Flat(left)| + room == |Flat(wire)|
        && |left| == |wire| && (Broken in left ==> Broken in wire)
  {
    hide Flat;
    var b := wire[0].bytes;
    FirstArrival(wire);
    if |b| <= room {
      assert (unread + b) + Flat(wire[1..]) == unread + (b + Flat(wire[1..]));
    } else {
      var left := [Data(b[room..])] + wire[1..];
      FirstArrival(left);
      assert left[1..] == wire[1..] && b == b[..room] + b[room..];
      assert (unread + b[..room]) + (b[room..] + Flat(wire[1..])) == unread + (b[..room] + b[room..] + Flat(wire[1..]));
    }
  }

  lemma MeetsMeans(s: Conn, r: Received, e: Conn)
    requires s.Valid() && Meets(s, r, e)
    ensures r.Got? ==>
      e.unread + Flat(e.wire) == s.unread + Flat(s.wire) && s.unread <= e.unread
      && (s.wire == [] ==> e.wire == []) && (s.wire != [] ==> Weight(e.wire) < Weight(s.wire))
    ensures r.Threw? ==>
      e.unread == [] && s.unread + Flat(s.wire) == s.unread + (e.unread + Flat(e.wire))
      && (s.wire == [] ==> e.wire == []) && (r.error.OutOfMemory? ==> |s.unread| == FULL)
  {
    hide Receive, Flat, Weight, Roomy;
    ReceiveKeeps(s);
    assert e.unread == [] ==> e.unread + Flat(e.wire) == Flat(e.wire);
  }

  lemma NoRoomMeets(s: Conn)
    requires s.Valid() && Roomy(s.size, |s.unread|) == |s.unread|
    ensures Meets(s, Threw(OutOfMemory), Conn([], |s.unread|, s.wire))
  {
    hide Roomy, GoodSize;
  }

  lemma Resized(size: nat, used: nat)
    requires GoodSize(size) && used <= size
    ensures
      var wanted := if size + 1024 > MAX_SIZE then MAX_SIZE else size + 1024;
      var r := Roomy(size, used);
      if size == used && size >= MAX_SIZE then r == size == FULL
      else if size - used <= 256 then r == Rounded(wanted) && r >= size && r > used
      else r == size && r > used
  {
    Grown(size);
  }

  /** A turn that `readUntil` may make. */
  lemma TurnGoes(s: Conn, c: Byte, msec: int, ready: nat -> bool, elapsed: nat -> int,
                 n: nat, t: Conn, o: Outcome, e: Conn)
    requires s.Valid() && Going(s, c, msec, ready, elapsed, n, t) && May(t.wire, msec, ready, elapsed, n)
    requires t.Valid() && Turns(c, t, o, e)
    ensures !o.Waiting?
    ensures o.Failed? ==> Reads(s, c, msec, ready, elapsed, n, o, e)
    ensures o.Line? ==> Reads(s, c, msec, ready, elapsed, n + 1, o, e)
    ensures o.Nothing? ==> Going(s, c, msec, ready, elapsed, n + 1, e)
  {
    hide After, Receive, May, Lost;
    AfterMore(s, n);
    assert Goes(s, c, msec, ready, elapsed, n);
  }

  /** The look at the bytes received before. */
  lemma StartsGoing(s: Conn, c: Byte, msec: int, ready: nat -> bool, elapsed: nat -> int, o: Outcome, e: Conn)
    requires s.Valid() && Found(c, s, o, e)
    ensures o.Line? ==> Reads(s, c, msec, ready, elapsed, 0, o, e)
    ensures o.Nothing? ==> Going(s, c, msec, ready, elapsed, 0, e)
  {
    AfterNothing(s);
  }

  lemma StopsGoing(s: Conn, c: Byte, msec: int, ready: nat -> bool, elapsed: nat -> int, n: nat, e: Conn)
    requires s.Valid() && Going(s, c, msec, ready, elapsed, n, e) && !May(e.wire, msec, ready, elapsed, n)
    ensures Reads(s, c, msec, ready, elapsed, n, if msec == -1 then Waiting else Nothing, e)
  {
    hide After;
  }

  lemma GoingOn(s: Conn, c: Byte, msec: int, ready: nat -> bool, elapsed: nat -> int, n: nat, t: Conn)
    requires s.Valid() && Going(s, c, msec, ready, elapsed, n, t)
    ensures c !in t.unread
  {
    hide After;
  }

  lemma ServesNothing(c: Byte, s: seq<Byte>)
    ensures Serves(c, s, Nothing, s) && Serves(c, s, Waiting, s)
  {
  }

  lemma AfterNothing(s: Conn)
    requires s.Valid()
    ensures After(s, 0) == Some(s)
  {
  }

  lemma {:induction false} AfterMore(s: Conn, n: nat)
    requires s.Valid() && After(s, n).Some?
    ensures
      match Receive(After(s, n).value)
      case Next(t) => After(s, n + 1) == Some(t)
      case Fails(_) => After(s, n + 1) == None
    decreases n
  {
    hide Receive;
    if n == 0 {
      assert Receive(s).Next? ==> After(Receive(s).conn, 0) == Some(Receive(s).conn);
    } else {
      AfterMore(Receive(s).conn, n - 1);
    }
  }

  // ----- the socket ---------------------------------------------------------------------------------

  class TcpSocket {
    const buffer: ByteBuffer
    var wire: seq<Arrival>

    ghost predicate Valid()
      reads this, buffer
    {
      buffer.Valid() && buffer.pos <= buffer.length && GoodSize(buffer.size)
    }

    ghost function State(): (s: Conn)
      reads this, buffer, buffer.buffer
      requires Valid()
      ensures s.Valid()
    {
      Conn(buffer.Unread(), buffer.size, wire)
    }

    /** The bytes received and not handed out, and those still to arrive. */
    ghost function Stream(): (bytes: seq<Byte>)
      reads this, buffer, buffer.buffer
      requires Valid()
    {
      buffer.Unread() + Flat(wire)
    }

    constructor (wire: seq<Arrival>)
      ensures Valid() && fresh(buffer) && fresh(buffer.buffer)
      ensures this.wire == wire && Stream() == Flat(wire) && State() == Conn([], 1040, wire)
    {
      this.wire := wire;
      this.buffer := new ByteBuffer(1024);
    }

    /** `Socket::recv` without waiting: at most `free` bytes of the next arrival. */
    method Recv(free: nat) returns (bytes: seq<Byte>, broken: bool)
      requires free > 0
      modifies this`wire
      ensures |bytes| <= free && Flat(old(wire)) == bytes + Flat(wire)
      ensures broken ==> bytes == []
      ensures Taken(old(wire), free, bytes, broken, wire)
      ensures old(wire) == [] ==> wire == [] && !broken
      ensures old(wire) != [] ==> Weight(wire) < Weight(old(wire))
    {
      if wire == [] {
        return [], false;
      }
      var first := wire[0];
      if first.Data? && |first.bytes| > free {
        var rest := [Data(first.bytes[free..])] + wire[1..];
        assert rest[1..] == wire[1..];
        assert first.bytes == first.bytes[..free] + first.bytes[free..];
        wire := rest;
        return first.bytes[..free], false;
      }
      wire := wire[1..];
      return if first.Data? then first.bytes else [], first.Broken?;
    }

    /** The first half of `_bufferedRecv`: the unread bytes go to the front, and room is made behind them
        unless they fill the largest buffer. */
    method MakeRoom() returns (free: nat)
      requires Valid()
      modifies buffer, buffer.buffer
      ensures Valid() && (buffer.buffer == old(buffer.buffer) || fresh(buffer.buffer))
      ensures buffer.pos == buffer.length == |old(buffer.Unread())|
      ensures buffer.buffer[..buffer.pos] == old(buffer.Unread())
      ensures buffer.size == Roomy(old(buffer.size), |old(buffer.Unread())|) && free == buffer.size - buffer.pos
      ensures free == 0 ==> buffer.pos == FULL
    {
      hide Roomy, GoodSize, Rounded, RoundUp, IndexOf;
      ghost var unread := buffer.Unread();
      Resized(buffer.size, |unread|);
      buffer.Toggle(true);
      assert buffer.buffer[..buffer.pos] == unread;
      free := buffer.size - buffer.pos;
      if free == 0 && buffer.size >= MAX_SIZE {
        return;
      } else if free <= 256 {
        var newSize := buffer.size + 1024;
        if newSize > MAX_SIZE {
          newSize := MAX_SIZE;
        }
        var ok := buffer.Resize(newSize);
        free := buffer.size - buffer.pos;
      }
      assert buffer.buffer[..buffer.pos] == unread;
    }

    /** `_bufferedRecv`: makes room behind the unread bytes and receives once.  The source throws out of
        it in write mode, so a failure gives up the unread bytes. */
    method BufferedRecv() returns (r: Received)
      requires Valid()
      modifies this`wire, buffer, buffer.buffer
      ensures Valid() && (buffer.buffer == old(buffer.buffer) || fresh(buffer.buffer))
      ensures Meets(old(State()), r, State())
      ensures r.Got? ==> Stream() == old(Stream()) && old(buffer.Unread()) <= buffer.Unread()
      ensures r.Got? ==> |buffer.Unread()| == |old(buffer.Unread())| + r.count
      ensures r.Threw? ==>
        buffer.Unread() == [] && old(Stream()) == old(buffer.Unread()) + Stream()
        && (r.error.OutOfMemory? ==> |old(buffer.Unread())| == FULL)
      ensures old(wire) == [] ==> wire == []
      ensures old(wire) != [] && r.Got? ==> Weight(wire) < Weight(old(wire))
    {
      hide Flat, Weight, Roomy, GoodSize, Receive, Taken, Meets, Lost;
      ghost var s := State();
      var free := MakeRoom();
      if free == 0 {
        NoRoomMeets(s);
        r := Threw(OutOfMemory);
        MeetsMeans(s, r, State());
        return;
      }
      var bytes, broken := Recv(free);
      TakenMeets(s, bytes, broken, wire);
      if broken {
        r := Threw(Disconnected);
        MeetsMeans(s, r, State());
        return;
      }
      if |bytes| > 0 {
        buffer.Store(bytes);
        var end := |bytes| + buffer.pos;
        buffer.SetLength(end);
        var ok := buffer.SetPosition(end);
      }
      assert buffer.buffer[..buffer.length] == s.unread + bytes;
      buffer.Toggle(false);
      assert buffer.Unread() == buffer.buffer[..][..buffer.length] == s.unread + bytes;
      r := Got(|bytes|);
      MeetsMeans(s, r, State());
    }

    /** Looks for a line among the unread bytes. */
    method Scan(c: Byte) returns (o: Outcome)
      requires Valid()
      modifies buffer`pos
      ensures Valid() && (o.Line? || o.Nothing?)
      ensures Serves(c, old(Stream()), o, Stream())
      ensures o.Nothing? ==> c !in buffer.Unread() && State() == old(State()) && Stream() == old(Stream())
      ensures Found(c, old(State()), o, State())
    {
      hide Flat, Found, Serves, IndexOf, GoodSize;
      ghost var s := State();
      var buf, count := buffer.ReadUntil(c);
      if count > 0 {
        TakesLine(c, s, buf, State());
        return Line(buf);
      }
      assert buffer.Unread() == s.unread;
      FindsNone(c, s);
      return Nothing;
    }

    /** One turn of the loops of `readUntil`: receive, then look again. */
    method Turn(c: Byte) returns (o: Outcome)
      requires Valid() && c !in buffer.Unread()
      modifies this`wire, buffer, buffer.buffer
      ensures Valid() && (buffer.buffer == old(buffer.buffer) || fresh(buffer.buffer))
      ensures Serves(c, old(Stream()), o, Stream()) && !o.Waiting?
      ensures o.Nothing? ==> c !in buffer.Unread() && Stream() == old(Stream())
      ensures old(wire) == [] ==> wire == []
      ensures old(wire) != [] && o.Nothing? ==> Weight(wire) < Weight(old(wire))
      ensures Turns(c, old(State()), o, State())
    {
      hide Flat, Weight, Receive, Found, Lost, GoodSize, IndexOf;
      ghost var before := buffer.Unread();
      var r := BufferedRecv();
      if r.Threw? {
        assert Stream() == Flat(wire);
        return Failed(r.error);
      }
      o := Scan(c);
    }

    /** The NOW branch of `readUntil`. */
    method ReadNow(c: Byte, ghost ready: nat -> bool, ghost elapsed: nat -> int) returns (o: Outcome, ghost n: nat)
      requires Valid() && Going(State(), c, 0, ready, elapsed, 0, State())
      modifies this`wire, buffer, buffer.buffer
      ensures Valid() && (buffer.buffer == old(buffer.buffer) || fresh(buffer.buffer))
      ensures Serves(c, old(Stream()), o, Stream()) && !o.Waiting?
      ensures Reads(old(State()), c, 0, ready, elapsed, n, o, State())
    {
      hide Flat, Weight, Serves, Receive, Turns, GoodSize, Going, Reads, IndexOf, After, Lost, Valid, Stream;
      ghost var s := State();
      GoingOn(s, c, 0, ready, elapsed, 0, s);
      o := Turn(c);
      TurnGoes(s, c, 0, ready, elapsed, 0, s, o, State());
      n := if o.Failed? then 0 else 1;
      if o.Nothing? {
        StopsGoing(s, c, 0, ready, elapsed, 1, State());
      }
    }

    /** The FOREVER loop of `readUntil`.  On a socket on which nothing more arrives it does not come back,
        which is the outcome Waiting. */
    method ReadForever(c: Byte, ghost ready: nat -> bool, ghost elapsed: nat -> int)
      returns (o: Outcome, ghost n: nat)
      requires Valid() && Going(State(), c, -1, ready, elapsed, 0, State())
      modifies this`wire, buffer, buffer.buffer
      ensures Valid() && (buffer.buffer == old(buffer.buffer) || fresh(buffer.buffer))
      ensures Serves(c, old(Stream()), o, Stream()) && !o.Nothing?
      ensures Reads(old(State()), c, -1, ready, elapsed, n, o, State())
    {
      hide Flat, Weight, Serves, Receive, Turns, GoodSize, Going, Reads, IndexOf, After, Lost, Valid, Stream;
      ghost var all, s := Stream(), State();
      ServesNothing(c, all);
      n := 0;
      while wire != []
        invariant Valid() && (buffer.buffer == old(buffer.buffer) || fresh(buffer.buffer))
        invariant Stream() == all && Going(s, c, -1, ready, elapsed, n, State())
        decreases Weight(wire)
      {
        ghost var t := State();
        GoingOn(s, c, -1, ready, elapsed, n, t);
        o := Turn(c);
        TurnGoes(s, c, -1, ready, elapsed, n, t, o, State());
        n := if o.Failed? then n else n + 1;
        if !o.Nothing? {
          return;
        }
      }
      o := Waiting;
      StopsGoing(s, c, -1, ready, elapsed, n, State());
    }

    /** The timed loop of `readUntil`: it receives while time is left and the socket becomes readable. */
    method ReadTimed(c: Byte, msec: int, ready: nat -> bool, elapsed: nat -> int)
      returns (o: Outcome, ghost n: nat)
      requires Valid() && msec != -1 && msec != 0 && Going(State(), c, msec, ready, elapsed, 0, State())
      modifies this`wire, buffer, buffer.buffer
      ensures Valid() && (buffer.buffer == old(buffer.buffer) || fresh(buffer.buffer))
      ensures Serves(c, old(Stream()), o, Stream()) && !o.Waiting?
      ensures Reads(old(State()), c, msec, ready, elapsed, n, o, State())
    {
      hide Flat, Weight, Serves, Receive, Turns, GoodSize, Going, Reads, IndexOf, After, Lost, Valid, Stream;
      ghost var all, s := Stream(), State();
      ServesNothing(c, all);
      n := 0;
      var left, turn := msec, 0;
      while left > 0 && wire != [] && ready(turn)
        invariant Valid() && (buffer.buffer == old(buffer.buffer) || fresh(buffer.buffer))
        invariant turn == n && left == TimeLeft(msec, elapsed, n)
        invariant Stream() == all && Going(s, c, msec, ready, elapsed, n, State())
        decreases Weight(wire)
      {
        ghost var t := State();
        GoingOn(s, c, msec, ready, elapsed, n, t);
        o := Turn(c);
        TurnGoes(s, c, msec, ready, elapsed, n, t, o, State());
        n := if o.Failed? then n else n + 1;
        if !o.Nothing? {
          return;
        }
        left := left - elapsed(turn);
        turn := turn + 1;
      }
      o := Nothing;
      StopsGoing(s, c, msec, ready, elapsed, n, State());
    }

    /** `readUntil`: FOREVER (-1) waits for the line, NOW (0) receives once, a positive time receives
        while it lasts; `ready` tells at each turn whether the socket became readable in time and
        `elapsed` gives the clock. */
    method ReadUntil(c: Byte, msec: int, ready: nat -> bool, elapsed: nat -> int)
      returns (o: Outcome, ghost n: nat)
      requires Valid()
      modifies this`wire, buffer, buffer.buffer
      ensures Valid() && (buffer.buffer == old(buffer.buffer) || fresh(buffer.buffer))
      ensures Serves(c, old(Stream()), o, Stream())
      ensures Reads(old(State()), c, msec, ready, elapsed, n, o, State())
    {
      hide Flat, Weight, Serves, Receive, Turns, Found, GoodSize, Going, Reads, IndexOf, After, Lost, Valid, Stream;
      ghost var s := State();
      n := 0;
      o := Scan(c);
      StartsGoing(s, c, msec, ready, elapsed, o, State());
      if o.Line? {
        return;
      }
      if msec == 0 {
        o, n := ReadNow(c, ready, elapsed);
      } else if msec == -1 {
        o, n := ReadForever(c, ready, elapsed);
      } else {
        o, n := ReadTimed(c, msec, ready, elapsed);
      }
    }

    /** A caller that reads `waits[0]`, `waits[1]`, ... one after the other until a call fails or does not
        come back.  Its results form a run, so the byte stream alone decides them. */
    method ReadLines(c: Byte, waits: seq<int>, ready: nat -> bool, elapsed: nat -> int)
      returns (os: seq<Outcome>, ghost streams: seq<seq<Byte>>)
      requires Valid()
      modifies this`wire, buffer, buffer.buffer
      ensures Valid() && |os| <= |waits|
      ensures Run(c, os, streams) && streams[0] == old(Stream()) && streams[|os|] == Stream()
      ensures Failed(Disconnected) !in os ==> Verdicts(old(Stream()), c) == Delivered(os) + Verdicts(Stream(), c)
      ensures |os| < |waits| ==> os != [] && (os[|os| - 1].Failed? || os[|os| - 1].Waiting?)
    {
      hide Flat, Serves, Verdicts, Delivered;
      os, streams := [], [Stream()];
      var i := 0;
      while i < |waits|
        invariant 0 <= i == |os| <= |waits| && Valid()
        invariant buffer.buffer == old(buffer.buffer) || fresh(buffer.buffer)
        invariant Run(c, os, streams) && streams[0] == old(Stream()) && streams[|os|] == Stream()
      {
        ghost var before := Stream();
        var o, n := ReadUntil(c, waits[i], ready, elapsed);
        Extend(c, os, streams, o, Stream());
        os, streams := os + [o], streams + [Stream()];
        i := i + 1;
        if o.Failed? || o.Waiting? {
          break;
        }
      }
      if Failed(Disconnected) !in os {
        RunDelivers(c, os, streams);
      }
    }
  }

  lemma TakesLine(c: Byte, s: Conn, b: seq<Byte>, e: Conn)
    requires s.Valid() && s.unread == b + e.unread && IsLine(b, c) && e == s.(unread := e.unread)
    ensures Found(c, s, Line(b), e) && Serves(c, s.unread + Flat(s.wire), Line(b), e.unread + Flat(e.wire))
  {
    hide Flat;
    FirstIs(s.unread, c, b, e.unread);
    assert (b + e.unread) + Flat(s.wire) == b + (e.unread + Flat(s.wire));
  }

  lemma FindsNone(c: Byte, s: Conn)
    requires c !in s.unread
    ensures Found(c, s, Nothing, s) && Serves(c, s.unread + Flat(s.wire), Nothing, s.unread + Flat(s.wire))
  {
    HoldsNone(s.unread, c);
  }

  lemma FirstIs(s: seq<Byte>, c: Byte, b: seq<Byte>, rest: seq<Byte>)
    requires s == b + rest && IsLine(b, c)
    ensures IndexOf(s, c, 0) == |b| - 1 && s[..|b|] == b && s[|b|..] == rest
  {
    var n, i := |b| - 1, IndexOf(s, c, 0);
    assert s[n] == b[n] == c;
    assert forall k :: 0 <= k < n ==> s[k] == b[..n][k];
    assert i == n;
  }

  lemma Extend(c: Byte, os: seq<Outcome>, streams: seq<seq<Byte>>, o: Outcome, after: seq<Byte>)
    requires Run(c, os, streams) && Serves(c, streams[|os|], o, after)
    ensures Run(c, os + [o], streams + [after])
  {
    hide Serves;
    var ps, all := os + [o], streams + [after];
    forall k | 0 <= k < |ps|
      ensures Serves(c, all[k], ps[k], all[k + 1])
    {
      if k < |os| {
        assert Serves(c, streams[k], os[k], streams[k + 1]);
      }
    }
  }

  /** A grown buffer has one of the sizes of `Valid`. */
  lemma Grown(size: nat)
    requires (size % 1040 == 0 && 1040 <= size < MAX_SIZE) || size == FULL
    ensures
      var grown := RoundUp(if size + 1024 > MAX_SIZE then MAX_SIZE else size + 1024);
      grown >= size && (size < FULL ==> grown > size)
      && ((grown % 1040 == 0 && 1040 <= grown < MAX_SIZE) || grown == FULL)
  {
    if size < MAX_SIZE {
      StepsUp(size);
    }
  }

  /** 1024 bytes more, rounded up, are 1040 more. */
  lemma StepsUp(size: nat)
    requires size % 1040 == 0
    ensures RoundUp(size + 1024) == size + 1040
  {
    var k := size / 1040;
    assert size + 1024 + 16 == 16 * (65 * (k + 1));
  }

  // ----- whatever the cuts --------------------------------------------------------------------------

  /** The stream cut behind each `c`, with a failure wherever FULL bytes go by without one. */
  function Verdicts(s: seq<Byte>, c: Byte): (verdicts: seq<Outcome>)
    decreases |s|
  {
    var i := IndexOf(s, c, 0);
    if i < |s| && i < FULL then [Line(s[..i + 1])] + Verdicts(s[i + 1..], c)
    else if |s| >= FULL then [Failed(OutOfMemory)] + Verdicts(s[FULL..], c)
    else []
  }

  /** A call that is not cut off by the peer delivers the first verdict on the stream and leaves the
      others, or it delivers nothing and leaves them all. */
  lemma ServesVerdict(c: Byte, before: seq<Byte>, o: Outcome, after: seq<Byte>)
    requires Serves(c, before, o, after) && o != Failed(Disconnected)
    ensures Verdicts(before, c) == (if o.Nothing? || o.Waiting? then [] else [o]) + Verdicts(after, c)
  {
    var i := IndexOf(before, c, 0);
    match o
    case Line(b) =>
      var n := |b| - 1;
      assert before[n] == b[n] == c;
      assert forall k :: 0 <= k < n ==> before[k] == b[..n][k];
      assert i == n && before[..i + 1] == b && before[i + 1..] == after;
    case Nothing =>
    case Waiting =>
    case Failed(e) =>
      assert forall k :: 0 <= k < FULL ==> before[k] == before[..FULL][k];
      assert i >= FULL;
  }

  /** The calls of a run: `streams` holds the bytes not yet handed out before each and after the last. */
  ghost predicate Run(c: Byte, os: seq<Outcome>, streams: seq<seq<Byte>>) {
    |streams| == |os| + 1
    && forall k :: 0 <= k < |os| ==> Serves(c, streams[k], os[k], streams[k + 1])
  }

  function Delivered(os: seq<Outcome>): (r: seq<Outcome>) {
    if os == [] then []
    else (if os[0].Nothing? || os[0].Waiting? then [] else [os[0]]) + Delivered(os[1..])
  }

  /** However the stream is cut into receives, and whatever the waiting times, the results of a run that
      the peer does not cut off are the stream's own verdicts, in order. */
  lemma {:induction false} RunDelivers(c: Byte, os: seq<Outcome>, streams: seq<seq<Byte>>)
    requires Run(c, os, streams) && Failed(Disconnected) !in os
    ensures Verdicts(streams[0], c) == Delivered(os) + Verdicts(streams[|os|], c)
    decreases |os|
  {
    hide Verdicts, Serves;
    if os != [] {
      ServesVerdict(c, streams[0], os[0], streams[1]);
      assert Run(c, os[1..], streams[1..]) by {
        forall k | 0 <= k < |os[1..]|
          ensures Serves(c, streams[1..][k], os[1..][k], streams[1..][k + 1])
        {
          var j := k + 1;
          assert Serves(c, streams[j], os[j], streams[j + 1]);
        }
      }
      RunDelivers(c, os[1..], streams[1..]);
      var one := if os[0].Nothing? || os[0].Waiting? then [] else [os[0]];
      assert one + (Delivered(os[1..]) + Verdicts(streams[|os|], c))
          == one + Delivered(os[1..]) + Verdicts(streams[|os|], c);
    }
  }

  /** Two runs over the same stream agree as far as both go. */
  lemma ChunkIndependence(c: Byte, os: seq<Outcome>, streams: seq<seq<Byte>>,
                          ps: seq<Outcome>, others: seq<seq<Byte>>)
    requires Run(c, os, streams) && Failed(Disconnected) !in os
    requires Run(c, ps, others) && Failed(Disconnected) !in ps
    requires streams[0] == others[0]
    ensures Delivered(os) <= Delivered(ps) || Delivered(ps) <= Delivered(os)
  {
    RunDelivers(c, os, streams);
    RunDelivers(c, ps, others);
    var all := Verdicts(streams[0], c);
    assert Delivered(os) == all[..|Delivered(os)|];
    assert Delivered(ps) == all[..|Delivered(ps)|];
  }

  function Joined(lines: seq<seq<Byte>>): (bytes: seq<Byte>) {
    if lines == [] then [] else lines[0] + Joined(lines[1..])
  }

  function AsOutcomes(lines: seq<seq<Byte>>): (os: seq<Outcome>)
    ensures |os| == |lines|
  {
    if lines == [] then [] else [Line(lines[0])] + AsOutcomes(lines[1..])
  }

  /** `s` is these lines and an unfinished rest, none of them too long for the buffer. */
  predicate Cut(s: seq<Byte>, c: Byte, lines: seq<seq<Byte>>, rest: seq<Byte>) {
    s == Joined(lines) + rest
    && (forall i :: 0 <= i < |lines| ==> IsLine(lines[i], c) && |lines[i]| <= FULL)
    && c !in rest && |rest| < FULL
  }

  /** The verdicts on a stream of lines that fit the buffer are those lines. */
  lemma {:induction false} CutIsVerdicts(s: seq<Byte>, c: Byte, lines: seq<seq<Byte>>, rest: seq<Byte>)
    requires Cut(s, c, lines, rest)
    ensures Verdicts(s, c) == AsOutcomes(lines)
    decreases |lines|
  {
    if lines == [] {
      assert s == rest;
    } else {
      var after := Joined(lines[1..]) + rest;
      assert s == lines[0] + after;
      assert Cut(after, c, lines[1..], rest);
      ServesVerdict(c, s, Line(lines[0]), after);
      CutIsVerdicts(after, c, lines[1..], rest);
    }
  }

  /** A stream can be cut in at most one way. */
  lemma {:induction false} CutIsUnique(s: seq<Byte>, c: Byte, lines: seq<seq<Byte>>, rest: seq<Byte>,
                                       others: seq<seq<Byte>>, other: seq<Byte>)
    requires Cut(s, c, lines, rest) && Cut(s, c, others, other)
    ensures lines == others && rest == other
  {
    CutIsVerdicts(s, c, lines, rest);
    CutIsVerdicts(s, c, others, other);
    SameOutcomes(lines, others);
    assert s[|Joined(lines)|..] == rest && s[|Joined(lines)|..] == other;
  }

  lemma {:induction false} SameOutcomes(lines: seq<seq<Byte>>, others: seq<seq<Byte>>)
    requires AsOutcomes(lines) == AsOutcomes(others)
    ensures lines == others
    decreases |lines|
  {
    if lines != [] {
      assert others != [];
      assert AsOutcomes(lines)[0] == AsOutcomes(others)[0];
      assert AsOutcomes(lines[1..]) == AsOutcomes(lines)[1..] == AsOutcomes(others)[1..] == AsOutcomes(others[1..]);
      SameOutcomes(lines[1..], others[1..]);
      assert lines == [lines[0]] + lines[1..];
      assert others == [others[0]] + others[1..];
    }
  }

  /** A run over lines that fit never runs out of memory, and once nothing but an unfinished rest is left
      it has delivered every line. */
  lemma RunCompletes(c: Byte, os: seq<Outcome>, streams: seq<seq<Byte>>,
                     lines: seq<seq<Byte>>, rest: seq<Byte>)
    requires Run(c, os, streams) && Failed(Disconnected) !in os
    requires Cut(streams[0], c, lines, rest)
    ensures Delivered(os) <= AsOutcomes(lines)
    ensures Failed(OutOfMemory) !in os
    ensures c !in streams[|os|] && |streams[|os|]| < FULL ==> Delivered(os) == AsOutcomes(lines)
  {
    RunDelivers(c, os, streams);
    CutIsVerdicts(streams[0], c, lines, rest);
    OnlyLines(lines);
    KeptIfDelivered(os, Failed(OutOfMemory));
    var left := Verdicts(streams[|os|], c);
    assert Delivered(os) == AsOutcomes(lines)[..|Delivered(os)|];
    assert forall o :: o in Delivered(os) ==> o in AsOutcomes(lines);
    assert c !in streams[|os|] && |streams[|os|]| < FULL ==> left == [];
  }

  lemma {:induction false} OnlyLines(lines: seq<seq<Byte>>)
    ensures forall o :: o in AsOutcomes(lines) ==> o.Line?
  {
    if lines != [] {
      OnlyLines(lines[1..]);
    }
  }

  lemma {:induction false} KeptIfDelivered(os: seq<Outcome>, o: Outcome)
    requires !o.Nothing? && !o.Waiting?
    ensures o in os ==> o in Delivered(os)
    decreases |os|
  {
    if os != [] {
      KeptIfDelivered(os[1..], o);
      assert os == [os[0]] + os[1..];
    }
  }

  // ----- when there is nothing, and when there is a line ----------------------------------------------

  /** What one receive takes, unless the unread bytes fill the largest buffer: the whole next arrival, or of
      data that do not fit at least 257 bytes or what is left of the largest buffer. */
  lemma ReceiveTakes(s: Conn)
    requires s.Valid() && s.wire != []
    ensures |s.unread| == FULL ==> Receive(s) == Fails(OutOfMemory)
    ensures |s.unread| < FULL ==>
      match s.wire[0]
      case Gap => Receive(s).Next? && Receive(s).conn.unread == s.unread && Receive(s).conn.wire == s.wire[1..]
      case Broken => Receive(s) == Fails(Disconnected)
      case Data(b) =>
        Receive(s).Next? &&
        var t := Receive(s).conn;
        var n := |t.unread| - |s.unread|;
        0 <= n <= |b| && t.unread == s.unread + b[..n]
        && (if n == |b| then t.wire == s.wire[1..]
            else t.wire == [Data(b[n..])] + s.wire[1..] && (n > 256 || |t.unread| == FULL))
  {
    hide Roomy;
    Resized(s.size, |s.unread|);
    if |s.unread| < FULL {
      RoomForMore(s.size, |s.unread|);
    }
  }

  lemma RoomForMore(size: nat, used: nat)
    requires GoodSize(size) && used <= size && used < FULL
    ensures Roomy(size, used) - used > 256 || Roomy(size, used) == FULL
  {
    Grown(size);
    if size < MAX_SIZE {
      StepsUp(size);
    }
  }

  lemma {:induction false} AfterKeeps(s: Conn, n: nat)
    requires s.Valid() && After(s, n).Some?
    ensures
      var t := After(s, n).value;
      s.unread <= t.unread && t.unread + Flat(t.wire) == s.unread + Flat(s.wire)
      && (Broken in t.wire ==> Broken in s.wire)
    decreases n
  {
    hide Receive, Flat, Weight;
    if n > 0 {
      ReceiveKeeps(s);
      AfterKeeps(Receive(s).conn, n - 1);
    }
  }

  lemma {:induction false} AfterFails(s: Conn, n: nat, m: nat)
    requires s.Valid() && n < m && After(s, m).Some?
    ensures After(s, n).Some? && Receive(After(s, n).value).Next?
    decreases n
  {
    hide Receive;
    if n > 0 {
      AfterFails(Receive(s).conn, n - 1, m - 1);
    }
  }

  /** The socket, the waiting mode, the clock and what becomes readable determine the outcome. */
  lemma ReadsOnce(s: Conn, c: Byte, msec: int, ready: nat -> bool, elapsed: nat -> int,
                  n: nat, o: Outcome, e: Conn, m: nat, p: Outcome, f: Conn)
    requires s.Valid() && n <= m
    requires Reads(s, c, msec, ready, elapsed, n, o, e) && Reads(s, c, msec, ready, elapsed, m, p, f)
    ensures n == m && o == p && e == f
  {
    hide After, Receive, May, Lost;
    if n < m {
      AfterFails(s, n, m);
      assert Goes(s, c, msec, ready, elapsed, n);
      HoldsNone(After(s, n).value.unread, c);
      NoneAllowed(After(s, n).value.wire, msec, ready, elapsed, n);
    }
    HoldsNone(After(s, n).value.unread, c);
    NoneAllowed(After(s, n).value.wire, msec, ready, elapsed, n);
  }

  lemma HoldsNone(s: seq<Byte>, c: Byte)
    ensures c !in s <==> IndexOf(s, c, 0) == |s|
  {
    var i := IndexOf(s, c, 0);
    if c in s {
      var k :| 0 <= k < |s| && s[k] == c;
      assert !(k < i);
    }
  }

  lemma NoneAllowed(wire: seq<Arrival>, msec: int, ready: nat -> bool, elapsed: nat -> int, n: nat)
    ensures msec == -1 && wire == [] ==> !May(wire, msec, ready, elapsed, n)
  {
  }

  /** `readUntil` comes back with nothing only when no `c` has been received, and: with NOW after one receive;
      with a time when that is used up, the socket does not become readable, or nothing more arrives. */
  lemma NothingWhy(s: Conn, c: Byte, msec: int, ready: nat -> bool, elapsed: nat -> int, n: nat, e: Conn)
    requires s.Valid() && Reads(s, c, msec, ready, elapsed, n, Nothing, e)
    ensures After(s, n) == Some(e) && c !in e.unread && msec != -1
    ensures if msec == 0 then n == 1
            else TimeLeft(msec, elapsed, n) <= 0 || e.wire == [] || !ready(n)
  {
    hide After, Receive;
    if msec == 0 && n > 1 {
      TurnHappens(s, c, msec, ready, elapsed, n, Nothing, e, 1);
    }
  }

  lemma TurnHappens(s: Conn, c: Byte, msec: int, ready: nat -> bool, elapsed: nat -> int,
                    n: nat, o: Outcome, e: Conn, k: nat)
    requires s.Valid() && Reads(s, c, msec, ready, elapsed, n, o, e) && k < n
    ensures After(s, k).Some? && c !in After(s, k).value.unread
    ensures May(After(s, k).value.wire, msec, ready, elapsed, k)
  {
    hide After, May, Comes;
    assert Goes(s, c, msec, ready, elapsed, k);
  }

  /** The line comes with the next arrival when that holds `c` and fits, and a receive may be made. */
  lemma LineComesNext(s: Conn, c: Byte, msec: int, ready: nat -> bool, elapsed: nat -> int,
                      n: nat, o: Outcome, e: Conn)
    requires s.Valid() && Reads(s, c, msec, ready, elapsed, n, o, e)
    requires c !in s.unread && s.wire != [] && s.wire[0].Data? && c in s.wire[0].bytes
    requires |s.wire[0].bytes| <= 256 && |s.unread| + |s.wire[0].bytes| <= FULL
    requires msec == -1 || msec == 0 || (msec > 0 && ready(0))
    ensures
      var b := s.wire[0].bytes;
      var i := IndexOf(b, c, 0);
      n == 1 && o == Line(s.unread + b[..i + 1]) && e.unread == b[i + 1..] && e.wire == s.wire[1..]
  {
    hide Receive, Roomy, IndexOf, After;
    var b := s.wire[0].bytes;
    FittingArrival(s);
    AfterNothing(s);
    AfterMore(s, 0);
    FoundIn(s.unread, b, c);
    HoldsNone(s.unread, c);
    HoldsNone(s.unread + b, c);
    assert Goes(s, c, msec, ready, elapsed, 0);
    if n > 1 {
      TurnHappens(s, c, msec, ready, elapsed, n, o, e, 1);
    }
  }

  lemma FittingArrival(s: Conn)
    requires s.Valid() && s.wire != [] && s.wire[0].Data? && s.wire[0].bytes != []
    requires |s.wire[0].bytes| <= 256 && |s.unread| + |s.wire[0].bytes| <= FULL
    ensures Receive(s).Next?
    ensures Receive(s).conn.unread == s.unread + s.wire[0].bytes && Receive(s).conn.wire == s.wire[1..]
  {
    hide Receive;
    ReceiveTakes(s);
    var b := s.wire[0].bytes;
    assert b[..|b|] == b;
  }

  lemma FoundIn(before: seq<Byte>, b: seq<Byte>, c: Byte)
    requires c !in before && c in b
    ensures
      var i := IndexOf(b, c, 0);
      i < |b| && IndexOf(before + b, c, 0) == |before| + i && c in before + b
      && (before + b)[..|before| + i + 1] == before + b[..i + 1] && (before + b)[|before| + i + 1..] == b[i + 1..]
  {
    HoldsNone(b, c);
    var i := IndexOf(b, c, 0);
    assert before + b == (before + b[..i + 1]) + b[i + 1..];
    var line := before + b[..i + 1];
    assert line[..|line| - 1] == before + b[..i];
    FirstIs(before + b, c, line, b[i + 1..]);
    assert (before + b)[|before| + i] == c;
  }

  /** A call without a line, although it may go on and the peer does not hang up, has received everything or
      has filled the largest buffer. */
  lemma NoLineMeans(s: Conn, c: Byte, msec: int, ready: nat -> bool, elapsed: nat -> int,
                    n: nat, o: Outcome, e: Conn)
    requires s.Valid() && Reads(s, c, msec, ready, elapsed, n, o, e) && !o.Line?
    requires msec == -1 || (msec > 0 && forall k: nat :: ready(k) && TimeLeft(msec, elapsed, k) > 0)
    requires Broken !in s.wire
    ensures
      var t := After(s, n).value;
      c !in t.unread && (t.wire == [] || |t.unread| == FULL)
  {
    hide Receive, Flat, Weight, After, Lost;
    AfterKeeps(s, n);
    var t := After(s, n).value;
    ReceiveKeeps(t);
    assert t.wire != [] ==> t.wire[0] in t.wire;
    assert msec > 0 ==> ready(n) && TimeLeft(msec, elapsed, n) > 0;
  }

  lemma {:induction false} IndexBehind(a: seq<Byte>, b: seq<Byte>, c: Byte)
    requires c !in a
    ensures IndexOf(a + b, c, 0) >= |a|
  {
    assert forall k :: 0 <= k < |a| ==> (a + b)[k] == a[k];
  }

  /** Waiting forever, or with the socket readable and time left at every turn, the line does come: when the
      stream holds a `c` among its first bytes that fit the buffer and the peer does not hang up. */
  lemma LineComes(s: Conn, c: Byte, msec: int, ready: nat -> bool, elapsed: nat -> int,
                  n: nat, o: Outcome, e: Conn)
    requires s.Valid() && Reads(s, c, msec, ready, elapsed, n, o, e)
    requires msec == -1 || (msec > 0 && forall k: nat :: ready(k) && TimeLeft(msec, elapsed, k) > 0)
    requires Broken !in s.wire
    ensures
      var all := s.unread + Flat(s.wire);
      IndexOf(all, c, 0) < |all| && IndexOf(all, c, 0) < FULL ==> o.Line?
  {
    hide Receive, Flat, Weight, After, Lost, Comes, Goes;
    if !o.Line? {
      NoLineMeans(s, c, msec, ready, elapsed, n, o, e);
      AfterKeeps(s, n);
      var t := After(s, n).value;
      IndexBehind(t.unread, Flat(t.wire), c);
      NothingComesIn();
      assert t.wire == [] ==> t.unread + Flat(t.wire) == t.unread;
    }
  }

  lemma NothingComesIn()
    ensures Flat([]) == []
  {
  }

  /** A call fails for the end of the connection only when that is on the wire. */
  lemma DisconnectedWhy(s: Conn, c: Byte, msec: int, ready: nat -> bool, elapsed: nat -> int, n: nat, e: Conn)
    requires s.Valid() && Reads(s, c, msec, ready, elapsed, n, Failed(Disconnected), e)
    ensures Broken in s.wire && After(s, n).value.wire != [] && After(s, n).value.wire[0] == Broken
  {
    hide Receive, After, Flat, Lost;
    AfterKeeps(s, n);
    ReceiveKeeps(After(s, n).value);
  }

  /** The time left when every turn sees the same time passed since the start. */
  lemma {:induction false} TimeLeftSteady(msec: int, elapsed: nat -> int, n: nat, x: int)
    requires forall k: nat :: elapsed(k) == x
    ensures TimeLeft(msec, elapsed, n) == msec - n * x
    decreases n
  {
    if n > 0 {
      TimeLeftSteady(msec, elapsed, n - 1, x);
      assert n * x == (n - 1) * x + x;
    }
  }
}

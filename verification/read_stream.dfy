/** The read(2) system call as seen by the socket helpers, modelled as an
    oracle: a file descriptor is a finite sequence of events the kernel will
    deliver. Avail(d) is data waiting to be read; a read of `count` bytes
    takes at most `count` of it and leaves the rest queued. Eof makes one
    read return 0, Fail(e) makes one read return -1 with errno e. An empty
    Avail and the end of the event list also read as 0 (end of file). */
module ReadStream {

  const EINTR: int := 4

  datatype Event<T> = Avail(data: seq<T>) | Eof | Fail(errno: int)

  type Stream<T> = seq<Event<T>>

  /** The value returned by one read(): the bytes placed in the buffer
      (their count is the return value; none means 0, end of file),
      or -1 with errno. */
  datatype Reply<T> = Bytes(data: seq<T>) | Error(errno: int)

  /** How the data before the first end-of-file or error ends. */
  datatype Termination = AtEof | AtError(errno: int)

  function Size<T>(s: Stream<T>): nat
  {
    if |s| == 0 then 0
    else (match s[0] case Avail(d) => 1 + |d| case _ => 1) + Size(s[1..])
  }

  /** One call read(fd, buf, count). */
  function Read<T>(s: Stream<T>, count: nat): (res: (Reply<T>, Stream<T>))
    ensures res.0.Bytes? ==> |res.0.data| <= count
    ensures res.0 != Bytes([]) ==> Size(res.1) < Size(s)
  {
    if |s| == 0 then (Bytes([]), s)
    else match s[0]
      case Avail(d) =>
        if count == 0 then (Bytes([]), s)
        else if |d| <= count then (Bytes(d), s[1..])
        else (Bytes(d[..count]), [Avail(d[count..])] + s[1..])
      case Eof => (Bytes([]), s[1..])
      case Fail(e) => (Error(e), s[1..])
  }

  /** Whether an error reply is retried: readn() restarts a read that failed
      with EINTR, readLineBuf() does not. */
  predicate Transparent<T>(ev: Event<T>, restart: bool)
  {
    ev.Fail? && restart && ev.errno == EINTR
  }

  /** All the data the stream delivers before its first end of file or
      (non-retried) error, in order. */
  function Data<T>(s: Stream<T>, restart: bool): seq<T>
  {
    if |s| == 0 then []
    else match s[0]
      case Avail(d) => if |d| == 0 then [] else d + Data(s[1..], restart)
      case Eof => []
      case Fail(e) => if restart && e == EINTR then Data(s[1..], restart) else []
  }

  /** Whether that data ends in end of file or in an error. */
  function Term<T>(s: Stream<T>, restart: bool): Termination
  {
    if |s| == 0 then AtEof
    else match s[0]
      case Avail(d) => if |d| == 0 then AtEof else Term(s[1..], restart)
      case Eof => AtEof
      case Fail(e) => if restart && e == EINTR then Term(s[1..], restart) else AtError(e)
  }

  /** The stream left once a reader has taken all of the data and the read
      that reported its end: the events after the end of file or error
      that Data and Term stop at. */
  function After<T>(s: Stream<T>, restart: bool): Stream<T>
  {
    if |s| == 0 then []
    else match s[0]
      case Avail(d) => if |d| == 0 then s[1..] else After(s[1..], restart)
      case Eof => s[1..]
      case Fail(e) => if restart && e == EINTR then After(s[1..], restart) else s[1..]
  }

  /** A read that returns data or is retried leaves the same end behind; a
      read that returns 0 or a final error is the read that reports the end,
      and leaves the stream after it. */
  lemma ReadAfter<T>(s: Stream<T>, count: nat, restart: bool)
    requires count > 0
    ensures var (rep, s') := Read(s, count);
      if (rep.Bytes? && |rep.data| > 0) || (rep.Error? && restart && rep.errno == EINTR)
      then After(s', restart) == After(s, restart)
      else s' == After(s, restart)
  {
    if |s| > 0 && s[0].Avail? && 0 < count < |s[0].data| {
      var s' := [Avail(s[0].data[count..])] + s[1..];
      assert s'[1..] == s[1..];
    }
  }

  /** What one read does to the data still to come: the bytes it returns are
      a prefix of it and the remainder stays queued; a 0 return means the data
      is exhausted by end of file; an error is either retried (and then
      consumes nothing) or it is where the data ends. */
  lemma ReadStep<T>(s: Stream<T>, count: nat, restart: bool)
    requires count > 0
    ensures var (rep, s') := Read(s, count);
      match rep
      case Bytes(d) =>
        if |d| == 0 then Data(s, restart) == [] && Term(s, restart) == AtEof
        else Data(s, restart) == d + Data(s', restart) && Term(s', restart) == Term(s, restart)
      case Error(e) =>
        if restart && e == EINTR then Data(s', restart) == Data(s, restart) && Term(s', restart) == Term(s, restart)
        else Data(s, restart) == [] && Term(s, restart) == AtError(e)
  {
    if |s| > 0 && s[0].Avail? && 0 < count < |s[0].data| {
      var d, rest := s[0].data, Data(s[1..], restart);
      var s' := [Avail(d[count..])] + s[1..];
      assert s'[1..] == s[1..];
      assert Data(s', restart) == d[count..] + rest;
      SplitAppend(d, count, rest);
    }
  }

  lemma SplitAppend<T>(d: seq<T>, k: nat, rest: seq<T>)
    requires k <= |d|
    ensures d + rest == d[..k] + (d[k..] + rest)
  {
    assert d == d[..k] + d[k..];
  }
}

/** readn() of sockets/rdwrn.c: read exactly n bytes, restarting after
    partial reads and after reads interrupted by a signal (EINTR). */
module Rdwrn {
  import opened ReadStream

  /** The outcome of readn(): the bytes placed in the buffer (the return
      value is their count) or -1 with errno. */
  datatype ReadnResult<T> = Done(data: seq<T>) | Failed(errno: int)

  /** Reference behaviour: the first n bytes of the stream's data; fewer only
      when the data ends in end of file; -1 when it ends in an error first. */
  function ReadnSpec<T>(s: Stream<T>, n: nat): ReadnResult<T>
  {
    var d := Data(s, true);
    if |d| >= n then Done(d[..n])
    else match Term(s, true)
      case AtEof => Done(d)
      case AtError(e) => Failed(e)
  }

  method Readn<T>(s: Stream<T>, n: nat) returns (r: ReadnResult<T>, rest: Stream<T>)
    ensures r == ReadnSpec(s, n)
    ensures r.Done? ==> |r.data| <= n
    ensures r.Done? && |r.data| < n ==> Term(s, true) == AtEof
    ensures r.Failed? ==> r.errno != EINTR
    ensures r.Done? && |r.data| == n ==>
      Data(s, true) == r.data + Data(rest, true) && Term(rest, true) == Term(s, true)
  {
    var buf: seq<T> := [];
    var cur := s;
    while |buf| < n
      invariant |buf| <= n
      invariant Data(s, true) == buf + Data(cur, true)
      invariant Term(cur, true) == Term(s, true)
      decreases Size(cur)
    {
      var (reply, next) := Read(cur, n - |buf|);
      ReadStep(cur, n - |buf|, true);
      match reply {
        case Bytes(d) =>
          if |d| == 0 {
            // End of file: return what has been read so far (maybe nothing).
            assert Data(s, true) == buf;
            return Done(buf), next;
          }
          buf := buf + d;
          cur := next;
        case Error(e) =>
          if e == EINTR {
            cur := next;
          } else {
            assert Data(s, true) == buf;
            return Failed(e), next;
          }
      }
    }
    assert Data(s, true)[..n] == buf;
    return Done(buf), cur;
  }
}

/** readLineBufInit() and readLineBuf() of sockets/read_line_buf.c: a line
    reader that fetches input in blocks of RL_MAX_BUF characters and hands
    out one line per call, keeping the rest of the block for later calls. */
module ReadLineBuf {
  import opened ReadStream

  /** Block size declared in read_line_buf.h, which is not part of this
      model; its value here is an assumption. Only the chunking of reads
      depends on it: no contract relies on the number. */
  const RL_MAX_BUF: nat := 4096

  const EINVAL: int := 22

  /** struct ReadLineBuf: the descriptor, the block buffer, the number of
      characters the last read() placed in it (or -1 after a failed read),
      and the index of the next unconsumed character. */
  datatype RlBuf = RlBuf(fd: int, buf: seq<char>, len: int, next: int)

  /** The shape every RlBuf has: a full-size block, a length that is a read()
      return value, and a cursor inside the block. */
  predicate Valid(rl: RlBuf)
  {
    && |rl.buf| == RL_MAX_BUF
    && -1 <= rl.len <= RL_MAX_BUF
    && 0 <= rl.next <= RL_MAX_BUF
  }

  /** Characters read from the descriptor but not yet handed out. */
  function Pending(rl: RlBuf): seq<char>
    requires Valid(rl)
  {
    if rl.next < rl.len then rl.buf[rl.next..rl.len] else []
  }

  /** readLineBufInit(): attach the descriptor and empty the buffer. The block
      contents are left as they were. */
  function Init(fd: int, rl: RlBuf): (r: RlBuf)
    requires |rl.buf| == RL_MAX_BUF
    ensures Valid(r) && r.fd == fd
    ensures Pending(r) == []
    ensures r.next <= r.len
  {
    RlBuf(fd, rl.buf, 0, 0)
  }

  /** The outcome of readLineBuf(): the characters stored in the caller's
      buffer (their count is the return value), or -1 with errno. */
  datatype LineResult = Line(chars: seq<char>) | Invalid | ReadFailed(errno: int)

  /** The index of the first newline, if any. */
  function NewlineIndex(s: seq<char>): (r: int)
    ensures -1 <= r < |s|
    ensures r >= 0 ==> s[r] == '\n' && '\n' !in s[..r]
    ensures r == -1 ==> '\n' !in s
  {
    if |s| == 0 then -1
    else if s[0] == '\n' then 0
    else
      var k := NewlineIndex(s[1..]);
      assert s == [s[0]] + s[1..];
      if k == -1 then -1
      else
        assert s[..k + 1] == [s[0]] + s[1..][..k];
        k + 1
  }

  function Min(a: int, b: int): int { if a <= b then a else b }

  /** Everything the next call can hand out: the buffered characters, then
      the descriptor's data up to its first end of file or error. A read
      interrupted by a signal is an error here: readLineBuf() does not retry. */
  function Available(rl: RlBuf, s: Stream<char>): seq<char>
    requires Valid(rl)
  {
    Pending(rl) + Data(s, false)
  }

  /** Reference behaviour of one call with a buffer of n > 0 characters: the
      line up to and including its newline, cut to n characters; without a
      newline, what precedes end of file (possibly nothing), or -1 if the
      input instead ends in an error. */
  function LineSpec(avail: seq<char>, term: Termination, n: nat): LineResult
  {
    var i := NewlineIndex(avail);
    if i >= 0 then Line(avail[..Min(i + 1, n)])
    else match term
      case AtEof => Line(avail[..Min(|avail|, n)])
      case AtError(e) => ReadFailed(e)
  }

  /** Taking the next buffered character. */
  lemma TakeNext(rl: RlBuf)
    requires Valid(rl) && rl.next < rl.len
    ensures Valid(rl.(next := rl.next + 1))
    ensures Pending(rl) == [rl.buf[rl.next]] + Pending(rl.(next := rl.next + 1))
  {
  }

  /** Refilling an exhausted buffer with the d characters read() returned. */
  lemma Refill(rl: RlBuf, d: seq<char>)
    requires Valid(rl) && 0 < |d| <= RL_MAX_BUF
    ensures Valid(rl.(buf := d + rl.buf[|d|..], len := |d|, next := 0))
    ensures Pending(rl.(buf := d + rl.buf[|d|..], len := |d|, next := 0)) == d
  {
    assert (d + rl.buf[|d|..])[0..|d|] == d;
  }

  /** Consumption that ends at the first newline of the input. */
  lemma FirstNewline(avail: seq<char>, consumed: seq<char>, rest: seq<char>)
    requires avail == consumed + rest
    requires |consumed| > 0 && consumed[|consumed| - 1] == '\n'
    requires '\n' !in consumed[..|consumed| - 1]
    ensures NewlineIndex(avail) == |consumed| - 1
    ensures avail[|consumed|..] == rest
  {
    assert avail[|consumed| - 1] == '\n';
    assert forall j :: 0 <= j < |consumed| - 1 ==> avail[j] == consumed[..|consumed| - 1][j];
  }

  /** Consuming one more character keeps the input split into consumed and rest. */
  lemma Shift(avail: seq<char>, consumed: seq<char>, c: char, rest: seq<char>)
    requires avail == consumed + ([c] + rest)
    ensures avail == (consumed + [c]) + rest
  {
  }

  /** The call ends at a newline: the result is the line cut to n characters. */
  lemma LineAtNewline(avail: seq<char>, consumed: seq<char>, rest: seq<char>, out: seq<char>, n: nat, term: Termination)
    requires avail == consumed + rest
    requires |consumed| > 0 && consumed[|consumed| - 1] == '\n'
    requires '\n' !in consumed[..|consumed| - 1]
    requires out == consumed[..Min(|consumed|, n)]
    ensures NewlineIndex(avail) == |consumed| - 1
    ensures LineSpec(avail, term, n) == Line(out)
    ensures avail[NewlineIndex(avail) + 1..] == rest
  {
    FirstNewline(avail, consumed, rest);
    assert avail[..Min(|consumed|, n)] == consumed[..Min(|consumed|, n)];
  }

  /** The input ran out before any newline. */
  lemma LineAtEnd(avail: seq<char>, out: seq<char>, n: nat, term: Termination)
    requires '\n' !in avail
    requires out == avail[..Min(|avail|, n)]
    ensures NewlineIndex(avail) == -1
    ensures LineSpec(avail, term, n) == if term.AtEof? then Line(out) else ReadFailed(term.errno)
  {
  }

  /** Outcome of the refill step at the top of readLineBuf()'s loop. */
  datatype Fill = Ready | AtEnd | Failed(errno: int)

  /** The refill step: when every buffered character has been consumed, read
      up to RL_MAX_BUF more. On end of file len becomes 0, on error -1. */
  method FillBuffer(cur: RlBuf, src: Stream<char>) returns (f: Fill, cur': RlBuf, src': Stream<char>)
    requires Valid(cur)
    ensures Valid(cur') && cur'.fd == cur.fd
    ensures f.Ready? ==>
      && cur'.next < cur'.len
      && Available(cur', src') == Available(cur, src) && Term(src', false) == Term(src, false)
    ensures f.AtEnd? ==> Available(cur, src) == [] && Term(src, false) == AtEof && Pending(cur') == []
    ensures f.Failed? ==> Available(cur, src) == [] && Term(src, false) == AtError(f.errno) && Pending(cur') == []
    ensures f.Ready? ==> After(src', false) == After(src, false)
    ensures !f.Ready? ==> src' == After(src, false)
    ensures cur.next < cur.len ==> f.Ready? && cur' == cur && src' == src
  {
    if cur.next < cur.len {
      return Ready, cur, src;
    }
    var (reply, next) := Read(src, RL_MAX_BUF);
    ReadStep(src, RL_MAX_BUF, false);
    ReadAfter(src, RL_MAX_BUF, false);
    match reply {
      case Error(e) =>
        return Failed(e), cur.(len := -1), next;
      case Bytes(d) =>
        if |d| == 0 {
          return AtEnd, cur.(len := 0), next;
        }
        Refill(cur, d);
        return Ready, cur.(buf := d + cur.buf[|d|..], len := |d|, next := 0), next;
    }
  }

  /** The character fetch rlbuf->buf[rlbuf->next++]. */
  method TakeChar(cur: RlBuf, src: Stream<char>) returns (c: char, cur': RlBuf)
    requires Valid(cur) && cur.next < cur.len
    ensures Valid(cur') && cur'.fd == cur.fd
    ensures Available(cur, src) == [c] + Available(cur', src)
  {
    c := cur.buf[cur.next];
    TakeNext(cur);
    cur' := cur.(next := cur.next + 1);
  }

  /** One pass of readLineBuf()'s loop up to the character fetch: refill if
      needed, then take the next character. */
  method NextChar(cur: RlBuf, src: Stream<char>) returns (f: Fill, c: char, cur': RlBuf, src': Stream<char>)
    requires Valid(cur)
    ensures Valid(cur') && cur'.fd == cur.fd
    ensures f.Ready? ==>
      && Available(cur, src) == [c] + Available(cur', src')
      && Term(src', false) == Term(src, false)
    ensures f.AtEnd? ==> Available(cur, src) == [] && Term(src, false) == AtEof && Pending(cur') == []
    ensures f.Failed? ==> Available(cur, src) == [] && Term(src, false) == AtError(f.errno) && Pending(cur') == []
    ensures f.Ready? ==> After(src', false) == After(src, false)
    ensures !f.Ready? ==> src' == After(src, false)
  {
    var filled;
    f, filled, src' := FillBuffer(cur, src);
    if f.Ready? {
      c, cur' := TakeChar(filled, src');
    } else {
      c, cur' := ' ', filled;
    }
  }

  /** What the caller sees when readLineBuf() returns after a newline. */
  lemma ReturnAtNewline(rl: RlBuf, s: Stream<char>, cur: RlBuf, src: Stream<char>,
                        consumed: seq<char>, out: seq<char>, n: nat)
    requires Valid(rl) && Valid(cur) && n > 0
    requires Available(rl, s) == consumed + Available(cur, src)
    requires |consumed| > 0 && consumed[|consumed| - 1] == '\n'
    requires '\n' !in consumed[..|consumed| - 1]
    requires out == consumed[..Min(|consumed|, n)]
    requires Term(src, false) == Term(s, false)
    ensures Line(out) == LineSpec(Available(rl, s), Term(s, false), n)
    ensures |out| <= n
    ensures NewlineIndex(Available(rl, s)) >= 0
    ensures Available(cur, src) == Available(rl, s)[NewlineIndex(Available(rl, s)) + 1..]
  {
    LineAtNewline(Available(rl, s), consumed, Available(cur, src), out, n, Term(s, false));
  }

  /** What the caller sees when the input ends before a newline. */
  lemma ReturnAtEnd(rl: RlBuf, s: Stream<char>, consumed: seq<char>, out: seq<char>, n: nat)
    requires Valid(rl) && n > 0
    requires Available(rl, s) == consumed && '\n' !in consumed
    requires out == consumed[..Min(|consumed|, n)]
    ensures NewlineIndex(Available(rl, s)) < 0
    ensures Term(s, false).AtEof? ==> Line(out) == LineSpec(Available(rl, s), Term(s, false), n)
    ensures Term(s, false).AtError? ==>
      ReadFailed(Term(s, false).errno) == LineSpec(Available(rl, s), Term(s, false), n)
    ensures |out| <= n
  {
    LineAtEnd(Available(rl, s), out, n, Term(s, false));
  }

  method ReadLine(rl: RlBuf, s: Stream<char>, n: nat, bufferIsNull: bool)
    returns (r: LineResult, rl': RlBuf, s': Stream<char>)
    requires Valid(rl)
    ensures Valid(rl') && rl'.fd == rl.fd
    ensures n == 0 || bufferIsNull ==> r == Invalid && rl' == rl && s' == s
    ensures n > 0 && !bufferIsNull ==> r == LineSpec(Available(rl, s), Term(s, false), n)
    ensures r.Line? ==> |r.chars| <= n
    // After a newline, the characters behind it remain for the next call.
    ensures r.Line? && NewlineIndex(Available(rl, s)) >= 0 ==>
      && Available(rl', s') == Available(rl, s)[NewlineIndex(Available(rl, s)) + 1..]
      && Term(s', false) == Term(s, false)
    // At end of file or after a failed read nothing stays buffered, and the
    // descriptor is left just past the read that reported the end.
    ensures (r.Line? && NewlineIndex(Available(rl, s)) < 0) || r.ReadFailed? ==>
      Pending(rl') == [] && s' == After(s, false)
  {
    if n == 0 || bufferIsNull {
      return Invalid, rl, s;
    }
    ghost var consumed: seq<char> := [];
    var out: seq<char> := [];
    var cur := rl;
    var src := s;
    while true
      invariant Valid(cur) && cur.fd == rl.fd
      invariant Available(rl, s) == consumed + Available(cur, src)
      invariant '\n' !in consumed
      invariant out == consumed[..Min(|consumed|, n)]
      invariant Term(src, false) == Term(s, false)
      invariant After(src, false) == After(s, false)
      decreases |Available(cur, src)|
    {
      var f, c;
      f, c, cur, src := NextChar(cur, src);
      if !f.Ready? {
        assert consumed + [] == consumed;
        ReturnAtEnd(rl, s, consumed, out, n);
        if f.Failed? {
          return ReadFailed(f.errno), cur, src;
        }
        // End of file: hand out what was gathered.
        return Line(out), cur, src;
      }
      Shift(Available(rl, s), consumed, c, Available(cur, src));
      if |out| < n {
        out := out + [c];
      }
      ghost var prefix := consumed;
      consumed := consumed + [c];
      assert consumed[..|consumed| - 1] == prefix;
      if c == '\n' {
        ReturnAtNewline(rl, s, cur, src, consumed, out, n);
        return Line(out), cur, src;
      }
    }
  }
}

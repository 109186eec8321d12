/** unixBuildAddress() of sockets/unix_sockets.c: fill in a UNIX domain
    socket address for a path name.

    The function's header comment says it returns "-1 on success, or 0 on
    error"; the code does the reverse, and this model follows the code. */
module UnixSockets {
  import opened Wrappers

  const AF_UNIX: int := 1
  const EINVAL: int := 22
  const ENAMETOOLONG: int := 36

  /** sizeof(((struct sockaddr_un *) 0)->sun_path) on Linux. */
  const SUN_PATH_SIZE: nat := 108

  /** struct sockaddr_un: the address family and the path buffer. */
  datatype SockaddrUn = SockaddrUn(family: int, sunPath: seq<char>)

  /** A C string in memory: the characters from the pointer on, which
      include a terminating NUL somewhere. */
  predicate IsCString(s: seq<char>)
  {
    '\0' in s
  }

  /** strlen(): the index of the first NUL. */
  function StrLen(s: seq<char>): (n: nat)
    requires IsCString(s)
    ensures n < |s| && s[n] == '\0' && '\0' !in s[..n]
  {
    if s[0] == '\0' then 0
    else
      var n := StrLen(s[1..]);
      assert s[..n + 1] == [s[0]] + s[1..][..n];
      n + 1
  }

  /** memset(addr, 0, sizeof(struct sockaddr_un)) followed by setting the family. */
  function Cleared(): (a: SockaddrUn)
    ensures a.family == AF_UNIX && |a.sunPath| == SUN_PATH_SIZE
    ensures forall i :: 0 <= i < SUN_PATH_SIZE ==> a.sunPath[i] == '\0'
  {
    SockaddrUn(AF_UNIX, seq(SUN_PATH_SIZE, _ => '\0'))
  }

  /** strncpy(dst, src, n): the first n bytes become src's characters up to
      its terminator, then NULs; the rest of dst is untouched. */
  function Strncpy(dst: seq<char>, src: seq<char>, n: nat): (r: seq<char>)
    requires IsCString(src) && n <= |dst|
    ensures |r| == |dst|
    ensures forall i :: 0 <= i < n ==> r[i] == if i < StrLen(src) then src[i] else '\0'
    ensures r[n..] == dst[n..]
  {
    seq(|dst|, i requires 0 <= i < |dst| =>
      if i < n then (if i < StrLen(src) then src[i] else '\0') else dst[i])
  }

  /** The outcome of a call: the return value, errno afterwards, and the
      address structure afterwards (None for a null pointer). */
  datatype Built = Built(ret: int, errno: int, addr: Option<SockaddrUn>)

  /** unixBuildAddress(path, addr); `errno` is its value before the call. */
  function BuildAddress(path: Option<seq<char>>, addr: Option<SockaddrUn>, errno: int): (r: Built)
    requires path.Some? ==> IsCString(path.value)
    // A null pointer: EINVAL, nothing written.
    ensures path.None? || addr.None? ==> r == Built(-1, EINVAL, addr)
    // Too long: ENAMETOOLONG, the structure is already cleared.
    ensures path.Some? && addr.Some? && StrLen(path.value) >= SUN_PATH_SIZE ==>
      r == Built(-1, ENAMETOOLONG, Some(Cleared()))
    // Success: 0, errno untouched, the path copied and the rest zeroed.
    ensures path.Some? && addr.Some? && StrLen(path.value) < SUN_PATH_SIZE ==>
      && r.ret == 0 && r.errno == errno && r.addr.Some?
      && r.addr.value.family == AF_UNIX
      && |r.addr.value.sunPath| == SUN_PATH_SIZE
      && r.addr.value.sunPath[..StrLen(path.value)] == path.value[..StrLen(path.value)]
      && forall i :: StrLen(path.value) <= i < SUN_PATH_SIZE ==> r.addr.value.sunPath[i] == '\0'
  {
    if addr.None? || path.None? then Built(-1, EINVAL, addr)
    else
      var a := Cleared();
      if StrLen(path.value) < SUN_PATH_SIZE then
        Built(0, errno, Some(a.(sunPath := Strncpy(a.sunPath, path.value, SUN_PATH_SIZE - 1))))
      else
        Built(-1, ENAMETOOLONG, addr.(value := a))
  }

  /** The address built on success is a C string again (strncpy copies at
      most 107 bytes into a zeroed buffer), and reading it back gives exactly
      the path name. */
  lemma PathRoundTrip(path: seq<char>, addr: SockaddrUn, errno: int)
    requires IsCString(path) && StrLen(path) < SUN_PATH_SIZE
    ensures var r := BuildAddress(Some(path), Some(addr), errno);
      && r.addr.Some?
      && r.addr.value.sunPath[SUN_PATH_SIZE - 1] == '\0'
      && IsCString(r.addr.value.sunPath)
      && StrLen(r.addr.value.sunPath) == StrLen(path)
      && r.addr.value.sunPath[..StrLen(path)] == path[..StrLen(path)]
  {
    var r := BuildAddress(Some(path), Some(addr), errno);
    var sp := r.addr.value.sunPath;
    var n := StrLen(path);
    assert sp[n] == '\0';
    assert '\0' !in sp[..n] by {
      assert sp[..n] == path[..n];
    }
    StrLenAt(sp, n);
  }

  /** A NUL at n with none before it is where strlen() stops. */
  lemma {:induction false} StrLenAt(s: seq<char>, n: nat)
    requires n < |s| && s[n] == '\0' && '\0' !in s[..n]
    ensures IsCString(s) && StrLen(s) == n
    decreases n
  {
    if n > 0 {
      assert s[0] == s[..n][0];
      assert s[1..][..n - 1] == s[..n][1..];
      StrLenAt(s[1..], n - 1);
    }
  }
}

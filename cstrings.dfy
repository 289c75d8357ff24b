/**
  Bytes and NUL-terminated byte strings, as the C code handles them with
  `strlen`, `strcpy` and `strcmp`.
  A C string held in a sequence ends at its first NUL byte, or at the end of
  the sequence when it has none.
 */
module CStrings {

  /** One `char`, seen as the `unsigned char` value the C library works on. */
  type byte = x: int | 0 <= x < 256

  const NUL: byte := 0
  const NL: byte := 10

  function Min(a: int, b: int): int
  {
    if a <= b then a else b
  }

  /** Position of the first `b` in `s`, or `|s|` when `s` holds no `b`. */
  function IndexOf(s: seq<byte>, b: byte): (k: nat)
    ensures k <= |s|
    ensures k < |s| ==> s[k] == b
    ensures b !in s[..k]
  {
    if s == [] || s[0] == b then 0 else 1 + IndexOf(s[1..], b)
  }

  /** The value `strlen` computes on a buffer holding `s`. */
  function CStrLen(s: seq<byte>): nat
  {
    IndexOf(s, NUL)
  }

  /** The string a buffer holding `s` denotes: its bytes before the first NUL. */
  function CStr(s: seq<byte>): (r: seq<byte>)
    ensures r == s[..CStrLen(s)]
    ensures NUL !in r
  {
    s[..CStrLen(s)]
  }

  /** A sequence without NUL is a C string of its own: all of it counts. */
  lemma CStrOfNulFree(s: seq<byte>)
    requires NUL !in s
    ensures CStrLen(s) == |s| && CStr(s) == s
  {
  }

  /** A NUL at index `j` ends the string there at the latest. */
  lemma CStrCutAt(s: seq<byte>, j: nat)
    requires j < |s| && s[j] == NUL
    ensures CStrLen(s) <= j
    ensures CStr(s) == CStr(s[..j])
  {
    assert s[..j][..CStrLen(s[..j])] == s[..CStrLen(s[..j])];
  }

  /** `k` NUL bytes. */
  function Zeros(k: nat): (r: seq<byte>)
    ensures |r| == k
    ensures NUL !in r ==> k == 0
    ensures forall j :: 0 <= j < k ==> r[j] == NUL
  {
    if k == 0 then [] else [NUL] + Zeros(k - 1)
  }

  /** The first `b` of a sequence that has no `b` before index `|p|` is at `|p|`. */
  lemma IndexOfFirst(p: seq<byte>, b: byte, rest: seq<byte>)
    requires b !in p
    ensures IndexOf(p + [b] + rest, b) == |p|
  {
    var s := p + [b] + rest;
    assert s[|p|] == b;
    assert s[..|p|] == p;
  }

  /** A NUL-free prefix followed by NUL is exactly the string denoted. */
  lemma CStrOfTerminated(p: seq<byte>, rest: seq<byte>)
    requires NUL !in p
    ensures CStrLen(p + [NUL] + rest) == |p|
    ensures CStr(p + [NUL] + rest) == p
  {
    IndexOfFirst(p, NUL, rest);
    assert (p + [NUL] + rest)[..|p|] == p;
  }

  /** The string of a string is itself. */
  lemma CStrIdempotent(s: seq<byte>)
    ensures CStr(CStr(s)) == CStr(s)
  {
    CStrOfNulFree(CStr(s));
  }

  /** `strlen` on an array: counts the bytes before the first NUL. */
  method StrLen(a: array<byte>) returns (n: nat)
    requires CStrLen(a[..]) < a.Length
    ensures n == CStrLen(a[..])
  {
    n := 0;
    while a[n] != NUL
      invariant n <= CStrLen(a[..])
      decreases CStrLen(a[..]) - n
    {
      n := n + 1;
    }
  }

  /** `strcpy(dst, src)`: the string in `src` and its NUL move to the front of `dst`. */
  method StrCpy(dst: array<byte>, src: array<byte>)
    requires dst != src
    requires CStrLen(src[..]) < src.Length && CStrLen(src[..]) < dst.Length
    modifies dst
    ensures dst[..] == CStr(src[..]) + [NUL] + old(dst[CStrLen(src[..]) + 1..])
  {
    ghost var n := CStrLen(src[..]);
    var i := 0;
    while src[i] != NUL
      invariant i <= n
      invariant forall k :: 0 <= k < i ==> dst[k] == src[k]
      invariant forall k :: i <= k < dst.Length ==> dst[k] == old(dst[k])
      decreases n - i
    {
      dst[i] := src[i];
      i := i + 1;
    }
    dst[i] := NUL;
    assert i == n;
    assert dst[..] == CStr(src[..]) + [NUL] + old(dst[n + 1..]) by {
      assert forall k :: 0 <= k < dst.Length ==>
        dst[..][k] == (CStr(src[..]) + [NUL] + old(dst[n + 1..]))[k];
    }
  }

  /**
    The bytes `strncpy(dst, src, n)` leaves in a buffer that held `d`: the
    first `n` bytes of the string `src` denotes, padded with NUL up to `n`.
   */
  function StrNCpyOf(d: seq<byte>, src: seq<byte>, n: nat): (r: seq<byte>)
    requires n <= |d|
  {
    var m := Min(CStrLen(src), n);
    src[..m] + Zeros(n - m) + d[n..]
  }

  /**
    `strncpy(dst, src, n)`: copy `src` up to its NUL or `n` bytes, then fill
    the rest of the first `n` bytes with NUL. Bytes past `n` are untouched.
   */
  method StrNCpy(dst: array<byte>, src: seq<byte>, n: nat)
    requires n <= dst.Length
    modifies dst
    ensures dst[..] == StrNCpyOf(old(dst[..]), src, n)
  {
    ghost var m := Min(CStrLen(src), n);
    var i := 0;
    while i < n && i < |src| && src[i] != NUL
      invariant i <= m
      invariant forall k :: 0 <= k < i ==> dst[k] == src[k]
      invariant forall k :: i <= k < dst.Length ==> dst[k] == old(dst[k])
      decreases n - i
    {
      dst[i] := src[i];
      i := i + 1;
    }
    while i < n
      invariant m <= i <= n
      invariant forall k :: 0 <= k < m ==> dst[k] == src[k]
      invariant forall k :: m <= k < i ==> dst[k] == NUL
      invariant forall k :: i <= k < dst.Length ==> dst[k] == old(dst[k])
      decreases n - i
    {
      dst[i] := NUL;
      i := i + 1;
    }
    assert forall k :: 0 <= k < dst.Length ==> dst[..][k] == StrNCpyOf(old(dst[..]), src, n)[k];
  }
}

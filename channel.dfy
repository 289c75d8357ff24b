/**
  A named pipe (FIFO) as the client and the server see it through `read`
  and `write`. The pipe holds every byte written to it; readers consume
  them in order from `pos`.

  What the kernel decides is left open: a read that finds bytes waiting
  delivers at least one and at most as many as were asked for, `ready`
  says how many it hands over; a read that finds nothing left reports end
  of file (0), where a real FIFO would block while a writer holds it open, or, when the pipe `fails`, an error (-1). A write to a pipe
  whose reader is gone (`broken`) appends nothing and returns -1, the
  `EPIPE` result; under the default action for `SIGPIPE`, which neither
  program changes, the writing process would be killed instead.
 */
module Channel {
  import opened CStrings

  /**
    The value `read(fd, buf, count)` returns when `pos` bytes of `data` have
    been consumed and the kernel is willing to hand over `ready` of them.
   */
  function ReadCount(data: seq<byte>, pos: nat, fails: bool, count: nat, ready: nat): (n: int)
    requires pos <= |data|
    ensures -1 <= n <= count && n <= |data| - pos
    ensures n == -1 <==> count > 0 && pos == |data| && fails
    ensures n > 0 <==> count > 0 && pos < |data|
    ensures 0 < count && 0 < ready <= |data| - pos ==> n == Min(ready, count)
  {
    if count == 0 then 0
    else if pos == |data| then (if fails then -1 else 0)
    else Min(if ready == 0 then 1 else ready, Min(count, |data| - pos))
  }

  class Fifo {
    var contents: seq<byte>  // every byte written to the pipe so far
    var pos: nat             // how many of them readers have consumed
    var fails: bool          // a read at the end reports an error, not end of file
    var broken: bool         // no reader is attached: writes fail

    ghost predicate Valid()
      reads this
    {
      pos <= |contents|
    }

    constructor (data: seq<byte>, fails: bool, broken: bool)
      ensures Valid()
      ensures contents == data && pos == 0 && this.fails == fails && this.broken == broken
    {
      contents, pos := data, 0;
      this.fails, this.broken := fails, broken;
    }

    /** `read(fd, &dst[off], count)`. */
    method Read(dst: array<byte>, off: nat, count: nat, ready: nat) returns (n: int)
      requires Valid() && off + count <= dst.Length
      modifies this`pos, dst
      ensures Valid()
      ensures n == ReadCount(contents, old(pos), fails, count, ready)
      ensures pos == old(pos) + (if n < 0 then 0 else n)
      ensures forall k :: 0 <= k < dst.Length ==>
        dst[k] == if off <= k < off + n then contents[old(pos) + k - off] else old(dst[k])
    {
      n := ReadCount(contents, pos, fails, count, ready);
      if n > 0 {
        forall k | off <= k < off + n {
          dst[k] := contents[pos + k - off];
        }
        pos := pos + n;
      }
    }

    /** `write(fd, bytes, |bytes|)`. */
    method Write(bytes: seq<byte>) returns (n: int)
      requires Valid()
      modifies this`contents
      ensures Valid()
      ensures n == if broken then -1 else |bytes|
      ensures contents == if broken then old(contents) else old(contents) + bytes
    {
      if broken {
        n := -1;
      } else {
        contents := contents + bytes;
        n := |bytes|;
      }
    }
  }
}

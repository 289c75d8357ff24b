/**
  One server session, `read_string`: read a request from the request FIFO,
  decode its filter name and its payload, filter the payload with
  `process_string` and write the result to the response FIFO.

  The request is framed as the filter name, one newline, then the payload.
  The filter name is read one byte at a time into `buffer` until a newline
  or until `FILTER_SIZE - 1` bytes have been read; only the newline case
  copies it into `filter`. The payload is then taken in one `read` of at
  most `BUFFER_SIZE - 1` bytes and NUL-terminated.

  `FILTER_SIZE` and `BUFFER_SIZE` are compile-time constants of the
  program; here they are the parameters `filterSize` and `bufferSize`.
 */
module Server {
  import opened Wrappers
  import opened CStrings
  import opened Transform
  import opened Channel

  /** The sizes the buffers of `read_string` can have: the filter scan writes `buffer[FILTER_SIZE - 1]`. */
  predicate ValidSizes(filterSize: nat, bufferSize: nat)
  {
    2 <= filterSize <= bufferSize
  }

  /** How the filter scan ended. */
  datatype Stop =
    | Delimiter    // a newline was read: the filter was copied into `filter`
    | Full         // `FILTER_SIZE - 1` bytes without a newline: `filter` is not assigned
    | EndOfStream  // `read` returned 0 first: `filter` is not assigned
    | ReadError    // `read` returned -1 first: the session ends

  /** The outcome of the filter scan: how it ended, how many bytes it read, and what `filter` holds. */
  datatype Scan = Scan(stop: Stop, consumed: nat, filter: Option<seq<byte>>)

  /**
    The filter scan from the point where it has read `i` bytes of the request
    starting at `start`, none of them a newline: one step per loop iteration.
   */
  function ScanFrom(data: seq<byte>, start: nat, fails: bool, filterSize: nat, i: nat): Scan
    requires start + i <= |data| && i < filterSize - 1
    decreases filterSize - i
  {
    if start + i == |data| then Scan(if fails then ReadError else EndOfStream, i, None)
    else if data[start + i] == NL then Scan(Delimiter, i + 1, Some(CStr(data[start..start + i])))
    else if i + 1 >= filterSize - 1 then Scan(Full, i + 1, None)
    else ScanFrom(data, start, fails, filterSize, i + 1)
  }

  /** The filter scan of the request that starts at `start`. */
  function FilterScan(data: seq<byte>, start: nat, fails: bool, filterSize: nat): Scan
    requires start <= |data| && 2 <= filterSize
  {
    ScanFrom(data, start, fails, filterSize, 0)
  }

  /** The first `FILTER_SIZE - 1` bytes of the request, or fewer if the stream holds fewer. */
  function Window(data: seq<byte>, start: nat, filterSize: nat): (w: seq<byte>)
    requires start <= |data| && 2 <= filterSize
    ensures |w| <= filterSize - 1
  {
    data[start..start + Min(filterSize - 1, |data| - start)]
  }

  /**
    The framing rule stated on the whole window at once, independently of the
    loop: the filter is what precedes the first newline of the window, if the
    window has one; otherwise nothing is decoded.
   */
  function WindowScan(data: seq<byte>, start: nat, fails: bool, filterSize: nat): Scan
    requires start <= |data| && 2 <= filterSize
  {
    var w := Window(data, start, filterSize);
    var j := IndexOf(w, NL);
    if j < |w| then Scan(Delimiter, j + 1, Some(CStr(w[..j])))
    else if |w| == filterSize - 1 then Scan(Full, filterSize - 1, None)
    else Scan(if fails then ReadError else EndOfStream, |w|, None)
  }

  lemma {:induction false} ScanFromIsWindowScan(data: seq<byte>, start: nat, fails: bool, filterSize: nat, i: nat)
    requires start + i <= |data| && i < filterSize - 1
    requires NL !in data[start..start + i]
    ensures ScanFrom(data, start, fails, filterSize, i) == WindowScan(data, start, fails, filterSize)
    decreases filterSize - i
  {
    var w := Window(data, start, filterSize);
    assert forall k :: 0 <= k < i && k < |w| ==> w[k] == data[start..start + i][k];
    if start + i == |data| {
      assert w == data[start..start + i];
    } else if data[start + i] == NL {
      assert w[i] == NL;
      assert IndexOf(w, NL) == i;
      assert w[..i] == data[start..start + i];
    } else if i + 1 >= filterSize - 1 {
      assert |w| == i + 1;
      assert NL !in w;
    } else {
      assert data[start..start + i + 1] == data[start..start + i] + [data[start + i]];
      ScanFromIsWindowScan(data, start, fails, filterSize, i + 1);
    }
  }

  /** The loop computes the framing rule. */
  lemma FilterScanIsWindowScan(data: seq<byte>, start: nat, fails: bool, filterSize: nat)
    requires start <= |data| && 2 <= filterSize
    ensures FilterScan(data, start, fails, filterSize) == WindowScan(data, start, fails, filterSize)
  {
    ScanFromIsWindowScan(data, start, fails, filterSize, 0);
  }

  /**
    Whatever the stream holds, the scan stops after at most `FILTER_SIZE - 1`
    bytes, and a decoded filter is at most `FILTER_SIZE - 2` bytes long, so
    that it and its NUL fit in `filter[FILTER_SIZE]`.
   */
  lemma ScanBounded(data: seq<byte>, start: nat, fails: bool, filterSize: nat)
    requires start <= |data| && 2 <= filterSize
    ensures var s := FilterScan(data, start, fails, filterSize);
      && 1 <= filterSize - 1
      && s.consumed <= filterSize - 1
      && s.consumed <= |data| - start
      && (s.filter.Some? <==> s.stop == Delimiter)
      && (s.filter.Some? ==> |s.filter.value| <= filterSize - 2 && NUL !in s.filter.value)
      && (s.stop == ReadError ==> fails)
  {
    FilterScanIsWindowScan(data, start, fails, filterSize);
  }

  /**
    A newline at index `j <= FILTER_SIZE - 2` of the request ends the filter:
    the filter is the string before it (cut at a NUL, as `strcpy` copies).
   */
  lemma ScanFindsDelimiter(data: seq<byte>, start: nat, fails: bool, filterSize: nat)
    requires start <= |data| && 2 <= filterSize
    requires IndexOf(data[start..], NL) <= filterSize - 2 && IndexOf(data[start..], NL) < |data| - start
    ensures var j := IndexOf(data[start..], NL);
      && FilterScan(data, start, fails, filterSize) == Scan(Delimiter, j + 1, Some(CStr(data[start..start + j])))
      && (NUL !in data[start..start + j] ==> FilterScan(data, start, fails, filterSize).filter == Some(data[start..start + j]))
  {
    var j := IndexOf(data[start..], NL);
    var w := Window(data, start, filterSize);
    FilterScanIsWindowScan(data, start, fails, filterSize);
    assert w[j] == NL;
    assert forall k :: 0 <= k < j ==> w[k] == data[start..][k];
    assert IndexOf(w, NL) == j;
    assert w[..j] == data[start..start + j];
    if NUL !in data[start..start + j] {
      CStrOfNulFree(data[start..start + j]);
    }
  }

  /**
    Without a newline among the first `FILTER_SIZE - 1` bytes no filter is
    decoded: the scan stops full after `FILTER_SIZE - 1` bytes, or at the end
    of the stream with end of file or a read error.
   */
  lemma ScanWithoutDelimiter(data: seq<byte>, start: nat, fails: bool, filterSize: nat)
    requires start <= |data| && 2 <= filterSize
    requires NL !in Window(data, start, filterSize)
    ensures var s := FilterScan(data, start, fails, filterSize);
      && s.filter == None
      && (|data| - start >= filterSize - 1 ==> s == Scan(Full, filterSize - 1, None))
      && (|data| - start < filterSize - 1 ==>
            s == Scan(if fails then ReadError else EndOfStream, |data| - start, None))
  {
    FilterScanIsWindowScan(data, start, fails, filterSize);
  }

  /** What `read_string` has decoded when it reaches `process_string`, or that it returned early. */
  datatype Decoding =
    | Aborted(consumed: nat)
    | Decoded(filter: Option<seq<byte>>, payload: seq<byte>, consumed: nat)

  /** Decoding of the request at `start`: the filter scan, then one payload `read`. */
  function Decode(data: seq<byte>, start: nat, fails: bool, ready: nat, filterSize: nat, bufferSize: nat): Decoding
    requires start <= |data| && ValidSizes(filterSize, bufferSize)
  {
    ScanBounded(data, start, fails, filterSize);
    var scan := FilterScan(data, start, fails, filterSize);
    if scan.stop == ReadError then Aborted(scan.consumed)
    else
      var at := start + scan.consumed;
      var n := ReadCount(data, at, fails, bufferSize - 1, ready);
      if n == -1 then Aborted(scan.consumed)
      else Decoded(scan.filter, data[at..at + n], scan.consumed + n)
  }

  /** The filter name `process_string` sees: the decoded one, or whatever `filter` held before. */
  function FilterSeen(filter: Option<seq<byte>>, stale: seq<byte>): seq<byte>
  {
    match filter
    case Some(name) => name
    case None => stale
  }

  /** A session's effect: the request bytes it consumed and the bytes it writes back, if it writes. */
  datatype Outcome = Outcome(consumed: nat, response: Option<seq<byte>>)

  /**
    One run of `read_string` on the request at `start`. `stale` is what the
    uninitialised `filter[FILTER_SIZE]` holds when the session starts.
   */
  function Serve(data: seq<byte>, start: nat, fails: bool, ready: nat, stale: seq<byte>,
                 filterSize: nat, bufferSize: nat): Outcome
    requires start <= |data| && ValidSizes(filterSize, bufferSize)
  {
    match Decode(data, start, fails, ready, filterSize, bufferSize)
    case Aborted(c) => Outcome(c, None)
    case Decoded(f, p, c) => Outcome(c, Some(Apply(CStr(p), FilterSeen(f, stale))))
  }

  /**
    A read error, in the filter scan or in the payload read, ends the session
    before anything is written; nothing else does.
   */
  lemma ReadErrorWritesNothing(data: seq<byte>, start: nat, fails: bool, ready: nat, stale: seq<byte>,
                               filterSize: nat, bufferSize: nat)
    requires start <= |data| && ValidSizes(filterSize, bufferSize)
    ensures Serve(data, start, fails, ready, stale, filterSize, bufferSize).response.None?
        <==> fails && FilterScan(data, start, fails, filterSize).consumed == |data| - start
  {
    ScanBounded(data, start, fails, filterSize);
    FilterScanIsWindowScan(data, start, fails, filterSize);
  }

  /**
    The payload read takes at most `BUFFER_SIZE - 1` bytes, a prefix of what
    follows the filter, and at least one byte when any is left; the session
    consumes exactly the filter scan's bytes and the payload.
   */
  lemma PayloadBounded(data: seq<byte>, start: nat, fails: bool, ready: nat, filterSize: nat, bufferSize: nat)
    requires start <= |data| && ValidSizes(filterSize, bufferSize)
    requires Decode(data, start, fails, ready, filterSize, bufferSize).Decoded?
    ensures var d := Decode(data, start, fails, ready, filterSize, bufferSize);
      var scan := FilterScan(data, start, fails, filterSize);
      var at := start + scan.consumed;
      && d.filter == scan.filter
      && |d.payload| <= bufferSize - 1
      && at + |d.payload| <= |data|
      && d.payload == data[at..at + |d.payload|]
      && d.consumed == scan.consumed + |d.payload|
      && (at < |data| ==> 1 <= |d.payload|)
      && (|data| - at <= Min(ready, bufferSize - 1) ==> d.payload == data[at..])
  {
    ScanBounded(data, start, fails, filterSize);
  }

  /**
    The bytes written back are the filtered payload up to its first NUL:
    a NUL in the payload cuts the response short.
   */
  lemma ResponseIsFilteredString(data: seq<byte>, start: nat, fails: bool, ready: nat, stale: seq<byte>,
                                 filterSize: nat, bufferSize: nat)
    requires start <= |data| && ValidSizes(filterSize, bufferSize)
    requires Decode(data, start, fails, ready, filterSize, bufferSize).Decoded?
    ensures var d := Decode(data, start, fails, ready, filterSize, bufferSize);
      var r := Serve(data, start, fails, ready, stale, filterSize, bufferSize).response;
      && r.Some?
      && |r.value| == CStrLen(d.payload)
      && (NUL in d.payload ==> |r.value| < |d.payload|)
      && (NUL !in d.payload ==> r.value == Apply(d.payload, FilterSeen(d.filter, stale)))
      && (forall k :: 0 <= k < |r.value| ==>
            r.value[k] == Apply(d.payload, FilterSeen(d.filter, stale))[k])
  {
    var d := Decode(data, start, fails, ready, filterSize, bufferSize);
    ApplyKeepsNul(CStr(d.payload), FilterSeen(d.filter, stale));
    if NUL !in d.payload {
      CStrOfNulFree(d.payload);
    }
  }

  /**
    The newline branch of the filter loop: `buffer[i] = 0`, then
    `strcpy(filter, buffer)`; `name` is what the loop has read so far.
   */
  method SaveFilter(buffer: array<byte>, filter: array<byte>, i: nat, ghost name: seq<byte>)
    requires buffer != filter && i < buffer.Length && i < filter.Length
    requires buffer[..i] == name
    modifies buffer, filter
    ensures CStr(filter[..]) == CStr(name)
  {
    ghost var stale := filter[..];
    buffer[i] := NUL;
    assert buffer[..i] == name;
    CStrCutAt(buffer[..], i);
    StrCpy(filter, buffer);
    CStrOfTerminated(CStr(buffer[..]), stale[CStrLen(buffer[..]) + 1..]);
  }

  /**
    The filter loop of `read_string`: read one byte at a time into `buffer`
    until a newline, end of file, an error, or `FILTER_SIZE - 1` bytes; on a
    newline, terminate the bytes read and `strcpy` them into `filter`.
    `filter.Length` is `FILTER_SIZE`; what `filter` held before is kept
    unless a newline was found.
   */
  method ReadFilter(fin: Fifo, buffer: array<byte>, filter: array<byte>) returns (bytesRead: int, ghost scan: Scan)
    requires fin.Valid() && buffer != filter && 2 <= filter.Length <= buffer.Length
    modifies fin`pos, buffer, filter
    ensures fin.Valid()
    ensures scan == FilterScan(fin.contents, old(fin.pos), fin.fails, filter.Length)
    ensures fin.pos == old(fin.pos) + scan.consumed
    ensures bytesRead == -1 <==> scan.stop == ReadError
    ensures CStr(filter[..]) == CStr(FilterSeen(scan.filter, old(filter[..])))
    ensures scan.filter.None? ==> filter[..] == old(filter[..])
  {
    ghost var data, start, fails := fin.contents, fin.pos, fin.fails;
    ghost var stale := filter[..];
    var filterSize := filter.Length;
    var i: nat := 0;
    while true
      invariant fin.Valid() && fin.pos == start + i
      invariant i < filterSize - 1
      invariant forall k :: 0 <= k < i ==> buffer[k] == data[start + k]
      invariant FilterScan(data, start, fails, filterSize) == ScanFrom(data, start, fails, filterSize, i)
      invariant filter[..] == stale
      decreases filterSize - i
    {
      bytesRead := fin.Read(buffer, i, 1, 1);
      if bytesRead <= 0 {
        scan := Scan(if bytesRead < 0 then ReadError else EndOfStream, i, None);
        break;
      }
      if buffer[i] == NL {
        ghost var name := data[start..start + i];
        assert buffer[..i] == name;
        SaveFilter(buffer, filter, i, name);
        scan := Scan(Delimiter, i + 1, Some(CStr(name)));
        assert CStr(filter[..]) == CStr(FilterSeen(scan.filter, stale)) by {
          CStrIdempotent(name);
        }
        break;
      }
      i := i + 1;
      if i >= filterSize - 1 {
        buffer[i] := NUL;
        scan := Scan(Full, i, None);
        break;
      }
    }
  }

  /** `Serve` once the filter scan and the payload read have gone through. */
  lemma ServeDelivered(data: seq<byte>, start: nat, fails: bool, ready: nat, stale: seq<byte>,
                       filterSize: nat, bufferSize: nat, n: nat)
    requires start <= |data| && ValidSizes(filterSize, bufferSize)
    requires var scan := FilterScan(data, start, fails, filterSize);
      && scan.stop != ReadError
      && start + scan.consumed <= |data|
      && n == ReadCount(data, start + scan.consumed, fails, bufferSize - 1, ready)
    ensures var scan := FilterScan(data, start, fails, filterSize);
      var at := start + scan.consumed;
      && at + n <= |data|
      && Serve(data, start, fails, ready, stale, filterSize, bufferSize)
         == Outcome(scan.consumed + n, Some(Apply(CStr(data[at..at + n]), FilterSeen(scan.filter, stale))))
  {
  }

  /** `Serve` when the filter scan or the payload read reports an error. */
  lemma ServeAborted(data: seq<byte>, start: nat, fails: bool, ready: nat, stale: seq<byte>,
                     filterSize: nat, bufferSize: nat)
    requires start <= |data| && ValidSizes(filterSize, bufferSize)
    requires var scan := FilterScan(data, start, fails, filterSize);
      || scan.stop == ReadError
      || (start + scan.consumed <= |data| && ReadCount(data, start + scan.consumed, fails, bufferSize - 1, ready) == -1)
    ensures Serve(data, start, fails, ready, stale, filterSize, bufferSize)
         == Outcome(FilterScan(data, start, fails, filterSize).consumed, None)
  {
  }

  /**
    The payload read of `read_string`: one `read` of at most
    `BUFFER_SIZE - 1` bytes into `buffer`, then `buffer[bytes_read] = 0`.
    `buffer.Length` is `BUFFER_SIZE`.
   */
  method ReadPayload(fin: Fifo, buffer: array<byte>, ready: nat) returns (bytesRead: int)
    requires fin.Valid() && 1 <= buffer.Length
    modifies fin`pos, buffer
    ensures fin.Valid()
    ensures bytesRead == ReadCount(fin.contents, old(fin.pos), fin.fails, buffer.Length - 1, ready)
    ensures bytesRead == -1 ==> fin.pos == old(fin.pos)
    ensures bytesRead != -1 ==>
      && fin.pos == old(fin.pos) + bytesRead
      && CStrLen(buffer[..]) < buffer.Length
      && CStr(buffer[..]) == CStr(fin.contents[old(fin.pos)..fin.pos])
  {
    bytesRead := fin.Read(buffer, 0, buffer.Length - 1, ready);
    if bytesRead == -1 {
      return;
    }
    ghost var payload := fin.contents[old(fin.pos)..fin.pos];
    assert buffer[..bytesRead] == payload by {
      assert forall k :: 0 <= k < bytesRead ==> buffer[k] == payload[k];
    }
    buffer[bytesRead] := NUL;
    assert buffer[..bytesRead] == payload;
    CStrCutAt(buffer[..], bytesRead);
  }

  /**
    The end of `read_string`: `process_string(buffer, filter)`, then a
    `write` of `strlen(buffer)` bytes to `fout`.
   */
  method ProcessAndWrite(fout: Fifo, buffer: array<byte>, filter: seq<byte>)
    requires fout.Valid() && CStrLen(buffer[..]) < buffer.Length
    modifies buffer, fout`contents
    ensures fout.Valid()
    ensures fout.contents == old(fout.contents) + (if fout.broken then [] else Apply(CStr(old(buffer[..])), filter))
  {
    ghost var before := buffer[..];
    ProcessString(buffer, filter);
    ProcessedString(before, filter);
    var length := StrLen(buffer);
    var bytesWrote := fout.Write(buffer[..length]);
  }

  /**
    The payload half of `read_string`: the payload read, then
    `process_string` and the write. Nothing is written when the read fails.
   */
  method ServePayload(fin: Fifo, fout: Fifo, buffer: array<byte>, filter: seq<byte>, ready: nat) returns (bytesRead: int)
    requires fin != fout && fin.Valid() && fout.Valid() && 1 <= buffer.Length
    modifies fin`pos, fout`contents, buffer
    ensures fin.Valid() && fout.Valid()
    ensures bytesRead == ReadCount(fin.contents, old(fin.pos), fin.fails, buffer.Length - 1, ready)
    ensures bytesRead == -1 ==> fin.pos == old(fin.pos) && fout.contents == old(fout.contents)
    ensures bytesRead != -1 ==>
      && fin.pos == old(fin.pos) + bytesRead
      && fout.contents == old(fout.contents)
           + (if fout.broken then [] else Apply(CStr(fin.contents[old(fin.pos)..fin.pos]), filter))
  {
    bytesRead := ReadPayload(fin, buffer, ready);
    if bytesRead == -1 {
      return;  // error reading the string
    }
    ProcessAndWrite(fout, buffer, filter);
  }

  /**
    What `read_string` leaves behind, in terms of `Serve`: `pos` and `after`
    are the input pipe's position and the output pipe's contents once the
    filter scan `scan` (already failed when `filterFailed`) and, if it
    succeeded, the payload read of `n` bytes and the write have happened.
   */
  lemma ServeWritten(data: seq<byte>, start: nat, fails: bool, ready: nat, stale: seq<byte>,
                     filterSize: nat, bufferSize: nat, scan: Scan, filterFailed: bool, name: seq<byte>,
                     n: int, pos: nat, broken: bool, before: seq<byte>, after: seq<byte>)
    requires start <= |data| && ValidSizes(filterSize, bufferSize)
    requires scan == FilterScan(data, start, fails, filterSize)
    requires filterFailed <==> scan.stop == ReadError
    requires CStr(name) == CStr(FilterSeen(scan.filter, stale))
    requires filterFailed ==> pos == start + scan.consumed && after == before
    requires !filterFailed ==>
      var at := start + scan.consumed;
      && at <= |data|
      && n == ReadCount(data, at, fails, bufferSize - 1, ready)
      && (n == -1 ==> pos == at && after == before)
      && (n != -1 ==> pos == at + n && after == before + (if broken then [] else Apply(CStr(data[at..pos]), name)))
    ensures var o := Serve(data, start, fails, ready, stale, filterSize, bufferSize);
      && pos == start + o.consumed
      && after == before + (if o.response.Some? && !broken then o.response.value else [])
  {
    var o := Serve(data, start, fails, ready, stale, filterSize, bufferSize);
    var at := start + scan.consumed;
    if !filterFailed && n != -1 {
      assert o == Outcome(scan.consumed + n, Some(Apply(CStr(data[at..pos]), name))) by {
        ServeDelivered(data, start, fails, ready, stale, filterSize, bufferSize, n);
        ApplySameName(CStr(data[at..pos]), name, FilterSeen(scan.filter, stale));
      }
    } else {
      assert o == Outcome(scan.consumed, None) by {
        ScanBounded(data, start, fails, filterSize);
        ServeAborted(data, start, fails, ready, stale, filterSize, bufferSize);
      }
    }
  }

  /**
    `read_string`: decode one request from `fin`, filter its payload and
    write the result to `fout`. A write to a pipe with no reader is taken
    as the `EPIPE` result, which the code only logs: nothing is appended.
   */
  method ReadString(fin: Fifo, fout: Fifo, stale: seq<byte>, ready: nat, filterSize: nat, bufferSize: nat)
    requires fin != fout && fin.Valid() && fout.Valid()
    requires ValidSizes(filterSize, bufferSize) && |stale| == filterSize
    modifies fin`pos, fout`contents
    ensures fin.Valid() && fout.Valid()
    ensures var o := Serve(old(fin.contents), old(fin.pos), fin.fails, ready, stale, filterSize, bufferSize);
      && fin.pos == old(fin.pos) + o.consumed
      && fout.contents == old(fout.contents) + (if o.response.Some? && !fout.broken then o.response.value else [])
  {
    var buffer := new byte[bufferSize];
    var filter := new byte[filterSize](k requires 0 <= k < filterSize => stale[k]);
    assert filter[..] == stale;
    ghost var data, start, fails, before := fin.contents, fin.pos, fin.fails, fout.contents;

    // Read the filter; on an error, give up
    var filterRead, scan := ReadFilter(fin, buffer, filter);
    var bytesRead := -1;
    if filterRead != -1 {
      // Read the string, filter it and write it back
      bytesRead := ServePayload(fin, fout, buffer, filter[..], ready);
    }
    ServeWritten(data, start, fails, ready, stale, filterSize, bufferSize, scan, filterRead == -1, filter[..],
                 bytesRead, fin.pos, fout.broken, before, fout.contents);
  }
}

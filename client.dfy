/**
  The client side of the protocol: the `-f` option handling, the argument
  check `handle_arguments`, and the request the client writes to the
  request FIFO, the filter name, one newline, then the input string.
  The lemmas at the end connect this encoding with the server's decoding.
 */
module Client {
  import opened Wrappers
  import opened CStrings
  import opened Transform
  import opened Channel
  import opened Server

  /** The names the client accepts for `-f`. */
  predicate IsFilterName(name: seq<byte>)
  {
    name in {UPPER, LOWER, NULL}
  }

  /**
    `handle_arguments(input_string, filter)`: 0 when an input string was
    given and `filter` is one of the three names, -1 otherwise. `None`
    stands for a NULL pointer.
   */
  function HandleArguments(inputString: Option<seq<byte>>, filter: Option<seq<byte>>): (r: int)
    ensures r == 0 || r == -1
    ensures r == 0 <==> inputString.Some? && filter.Some? && IsFilterName(CStr(filter.value))
  {
    if inputString.None? then -1
    else if filter.None?
         || (CStr(filter.value) != UPPER && CStr(filter.value) != LOWER && CStr(filter.value) != NULL)
    then -1
    else 0
  }

  /**
    An accepted filter name is short, has no newline and selects one of the
    server's three transformations.
   */
  lemma AcceptedFilterSelects(inputString: Option<seq<byte>>, filter: Option<seq<byte>>, s: seq<byte>)
    requires HandleArguments(inputString, filter) == 0
    ensures |CStr(filter.value)| <= 5 && NL !in CStr(filter.value)
    ensures CStr(filter.value) == UPPER ==> Apply(s, filter.value) == UpperAll(s)
    ensures CStr(filter.value) == LOWER ==> Apply(s, filter.value) == LowerAll(s)
    ensures CStr(filter.value) == NULL ==> Apply(s, filter.value) == s
  {
  }

  /** The first `n` bytes of the string `arg` denotes, or all of it if it is shorter. */
  function Truncated(arg: seq<byte>, n: nat): (r: seq<byte>)
  {
    CStr(arg)[..Min(CStrLen(arg), n)]
  }

  /**
    The `filter[FILTER_SIZE]` array after `-f arg`: `strncpy` of at most
    `FILTER_SIZE - 1` bytes, padded with NUL, then a NUL in the last byte.
   */
  function OptionFilter(arg: seq<byte>, size: nat): (r: seq<byte>)
    requires 1 <= size
  {
    var t := Truncated(arg, size - 1);
    t + Zeros(size - |t|)
  }

  /**
    After `-f arg` the filter array holds at most `FILTER_SIZE - 1` bytes of
    `arg`, NUL-terminated at index `FILTER_SIZE - 1` at the latest; an
    argument that fits is kept whole.
   */
  lemma OptionFilterTruncates(arg: seq<byte>, size: nat)
    requires 1 <= size
    ensures var r := OptionFilter(arg, size);
      && |r| == size
      && r[size - 1] == NUL
      && CStr(r) == Truncated(arg, size - 1)
      && CStrLen(r) <= size - 1
      && (CStrLen(arg) <= size - 1 ==> CStr(r) == CStr(arg))
      && (CStrLen(arg) > size - 1 ==> CStrLen(r) == size - 1)
  {
    var t := Truncated(arg, size - 1);
    assert NUL !in t by {
      assert forall k :: 0 <= k < |t| ==> t[k] == CStr(arg)[k];
    }
    var z := Zeros(size - |t|);
    assert OptionFilter(arg, size) == t + [NUL] + z[1..];
    CStrOfTerminated(t, z[1..]);
  }

  /** The `-f` case of `parse_arguments`: `strncpy(filter, optarg, FILTER_SIZE - 1)`, then `filter[FILTER_SIZE - 1] = '\0'`. */
  method SetFilterOption(filter: array<byte>, optarg: seq<byte>)
    requires 1 <= filter.Length
    modifies filter
    ensures filter[..] == OptionFilter(optarg, filter.Length)
  {
    StrNCpy(filter, optarg, filter.Length - 1);
    filter[filter.Length - 1] := NUL;
    assert forall k :: 0 <= k < filter.Length ==> filter[..][k] == OptionFilter(optarg, filter.Length)[k];
  }

  /** The request the client writes: the filter string, a newline, the input string, and no terminator. */
  function Encode(filter: seq<byte>, input: seq<byte>): (r: seq<byte>)
  {
    CStr(filter) + [NL] + CStr(input)
  }

  /**
    The three writes of the client's `main`: `strlen(filter)` bytes of
    `filter`, the newline (its result unchecked), then
    `strlen(input_string)` bytes of the input string. The result -1 is
    the `EPIPE` path of client.c:63-68, where the client gives up; under the
    default action for `SIGPIPE` the client is killed by the write instead
    and never returns.
   */
  method SendRequest(request: Fifo, filter: array<byte>, inputString: seq<byte>) returns (r: int)
    requires request.Valid() && CStrLen(filter[..]) < filter.Length
    modifies request`contents
    ensures request.Valid()
    ensures r == if request.broken then -1 else 0
    ensures request.contents == old(request.contents) + (if request.broken then [] else Encode(filter[..], inputString))
  {
    ghost var before := request.contents;
    var length := StrLen(filter);
    assert filter[..length] == CStr(filter[..]);
    var bytesWritten := request.Write(filter[..length]);
    if bytesWritten == -1 {
      return -1;
    }
    bytesWritten := request.Write([NL]);
    bytesWritten := request.Write(CStr(inputString));
    if bytesWritten == -1 {
      return -1;
    }
    assert request.contents == before + Encode(filter[..], inputString);
    r := 0;
  }

  /** The filter scan of a request whose filter string has no newline and leaves room for one. */
  lemma ScanOfRequest(prefix: seq<byte>, f: seq<byte>, tail: seq<byte>, fails: bool, filterSize: nat)
    requires 2 <= filterSize
    requires NL !in CStr(f) && |CStr(f)| <= filterSize - 2
    ensures var data := prefix + CStr(f) + [NL] + tail;
      FilterScan(data, |prefix|, fails, filterSize) == Scan(Delimiter, |CStr(f)| + 1, Some(CStr(f)))
  {
    var data := prefix + CStr(f) + [NL] + tail;
    var start := |prefix|;
    assert data[start..] == CStr(f) + [NL] + tail;
    IndexOfFirst(CStr(f), NL, tail);
    assert data[start..start + |CStr(f)|] == CStr(f);
    ScanFindsDelimiter(data, start, fails, filterSize);
    CStrIdempotent(f);
  }

  /**
    Round trip: a request the client encodes, placed anywhere in the stream,
    is decoded by the server into exactly the filter string and the input
    string, provided the filter has no newline and leaves room for the scan
    to see one, the input fits the payload read, and the payload read hands
    over the input string and nothing after it. With an empty input string
    the payload read returns 0 only once every writer has closed the
    request pipe, so that case needs the client to have closed its end.
   */
  lemma RoundTrip(prefix: seq<byte>, f: seq<byte>, p: seq<byte>, rest: seq<byte>, fails: bool, ready: nat,
                  filterSize: nat, bufferSize: nat)
    requires ValidSizes(filterSize, bufferSize)
    requires NL !in CStr(f) && |CStr(f)| <= filterSize - 2
    requires |CStr(p)| <= bufferSize - 1
    requires CStr(p) != [] ==> |CStr(p)| <= ready && (rest == [] || ready == |CStr(p)|)
    requires CStr(p) == [] ==> rest == [] && !fails
    ensures Decode(prefix + Encode(f, p) + rest, |prefix|, fails, ready, filterSize, bufferSize)
         == Decoded(Some(CStr(f)), CStr(p), |Encode(f, p)|)
  {
    var data := prefix + Encode(f, p) + rest;
    var at := |prefix| + |CStr(f)| + 1;
    assert data == prefix + CStr(f) + [NL] + (CStr(p) + rest);
    assert FilterScan(data, |prefix|, fails, filterSize) == Scan(Delimiter, |CStr(f)| + 1, Some(CStr(f))) by {
      ScanOfRequest(prefix, f, CStr(p) + rest, fails, filterSize);
    }
    assert data[at..] == CStr(p) + rest;
    assert ReadCount(data, at, fails, bufferSize - 1, ready) == |CStr(p)|;
    assert data[at..at + |CStr(p)|] == CStr(p);
  }

  /**
    Under the conditions of `RoundTrip` the server consumes exactly the
    request and answers with the input string filtered by the client's
    filter name.
   */
  lemma RoundTripServed(prefix: seq<byte>, f: seq<byte>, p: seq<byte>, rest: seq<byte>, fails: bool, ready: nat,
                        stale: seq<byte>, filterSize: nat, bufferSize: nat)
    requires ValidSizes(filterSize, bufferSize)
    requires NL !in CStr(f) && |CStr(f)| <= filterSize - 2
    requires |CStr(p)| <= bufferSize - 1
    requires CStr(p) != [] ==> |CStr(p)| <= ready && (rest == [] || ready == |CStr(p)|)
    requires CStr(p) == [] ==> rest == [] && !fails
    ensures Serve(prefix + Encode(f, p) + rest, |prefix|, fails, ready, stale, filterSize, bufferSize)
         == Outcome(|Encode(f, p)|, Some(Apply(CStr(p), f)))
  {
    RoundTrip(prefix, f, p, rest, fails, ready, filterSize, bufferSize);
    CStrIdempotent(p);
    CStrIdempotent(f);
    ApplySameName(CStr(p), CStr(f), f);
  }

  /**
    Two requests written back to back are served one after the other: the
    first session consumes exactly its own request, so the second starts
    at the second request's filter.
   */
  lemma BackToBack(f1: seq<byte>, p1: seq<byte>, f2: seq<byte>, p2: seq<byte>, fails: bool, ready1: nat, ready2: nat,
                   stale: seq<byte>, filterSize: nat, bufferSize: nat)
    requires ValidSizes(filterSize, bufferSize)
    requires NL !in CStr(f1) && |CStr(f1)| <= filterSize - 2
    requires NL !in CStr(f2) && |CStr(f2)| <= filterSize - 2
    requires 0 < |CStr(p1)| <= bufferSize - 1 && ready1 == |CStr(p1)|
    requires |CStr(p2)| <= bufferSize - 1 && |CStr(p2)| <= ready2
    requires CStr(p2) == [] ==> !fails
    ensures var data := Encode(f1, p1) + Encode(f2, p2);
      var o1 := Serve(data, 0, fails, ready1, stale, filterSize, bufferSize);
      && o1 == Outcome(|Encode(f1, p1)|, Some(Apply(CStr(p1), f1)))
      && Serve(data, o1.consumed, fails, ready2, stale, filterSize, bufferSize)
         == Outcome(|Encode(f2, p2)|, Some(Apply(CStr(p2), f2)))
  {
    var data := Encode(f1, p1) + Encode(f2, p2);
    assert data == [] + Encode(f1, p1) + Encode(f2, p2);
    RoundTripServed([], f1, p1, Encode(f2, p2), fails, ready1, stale, filterSize, bufferSize);
    assert data == Encode(f1, p1) + Encode(f2, p2) + [];
    RoundTripServed(Encode(f1, p1), f2, p2, [], fails, ready2, stale, filterSize, bufferSize);
  }

  /**
    The request carries no length: after an empty input string, the
    payload read takes at least the first byte of whatever follows, so a
    next request written right behind is partly consumed as payload.
   */
  lemma EmptyPayloadRunsOn(f: seq<byte>, p: seq<byte>, rest: seq<byte>, fails: bool, ready: nat,
                           filterSize: nat, bufferSize: nat)
    requires ValidSizes(filterSize, bufferSize)
    requires NL !in CStr(f) && |CStr(f)| <= filterSize - 2
    requires CStr(p) == [] && rest != []
    ensures var d := Decode(Encode(f, p) + rest, 0, fails, ready, filterSize, bufferSize);
      && d.Decoded?
      && 1 <= |d.payload| <= |rest|
      && d.payload == rest[..|d.payload|]
      && d.consumed > |Encode(f, p)|
  {
    var data := Encode(f, p) + rest;
    assert data == [] + CStr(f) + [NL] + rest;
    ScanOfRequest([], f, rest, fails, filterSize);
    var at := |CStr(f)| + 1;
    assert data[at..] == rest;
  }

  /**
    The payload read takes whatever is queued, up to `BUFFER_SIZE - 1`
    bytes: when a second request is already in the pipe and the kernel hands
    it over with the first input string, the first session swallows it as
    payload, echoes it back filtered, and leaves nothing for the next session.
   */
  lemma QueuedRequestSwallowed(f1: seq<byte>, p1: seq<byte>, f2: seq<byte>, p2: seq<byte>, fails: bool, ready: nat,
                               stale: seq<byte>, filterSize: nat, bufferSize: nat)
    requires ValidSizes(filterSize, bufferSize)
    requires NL !in CStr(f1) && |CStr(f1)| <= filterSize - 2
    requires |CStr(p1)| + |Encode(f2, p2)| <= bufferSize - 1
    requires |CStr(p1)| + |Encode(f2, p2)| <= ready
    ensures var data := Encode(f1, p1) + Encode(f2, p2);
      && Decode(data, 0, fails, ready, filterSize, bufferSize)
         == Decoded(Some(CStr(f1)), CStr(p1) + Encode(f2, p2), |data|)
      && Serve(data, 0, fails, ready, stale, filterSize, bufferSize)
         == Outcome(|data|, Some(Apply(CStr(p1) + Encode(f2, p2), f1)))
  {
    var next := Encode(f2, p2);
    var q := CStr(p1) + next;
    assert CStr(q) == q by {
      assert NUL !in next by {
        assert next == CStr(f2) + [NL] + CStr(p2);
      }
      CStrOfNulFree(q);
    }
    assert Encode(f1, p1) + next == [] + Encode(f1, q) + [];
    RoundTrip([], f1, q, [], fails, ready, filterSize, bufferSize);
    RoundTripServed([], f1, q, [], fails, ready, stale, filterSize, bufferSize);
  }

  /**
    The client lets `-f` fill `FILTER_SIZE - 1` bytes, but the server only
    looks for the newline among the first `FILTER_SIZE - 1` bytes of the
    request: a filter string that long is never decoded, and the session
    filters with whatever `filter` held before.
   */
  lemma LongestFilterNotDecoded(arg: seq<byte>, p: seq<byte>, fails: bool, ready: nat, stale: seq<byte>,
                                filterSize: nat, bufferSize: nat)
    requires ValidSizes(filterSize, bufferSize)
    requires CStrLen(arg) >= filterSize - 1 && NL !in Truncated(arg, filterSize - 1)
    ensures var data := Encode(OptionFilter(arg, filterSize), p);
      && |CStr(OptionFilter(arg, filterSize))| == filterSize - 1
      && FilterScan(data, 0, fails, filterSize) == Scan(Full, filterSize - 1, None)
      && Decode(data, 0, fails, ready, filterSize, bufferSize).Decoded?
      && Decode(data, 0, fails, ready, filterSize, bufferSize).filter == None
  {
    OptionFilterTruncates(arg, filterSize);
    var data := Encode(OptionFilter(arg, filterSize), p);
    var t := CStr(OptionFilter(arg, filterSize));
    assert Window(data, 0, filterSize) == t;
    ScanWithoutDelimiter(data, 0, fails, filterSize);
  }

  /**
    End to end: when `handle_arguments` accepts the filter array `-f arg`
    produced and `FILTER_SIZE` leaves room for the name and its newline,
    the argument was one of the three names, and a server that receives the
    whole input string in its payload read answers with the input string
    filtered by that name.
   */
  lemma AcceptedRequestServed(arg: seq<byte>, input: seq<byte>, fails: bool, ready: nat, stale: seq<byte>,
                              filterSize: nat, bufferSize: nat)
    requires ValidSizes(filterSize, bufferSize) && 7 <= filterSize
    requires HandleArguments(Some(input), Some(OptionFilter(arg, filterSize))) == 0
    requires |CStr(input)| <= bufferSize - 1 && |CStr(input)| <= ready
    requires CStr(input) == [] ==> !fails
    ensures IsFilterName(CStr(arg))
    ensures Serve(Encode(OptionFilter(arg, filterSize), input), 0, fails, ready, stale, filterSize, bufferSize)
         == Outcome(|Encode(arg, input)|, Some(Apply(CStr(input), arg)))
  {
    var filter := OptionFilter(arg, filterSize);
    OptionFilterTruncates(arg, filterSize);
    AcceptedFilterSelects(Some(input), Some(filter), input);
    assert CStr(filter) == CStr(arg);
    var data := Encode(filter, input);
    assert data == [] + Encode(filter, input) + [];
    RoundTripServed([], filter, input, [], fails, ready, stale, filterSize, bufferSize);
    ApplySameName(CStr(input), filter, arg);
  }
}

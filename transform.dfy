/**
  The server's text transformation, `process_string`: it case-maps a
  NUL-terminated string in place according to the filter name. `"upper"`
  applies `toupper` to every byte, `"lower"` applies `tolower`, and any
  other name leaves the string as it is. The case mappings are those of the
  C library in its default ("C") locale: only the ASCII letters move.
 */
module Transform {
  import opened CStrings

  /** The filter names the server compares against with `strcmp`. */
  const UPPER: seq<byte> := [117, 112, 112, 101, 114]  // "upper"
  const LOWER: seq<byte> := [108, 111, 119, 101, 114]  // "lower"
  const NULL: seq<byte> := [110, 117, 108, 108]        // "null"

  predicate IsUpper(b: byte) { 65 <= b <= 90 }   // 'A' .. 'Z'
  predicate IsLower(b: byte) { 97 <= b <= 122 }  // 'a' .. 'z'

  /** `toupper` on one byte. */
  function ToUpper(b: byte): (r: byte)
    ensures !IsLower(r)
    ensures !IsLower(b) ==> r == b
    ensures IsLower(b) ==> IsUpper(r) && r + 32 == b
  {
    if IsLower(b) then b - 32 else b
  }

  /** `tolower` on one byte. */
  function ToLower(b: byte): (r: byte)
    ensures !IsUpper(r)
    ensures !IsUpper(b) ==> r == b
    ensures IsUpper(b) ==> IsLower(r) && r == b + 32
  {
    if IsUpper(b) then b + 32 else b
  }

  /** `toupper` on every byte of `s`. */
  function UpperAll(s: seq<byte>): (r: seq<byte>)
    ensures |r| == |s|
    ensures forall k :: 0 <= k < |s| ==> r[k] == ToUpper(s[k])
  {
    if s == [] then [] else [ToUpper(s[0])] + UpperAll(s[1..])
  }

  /** `tolower` on every byte of `s`. */
  function LowerAll(s: seq<byte>): (r: seq<byte>)
    ensures |r| == |s|
    ensures forall k :: 0 <= k < |s| ==> r[k] == ToLower(s[k])
  {
    if s == [] then [] else [ToLower(s[0])] + LowerAll(s[1..])
  }

  /**
    The string `s` after the filter named by `filter`; `strcmp` compares
    the C string `filter` holds with each name.
   */
  function Apply(s: seq<byte>, filter: seq<byte>): seq<byte>
  {
    if CStr(filter) == UPPER then UpperAll(s)
    else if CStr(filter) == LOWER then LowerAll(s)
    else s
  }

  /**
    The buffer `s` after `process_string(s, filter)`: the string before the
    first NUL is filtered, the NUL and everything after it are left alone.
   */
  function Processed(s: seq<byte>, filter: seq<byte>): seq<byte>
  {
    Apply(CStr(s), filter) + s[CStrLen(s)..]
  }

  /** `"upper"` replaces every byte by its upper case and keeps the length. */
  lemma ApplyUpper(s: seq<byte>, filter: seq<byte>)
    requires CStr(filter) == UPPER
    ensures |Apply(s, filter)| == |s|
    ensures forall k :: 0 <= k < |s| ==> Apply(s, filter)[k] == ToUpper(s[k])
    ensures forall k :: 0 <= k < |s| && !IsLower(s[k]) ==> Apply(s, filter)[k] == s[k]
  {
  }

  /** `"lower"` replaces every byte by its lower case and keeps the length. */
  lemma ApplyLower(s: seq<byte>, filter: seq<byte>)
    requires CStr(filter) == LOWER
    ensures |Apply(s, filter)| == |s|
    ensures forall k :: 0 <= k < |s| ==> Apply(s, filter)[k] == ToLower(s[k])
    ensures forall k :: 0 <= k < |s| && !IsUpper(s[k]) ==> Apply(s, filter)[k] == s[k]
  {
  }

  /** Every other name, `"null"` among them, leaves the string unchanged. */
  lemma ApplyOther(s: seq<byte>, filter: seq<byte>)
    requires CStr(filter) != UPPER && CStr(filter) != LOWER
    ensures Apply(s, filter) == s
  {
  }

  lemma ApplyNull(s: seq<byte>)
    ensures Apply(s, NULL) == s
  {
    CStrOfNulFree(NULL);
  }

  /** Filtering twice with the same name is filtering once. */
  lemma ApplyIdempotent(s: seq<byte>, filter: seq<byte>)
    ensures Apply(Apply(s, filter), filter) == Apply(s, filter)
  {
    if CStr(filter) == UPPER {
      var u := UpperAll(s);
      assert forall k :: 0 <= k < |s| ==> UpperAll(u)[k] == u[k];
    } else if CStr(filter) == LOWER {
      var l := LowerAll(s);
      assert forall k :: 0 <= k < |s| ==> LowerAll(l)[k] == l[k];
    }
  }

  /** Lower-casing an upper-cased string gives the lower-cased original, and the reverse. */
  lemma ApplyUpperThenLower(s: seq<byte>)
    ensures Apply(Apply(s, UPPER), LOWER) == Apply(s, LOWER)
    ensures Apply(Apply(s, LOWER), UPPER) == Apply(s, UPPER)
  {
    CStrOfNulFree(UPPER);
    CStrOfNulFree(LOWER);
    var u, l := UpperAll(s), LowerAll(s);
    assert LowerAll(u) == l by {
      assert forall k :: 0 <= k < |s| ==> LowerAll(u)[k] == ToLower(ToUpper(s[k])) == l[k];
    }
    assert UpperAll(l) == u by {
      assert forall k :: 0 <= k < |s| ==> UpperAll(l)[k] == ToUpper(ToLower(s[k])) == u[k];
    }
  }

  /** No filter creates or removes a NUL byte. */
  lemma ApplyKeepsNul(s: seq<byte>, filter: seq<byte>)
    ensures |Apply(s, filter)| == |s|
    ensures forall k :: 0 <= k < |s| ==> (Apply(s, filter)[k] == NUL <==> s[k] == NUL)
  {
  }

  /** `strcmp` only sees the C string: buffers holding the same string select the same filter. */
  lemma ApplySameName(s: seq<byte>, a: seq<byte>, b: seq<byte>)
    requires CStr(a) == CStr(b)
    ensures Apply(s, a) == Apply(s, b)
  {
  }

  /** `Processed` keeps the buffer's length and the string it denotes is the filtered string. */
  lemma ProcessedString(s: seq<byte>, filter: seq<byte>)
    requires CStrLen(s) < |s|
    ensures |Processed(s, filter)| == |s|
    ensures CStrLen(Processed(s, filter)) == CStrLen(s)
    ensures CStr(Processed(s, filter)) == Apply(CStr(s), filter)
  {
    var a := Apply(CStr(s), filter);
    ApplyKeepsNul(CStr(s), filter);
    assert NUL !in a;
    assert s[CStrLen(s)..] == [NUL] + s[CStrLen(s) + 1..];
    assert Processed(s, filter) == a + [NUL] + s[CStrLen(s) + 1..];
    CStrOfTerminated(a, s[CStrLen(s) + 1..]);
  }

  /**
    `process_string(str, filter)`: two loops that walk `str` up to its NUL,
    one per case mapping.
   */
  method ProcessString(str: array<byte>, filter: seq<byte>)
    requires CStrLen(str[..]) < str.Length
    modifies str
    ensures str[..] == Processed(old(str[..]), filter)
  {
    ghost var n := CStrLen(str[..]);
    if CStr(filter) == UPPER {
      var i := 0;
      while str[i] != NUL
        invariant i <= n
        invariant forall k :: 0 <= k < i ==> str[k] == ToUpper(old(str[k]))
        invariant forall k :: i <= k < str.Length ==> str[k] == old(str[k])
        decreases n - i
      {
        str[i] := ToUpper(str[i]);
        i := i + 1;
      }
    } else if CStr(filter) == LOWER {
      var i := 0;
      while str[i] != NUL
        invariant i <= n
        invariant forall k :: 0 <= k < i ==> str[k] == ToLower(old(str[k]))
        invariant forall k :: i <= k < str.Length ==> str[k] == old(str[k])
        decreases n - i
      {
        str[i] := ToLower(str[i]);
        i := i + 1;
      }
    }
    assert forall k :: 0 <= k < str.Length ==> str[..][k] == Processed(old(str[..]), filter)[k];
  }
}

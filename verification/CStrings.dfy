/**
 Strings that end at the first terminator in a buffer. A scan that finds none leaves the buffer; that is reported, and
 the scan goes no further.
 */
module CStrings {

  // The part before the first terminator.
  function Before<T(==)>(s: seq<T>, end: T): (part: seq<T>)
    ensures part <= s && end !in part
    ensures |part| < |s| ==> s[|part|] == end
  {
    if s == [] || s[0] == end then [] else [s[0]] + Before(s[1..], end)
  }

  // strlen: its value inside the buffer, and whether it looks further.
  method Length<T(==)>(buffer: array<T>, end: T) returns (n: nat, overrun: bool)
    ensures n == |Before(buffer[..], end)|
    ensures overrun <==> end !in buffer[..]
  {
    n := 0;
    while n < buffer.Length && buffer[n] != end
      invariant n <= buffer.Length && end !in buffer[..n]
    {
      n := n + 1;
    }
    BeforeIs(buffer[..], end, n);
    overrun := n == buffer.Length;
    assert buffer[..buffer.Length] == buffer[..];
    assert !overrun ==> buffer[..][n] == end;
  }

  lemma {:induction false} BeforeIs<T>(s: seq<T>, end: T, n: nat)
    requires n <= |s| && end !in s[..n] && (n < |s| ==> s[n] == end)
    ensures Before(s, end) == s[..n]
  {
    if n > 0 {
      assert s[0] == s[..n][0] && s[1..][..n - 1] == s[..n][1..];
      BeforeIs(s[1..], end, n - 1);
    }
  }

  // The loop that prints one character after the other, and takes the length anew each time.
  method Print<T(==)>(buffer: array<T>, end: T) returns (printed: seq<T>, overrun: bool)
    ensures printed == Before(buffer[..], end)
    ensures overrun <==> end !in buffer[..]
  {
    printed := [];
    var i := 0;
    var n;
    n, overrun := Length(buffer, end);
    while i < n
      invariant n == |Before(buffer[..], end)| && (overrun <==> end !in buffer[..])
      invariant i <= n && printed == Before(buffer[..], end)[..i]
    {
      printed := printed + [buffer[i]];
      i := i + 1;
      n, overrun := Length(buffer, end);
    }
  }

  // What follows a terminator does not matter.
  lemma BeforeOfAppended<T>(s: seq<T>, more: seq<T>, end: T)
    ensures end in s ==> Before(s + more, end) == Before(s, end) && |Before(s, end)| < |s|
    ensures end !in s + more ==> Before(s + more, end) == s + more
  {
    if end in s {
      var n := |Before(s, end)|;
      assert n == |s| ==> Before(s, end) == s;
      assert (s + more)[..n] == s[..n] && (s + more)[n] == s[n];
      BeforeIs(s + more, end, n);
    } else if end !in s + more {
      assert (s + more)[..|s + more|] == s + more;
      BeforeIs(s + more, end, |s + more|);
    }
  }
}

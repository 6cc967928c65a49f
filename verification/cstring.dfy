/** NUL-terminated byte strings, as passed to `print(const char *)`. */
module CString {
  import opened Bytes

  /** `s` holds a terminator, so `strlen` stays inside it. */
  predicate Terminated(s: seq<byte>) {
    NUL in s
  }

  /** The C library's `strlen`: the index of the first NUL. */
  function Strlen(s: seq<byte>): (n: nat)
    requires Terminated(s)
    ensures n < |s| && s[n] == NUL
    ensures forall j :: 0 <= j < n ==> s[j] != NUL
  {
    if s[0] == NUL then 0
    else
      assert NUL in s[1..] by {
        var k :| 0 <= k < |s| && s[k] == NUL;
        assert s[1..][k - 1] == NUL;
      }
      1 + Strlen(s[1..])
  }
}

/** The truncation behaviour of C's bounded formatted output, `vsnprintf`
    (sections 7.21.6.5 and 7.21.6.12 of ISO/IEC 9899:2011), abstracted over
    the formatting itself: `text` is the complete output that the format
    string and arguments would produce with no bound. */
module Snprintf {
  import opened Bytes

  /** The destination after the call, and the value the call returns. */
  datatype Outcome = Outcome(dest: seq<byte>, returned: nat)

  /** How many characters of `text` reach the destination under `bound`:
      one slot is always kept for the terminating NUL. */
  function Kept(bound: nat, length: nat): (k: nat)
    requires bound > 0
    ensures k < bound && k <= length
    ensures k == length || k == bound - 1
  {
    Min(length, bound - 1)
  }

  /** `vsnprintf(dest + at, bound, ...)`: with `bound == 0` nothing is
      written; otherwise at most `bound - 1` characters of `text` followed by
      a NUL are written at `at`. The result is always the untruncated length.
      Bytes of the destination after the terminator are left as they were. */
  function Vsnprintf(dest: seq<byte>, at: nat, bound: nat, text: seq<byte>): (r: Outcome)
    requires at + bound <= |dest|
    ensures r.returned == |text|
    ensures |r.dest| == |dest|
    ensures forall i :: 0 <= i < |dest| && !(at <= i < at + bound) ==> r.dest[i] == dest[i]
    ensures bound == 0 ==> r.dest == dest
    ensures bound > 0 ==> r.dest[at + Kept(bound, |text|)] == NUL
    ensures bound > 0 ==> r.dest[at..at + Kept(bound, |text|)] == text[..Kept(bound, |text|)]
    ensures bound > 0 ==>
      forall i :: at + Kept(bound, |text|) < i < |dest| ==> r.dest[i] == dest[i]
  {
    if bound == 0 then Outcome(dest, |text|)
    else
      var k := Kept(bound, |text|);
      Outcome(Overwrite(dest, at, text[..k] + [NUL]), |text|)
  }

  /** The destination after a call with a positive bound, as one sequence:
      the bytes before `at`, the kept characters, the NUL, the rest. */
  lemma Layout(dest: seq<byte>, at: nat, bound: nat, text: seq<byte>)
    requires at + bound <= |dest|
    requires bound > 0
    ensures var k := Kept(bound, |text|);
      Vsnprintf(dest, at, bound, text).dest == dest[..at] + text[..k] + [NUL] + dest[at + k + 1..]
  {
    var k := Kept(bound, |text|);
    assert text[..k] + [NUL] + dest[at + k + 1..] == (text[..k] + [NUL]) + dest[at + |text[..k] + [NUL]|..];
  }

  /** A text shorter than the bound arrives intact, followed by the NUL. */
  lemma TailFits(dest: seq<byte>, at: nat, text: seq<byte>)
    requires at + |text| < |dest|
    ensures var d := Vsnprintf(dest, at, |dest| - at, text).dest;
      d[..at + |text|] == dest[..at] + text && d[at + |text|] == NUL
  {
    Layout(dest, at, |dest| - at, text);
    assert text[..|text|] == text;
  }

  /** A text filling the bound to the end of the destination loses its last
      character to the NUL. */
  lemma TailExact(dest: seq<byte>, at: nat, text: seq<byte>)
    requires 0 < |text| && at + |text| == |dest|
    ensures Vsnprintf(dest, at, |dest| - at, text).dest == dest[..at] + text[..|text| - 1] + [NUL]
  {
    Layout(dest, at, |dest| - at, text);
    assert dest[at + |text|..] == [];
  }

  /** A text longer than a positive bound reaching the end of the destination
      keeps `bound - 1` characters and the NUL. */
  lemma TailOverflow(dest: seq<byte>, at: nat, text: seq<byte>)
    requires at < |dest| < at + |text|
    ensures Vsnprintf(dest, at, |dest| - at, text).dest == dest[..at] + text[..|dest| - at - 1] + [NUL]
  {
    Layout(dest, at, |dest| - at, text);
    assert dest[|dest|..] == [];
  }

  /** All the cases of a call whose bound reaches the end of the destination,
      as `printf` issues it. */
  lemma TailCases(dest: seq<byte>, at: nat, text: seq<byte>)
    requires at <= |dest|
    ensures var d := Vsnprintf(dest, at, |dest| - at, text).dest;
      && d[..at] == dest[..at]
      && (at + |text| < |dest| ==> d[..at + |text|] == dest[..at] + text && d[at + |text|] == NUL)
      && (0 < |text| && at + |text| == |dest| ==> d == dest[..at] + text[..|text| - 1] + [NUL])
      && (at < |dest| < at + |text| ==> d == dest[..at] + text[..|dest| - at - 1] + [NUL])
      && (at == |dest| ==> d == dest)
  {
    var d := Vsnprintf(dest, at, |dest| - at, text).dest;
    assert d[..at] == dest[..at];
    if at + |text| < |dest| {
      TailFits(dest, at, text);
    } else if 0 < |text| && at + |text| == |dest| {
      TailExact(dest, at, text);
    } else if at < |dest| {
      TailOverflow(dest, at, text);
    }
  }
}

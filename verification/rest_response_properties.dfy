/** Properties of the writer that relate several operations: sequences of
    writes, the capacity boundary, the cursor overrun that `printf` allows,
    resetting the cursor, and the block offset. */
module RestResponseProperties {
  import opened Bytes
  import Decimal
  import opened RestResponse

  function Concat(chunks: seq<seq<byte>>): seq<byte> {
    if |chunks| == 0 then [] else chunks[0] + Concat(chunks[1..])
  }

  /** Writes every chunk in turn, each with its full length. */
  function WriteAll(w: Writer, chunks: seq<seq<byte>>): (r: Writer)
    requires Valid(w)
    ensures Valid(r) && Capacity(r) == Capacity(w) && r.offset == w.offset
    ensures r.payloadLength >= w.payloadLength
    decreases |chunks|
  {
    if |chunks| == 0 then w
    else WriteAll(Write(w, chunks[0], |chunks[0]|).w, chunks[1..])
  }

  /** Once `x` is longer than the capacity, what follows it is cut off. */
  lemma TakePastFull(x: seq<byte>, y: seq<byte>, rest: seq<byte>, cap: nat)
    requires |x| == cap
    ensures Take(x + rest, cap) == x
    ensures Take(x + y + rest, cap) == x
  {
    assert (x + rest)[..cap] == x;
    assert (x + y + rest)[..cap] == x;
  }

  /** One clamped write of `c` after payload `p`, copying `n` bytes, leaves
      the same capacity-long prefix as writing all of `c`: either `c` was
      copied whole, or the buffer is full and the rest of `c` is cut off. */
  lemma StepPayload(p: seq<byte>, c: seq<byte>, n: nat, rest: seq<byte>, cap: nat)
    requires |p| <= cap && n == Min(|c|, cap - |p|)
    ensures Take(p + c[..n] + rest, cap) == Take(p + (c + rest), cap)
  {
    if n == |c| {
      assert c[..n] == c;
      assert p + c[..n] + rest == p + (c + rest);
    } else {
      var x := p + c[..n];
      TakePastFull(x, c[n..], rest, cap);
      assert c == c[..n] + c[n..];
      assert p + (c + rest) == x + c[n..] + rest;
    }
  }

  /** A run of writes leaves as payload the concatenation of everything
      written, cut at the capacity: the clamp loses the tail, never a byte in
      the middle. */
  lemma {:induction false} WriteAllPayload(w: Writer, chunks: seq<seq<byte>>)
    requires Valid(w)
    ensures Payload(WriteAll(w, chunks)) == Take(Payload(w) + Concat(chunks), Capacity(w))
    decreases |chunks|
  {
    if |chunks| == 0 {
      assert Payload(w) + Concat(chunks) == Payload(w);
    } else {
      var c := chunks[0];
      var step := Write(w, c, |c|);
      WriteAllPayload(step.w, chunks[1..]);
      assert Payload(step.w) == Payload(w) + c[..step.count];
      StepPayload(Payload(w), c, step.count, Concat(chunks[1..]), Capacity(w));
    }
  }

  /** From a fresh writer, a run of writes leaves exactly the first
      `Capacity` bytes of everything written. */
  lemma FreshWriteAll(buffer: seq<byte>, offset: int32, chunks: seq<seq<byte>>)
    ensures Payload(WriteAll(NewWriter(buffer, offset), chunks)) == Take(Concat(chunks), |buffer|)
  {
    var w := NewWriter(buffer, offset);
    WriteAllPayload(w, chunks);
    assert Payload(w) + Concat(chunks) == Concat(chunks);
  }

  /** At capacity 4, writing "ab" and then "cdef" copies 2 bytes of the
      second write and leaves "abcd". */
  lemma CapacityFourExample(buffer: seq<byte>, offset: int32)
    requires |buffer| == 4
    ensures var first := Write(NewWriter(buffer, offset), [0x61, 0x62], 2);
      var second := Write(first.w, [0x63, 0x64, 0x65, 0x66], 4);
      first.count == 2 && second.count == 2 &&
      Payload(second.w) == [0x61, 0x62, 0x63, 0x64]
  {
    var first := Write(NewWriter(buffer, offset), [0x61, 0x62], 2);
    var second := Write(first.w, [0x63, 0x64, 0x65, 0x66], 4);
    assert [0x63, 0x64, 0x65, 0x66][..2] == [0x63, 0x64];
  }

  /** The cursor overrun: when the formatted text is longer than the space
      left, `printf` still advances `payloadLength` by the full length, past
      the capacity; the state is then outside the domain in which `write`,
      `printf` and a flush stay inside the buffer. */
  lemma {:induction false} PrintfOverrunsCursor(w: Writer, text: seq<byte>)
    requires Valid(w)
    requires |text| > Room(w)
    ensures Printf(w, text).w.payloadLength > Capacity(w)
    ensures Printf(w, text).w.payloadLength - Capacity(w) == |text| - Room(w)
    ensures !Valid(Printf(w, text).w)
  {
  }

  /** Concretely: at capacity 4 with "ab" written, `print(12345)` returns 5
      and moves the cursor to 7 while only "1" and a NUL reach the buffer. */
  lemma PrintIntOverrunExample(buffer: seq<byte>, offset: int32)
    requires |buffer| == 4
    ensures var first := Write(NewWriter(buffer, offset), [0x61, 0x62], 2);
      var second := PrintInt(first.w, 12345);
      second.count == 5 && second.w.payloadLength == 7 && !Valid(second.w) &&
      second.w.buffer == [0x61, 0x62, 0x31, NUL]
  {
    var first := Write(NewWriter(buffer, offset), [0x61, 0x62], 2);
    var text := Decimal.SignedText(12345);
    assert text == [0x31, 0x32, 0x33, 0x34, 0x35] by {
      assert Decimal.Digits(1) == [0x31];
      assert Decimal.Digits(12) == [0x31, 0x32];
      assert Decimal.Digits(123) == [0x31, 0x32, 0x33];
      assert Decimal.Digits(1234) == [0x31, 0x32, 0x33, 0x34];
    }
    assert Payload(first.w) == [0x61, 0x62];
    assert text[..1] == [0x31];
  }

  /** The clamped `printf` stores the same bytes as the one written in the
      source; only the count and the cursor differ, and they agree exactly
      when the whole text fits in front of the terminator. */
  lemma ClampedStoresSameBytes(w: Writer, text: seq<byte>)
    requires Valid(w)
    ensures PrintfClamped(w, text).w.buffer == Printf(w, text).w.buffer
    ensures PrintfClamped(w, text).count <= Printf(w, text).count
    ensures PrintfClamped(w, text) == Printf(w, text) <==> |text| < Room(w) || |text| == 0
  {
  }

  /** A text of exactly the space left keeps the cursor at the capacity, but
      its last character is replaced by the terminator: the payload differs
      from the text that `printf` reports as written. */
  lemma PrintfLastSlotLost(w: Writer, text: seq<byte>)
    requires Valid(w)
    requires 0 < |text| == Room(w)
    requires text[|text| - 1] != NUL
    ensures var r := Printf(w, text);
      Valid(r.w) && r.w.payloadLength == Capacity(w) && r.count == |text| &&
      Payload(r.w) != Payload(w) + text
  {
    var r := Printf(w, text);
    assert Payload(r.w)[Capacity(w) - 1] == NUL;
    assert (Payload(w) + text)[Capacity(w) - 1] == text[|text| - 1];
  }

  /** `setPayloadLength(0)` discards the payload: a following write behaves
      as on a fresh writer, whatever was in the buffer. */
  lemma ResetThenWrite(w: Writer, data: seq<byte>)
    ensures var r := Write(SetPayloadLength(w, 0), data, |data|);
      r.count == Min(|data|, Capacity(w)) && Payload(r.w) == Take(data, Capacity(w))
  {
    var w0 := SetPayloadLength(w, 0);
    var r := Write(w0, data, |data|);
    assert Payload(w0) == [];
    assert Payload(r.w) == data[..r.count];
  }

  /** `blockAppend(10)` on an offset of 0 reads back as 10; `blockComplete()`
      then reads back as -1; neither touches the payload. */
  lemma BlockExample(buffer: seq<byte>)
    ensures var w := BlockAppend(NewWriter(buffer, 0), 10);
      GetOffset(w) == 10 && GetOffset(BlockComplete(w)) == -1 &&
      Payload(BlockComplete(w)) == []
  {
  }

  /** The block operations and the cursor operations act on separate state:
      appending to the offset commutes with a write. */
  lemma BlockAppendCommutesWithWrite(w: Writer, data: seq<byte>, n: int32)
    requires Valid(w)
    requires -0x8000_0000 <= w.offset as int + n as int < 0x8000_0000
    ensures Write(BlockAppend(w, n), data, |data|).w == BlockAppend(Write(w, data, |data|).w, n)
    ensures Write(BlockAppend(w, n), data, |data|).count == Write(w, data, |data|).count
  {
  }
}

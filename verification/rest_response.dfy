/** The bounded payload writer of a Contiki REST response: a chunk buffer of
    fixed capacity, the cursor `payloadLength` into it, and the externally
    owned blockwise-transfer offset the writer can read and edit.

    The capacity (REST_MAX_CHUNK_SIZE) is the length of `buffer`. Every
    operation is a pure function from the writer state to the next state and,
    where the source returns one, the count it reports. */
module RestResponse {
  import opened Bytes
  import CString
  import Decimal
  import Snprintf

  /** C's `int32_t`, the type of the block offset. */
  newtype int32 = x: int | -0x8000_0000 <= x < 0x8000_0000

  /** Writer state. `offset` stands for the caller-owned cursor the writer
      holds a pointer to; it is kept apart from the buffer. */
  datatype Writer = Writer(buffer: seq<byte>, payloadLength: nat, offset: int32)

  /** The state after an operation and the byte count it returns. */
  datatype Step = Step(w: Writer, count: nat)

  function Capacity(w: Writer): nat {
    |w.buffer|
  }

  /** The cursor lies within the buffer; outside this the source's size_t
      arithmetic on `REST_MAX_CHUNK_SIZE - payloadLength` wraps. */
  predicate Valid(w: Writer) {
    w.payloadLength <= |w.buffer|
  }

  /** Space left in the chunk. */
  function Room(w: Writer): nat
    requires Valid(w)
  {
    |w.buffer| - w.payloadLength
  }

  /** The bytes a flush would hand to the REST engine. */
  function Payload(w: Writer): seq<byte>
    requires Valid(w)
  {
    w.buffer[..w.payloadLength]
  }

  /** The constructor: a writer over the caller's buffer and offset, with an
      empty payload. */
  function NewWriter(buffer: seq<byte>, offset: int32): (w: Writer)
    ensures Valid(w) && Payload(w) == [] && Room(w) == |buffer|
    ensures w.buffer == buffer && w.offset == offset
  {
    Writer(buffer, 0, offset)
  }

  /** `write(data, length)`: copies as much of the first `len` bytes of
      `data` as still fit and returns how many were copied. Only the copied
      bytes must be readable in `data`. */
  function Write(w: Writer, data: seq<byte>, len: nat): (r: Step)
    requires Valid(w)
    requires Min(len, Room(w)) <= |data|
    ensures r.count == Min(len, Room(w))
    ensures r.w.payloadLength == w.payloadLength + r.count
    ensures Valid(r.w) && Capacity(r.w) == Capacity(w) && r.w.offset == w.offset
    ensures Valid(r.w) && Payload(r.w) == Payload(w) + Take(data, r.count)
    ensures r.count == 0 <==> len == 0 || Room(w) == 0
  {
    var copied := if Room(w) > len then len else Room(w);
    var next := w.(buffer := Overwrite(w.buffer, w.payloadLength, data[..copied]),
                   payloadLength := w.payloadLength + copied);
    assert Payload(next) == Payload(w) + data[..copied];
    Step(next, copied)
  }

  /** `write` changes exactly the bytes it copies, and on a full buffer it
      changes nothing at all. */
  lemma WriteFrame(w: Writer, data: seq<byte>, len: nat)
    requires Valid(w)
    requires Min(len, Room(w)) <= |data|
    ensures var r := Write(w, data, len);
      forall i :: 0 <= i < |w.buffer| ==>
        r.w.buffer[i] == (if w.payloadLength <= i < r.w.payloadLength then data[i - w.payloadLength] else w.buffer[i])
    ensures Room(w) == 0 ==> Write(w, data, len) == Step(w, 0)
  {
    if Room(w) == 0 {
      assert w.buffer[..w.payloadLength] + data[..0] + w.buffer[w.payloadLength..] == w.buffer;
    }
  }

  /** `print(const char *s)`: writes the bytes of `s` before its first NUL,
      clamped to the space left. */
  function Print(w: Writer, s: seq<byte>): (r: Step)
    requires Valid(w)
    requires CString.Terminated(s)
    ensures r.count == Min(CString.Strlen(s), Room(w))
    ensures Valid(r.w) && Capacity(r.w) == Capacity(w) && r.w.offset == w.offset
    ensures r.w.payloadLength == w.payloadLength + r.count
    ensures Payload(r.w) == Payload(w) + Take(s[..CString.Strlen(s)], Room(w))
    ensures NUL !in Payload(r.w)[|Payload(w)|..]
  {
    var n := CString.Strlen(s);
    var r := Write(w, s, n);
    assert Payload(r.w)[|Payload(w)|..] == s[..r.count];
    r
  }

  /** `printf(format, ...)`, given the untruncated output `text` of the format
      and its arguments. The text goes through `vsnprintf` bounded by the
      space left, and the cursor then advances by vsnprintf's result, the
      untruncated length, with no clamping. */
  function Printf(w: Writer, text: seq<byte>): (r: Step)
    requires Valid(w)
    ensures r.count == |text|
    ensures r.w.payloadLength == w.payloadLength + |text|
    ensures Capacity(r.w) == Capacity(w) && r.w.offset == w.offset
    ensures r.w.buffer[..w.payloadLength] == Payload(w)
    ensures Valid(r.w) <==> |text| <= Room(w)
    ensures |text| < Room(w) ==>
      Payload(r.w) == Payload(w) + text && r.w.buffer[r.w.payloadLength] == NUL
    ensures 0 < |text| == Room(w) ==>
      Payload(r.w) == Payload(w) + text[..|text| - 1] + [NUL]
    ensures 0 < Room(w) < |text| ==>
      r.w.buffer == Payload(w) + text[..Room(w) - 1] + [NUL]
    ensures Room(w) == 0 ==> r.w.buffer == w.buffer
  {
    var pl := w.payloadLength;
    var f := Snprintf.Vsnprintf(w.buffer, pl, |w.buffer| - pl, text);
    var next := w.(buffer := f.dest, payloadLength := pl + f.returned);
    Snprintf.TailCases(w.buffer, pl, text);
    Step(next, f.returned)
  }

  /** The evident intent of `printf`, whose callers are promised "the actual
      count of written bytes": the same bounded `vsnprintf`, but the cursor
      advances by, and the call returns, the number of characters actually
      stored in front of the terminator. */
  function PrintfClamped(w: Writer, text: seq<byte>): (r: Step)
    requires Valid(w)
    ensures r.count == (if Room(w) == 0 then 0 else Min(|text|, Room(w) - 1))
    ensures r.w.payloadLength == w.payloadLength + r.count
    ensures Valid(r.w) && Capacity(r.w) == Capacity(w) && r.w.offset == w.offset
    ensures Payload(r.w) == Payload(w) + Take(text, r.count)
    ensures r.count == |text| <==> |text| < Room(w) || |text| == 0
  {
    var pl := w.payloadLength;
    var f := Snprintf.Vsnprintf(w.buffer, pl, |w.buffer| - pl, text);
    var stored := if Room(w) == 0 then 0 else Snprintf.Kept(Room(w), |text|);
    var next := w.(buffer := f.dest, payloadLength := pl + stored);
    assert f.dest[..pl] == Payload(w);
    assert Room(w) > 0 ==> f.dest[pl..pl + stored] == text[..stored];
    assert f.dest[..pl + stored] == f.dest[..pl] + f.dest[pl..pl + stored];
    Step(next, stored)
  }

  /** `print(char c)`, defined as `printf("%c", c)`. */
  function PrintChar(w: Writer, c: byte): (r: Step)
    requires Valid(w)
    ensures r.count == 1 && r.w.payloadLength == w.payloadLength + 1
    ensures r.w.offset == w.offset
    ensures Capacity(r.w) == Capacity(w) && r.w.buffer[..w.payloadLength] == Payload(w)
    ensures Room(w) >= 2 ==> Valid(r.w) && Payload(r.w) == Payload(w) + [c]
    ensures Room(w) == 1 ==> Valid(r.w) && Payload(r.w) == Payload(w) + [NUL]
    ensures Room(w) == 0 ==> !Valid(r.w) && r.w.buffer == w.buffer
  {
    Printf(w, [c])
  }

  /** `print(int i)`, defined as `printf("%d", i)`. When the text fits before
      the terminator, the appended bytes read back as `i`. */
  function PrintInt(w: Writer, i: int): (r: Step)
    requires Valid(w)
    ensures r.count == |Decimal.SignedText(i)|
    ensures r.w.payloadLength == w.payloadLength + r.count && r.w.offset == w.offset
    ensures Capacity(r.w) == Capacity(w) && r.w.buffer[..w.payloadLength] == Payload(w)
    ensures r.count < Room(w) ==>
      Valid(r.w) && Payload(r.w)[..|Payload(w)|] == Payload(w) &&
      var appended := Payload(r.w)[|Payload(w)|..];
      appended == Decimal.SignedText(i) && Decimal.ParseSigned(appended) == i
    ensures r.count == Room(w) > 0 ==>
      Valid(r.w) && Payload(r.w) == Payload(w) + Take(Decimal.SignedText(i), r.count - 1) + [NUL]
    ensures r.count > Room(w) ==> !Valid(r.w)
  {
    Decimal.SignedRoundTrip(i);
    Printf(w, Decimal.SignedText(i))
  }

  /** `print(unsigned int u)`, defined as `printf("%u", u)`. */
  function PrintUnsigned(w: Writer, u: nat): (r: Step)
    requires Valid(w)
    ensures r.count == |Decimal.Digits(u)|
    ensures r.w.payloadLength == w.payloadLength + r.count && r.w.offset == w.offset
    ensures Capacity(r.w) == Capacity(w) && r.w.buffer[..w.payloadLength] == Payload(w)
    ensures r.count < Room(w) ==>
      Valid(r.w) && Payload(r.w)[..|Payload(w)|] == Payload(w) &&
      var appended := Payload(r.w)[|Payload(w)|..];
      Decimal.AllDigits(appended) && Decimal.ParseDigits(appended) == u
    ensures r.count == Room(w) > 0 ==>
      Valid(r.w) && Payload(r.w) == Payload(w) + Take(Decimal.Digits(u), r.count - 1) + [NUL]
    ensures r.count > Room(w) ==> !Valid(r.w)
  {
    Decimal.DigitsRoundTrip(u);
    Printf(w, Decimal.Digits(u))
  }

  /** `print(unsigned long u)`, defined as `printf("%lu", u)`. */
  function PrintUnsignedLong(w: Writer, u: nat): (r: Step)
    requires Valid(w)
    ensures r.count == |Decimal.Digits(u)|
    ensures r.w.payloadLength == w.payloadLength + r.count && r.w.offset == w.offset
    ensures Capacity(r.w) == Capacity(w) && r.w.buffer[..w.payloadLength] == Payload(w)
    ensures r.count < Room(w) ==>
      Valid(r.w) && Payload(r.w)[..|Payload(w)|] == Payload(w) &&
      var appended := Payload(r.w)[|Payload(w)|..];
      Decimal.AllDigits(appended) && Decimal.ParseDigits(appended) == u
    ensures r.count == Room(w) > 0 ==>
      Valid(r.w) && Payload(r.w) == Payload(w) + Take(Decimal.Digits(u), r.count - 1) + [NUL]
    ensures r.count > Room(w) ==> !Valid(r.w)
  {
    Decimal.DigitsRoundTrip(u);
    Printf(w, Decimal.Digits(u))
  }

  /** `print(long l)`, defined as `printf("%l", l)`. "%l" is not a complete
      conversion specification, so what the C library produces for it is not
      fixed here: `produced` is whatever text it yields. */
  function PrintLong(w: Writer, l: int, produced: seq<byte>): (r: Step)
    requires Valid(w)
    ensures r.count == |produced|
    ensures r.w.payloadLength == w.payloadLength + |produced| && r.w.offset == w.offset
    ensures Capacity(r.w) == Capacity(w) && r.w.buffer[..w.payloadLength] == Payload(w)
    ensures Valid(r.w) <==> |produced| <= Room(w)
  {
    Printf(w, produced)
  }

  /** `setPayloadLength(n)`: the cursor becomes `n`, unchecked; the buffer and
      offset are untouched. */
  function SetPayloadLength(w: Writer, n: nat): (r: Writer)
    ensures r.payloadLength == n
    ensures r.buffer == w.buffer && r.offset == w.offset
    ensures Valid(r) <==> n <= Capacity(w)
  {
    w.(payloadLength := n)
  }

  /** `getOffset()`: reads the block offset. */
  function GetOffset(w: Writer): (r: int32)
    ensures r == w.offset
  {
    w.offset
  }

  /** `blockAppend(n)`: advances the block offset by `n`. Signed overflow is
      undefined in C, so the sum must stay an `int32_t`. */
  function BlockAppend(w: Writer, n: int32): (r: Writer)
    requires -0x8000_0000 <= w.offset as int + n as int < 0x8000_0000
    ensures r.offset as int == w.offset as int + n as int
    ensures r.buffer == w.buffer && r.payloadLength == w.payloadLength
  {
    w.(offset := w.offset + n)
  }

  /** `blockComplete()`: sets the block offset to the sentinel -1, meaning no
      more chunks follow. */
  function BlockComplete(w: Writer): (r: Writer)
    ensures r.offset == -1
    ensures r.buffer == w.buffer && r.payloadLength == w.payloadLength
  {
    w.(offset := -1)
  }
}

# Bounded payload writer of a Contiki REST response

`RestResponse` (smeshcore/privatelibrary/contiki-REST/RestResponse.cpp) wraps
a Contiki REST response for a resource handler. It accumulates the response
body in a caller-supplied chunk buffer of capacity `REST_MAX_CHUNK_SIZE`,
tracking how much is used in the cursor `payloadLength`. All body output goes
through two primitives. `write` is a clamped `memcpy`. `printf` calls
`vsnprintf`, bounded by the space left. The typed `print` overloads go through
one of the two. The object also holds a pointer to a caller-owned
`int32_t` block offset, used for blockwise transfer. It reads that offset with
`getOffset`, advances it with `blockAppend` and sets it to -1 with
`blockComplete`.

This project models that writer as pure functions over an immutable state.

- `Bytes`: the byte type, clamping, and the overwrite that `memcpy` performs.
- `CString`: `strlen` on NUL-terminated byte strings.
- `Decimal`: the text of the `%d`, `%u` and `%lu` conversions. These follow
  section 7.21.6.1 of ISO/IEC 9899:2011: an optional `-`, then the digits with
  no leading zeros. The module also has a parser and the round-trip lemmas.
- `Snprintf`: the truncation contract of `vsnprintf` from sections 7.21.6.5
  and 7.21.6.12 of ISO/IEC 9899:2011. With bound `n > 0`, at most `n - 1`
  characters are written, followed by a NUL. The result is always the
  untruncated length. The formatting itself is abstract: the caller passes in
  the complete unbounded output text.
- `RestResponse`: the writer state `Writer(buffer, payloadLength, offset)`
  and every modelled member of the class. The capacity is `|buffer|`, because
  the value of `REST_MAX_CHUNK_SIZE` is set in a header that is not part of
  this model. Each operation returns the next state and, where the C++ returns
  one, the count (`Step`).
- `RestResponseProperties`: lemmas that relate several operations.

`printf` is modelled as written. Line 124 adds the return value of `vsnprintf`
to `payloadLength` without clamping it, and that value is the untruncated
length. So when the text does not fit, the cursor moves past the capacity.
`PrintfOverrunsCursor` and `PrintIntOverrunExample` show this. A second
consequence of the same line: when the text fills the remaining space exactly,
`vsnprintf` stores a NUL in the last byte instead of the text's last
character, yet the cursor counts that byte as payload (`PrintfLastSlotLost`).
The same applies to `print(char)` into the last free byte. `Printf` and the
print overloads keep this behaviour. `PrintfClamped` is the intended
definition, set beside it (see "## Findings").

`Write` and `Printf` require `payloadLength <= capacity`. Outside that range,
the C++ computes `REST_MAX_CHUNK_SIZE - payloadLength` in `size_t`, where it
wraps, and then writes past the end of the buffer. A writer can only reach that
state through `printf` truncation or through `setPayloadLength` with a value
that is too large. After that, the C++ behaviour is undefined.

## Model

| member | source | states |
|---|---|---|
| RestResponse.NewWriter | smeshcore/privatelibrary/contiki-REST/RestResponse.cpp:15-16 | a new writer keeps the caller's buffer and offset, has an empty payload, and all of the buffer is free |
| RestResponse.Write | smeshcore/privatelibrary/contiki-REST/RestResponse.cpp:136-143 | copies and returns exactly min(length, capacity - payloadLength) bytes; the cursor advances by that count, so it never decreases and stays within capacity; the payload becomes the old payload followed by the first copied bytes of data; capacity and offset are unchanged; the count is 0 exactly when length is 0 or the buffer is full |
| RestResponse.WriteFrame | smeshcore/privatelibrary/contiki-REST/RestResponse.cpp:140-142 | write changes exactly the buffer bytes in [old cursor, new cursor), which receive data in order; every other byte is unchanged; on a full buffer write returns 0 and leaves the state as it was |
| CString.Strlen | smeshcore/privatelibrary/contiki-REST/RestResponse.cpp:113 | the result is the index of the first NUL: that byte is NUL and none before it is |
| RestResponse.Print | smeshcore/privatelibrary/contiki-REST/RestResponse.cpp:112-114 | print(const char*) appends the bytes of s before its first NUL, cut to the space left, and returns min(strlen(s), space left); the appended bytes hold no NUL; the cursor stays within capacity and the offset is unchanged |
| Snprintf.Vsnprintf | smeshcore/privatelibrary/contiki-REST/RestResponse.cpp:122 | returns the untruncated length; with bound 0 writes nothing; otherwise writes the first min(len, bound-1) characters at the start of the region followed by a NUL; nothing outside [at, at+bound) changes |
| RestResponse.Printf | smeshcore/privatelibrary/contiki-REST/RestResponse.cpp:119-126 | returns the untruncated length and adds it to the cursor; bytes before the old cursor are unchanged; the result is within capacity exactly when the text fits in the space left; a text shorter than the space is appended intact and followed by a NUL; a text of exactly the space left ends in a NUL instead of its last character; a longer text leaves space-1 of its characters and a NUL; with no space the buffer is unchanged |
| RestResponse.PrintfClamped | smeshcore/privatelibrary/contiki-REST/RestResponse.cpp:119-126 | the intended printf: returns and advances by the number of characters vsnprintf actually stores (min(len, space-1), or 0 with no space); the state stays in range, capacity and offset are kept, and the payload becomes the old payload followed by that many characters of the text; the count is the full length exactly when the text fits or is empty |
| RestResponse.PrintChar | smeshcore/privatelibrary/contiki-REST/RestResponse.cpp:30-32 | always returns 1 and advances the cursor by 1; keeps the capacity, the offset and the bytes before the old cursor; with at least 2 bytes free appends c; with 1 byte free appends a NUL instead of c; with none the cursor goes past capacity |
| RestResponse.PrintInt | smeshcore/privatelibrary/contiki-REST/RestResponse.cpp:40-42 | returns the length of the decimal text of i and advances the cursor by it; keeps the capacity, the offset and the bytes before the old cursor; when that text fits before the terminator, the appended bytes are the text and parse back to i; when it exactly fills the space left, the state stays in range but the last digit is replaced by a NUL; when it is longer than the space left, the cursor goes past capacity |
| RestResponse.PrintUnsigned | smeshcore/privatelibrary/contiki-REST/RestResponse.cpp:50-52 | returns the number of decimal digits of u and advances the cursor by it; keeps the capacity, the offset and the bytes before the old cursor; when the digits fit before the terminator, the appended bytes are digits that parse back to u; when they exactly fill the space left, the last digit is replaced by a NUL; when they do not fit, the cursor goes past capacity |
| RestResponse.PrintUnsignedLong | smeshcore/privatelibrary/contiki-REST/RestResponse.cpp:71-74 | the same contract for print(unsigned long) through "%lu": count, cursor, capacity, offset and prefix, round trip when the digits fit, NUL in the last digit at an exact fit, overrun otherwise |
| RestResponse.PrintLong | smeshcore/privatelibrary/contiki-REST/RestResponse.cpp:60-63 | for whatever text the "%l" conversion produces, returns its length and advances the cursor by it; keeps the capacity, the offset and the bytes before the old cursor; the result is within capacity exactly when that text fits |
| Decimal.DigitsRoundTrip | smeshcore/privatelibrary/contiki-REST/RestResponse.cpp:50-52 | parsing the unsigned decimal rendering of n gives back n |
| Decimal.SignedRoundTrip | smeshcore/privatelibrary/contiki-REST/RestResponse.cpp:40-42 | the signed decimal rendering of i is well formed and parses back to i |
| Decimal.SignedTextInjective | smeshcore/privatelibrary/contiki-REST/RestResponse.cpp:40-42 | distinct ints print as distinct texts |
| RestResponse.SetPayloadLength | smeshcore/privatelibrary/contiki-REST/RestResponse.cpp:177-179 | the cursor becomes n, unchecked; buffer and offset are unchanged; the state is within capacity exactly when n is at most the capacity |
| RestResponse.GetOffset | smeshcore/privatelibrary/contiki-REST/RestResponse.cpp:202-204 | returns the block offset |
| RestResponse.BlockAppend | smeshcore/privatelibrary/contiki-REST/RestResponse.cpp:206-208 | adds n to the offset, provided the sum fits in int32_t; buffer and cursor are unchanged |
| RestResponse.BlockComplete | smeshcore/privatelibrary/contiki-REST/RestResponse.cpp:210-212 | sets the offset to -1; buffer and cursor are unchanged |
| RestResponseProperties.WriteAll | smeshcore/privatelibrary/contiki-REST/RestResponse.cpp:136-143 | any run of writes keeps the cursor within capacity and never lowers it; capacity and offset are unchanged |
| RestResponseProperties.WriteAllPayload | smeshcore/privatelibrary/contiki-REST/RestResponse.cpp:136-143 | after a run of writes the payload is the old payload followed by everything written, cut at capacity; truncation only ever drops a tail |
| RestResponseProperties.FreshWriteAll | smeshcore/privatelibrary/contiki-REST/RestResponse.cpp:136-143 | from a new writer, a run of writes leaves exactly the first capacity bytes of everything written |
| RestResponseProperties.CapacityFourExample | smeshcore/privatelibrary/contiki-REST/RestResponse.cpp:137-142 | at capacity 4, writing "ab" and then "cdef" returns 2 for each and leaves "abcd" |
| RestResponseProperties.PrintfOverrunsCursor | smeshcore/privatelibrary/contiki-REST/RestResponse.cpp:122-125 | a text longer than the space left moves the cursor past capacity by exactly the excess, leaving the state out of range |
| RestResponseProperties.PrintIntOverrunExample | smeshcore/privatelibrary/contiki-REST/RestResponse.cpp:119-126 | at capacity 4 with "ab" written, print(12345) returns 5 and sets the cursor to 7, while only "1" and a NUL reach the buffer |
| RestResponseProperties.ClampedStoresSameBytes | smeshcore/privatelibrary/contiki-REST/RestResponse.cpp:122-125 | the intended printf stores the same buffer bytes as the one written in the source and reports no more; the two agree exactly when the text fits before the terminator or is empty |
| RestResponseProperties.PrintfLastSlotLost | smeshcore/privatelibrary/contiki-REST/RestResponse.cpp:122-124 | a text of exactly the space left fills the buffer according to the cursor, but the payload is not the old payload followed by the text, because its last byte is the NUL |
| RestResponseProperties.ResetThenWrite | smeshcore/privatelibrary/contiki-REST/RestResponse.cpp:177-179 | after setPayloadLength(0), a write leaves the payload as the first capacity bytes of the data, whatever was written before |
| RestResponseProperties.BlockExample | smeshcore/privatelibrary/contiki-REST/RestResponse.cpp:202-212 | blockAppend(10) from 0 reads back 10; blockComplete then reads back -1; the payload stays empty |
| RestResponseProperties.BlockAppendCommutesWithWrite | smeshcore/privatelibrary/contiki-REST/RestResponse.cpp:206-208 | blockAppend and write act on separate state, so their order does not matter |

## Findings

| source | as written | input that shows it | evidently intended | confidence | as-written member | corrected member |
|---|---|---|---|---|---|---|
| smeshcore/privatelibrary/contiki-REST/RestResponse.cpp:124 | `payloadLength += printed` adds vsnprintf's untruncated length, and `printf` returns it, although every `print` overload documents its result as "the actual count of written bytes" (lines 28, 37, 47, 57, 68) | capacity 4 with "ab" written, `print(12345)`: vsnprintf stores "1" and a NUL, returns 5, and the cursor becomes 7, past the capacity; a following `write` then computes `REST_MAX_CHUNK_SIZE - payloadLength` in wrapped `size_t` and copies past the buffer (lines 137-140) | advance by, and return, the number of characters actually stored, min(len, space-1), so the cursor stays within the chunk | high; not executed | RestResponseProperties.PrintfOverrunsCursor | RestResponse.PrintfClamped |

The print overloads and `PrintLong` are kept on `Printf`, the code as written.
`PrintfClamped` is the corrected definition. It has its own contract, and
`ClampedStoresSameBytes` relates it to `Printf`.

## Left out

- `print(float, digits)`, `print(double, digits)` and `printFloat` (lines 83-104, 214-262): floating-point rendering behind the `CONTIKI` switch, with NaN/Inf tests, double rounding and truncating casts; there is no floating point here.
- `flush` and the destructor (lines 20-22, 148-150): a call into the Contiki REST engine with `[buffer, payloadLength)`. `Payload` is the byte range that call would hand over. The source has no guard against flushing twice, and the destructor always flushes.
- `setPayload`, `setStatusCode`, `setContentType`, `setMaxAge`, `setETag`, `setLocation` (lines 152-200): direct calls into the REST engine with no logic of their own (`setPayload` also sets the cursor, as `SetPayloadLength` does).
- RestResponse.Printf: the formatting is abstract. The untruncated output text is a parameter, with no format-string parsing. A negative (encoding-error) return of `vsnprintf` is not modelled, and neither is a length above `INT_MAX`. The bytes after the terminator are assumed untouched.
- RestResponse.PrintLong: `"%l"` is not a complete conversion specification, so the text it produces is a free parameter and is not tied to `l`.
- RestResponse.PrintInt, RestResponse.PrintUnsigned, RestResponse.PrintUnsignedLong: the widths of `int`, `unsigned` and `unsigned long` are not fixed. The decimal text does not depend on them, so the arguments are unbounded integers.
- RestResponse.Write: `size_t` wrap-around is not modelled. With `payloadLength` above the capacity, the C++ subtraction wraps and the copy lands outside the buffer, so `Write` and `Printf` require `payloadLength <= capacity`. Addition to `payloadLength` is likewise unbounded.
- Pointer aliasing between the buffer and the offset: they are separate state components.

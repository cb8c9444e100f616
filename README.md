# quickdiff in Dafny

quickdiff compares pairs of texts in batch. A job (an *Order*) is a list of
texts (*contents*) and a list of index pairs (*couples*). The program reads
an Order from a binary blob, computes one similarity ratio per couple, and
writes the ratios back as a binary *ratio vector*. The same codec and
executor exist twice: the C++ program `src/quickdiff.cpp` and its Python
reference `py/Order.py`. This project models both, and proves that they
agree on the wire format and that each reads back what it writes.

Wire layout (every integer is a u64 of 8 little-endian bytes):

    Order:   n_contents, then per content: byte length, UTF-8 bytes;
             n_couples, then per couple: a, b
    Ratios:  n_ratios, then the 8 bytes of each double

Modules:

- `Results` (results.dfy): the error kinds and `Result`/`Option`, plus
  `Prepend`, which the deserialising loops use to state what they have read so far.
- `Bytes` (bytes.dfy): bytes, u64 fields, and 8-byte little-endian
  encoding with its two inverse laws.
- `Utf8` (utf8.dfy): a UTF-8 codec following section 3 of RFC 3629, which
  rejects overlong forms and surrogates. It stands for `utf8::utf32to8` /
  `utf8::utf8to32` and for Python's `str.encode` / `bytes.decode`. It is
  proved to round-trip and to be canonical.
- `Wire` (wire.dfy): the layout as functions. There are writers
  (`OrderBytes`, `RatiosBytes`, …) and cursor readers (`ParseOrder`,
  `ParseRatios`, …). Each reader returns the value together with the bytes
  it left unread.
- `WireLaws` (wire_laws.dfy) proves four families of laws about the layout:
  - round trip;
  - canonicity: whatever a reader accepts is exactly what the writer writes;
  - truncation: any cut-short encoding is refused;
  - encoding sizes.
- `Streams` (streams.dfy): `ostringstream` and `istringstream` as classes.
  An output stream is a buffer that writes append to. An input stream is a
  constant byte string plus a cursor that reads advance. These classes model
  `utils::write`, `utils::read_primitive` and `utils::read_bytes`.
- `QuickDiff` (quickdiff.dfy): the C++ serialisers, deserialisers and
  `Order::execute`. They are written as methods with loops over the
  streams and proved against `Wire`.
- `PyOrder` (pyorder.dfy): the Python field helpers, `read_and_parse`, and
  what `Deserializer.deserialize` computes. Slicing clamps at the end of the
  input, exactly as Python slices do.
- `PyOrderLaws` (pyorder_laws.dfy): the Python reading agrees with the C++
  layout. It also proves the Python round trip, rejection of truncated and
  extended blobs, and canonicity.
- `PyCodec` (pycodec.dfy): the Python loops (`RatioList`, `Serializer`,
  `Deserializer`, `Order.execute`) as methods. A raised exception is an `Err`.

Where the two implementations differ, each is modelled as written:

- **Trailing bytes.**
  - C++ `Order::deserialize` ignores bytes after the last couple.
    `QuickDiff.Deserialize` accepts them and reports them through
    `ParseOrder`'s remainder.
  - Python asserts that nothing is left, and gets `Err(TrailingBytes)`.
- **Out-of-range indices.**
  - C++ `execute` indexes without a check. `QuickDiff.Execute` therefore
    requires every index to be below the content count.
  - Python `execute` accepts negative indices, which count from the end, and
    raises IndexError otherwise. `PyCodec.Execute` returns `Err(IndexOutOfRange)`.
  - Neither decoder rejects an out-of-range index. A design that checks
    indices at decode time is not what the code does, so the model follows the code.
- **Short content chunks in Python.** Python's `read_and_parse` slices, so a
  content chunk cut short by the end of the blob is still decoded. The
  next read then fails. `PyOrderLaws.DeserializedAgrees` proves that
  Python still accepts exactly the blobs the C++ reader accepts with nothing
  left over.

## Model

| member | source | states |
|---|---|---|
| Bytes.ValueOfBytes | src/quickdiff.cpp:65-76 | reading back the 8 bytes written for a u64 gives the same value |
| Bytes.BytesOfValue | src/quickdiff.cpp:25-35 | every 8-byte chunk is the encoding of the value read from it |
| Utf8.DecodeEncode | src/quickdiff.cpp:248 | decoding the UTF-8 encoding of any code point sequence gives it back |
| Utf8.EncodeDecode | src/quickdiff.cpp:263 | every byte string that decodes is the encoding of what it decodes to (canonicity) |
| Wire.ReadU64Consumes | src/quickdiff.cpp:65-76 | a u64 read succeeds iff 8 bytes remain, and consumes exactly the encoding of the value it returns |
| Wire.ReadBytes | src/quickdiff.cpp:91-101 | reading n bytes succeeds iff n remain; the bytes read and the rest make up the input |
| Wire.ReadDouble | src/quickdiff.cpp:78-89 | a double read succeeds iff 8 bytes remain; the pattern read and the rest make up the input |
| Streams.OStream.WriteU64 | src/quickdiff.cpp:25-35 | the buffer grows by exactly the 8 bytes of the field |
| Streams.OStream.WriteDouble | src/quickdiff.cpp:37-47 | the buffer grows by exactly the 8-byte pattern of the double |
| Streams.OStream.WriteString | src/quickdiff.cpp:49-59 | the buffer grows by exactly the string's bytes, with no length or terminator |
| Streams.IStream.ReadU64 | src/quickdiff.cpp:65-76 | succeeds iff 8 bytes remain; the cursor moves past exactly the field read; agrees with Wire.ReadU64; on failure the cursor is left at the end of the data, as a read past end of file leaves it |
| Streams.IStream.ReadDouble | src/quickdiff.cpp:78-89 | succeeds iff 8 bytes remain; the cursor moves past exactly the pattern read; on failure the cursor is left at the end of the data, as a read past end of file leaves it |
| Streams.IStream.ReadBytes | src/quickdiff.cpp:91-101 | succeeds iff count bytes remain; returns exactly count bytes and moves the cursor past them; on failure the cursor is left at the end of the data, as a read past end of file leaves it |
| QuickDiff.SerializeRatios | src/quickdiff.cpp:112-121 | writes the ratio layout, 8 + 8n bytes long, which RatioVect::deserialize reads back bit for bit with nothing left |
| QuickDiff.ReadRatioList | src/quickdiff.cpp:129-135 | the while loop reads count doubles in order, or fails as truncated, leaving the cursor where ParseDoubleList does |
| QuickDiff.DeserializeRatios | src/quickdiff.cpp:123-136 | returns what ParseRatios reads; what it accepts starts with the serialisation of the vector it returns |
| QuickDiff.SerializeContents | src/quickdiff.cpp:256-270 | writes the count and each content framed by its UTF-8 byte length; deserialize_contents reads it back |
| QuickDiff.SerializeCouples | src/quickdiff.cpp:165-176 | writes the count and a, b of each couple, 8 + 16n bytes, which deserialize_couples reads back in order |
| QuickDiff.Serialize | src/quickdiff.cpp:178-181 | the contents section followed by the couples section, of the stated length, which Order::deserialize reads back |
| QuickDiff.ReadContent | src/quickdiff.cpp:246-250 | reads a length, that many bytes and their UTF-8 decoding, failing exactly as ParseContent does |
| QuickDiff.ReadContentList | src/quickdiff.cpp:245-251 | the while loop reads count contents in order, with the cursor and result of ParseContentList |
| QuickDiff.DeserializeContents | src/quickdiff.cpp:239-254 | the stream's cursor and the result are those of ParseContents on what remained |
| QuickDiff.ReadCouple | src/quickdiff.cpp:216-219 | reads a then b, failing as truncated exactly as ParseCouple does |
| QuickDiff.ReadCoupleList | src/quickdiff.cpp:215-220 | the while loop reads count couples in order, with the cursor and result of ParseCoupleList |
| QuickDiff.DeserializeCouples | src/quickdiff.cpp:211-223 | the stream's cursor and the result are those of ParseCouples on what remained |
| QuickDiff.Deserialize | src/quickdiff.cpp:225-233 | returns what ParseOrder reads; the result fits its fields, its serialisation is a prefix of the input, and equals it iff nothing was left unread |
| QuickDiff.Execute | src/quickdiff.cpp:183-197 | one ratio per couple, slot i holding the ratio of the two contents couple i names, for every order in which the parallel loop runs its iterations |
| WireLaws.ContentsRoundTrip | src/quickdiff.cpp:239-270 | deserialize_contents reads back what serialize_contents wrote and leaves what follows |
| WireLaws.CouplesRoundTrip | src/quickdiff.cpp:211-223 | deserialize_couples reads back, in order, what serialize_couples (lines 165-176) wrote |
| WireLaws.OrderRoundTrip | src/quickdiff.cpp:225-233 | Order::deserialize reads back what Order::serialize wrote, whatever follows it |
| WireLaws.RatiosRoundTrip | src/quickdiff.cpp:123-136 | RatioVect::deserialize reads back what RatioVect::serialize wrote, bit for bit |
| WireLaws.ContentCanonical | src/quickdiff.cpp:246-250 | any content that is read was framed exactly as the writer frames it |
| WireLaws.ContentListCanonical | src/quickdiff.cpp:245-251 | any list of contents that is read is exactly the writer's frames |
| WireLaws.ContentsCanonical | src/quickdiff.cpp:239-254 | any contents section that is read is exactly what serialize_contents writes for it |
| WireLaws.CoupleCanonical | src/quickdiff.cpp:216-219 | any couple that is read is exactly its 16 written bytes |
| WireLaws.CoupleListCanonical | src/quickdiff.cpp:215-220 | any list of couples that is read is exactly the writer's bytes |
| WireLaws.CouplesCanonical | src/quickdiff.cpp:211-223 | any couples section that is read is exactly what serialize_couples writes for it |
| WireLaws.DoubleListCanonical | src/quickdiff.cpp:130-133 | any list of ratios that is read is exactly their bit patterns |
| WireLaws.OrderCanonical | src/quickdiff.cpp:355-358 | whatever Order::deserialize accepts is the serialisation of the order read plus the unread rest, so serialize(deserialize(bin)) == bin iff nothing is left |
| WireLaws.RatiosCanonical | src/quickdiff.cpp:123-136 | whatever RatioVect::deserialize accepts is the serialisation of the vector read plus the unread rest |
| WireLaws.ContentPrefix | src/quickdiff.cpp:246-248 | a content frame cut short fails as truncated; a whole one reads back |
| WireLaws.ContentListPrefix | src/quickdiff.cpp:245-251 | contents cut short fail as truncated; whole ones read back with the rest cut accordingly |
| WireLaws.ContentsPrefix | src/quickdiff.cpp:239-254 | a contents section cut short fails as truncated |
| WireLaws.CouplePrefix | src/quickdiff.cpp:216-217 | a couple cut short fails as truncated |
| WireLaws.CoupleListPrefix | src/quickdiff.cpp:215-220 | couples cut short fail as truncated |
| WireLaws.CouplesPrefix | src/quickdiff.cpp:211-223 | a couples section cut short fails as truncated |
| WireLaws.OrderPrefix | src/quickdiff.cpp:225-233 | an order cut short anywhere fails as truncated |
| WireLaws.DoubleListPrefix | src/quickdiff.cpp:130-133 | ratios cut short fail as truncated |
| WireLaws.RatiosPrefix | src/quickdiff.cpp:123-136 | a ratio vector cut short fails as truncated |
| WireLaws.TruncatedOrderFails | src/quickdiff.cpp:225-233 | cutting an accepted blob anywhere before the end of the order makes Order::deserialize fail |
| WireLaws.TruncatedRatiosFail | src/quickdiff.cpp:123-136 | cutting an accepted blob anywhere before the last ratio makes RatioVect::deserialize fail |
| WireLaws.FramesLength | src/quickdiff.cpp:261-267 | the content frames take the sum over contents of 8 plus the UTF-8 length |
| WireLaws.CoupleListLength | src/quickdiff.cpp:170-173 | the couple list takes 16 bytes per couple |
| WireLaws.DoubleListLength | src/quickdiff.cpp:117-118 | the ratio list takes 8 bytes per ratio |
| WireLaws.OrderLength | src/quickdiff.cpp:178-181 | an order takes 8 + sum(8 + utf8 length) + 8 + 16 * couples bytes |
| WireLaws.RatiosLength | src/quickdiff.cpp:112-121 | a ratio vector takes 8 + 8n bytes |
| PyOrder.Equals | py/Order.py:99-100 | Order.__eq__ holds exactly when both orders are the same |
| PyOrder.IntToUint64 | py/Order.py:14-15 | succeeds iff 0 <= a < 2^64, giving 8 bytes whose little-endian value is a |
| PyOrder.Uint64ToInt | py/Order.py:17-20 | succeeds iff the chunk is exactly 8 bytes, and then is inverse to int_to_uint64 |
| PyOrder.DecodeText | py/Order.py:109-111 | succeeds iff the bytes are valid UTF-8, and the text re-encodes to exactly those bytes |
| PyOrder.ReadAndParse | py/Order.py:30-37 | succeeds iff the parser accepts bin[:n], returns its value, and the chunk followed by the remainder is bin |
| PyOrder.Position | py/Order.py:93-94 | an index Python accepts names a content in range, and a non-negative index names itself |
| PyOrderLaws.Uint64RoundTrip | py/Order.py:14-20 | uint64_to_int undoes int_to_uint64 on every value below 2^64 |
| PyOrderLaws.ReadUint64Agrees | py/Order.py:51 | a u64 read by read_and_parse is the C++ read: 8 bytes, or failure when fewer remain |
| PyOrderLaws.ReadDoubleAgrees | py/Order.py:25-28 | a double read by read_and_parse with double_to_float, as RatioList.deserialize does at py/Order.py:54, is the C++ read on every input: 8 bytes taken as the bit pattern, or Truncated when fewer remain |
| PyOrderLaws.ReadContentAgrees | py/Order.py:108-111 | a content read agrees with the C++ read when that succeeds; otherwise Python fails or leaves nothing |
| PyOrderLaws.ReadContentsAgree | py/Order.py:107-112 | the contents loop reads what the C++ loop reads whenever that succeeds |
| PyOrderLaws.ReadContentsCutShort | py/Order.py:107-112 | when the C++ loop fails and the Python loop does not, Python has consumed every byte |
| PyOrderLaws.ReadContentsAgrees | py/Order.py:107-112 | both of the above for any input |
| PyOrderLaws.ReadCoupleAgrees | py/Order.py:117-119 | a couple read by Python is the C++ couple, as a pair of ints |
| PyOrderLaws.ReadCouplesAgrees | py/Order.py:116-119 | the couples loop reads what the C++ loop reads, failing on the same inputs |
| PyOrderLaws.ReadContentSectionAgrees | py/Order.py:105-112 | the count plus contents loop reads the C++ contents section whenever that succeeds; a success after a C++ failure leaves nothing unread |
| PyOrderLaws.ReadCoupleSectionAgrees | py/Order.py:114-119 | the count plus couples loop reads the C++ couples section, as pairs of ints, on every input |
| PyOrderLaws.DeserializedAgrees | py/Order.py:102-123 | deserialize accepts exactly when the C++ reader reads an order and leaves nothing, returns the same order, and raises on leftover bytes |
| PyOrderLaws.RoundTrip | py/Order.py:102-148 | Deserializer.deserialize reads back what Serializer.serialize writes, and the result is equal to the original under Order.__eq__ |
| PyOrderLaws.Canonical | py/Order.py:102-123 | every blob deserialize accepts is, byte for byte, the serialisation of the order it returns |
| PyOrderLaws.TruncatedFails | py/Order.py:106-121 | cutting an accepted blob short anywhere makes deserialize fail |
| PyOrderLaws.TrailingFails | py/Order.py:121 | appending any bytes to an accepted blob makes deserialize raise on them |
| PyOrderLaws.DecodedIndexable | py/Order.py:89-97 | on a decoded order whose indices are in range, Python's execute looks up the same contents as C++ |
| PyCodec.SerializeRatios | py/Order.py:40-47 | never raises below 2^64 ratios, and writes the same bytes as RatioVect::serialize, 8 + 8n long |
| PyCodec.DeserializeRatios | py/Order.py:49-57 | returns what the C++ RatioVect::deserialize reads from the same bytes, failures included |
| PyCodec.SerializeContent | py/Order.py:133-138 | raises iff the UTF-8 length does not fit 64 bits, and otherwise writes the content's frame |
| PyCodec.SerializeContents | py/Order.py:130-138 | raises iff a count or length does not fit 64 bits, and otherwise writes the C++ contents section |
| PyCodec.SerializeCouples | py/Order.py:140-146 | raises iff a count or index is negative or too large for 64 bits, and otherwise writes the C++ couples section |
| PyCodec.Serialize | py/Order.py:125-148 | raises iff some field does not fit, and otherwise writes the wire encoding of the order, 8 + sum(8 + utf8 length) + 8 + 16 * couples bytes |
| PyCodec.DeserializeContent | py/Order.py:108-112 | one pass of the contents loop returns what the C++ content read returns whenever that succeeds; when the C++ read fails and this one does not, the chunk was cut short and nothing is left |
| PyCodec.DeserializeContentList | py/Order.py:107-112 | n passes of the contents loop compute what ReadContents specifies |
| PyCodec.DeserializeContents | py/Order.py:105-112 | the count and the contents loop return the C++ contents section whenever that is read; a success after a C++ failure leaves nothing unread |
| PyCodec.DeserializeCoupleList | py/Order.py:116-119 | n passes of the couples loop compute what ReadCouples specifies |
| PyCodec.DeserializeCouples | py/Order.py:114-119 | the count and the couples loop return the C++ couples section as pairs of ints on every input, failures included |
| PyCodec.Deserialize | py/Order.py:102-123 | accepts exactly one serialised order with nothing after it, returns the order the C++ reader reads, and raises on trailing bytes |
| PyCodec.Execute | py/Order.py:89-97 | raises IndexError iff some index is out of Python's range; otherwise one ratio per couple, in couple order, of the contents the indices name |

## Left out

- The similarity ratio (`difflib` in both languages) is external library code
  that computes floating-point values. It is a function parameter `ratio`
  of both `Execute` methods. Its range, symmetry and identity are not modelled.
- OpenMP scheduling is not modelled directly. `QuickDiff.Execute` takes the
  order of iterations as a parameter (`schedule`): any sequence that visits
  every slot. Threads, data races and the barrier are not modelled.
- Doubles are opaque 8-byte patterns. IEEE-754 arithmetic and NaN
  comparison are not modelled. Python's `float_to_double` and
  `double_to_float` are the identity on those patterns.
- Every u64 field is fixed at 8 bytes, little-endian:
  - both programs write native byte order;
  - Python's `struct` format `'L'` has native width, which is 4 bytes on
    some platforms.
- UTF-8 is the RFC 3629 codec in `Utf8`. The behaviour of the real
  libraries on malformed input is taken to be rejection. Contents are
  sequences of Unicode scalar values. Python strings holding lone
  surrogates, which `str.encode` refuses, are not modelled.
- Stream write failures are not modelled (`os.fail()` after a write). Nor are
  allocation failures, such as `read_bytes` allocating a huge string before
  checking the length.
- QuickDiff.Serialize, QuickDiff.SerializeRatios, QuickDiff.SerializeContents,
  QuickDiff.SerializeCouples: these require each count and length to be
  below 2^64, which holds for every C++ vector and string. A write that
  does not fit is not modelled.
- QuickDiff.Execute requires every index to be in range. Out-of-range
  access is undefined behaviour in the C++ program and is not modelled.
- File, stdin and stdout I/O are not modelled, and neither are `main`, the
  Windows stream-mode switching or the timing in the self-test
  (src/quickdiff.cpp:276-386). Only the self-test's round-trip assertion is
  stated (`WireLaws.OrderCanonical`).
- `Order::get_contents`, `Order::get_couples` and the `Order(string)`
  constructor only return fields or delegate to `deserialize`. They are not separate members.
- Python's serializer/deserializer injection (`Order.serialize`,
  `Order.deserialize`, py/Order.py:67-87 and 150-151) only selects the
  defaults modelled here.
- Every `size_t` in the C++ readers is taken to be 64 bits wide
  (src/quickdiff.cpp:129, 214, 216-217, 244, 246). On a 32-bit build,
  storing a u64 field in a `size_t` truncates it modulo 2^32. Such a build
  would read different counts, lengths and indices, and this is not modelled.
- Python runs with assertions enabled. The trailing-bytes rejection is a bare
  `assert len(bin) == 0` (py/Order.py:121), which `python -O` removes.
  `PyOrderLaws.TrailingFails`, the third clause of
  `PyOrderLaws.DeserializedAgrees` and the `TrailingBytes` clause of
  `PyCodec.Deserialize` hold only with assertions on. Without them, blobs
  with trailing bytes would be accepted. The length asserts in
  `uint64_to_int` and `double_to_float` (py/Order.py:18, 26) would also be
  removed, but `struct.unpack` still raises on a short chunk, so those reads
  fail either way.
- Python's `list` and `bytearray` are modelled as sequences. Aliasing of
  the lists an `Order` holds is not modelled.

/**
 * The Python reference codec (py/Order.py) as expressions: the u64 and
 * double field helpers, read_and_parse, and what Deserializer.deserialize
 * computes, written as functions that cut the byte string exactly as the
 * Python slices do. The loops of the Python code are in PyCodec; the laws
 * that connect this reading to the C++ layout are in PyOrderLaws.
 */
module PyOrder {
  import opened Results
  import opened Bytes
  import Utf8
  import Wire

  type Content = Wire.Content
  type Double = Wire.Double

  const UINT64_SIZE: nat := 8
  const DOUBLE_SIZE: nat := 8

  /**
   * An Order as Python holds it: a list of str and a list of (int, int)
   * tuples. Nothing stops a caller from putting any int in a tuple.
   */
  datatype Order = Order(contents: seq<Content>, couples: seq<(int, int)>)

  /** Order.__eq__: two orders are equal when their contents and their couples are. */
  function Equals(x: Order, y: Order): (r: bool)
    ensures r <==> x == y
  {
    x.contents == y.contents && x.couples == y.couples
  }

  /**
   * int_to_uint64: the 8-byte little-endian field of `a`; struct.pack raises
   * when `a` does not fit an unsigned 64-bit field.
   */
  function IntToUint64(a: int): (r: Result<seq<byte>>)
    ensures r.Ok? <==> 0 <= a < U64_LIMIT
    ensures r.Ok? ==> |r.value| == UINT64_SIZE && FromLe(r.value) == a
  {
    if 0 <= a < U64_LIMIT then
      Pow256Eight();
      FromToLe(a, 8);
      Ok(U64Bytes(a))
    else Err(OutOfRange)
  }

  /**
   * uint64_to_int: the value of an 8-byte field; the assert on the chunk's
   * length fails for any chunk that is not exactly 8 bytes long.
   */
  function Uint64ToInt(b: seq<byte>): (r: Result<u64>)
    ensures r.Ok? <==> |b| == UINT64_SIZE
    ensures r.Ok? ==> IntToUint64(r.value) == Ok(b)
  {
    if |b| == UINT64_SIZE then
      BytesOfValue(b);
      Ok(U64Value(b))
    else Err(Truncated)
  }

  /**
   * double_to_float: an 8-byte chunk read as a double, whose bit pattern is
   * the chunk itself; the assert fails for any chunk that is not 8 bytes long.
   */
  function DoubleToFloat(b: seq<byte>): (r: Result<Double>)
    ensures r.Ok? <==> |b| == DOUBLE_SIZE
    ensures r.Ok? ==> r.value == b
  {
    if |b| == DOUBLE_SIZE then Ok(b) else Err(Truncated)
  }

  /** `bytes.decode()`: strict UTF-8, raising on malformed input. */
  function DecodeText(b: seq<byte>): (r: Result<Content>)
    ensures r.Ok? <==> Utf8.Decode(b).Some?
    ensures r.Ok? ==> Utf8.Encode(r.value) == b
  {
    match Utf8.Decode(b)
    case None => Err(InvalidUtf8)
    case Some(c) =>
      Utf8.EncodeDecode(b);
      Ok(c)
  }

  /** `bin[:n]`: the first `n` bytes, or all of them when fewer remain. */
  function Take(bin: seq<byte>, n: nat): seq<byte> {
    if n <= |bin| then bin[..n] else bin
  }

  /** `bin[n:]`: what follows the first `n` bytes, empty when fewer remain. */
  function Drop(bin: seq<byte>, n: nat): seq<byte> {
    if n <= |bin| then bin[n..] else []
  }

  /**
   * read_and_parse: parses the chunk `bin[:n]` and returns the value with the
   * remainder `bin[n:]`; the chunk and the remainder make up `bin` again.
   */
  function ReadAndParse<T>(bin: seq<byte>, n: nat, parse: seq<byte> -> Result<T>): (r: Result<(T, seq<byte>)>)
    ensures r.Ok? <==> parse(Take(bin, n)).Ok?
    ensures r.Ok? ==> r.value.0 == parse(Take(bin, n)).value && Take(bin, n) + r.value.1 == bin
    ensures r.Err? ==> r.error == parse(Take(bin, n)).error
  {
    assert n <= |bin| ==> bin[..n] + bin[n..] == bin;
    match parse(Take(bin, n))
    case Ok(v) => Ok((v, Drop(bin, n)))
    case Err(e) => Err(e)
  }

  // ------------------------------------------ what Deserializer.deserialize reads

  /** A u64 field, read with read_and_parse and uint64_to_int. */
  function ReadUint64(bin: seq<byte>): Result<(u64, seq<byte>)> {
    ReadAndParse(bin, UINT64_SIZE, Uint64ToInt)
  }

  /** One content: its length field, then that many bytes decoded as text. */
  function ReadContent(bin: seq<byte>): Result<(Content, seq<byte>)> {
    match ReadUint64(bin)
    case Err(e) => Err(e)
    case Ok((n, bin1)) => ReadAndParse(bin1, n, DecodeText)
  }

  /** `n` passes of the contents loop. */
  function ReadContents(bin: seq<byte>, n: nat): Result<(seq<Content>, seq<byte>)>
    decreases n
  {
    if n == 0 then Ok(([], bin))
    else match ReadContent(bin)
      case Err(e) => Err(e)
      case Ok((c, bin1)) => Prepend([c], ReadContents(bin1, n - 1))
  }

  /** One couple: two u64 fields. */
  function ReadCouple(bin: seq<byte>): Result<((int, int), seq<byte>)> {
    match ReadUint64(bin)
    case Err(e) => Err(e)
    case Ok((a, bin1)) =>
      match ReadUint64(bin1)
      case Err(e) => Err(e)
      case Ok((b, bin2)) => Ok(((a, b), bin2))
  }

  /** `n` passes of the couples loop. */
  function ReadCouples(bin: seq<byte>, n: nat): Result<(seq<(int, int)>, seq<byte>)>
    decreases n
  {
    if n == 0 then Ok(([], bin))
    else match ReadCouple(bin)
      case Err(e) => Err(e)
      case Ok((p, bin1)) => Prepend([p], ReadCouples(bin1, n - 1))
  }

  /** The first loop of Deserializer.deserialize: the content count, then the contents. */
  function ReadContentSection(bin: seq<byte>): Result<(seq<Content>, seq<byte>)> {
    match ReadUint64(bin)
    case Err(e) => Err(e)
    case Ok((n, bin1)) => ReadContents(bin1, n)
  }

  /** The second loop of Deserializer.deserialize: the couple count, then the couples. */
  function ReadCoupleSection(bin: seq<byte>): Result<(seq<(int, int)>, seq<byte>)> {
    match ReadUint64(bin)
    case Err(e) => Err(e)
    case Ok((n, bin1)) => ReadCouples(bin1, n)
  }

  /** What Deserializer.deserialize returns, or the error it raises. */
  function Deserialized(bin: seq<byte>): Result<Order> {
    match ReadContentSection(bin)
    case Err(e) => Err(e)
    case Ok((contents, bin1)) =>
      match ReadCoupleSection(bin1)
      case Err(e) => Err(e)
      case Ok((couples, bin2)) =>
        if bin2 != [] then Err(TrailingBytes) else Ok(Order(contents, couples))
  }

  // ----------------------------------------- between Python and the wire layout

  predicate IsU64(x: int) {
    0 <= x < U64_LIMIT
  }

  /** Every field Serializer.serialize writes fits in 8 bytes, so it does not raise. */
  predicate Encodable(o: Order) {
    |o.contents| < U64_LIMIT && Wire.ContentsFit(o.contents) && |o.couples| < U64_LIMIT
    && forall i :: 0 <= i < |o.couples| ==> IsU64(o.couples[i].0) && IsU64(o.couples[i].1)
  }

  function ToCouple(p: (int, int)): Wire.Couple
    requires IsU64(p.0) && IsU64(p.1)
  {
    Wire.Couple(p.0, p.1)
  }

  function ToCouples(ps: seq<(int, int)>): seq<Wire.Couple>
    requires forall i :: 0 <= i < |ps| ==> IsU64(ps[i].0) && IsU64(ps[i].1)
  {
    seq(|ps|, i requires 0 <= i < |ps| && IsU64(ps[i].0) && IsU64(ps[i].1) => ToCouple(ps[i]))
  }

  function FromCouples(ps: seq<Wire.Couple>): seq<(int, int)> {
    seq(|ps|, i requires 0 <= i < |ps| => (ps[i].a as int, ps[i].b as int))
  }

  /** The order in the terms of the wire layout. */
  function ToWire(o: Order): Wire.Order
    requires Encodable(o)
  {
    Wire.Order(o.contents, ToCouples(o.couples))
  }

  /** A decoded wire order as Python holds it. */
  function FromWire(w: Wire.Order): Order {
    Order(w.contents, FromCouples(w.couples))
  }

  // --------------------------------------------------------- Order.execute

  /** Python indexing accepts -n <= i < n. */
  predicate InBounds(i: int, n: nat) {
    -(n as int) <= i < n
  }

  /** The position Python indexing reads: negative indices count from the end. */
  function Position(i: int, n: nat): (p: nat)
    requires InBounds(i, n)
    ensures p < n
    ensures i >= 0 ==> p == i
  {
    if i < 0 then n + i else i
  }

  /** Every couple of `o` indexes its contents without raising IndexError. */
  predicate Indexable(o: Order) {
    forall k :: 0 <= k < |o.couples| ==>
      InBounds(o.couples[k].0, |o.contents|) && InBounds(o.couples[k].1, |o.contents|)
  }
}

/**
 * The binary layout of a job ("Order") and of a score vector ("RatioVect"),
 * as functions: what the serialisers write, and what the deserialisers read
 * back with a cursor that moves forward through the bytes. The imperative
 * code in QuickDiff and PyOrder is proved against these functions.
 *
 *   Order:   u64 n_contents, then per content u64 byte length and its UTF-8 bytes,
 *            u64 n_couples, then per couple u64 a and u64 b
 *   Ratios:  u64 n_ratios, then per ratio the 8 bytes of a double
 */
module Wire {
  import opened Results
  import opened Bytes
  import Utf8

  /** One corpus item: a sequence of code points (a C++ u32string, a Python str). */
  type Content = seq<Utf8.CodePoint>

  /** A double, carried as its 8-byte bit pattern; the codec only copies it. */
  type Double = w: seq<byte> | |w| == 8 witness [0, 0, 0, 0, 0, 0, 0, 0]

  /** The bit pattern of 0.0, which a freshly sized ratio vector holds. */
  const ZERO: Double := [0, 0, 0, 0, 0, 0, 0, 0]

  /** Two indices into the contents. */
  datatype Couple = Couple(a: u64, b: u64)

  datatype Order = Order(contents: seq<Content>, couples: seq<Couple>)

  // ---------------------------------------------------------------- writing

  /** The UTF-8 size of `c` fits a u64 length field. */
  predicate LengthFits(c: Content) {
    |Utf8.Encode(c)| < U64_LIMIT
  }

  predicate ContentsFit(cs: seq<Content>) {
    forall i :: 0 <= i < |cs| ==> LengthFits(cs[i])
  }

  /** Every count and length of `o` fits its u64 field (true of any in-memory C++ vector). */
  predicate Fits(o: Order) {
    |o.contents| < U64_LIMIT && ContentsFit(o.contents) && |o.couples| < U64_LIMIT
  }

  /** One content, framed by the byte length of its UTF-8 encoding. */
  function Frame(c: Content): seq<byte>
    requires LengthFits(c)
  {
    U64Bytes(|Utf8.Encode(c)|) + Utf8.Encode(c)
  }

  function Frames(cs: seq<Content>): seq<byte>
    requires ContentsFit(cs)
  {
    if cs == [] then [] else Frame(cs[0]) + Frames(cs[1..])
  }

  /** What Order::serialize_contents writes. */
  function ContentsBytes(cs: seq<Content>): seq<byte>
    requires |cs| < U64_LIMIT && ContentsFit(cs)
  {
    U64Bytes(|cs|) + Frames(cs)
  }

  function CoupleBytes(p: Couple): seq<byte> {
    U64Bytes(p.a) + U64Bytes(p.b)
  }

  function CoupleList(ps: seq<Couple>): seq<byte> {
    if ps == [] then [] else CoupleBytes(ps[0]) + CoupleList(ps[1..])
  }

  /** What Order::serialize_couples writes. */
  function CouplesBytes(ps: seq<Couple>): seq<byte>
    requires |ps| < U64_LIMIT
  {
    U64Bytes(|ps|) + CoupleList(ps)
  }

  /** What Order::serialize writes: the contents section, then the couples section. */
  function OrderBytes(o: Order): seq<byte>
    requires Fits(o)
  {
    ContentsBytes(o.contents) + CouplesBytes(o.couples)
  }

  function DoubleList(v: seq<Double>): seq<byte> {
    if v == [] then [] else v[0] + DoubleList(v[1..])
  }

  /** What RatioVect::serialize writes. */
  function RatiosBytes(v: seq<Double>): seq<byte>
    requires |v| < U64_LIMIT
  {
    U64Bytes(|v|) + DoubleList(v)
  }

  // ---------------------------------------------------------------- reading

  /** A u64 field and the bytes after it; None when fewer than 8 bytes remain. */
  function ReadU64(s: seq<byte>): Option<(u64, seq<byte>)> {
    if |s| < U64_SIZE then None else Some((U64Value(s[..U64_SIZE]), s[U64_SIZE..]))
  }

  /**
   * Reading a u64 consumes exactly 8 bytes, fails when fewer remain, and what
   * it consumed is the encoding of the value it read.
   */
  lemma ReadU64Consumes(s: seq<byte>)
    ensures ReadU64(s).Some? <==> |s| >= U64_SIZE
    ensures ReadU64(s).Some? ==> U64Bytes(ReadU64(s).value.0) + ReadU64(s).value.1 == s
  {
    if |s| >= U64_SIZE {
      BytesOfValue(s[..U64_SIZE]);
      assert s == s[..U64_SIZE] + s[U64_SIZE..];
    }
  }

  /** The next `n` bytes and the bytes after them; None when fewer than `n` remain. */
  function ReadBytes(s: seq<byte>, n: nat): (r: Option<(seq<byte>, seq<byte>)>)
    ensures r.Some? <==> n <= |s|
    ensures r.Some? ==> |r.value.0| == n && r.value.0 + r.value.1 == s
  {
    if |s| < n then None
    else
      assert s == s[..n] + s[n..];
      Some((s[..n], s[n..]))
  }

  /** The 8-byte pattern of a double and the bytes after it; None when fewer than 8 remain. */
  function ReadDouble(s: seq<byte>): (r: Option<(Double, seq<byte>)>)
    ensures r.Some? <==> |s| >= 8
    ensures r.Some? ==> r.value.0 + r.value.1 == s
  {
    if |s| < 8 then None
    else
      assert s == s[..8] + s[8..];
      Some((s[..8], s[8..]))
  }

  /** One framed content: its length, its bytes, decoded as UTF-8. */
  function ParseContent(s: seq<byte>): Result<(Content, seq<byte>)> {
    match ReadU64(s)
    case None => Err(Truncated)
    case Some((n, s1)) =>
      match ReadBytes(s1, n)
      case None => Err(Truncated)
      case Some((bin, s2)) =>
        match Utf8.Decode(bin)
        case None => Err(InvalidUtf8)
        case Some(c) => Ok((c, s2))
  }

  function ParseContentList(s: seq<byte>, n: nat): Result<(seq<Content>, seq<byte>)>
    decreases n
  {
    if n == 0 then Ok(([], s))
    else match ParseContent(s)
      case Err(e) => Err(e)
      case Ok((c, s1)) => Prepend([c], ParseContentList(s1, n - 1))
  }

  /** What Order::deserialize_contents reads. */
  function ParseContents(s: seq<byte>): Result<(seq<Content>, seq<byte>)> {
    match ReadU64(s)
    case None => Err(Truncated)
    case Some((n, s1)) => ParseContentList(s1, n)
  }

  function ParseCouple(s: seq<byte>): Result<(Couple, seq<byte>)> {
    match ReadU64(s)
    case None => Err(Truncated)
    case Some((a, s1)) =>
      match ReadU64(s1)
      case None => Err(Truncated)
      case Some((b, s2)) => Ok((Couple(a, b), s2))
  }

  function ParseCoupleList(s: seq<byte>, n: nat): Result<(seq<Couple>, seq<byte>)>
    decreases n
  {
    if n == 0 then Ok(([], s))
    else match ParseCouple(s)
      case Err(e) => Err(e)
      case Ok((p, s1)) => Prepend([p], ParseCoupleList(s1, n - 1))
  }

  /** What Order::deserialize_couples reads. */
  function ParseCouples(s: seq<byte>): Result<(seq<Couple>, seq<byte>)> {
    match ReadU64(s)
    case None => Err(Truncated)
    case Some((n, s1)) => ParseCoupleList(s1, n)
  }

  /** What Order::deserialize reads, with the bytes it leaves unread. */
  function ParseOrder(s: seq<byte>): Result<(Order, seq<byte>)> {
    match ParseContents(s)
    case Err(e) => Err(e)
    case Ok((cs, s1)) =>
      match ParseCouples(s1)
      case Err(e) => Err(e)
      case Ok((ps, s2)) => Ok((Order(cs, ps), s2))
  }

  function ParseDoubleList(s: seq<byte>, n: nat): Result<(seq<Double>, seq<byte>)>
    decreases n
  {
    if n == 0 then Ok(([], s))
    else match ReadDouble(s)
      case None => Err(Truncated)
      case Some((d, s1)) => Prepend([d], ParseDoubleList(s1, n - 1))
  }

  /** What RatioVect::deserialize reads, with the bytes it leaves unread. */
  function ParseRatios(s: seq<byte>): Result<(seq<Double>, seq<byte>)> {
    match ReadU64(s)
    case None => Err(Truncated)
    case Some((n, s1)) => ParseDoubleList(s1, n)
  }
}

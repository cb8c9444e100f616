/**
 * Laws of the Python codec: its u64 fields invert each other, its reads agree
 * with the C++ layout of Wire, so Deserializer.deserialize accepts exactly the
 * blobs that are one serialised order with nothing after it, reads back what
 * Serializer.serialize wrote, and fails on every truncated or extended blob.
 */
module PyOrderLaws {
  import opened Results
  import opened Bytes
  import Wire
  import WireLaws
  import opened PyOrder

  /** uint64_to_int undoes int_to_uint64 on every value that fits the field. */
  lemma Uint64RoundTrip(x: int)
    requires 0 <= x < U64_LIMIT
    ensures Uint64ToInt(IntToUint64(x).value) == Ok(x)
  {
    ValueOfBytes(x);
  }

  /** The failure of a C++ read of a fixed-size field, as a Python error. */
  function OrTruncated<T>(o: Option<T>): Result<T> {
    match o
    case None => Err(Truncated)
    case Some(v) => Ok(v)
  }

  /** A Python u64 read is the C++ one: 8 bytes consumed, or failure when fewer remain. */
  lemma ReadUint64Agrees(bin: seq<byte>)
    ensures ReadUint64(bin) == OrTruncated(Wire.ReadU64(bin))
  {
  }

  /** A Python double read is the C++ one. */
  lemma ReadDoubleAgrees(bin: seq<byte>)
    ensures ReadAndParse(bin, DOUBLE_SIZE, DoubleToFloat) == OrTruncated(Wire.ReadDouble(bin))
  {
  }

  /**
   * Reading one content agrees with the C++ read whenever that succeeds.
   * When the C++ read fails, the Python read fails too, or its chunk was cut
   * short by the end of the bytes and nothing is left after it.
   */
  lemma ReadContentAgrees(bin: seq<byte>)
    ensures Wire.ParseContent(bin).Ok? ==> ReadContent(bin) == Wire.ParseContent(bin)
    ensures Wire.ParseContent(bin).Err? && ReadContent(bin).Ok? ==> ReadContent(bin).value.1 == []
  {
    ReadUint64Agrees(bin);
  }

  lemma {:induction false} ReadContentsAgree(bin: seq<byte>, n: nat)
    requires Wire.ParseContentList(bin, n).Ok?
    ensures ReadContents(bin, n) == Wire.ParseContentList(bin, n)
    decreases n
  {
    if n > 0 {
      assert ReadContent(bin) == Wire.ParseContent(bin) by {
        ReadContentAgrees(bin);
      }
      var (c, bin1) := Wire.ParseContent(bin).value;
      ReadContentsAgree(bin1, n - 1);
    }
  }

  lemma {:induction false} ReadContentsCutShort(bin: seq<byte>, n: nat)
    requires Wire.ParseContentList(bin, n).Err? && ReadContents(bin, n).Ok?
    ensures ReadContents(bin, n).value.1 == []
    decreases n
  {
    ReadContentAgrees(bin);
    var (c, bin1) := ReadContent(bin).value;
    if Wire.ParseContent(bin).Ok? {
      ReadContentsCutShort(bin1, n - 1);
    } else if n - 1 > 0 {
      ReadUint64Agrees(bin1);
    }
  }

  /**
   * Reading `n` contents agrees with the C++ read whenever that succeeds;
   * when the C++ read fails and the Python read does not, the last chunk
   * Python read was cut short and nothing is left after it.
   */
  lemma ReadContentsAgrees(bin: seq<byte>, n: nat)
    ensures Wire.ParseContentList(bin, n).Ok? ==> ReadContents(bin, n) == Wire.ParseContentList(bin, n)
    ensures Wire.ParseContentList(bin, n).Err? && ReadContents(bin, n).Ok? ==> ReadContents(bin, n).value.1 == []
  {
    if Wire.ParseContentList(bin, n).Ok? {
      ReadContentsAgree(bin, n);
    } else if ReadContents(bin, n).Ok? {
      ReadContentsCutShort(bin, n);
    }
  }

  /** A couple read by Python is the C++ couple, as a pair of ints. */
  function AsTuple(r: Result<(Wire.Couple, seq<byte>)>): Result<((int, int), seq<byte>)> {
    match r
    case Ok((p, rest)) => Ok(((p.a as int, p.b as int), rest))
    case Err(e) => Err(e)
  }

  function AsTuples(r: Result<(seq<Wire.Couple>, seq<byte>)>): Result<(seq<(int, int)>, seq<byte>)> {
    match r
    case Ok((ps, rest)) => Ok((FromCouples(ps), rest))
    case Err(e) => Err(e)
  }

  lemma ReadCoupleAgrees(bin: seq<byte>)
    ensures ReadCouple(bin) == AsTuple(Wire.ParseCouple(bin))
  {
    ReadUint64Agrees(bin);
    if |bin| >= 8 {
      ReadUint64Agrees(bin[8..]);
    }
  }

  lemma {:induction false} ReadCouplesAgrees(bin: seq<byte>, n: nat)
    ensures ReadCouples(bin, n) == AsTuples(Wire.ParseCoupleList(bin, n))
    decreases n
  {
    if n == 0 {
      assert FromCouples([]) == [];
    } else {
      ReadCoupleAgrees(bin);
      if Wire.ParseCouple(bin).Ok? {
        var (p, bin1) := Wire.ParseCouple(bin).value;
        ReadCouplesAgrees(bin1, n - 1);
        var tail := Wire.ParseCoupleList(bin1, n - 1);
        if tail.Ok? {
          var ps := tail.value.0;
          assert FromCouples([p] + ps) == [(p.a as int, p.b as int)] + FromCouples(ps);
        }
      }
    }
  }

  /**
   * The contents section Python reads is the C++ one whenever that succeeds;
   * a Python success after a C++ failure leaves nothing unread.
   */
  lemma ReadContentSectionAgrees(bin: seq<byte>)
    ensures Wire.ParseContents(bin).Ok? ==> ReadContentSection(bin) == Wire.ParseContents(bin)
    ensures Wire.ParseContents(bin).Err? && ReadContentSection(bin).Ok? ==> ReadContentSection(bin).value.1 == []
  {
    ReadUint64Agrees(bin);
    if |bin| >= 8 {
      var (n, bin1) := Wire.ReadU64(bin).value;
      ReadContentsAgrees(bin1, n);
    }
  }

  /** The couples section Python reads is the C++ one, as pairs of ints, failures included. */
  lemma ReadCoupleSectionAgrees(bin: seq<byte>)
    ensures ReadCoupleSection(bin) == AsTuples(Wire.ParseCouples(bin))
  {
    ReadUint64Agrees(bin);
    if |bin| >= 8 {
      var (n, bin1) := Wire.ReadU64(bin).value;
      ReadCouplesAgrees(bin1, n);
    }
  }

  /**
   * Deserializer.deserialize accepts a blob exactly when the C++ reader reads
   * an order from it and leaves nothing unread, and then both read the same
   * order; when the C++ reader leaves bytes unread, Python raises on them.
   */
  lemma DeserializedAgrees(bin: seq<byte>)
    ensures Deserialized(bin).Ok? <==> Wire.ParseOrder(bin).Ok? && Wire.ParseOrder(bin).value.1 == []
    ensures Deserialized(bin).Ok? ==> Deserialized(bin).value == FromWire(Wire.ParseOrder(bin).value.0)
    ensures Wire.ParseOrder(bin).Ok? && Wire.ParseOrder(bin).value.1 != [] ==> Deserialized(bin) == Err(TrailingBytes)
  {
    ReadUint64Agrees(bin);
    if |bin| >= 8 {
      var (nContents, bin1) := Wire.ReadU64(bin).value;
      ReadContentsAgrees(bin1, nContents);
      var py := ReadContents(bin1, nContents);
      if py.Ok? {
        var (contents, bin2) := py.value;
        ReadUint64Agrees(bin2);
        if Wire.ParseContentList(bin1, nContents).Ok? {
          if |bin2| >= 8 {
            var (nCouples, bin3) := Wire.ReadU64(bin2).value;
            ReadCouplesAgrees(bin3, nCouples);
          }
        } else {
          assert bin2 == [];
        }
      }
    }
  }

  /** Reading a decoded order back into wire terms gives it unchanged. */
  lemma FromToWire(o: Order)
    requires Encodable(o)
    ensures FromWire(ToWire(o)) == o
  {
    assert FromCouples(ToCouples(o.couples)) == o.couples;
  }

  /**
   * Deserializer.deserialize reads back what Serializer.serialize writes
   * (whose bytes are the wire encoding of the order), equal under Order.__eq__.
   */
  lemma RoundTrip(o: Order)
    requires Encodable(o)
    ensures Deserialized(Wire.OrderBytes(ToWire(o))) == Ok(o)
    ensures Equals(Deserialized(Wire.OrderBytes(ToWire(o))).value, o)
  {
    var bin := Wire.OrderBytes(ToWire(o));
    WireLaws.OrderRoundTrip(ToWire(o), []);
    assert bin + [] == bin;
    DeserializedAgrees(bin);
    FromToWire(o);
  }

  /** Every blob Deserializer.deserialize accepts is a serialised order, byte for byte. */
  lemma Canonical(bin: seq<byte>)
    requires Deserialized(bin).Ok?
    ensures Wire.ParseOrder(bin).Ok? && Wire.Fits(Wire.ParseOrder(bin).value.0)
      && Wire.OrderBytes(Wire.ParseOrder(bin).value.0) == bin
  {
    DeserializedAgrees(bin);
    WireLaws.OrderCanonical(bin);
  }

  /** Cutting an accepted blob short anywhere makes Deserializer.deserialize fail. */
  lemma TruncatedFails(bin: seq<byte>, k: nat)
    requires Deserialized(bin).Ok? && k < |bin|
    ensures Deserialized(bin[..k]).Err?
  {
    DeserializedAgrees(bin);
    WireLaws.TruncatedOrderFails(bin, k);
    DeserializedAgrees(bin[..k]);
  }

  /** Appending any bytes to an accepted blob makes Deserializer.deserialize raise on them. */
  lemma TrailingFails(bin: seq<byte>, extra: seq<byte>)
    requires Deserialized(bin).Ok? && extra != []
    ensures Deserialized(bin + extra) == Err(TrailingBytes)
  {
    DeserializedAgrees(bin);
    var o := Wire.ParseOrder(bin).value.0;
    WireLaws.OrderCanonical(bin);
    WireLaws.OrderRoundTrip(o, extra);
    DeserializedAgrees(bin + extra);
  }

  /**
   * On an order decoded from the wire, every index is a u64 below the
   * content count, so Python's execute finds every content C++ does, at the same position.
   */
  lemma DecodedIndexable(w: Wire.Order)
    requires forall i :: 0 <= i < |w.couples| ==> w.couples[i].a < |w.contents| && w.couples[i].b < |w.contents|
    ensures Indexable(FromWire(w))
    ensures forall k :: 0 <= k < |w.couples| ==>
      Position(FromWire(w).couples[k].0, |w.contents|) == w.couples[k].a
      && Position(FromWire(w).couples[k].1, |w.contents|) == w.couples[k].b
  {
  }
}

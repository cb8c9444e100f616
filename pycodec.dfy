/**
 * The loops of the Python reference (py/Order.py): RatioList.serialize and
 * Serializer.serialize extend a bytearray field by field;
 * RatioList.deserialize and Deserializer.deserialize rebind `bin` to the
 * remainder after each read_and_parse and append what they read to lists;
 * Order.execute appends one ratio per couple. A raised exception is an Err.
 */
module PyCodec {
  import opened Results
  import opened Bytes
  import Utf8
  import Wire
  import WireLaws
  import opened PyOrder
  import opened PyOrderLaws

  /**
   * RatioList.serialize: the count, then each ratio's 8 bytes; struct.pack
   * raises only if the count does not fit 64 bits. The bytes are those the
   * C++ RatioVect::serialize writes, so either side reads them back.
   */
  method SerializeRatios(ratios: seq<Double>) returns (r: Result<seq<byte>>)
    ensures r.Ok? <==> |ratios| < U64_LIMIT
    ensures r.Ok? ==> r.value == Wire.RatiosBytes(ratios)
    ensures r.Ok? ==> |r.value| == U64_SIZE + 8 * |ratios|
  {
    var bin: seq<byte> := [];
    var nRatios := IntToUint64(|ratios|);
    if nRatios.Err? {
      return Err(nRatios.error);
    }
    bin := bin + nRatios.value;
    for i := 0 to |ratios|
      invariant bin == U64Bytes(|ratios|) + Wire.DoubleList(ratios[..i])
    {
      bin := bin + ratios[i];
      assert ratios[..i + 1] == ratios[..i] + [ratios[i]];
      assert Wire.DoubleList([ratios[i]]) == ratios[i];
      WireLaws.DoubleListAppend(ratios[..i], [ratios[i]]);
    }
    assert ratios[..|ratios|] == ratios;
    r := Ok(bin);
    WireLaws.RatiosLength(ratios);
  }

  /**
   * RatioList.deserialize: the count, then that many 8-byte doubles, read
   * with read_and_parse; a short chunk trips the length assert. Bytes after
   * the last ratio are not looked at, as on the C++ side.
   */
  method DeserializeRatios(bin0: seq<byte>) returns (r: Result<seq<Double>>)
    ensures r == Value(Wire.ParseRatios(bin0))
  {
    var bin := bin0;
    ReadUint64Agrees(bin);
    var n := ReadAndParse(bin, UINT64_SIZE, Uint64ToInt);
    if n.Err? {
      return Err(n.error);
    }
    var nRatios := n.value.0;
    bin := n.value.1;
    ghost var bin1 := bin;
    var ratios: seq<Double> := [];
    PrependNothing(Wire.ParseDoubleList(bin1, nRatios));
    for i := 0 to nRatios
      invariant Wire.ParseDoubleList(bin1, nRatios) == Prepend(ratios, Wire.ParseDoubleList(bin, nRatios - i))
    {
      ReadDoubleAgrees(bin);
      var d := ReadAndParse(bin, DOUBLE_SIZE, DoubleToFloat);
      if d.Err? {
        return Err(d.error);
      }
      PrependTwice(ratios, [d.value.0], Wire.ParseDoubleList(d.value.1, nRatios - i - 1));
      ratios := ratios + [d.value.0];
      bin := d.value.1;
    }
    PrependDone(ratios, bin);
    r := Ok(ratios);
  }

  /**
   * One pass of the contents loop of Serializer.serialize: the UTF-8 length,
   * then the UTF-8 bytes. It raises exactly when the length does not fit 64 bits.
   */
  method SerializeContent(content: Content) returns (r: Result<seq<byte>>)
    ensures r.Ok? <==> Wire.LengthFits(content)
    ensures r.Ok? ==> Wire.LengthFits(content) && r.value == Wire.Frame(content)
    ensures r.Err? ==> r.error == OutOfRange
  {
    var contentBin := Utf8.Encode(content);
    var nBin := IntToUint64(|contentBin|);
    if nBin.Err? {
      return Err(nBin.error);
    }
    r := Ok(nBin.value + contentBin);
  }

  /**
   * The first half of Serializer.serialize: the content count, then each
   * content's UTF-8 length and bytes. It raises exactly when a count or a
   * length does not fit 64 bits.
   */
  method SerializeContents(contents: seq<Content>) returns (r: Result<seq<byte>>)
    ensures r.Ok? <==> |contents| < U64_LIMIT && Wire.ContentsFit(contents)
    ensures r.Ok? ==> |contents| < U64_LIMIT && Wire.ContentsFit(contents) && r.value == Wire.ContentsBytes(contents)
  {
    var bin: seq<byte> := [];
    var nContents := IntToUint64(|contents|);
    if nContents.Err? {
      return Err(nContents.error);
    }
    bin := bin + nContents.value;
    for i := 0 to |contents|
      invariant Wire.ContentsFit(contents[..i])
      invariant bin == U64Bytes(|contents|) + Wire.Frames(contents[..i])
    {
      var contentBin := SerializeContent(contents[i]);
      if contentBin.Err? {
        return Err(contentBin.error);
      }
      WireLaws.FramesSnoc(contents, i);
      bin := bin + contentBin.value;
    }
    assert contents[..|contents|] == contents;
    r := Ok(bin);
  }

  /**
   * The second half of Serializer.serialize: the couple count, then the two
   * indices of each couple, in order. It raises exactly when an index is
   * negative or too large for 64 bits.
   */
  method SerializeCouples(couples: seq<(int, int)>) returns (r: Result<seq<byte>>)
    ensures r.Ok? <==> |couples| < U64_LIMIT && forall i :: 0 <= i < |couples| ==> IsU64(couples[i].0) && IsU64(couples[i].1)
    ensures r.Ok? ==>
      && |couples| < U64_LIMIT
      && (forall i :: 0 <= i < |couples| ==> IsU64(couples[i].0) && IsU64(couples[i].1))
      && r.value == Wire.CouplesBytes(ToCouples(couples))
  {
    var bin: seq<byte> := [];
    var nCouples := IntToUint64(|couples|);
    if nCouples.Err? {
      return Err(nCouples.error);
    }
    bin := bin + nCouples.value;
    for i := 0 to |couples|
      invariant forall j :: 0 <= j < i ==> IsU64(couples[j].0) && IsU64(couples[j].1)
      invariant bin == U64Bytes(|couples|) + Wire.CoupleList(ToCouples(couples[..i]))
    {
      var (a, b) := couples[i];
      var aBin := IntToUint64(a);
      if aBin.Err? {
        return Err(aBin.error);
      }
      var bBin := IntToUint64(b);
      if bBin.Err? {
        return Err(bBin.error);
      }
      CouplesSnoc(couples, i);
      bin := bin + aBin.value;
      bin := bin + bBin.value;
    }
    assert couples[..|couples|] == couples;
    r := Ok(bin);
  }

  /** The couple section of the first i + 1 couples: that of the first i, then one more. */
  lemma CouplesSnoc(ps: seq<(int, int)>, i: nat)
    requires i < |ps| && forall j :: 0 <= j <= i ==> IsU64(ps[j].0) && IsU64(ps[j].1)
    ensures Wire.CoupleList(ToCouples(ps[..i + 1]))
         == Wire.CoupleList(ToCouples(ps[..i])) + U64Bytes(ps[i].0) + U64Bytes(ps[i].1)
  {
    var p := ToCouple(ps[i]);
    assert ToCouples(ps[..i + 1]) == ToCouples(ps[..i]) + [p];
    assert Wire.CoupleList([p]) == Wire.CoupleBytes(p);
    WireLaws.CoupleListAppend(ToCouples(ps[..i]), [p]);
  }

  /**
   * Serializer.serialize: the contents section, then the couples section. It
   * raises exactly when some field does not fit 64 bits, and otherwise writes
   * the wire encoding of the order, of 8 + sum(8 + |utf8(c)|) + 8 + 16 * |couples| bytes.
   */
  method Serialize(order: Order) returns (r: Result<seq<byte>>)
    ensures r.Ok? <==> Encodable(order)
    ensures r.Ok? ==> Encodable(order) && r.value == Wire.OrderBytes(ToWire(order))
    ensures r.Ok? ==> |r.value| == U64_SIZE + WireLaws.FramedSize(order.contents) + U64_SIZE + 16 * |order.couples|
  {
    var contentsBin := SerializeContents(order.contents);
    if contentsBin.Err? {
      return Err(contentsBin.error);
    }
    var couplesBin := SerializeCouples(order.couples);
    if couplesBin.Err? {
      return Err(couplesBin.error);
    }
    r := Ok(contentsBin.value + couplesBin.value);
    WireLaws.OrderLength(ToWire(order));
  }

  /**
   * One pass of the contents loop of Deserializer.deserialize: a length, then
   * that many bytes decoded as text. It reads what the C++ reader reads
   * whenever that succeeds; when the C++ read fails and this one does not,
   * the chunk was cut short by the end of the bytes and nothing is left.
   */
  method DeserializeContent(bin0: seq<byte>) returns (r: Result<(Content, seq<byte>)>)
    ensures r == ReadContent(bin0)
    ensures Wire.ParseContent(bin0).Ok? ==> r == Wire.ParseContent(bin0)
    ensures Wire.ParseContent(bin0).Err? && r.Ok? ==> r.value.1 == []
  {
    ReadContentAgrees(bin0);
    var n :- ReadAndParse(bin0, UINT64_SIZE, Uint64ToInt);
    var (nContentBin, bin) := n;
    r := ReadAndParse(bin, nContentBin, DecodeText);
  }

  /** What one more pass of the contents loop does to what is left to read. */
  lemma ContentsStep(acc: seq<Content>, bin: seq<byte>, k: nat)
    requires k > 0
    ensures ReadContent(bin).Err? ==> Prepend(acc, ReadContents(bin, k)) == Err(ReadContent(bin).error)
    ensures ReadContent(bin).Ok? ==>
      Prepend(acc, ReadContents(bin, k))
      == Prepend(acc + [ReadContent(bin).value.0], ReadContents(ReadContent(bin).value.1, k - 1))
  {
    if ReadContent(bin).Ok? {
      var (c, rest) := ReadContent(bin).value;
      PrependTwice(acc, [c], ReadContents(rest, k - 1));
    }
  }

  /**
   * The contents loop of Deserializer.deserialize, `n` passes: per content a
   * length and that many bytes decoded as text, rebinding `bin` to what
   * remains after each read.
   */
  method DeserializeContentList(bin0: seq<byte>, n: nat) returns (r: Result<(seq<Content>, seq<byte>)>)
    ensures r == ReadContents(bin0, n)
  {
    var bin := bin0;
    var contents: seq<Content> := [];
    PrependNothing(ReadContents(bin0, n));
    for i := 0 to n
      invariant ReadContents(bin0, n) == Prepend(contents, ReadContents(bin, n - i))
    {
      ContentsStep(contents, bin, n - i);
      var content :- DeserializeContent(bin);
      contents := contents + [content.0];
      bin := content.1;
    }
    PrependDone(contents, bin);
    r := Ok((contents, bin));
  }

  /**
   * The first half of Deserializer.deserialize: the content count, then the
   * contents loop. It reads the C++ contents section whenever that succeeds;
   * when the C++ read fails and this one does not, nothing is left after it.
   */
  method DeserializeContents(bin0: seq<byte>) returns (r: Result<(seq<Content>, seq<byte>)>)
    ensures r == ReadContentSection(bin0)
    ensures Wire.ParseContents(bin0).Ok? ==> r == Wire.ParseContents(bin0)
    ensures Wire.ParseContents(bin0).Err? && r.Ok? ==> r.value.1 == []
  {
    ReadContentSectionAgrees(bin0);
    var nc :- ReadAndParse(bin0, UINT64_SIZE, Uint64ToInt);
    var (nContents, bin) := nc;
    r := DeserializeContentList(bin, nContents);
  }

  /**
   * The couples loop of Deserializer.deserialize, `n` passes: two indices
   * per couple, rebinding `bin` to what remains after each read.
   */
  method DeserializeCoupleList(bin0: seq<byte>, n: nat) returns (r: Result<(seq<(int, int)>, seq<byte>)>)
    ensures r == ReadCouples(bin0, n)
  {
    var bin := bin0;
    var couples: seq<(int, int)> := [];
    PrependNothing(ReadCouples(bin0, n));
    for i := 0 to n
      invariant ReadCouples(bin0, n) == Prepend(couples, ReadCouples(bin, n - i))
    {
      var a :- ReadAndParse(bin, UINT64_SIZE, Uint64ToInt);
      var b :- ReadAndParse(a.1, UINT64_SIZE, Uint64ToInt);
      var couple: (int, int) := (a.0, b.0);
      PrependTwice(couples, [couple], ReadCouples(b.1, n - i - 1));
      couples := couples + [couple];
      bin := b.1;
    }
    PrependDone(couples, bin);
    r := Ok((couples, bin));
  }

  /**
   * The second half of Deserializer.deserialize: the couple count, then the
   * couples loop. It reads the C++ couples section, as pairs of ints, on
   * every input, failures included.
   */
  method DeserializeCouples(bin0: seq<byte>) returns (r: Result<(seq<(int, int)>, seq<byte>)>)
    ensures r == ReadCoupleSection(bin0)
    ensures r == AsTuples(Wire.ParseCouples(bin0))
  {
    ReadCoupleSectionAgrees(bin0);
    var np :- ReadAndParse(bin0, UINT64_SIZE, Uint64ToInt);
    var (nCouples, bin) := np;
    r := DeserializeCoupleList(bin, nCouples);
  }

  /**
   * Deserializer.deserialize: both loops, then the assert that nothing
   * remains. It accepts exactly the blobs that are one serialised order and
   * nothing more, and returns the order the C++ reader reads from them; a
   * blob with bytes after the last couple is refused.
   */
  method Deserialize(bin0: seq<byte>) returns (r: Result<Order>)
    ensures r == Deserialized(bin0)
    ensures r.Ok? <==> Wire.ParseOrder(bin0).Ok? && Wire.ParseOrder(bin0).value.1 == []
    ensures r.Ok? ==> r.value == FromWire(Wire.ParseOrder(bin0).value.0)
    ensures Wire.ParseOrder(bin0).Ok? && Wire.ParseOrder(bin0).value.1 != [] ==> r == Err(TrailingBytes)
  {
    DeserializedAgrees(bin0);
    var contents :- DeserializeContents(bin0);
    var couples :- DeserializeCouples(contents.1);
    var bin := couples.1;
    if |bin| != 0 {
      return Err(TrailingBytes);
    }
    r := Ok(Order(contents.0, couples.0));
  }

  /**
   * Order.execute: one ratio per couple, in couple order, of the two contents
   * the couple indexes (negative indices counting from the end, as Python's
   * do); IndexError when some index is out of range.
   */
  method Execute(order: Order, ratio: (Content, Content) -> Double) returns (r: Result<seq<Double>>)
    ensures r.Ok? <==> Indexable(order)
    ensures r.Err? ==> r.error == IndexOutOfRange
    ensures r.Ok? ==> |r.value| == |order.couples|
    ensures r.Ok? ==> forall k :: 0 <= k < |order.couples| ==>
      r.value[k] == ratio(order.contents[Position(order.couples[k].0, |order.contents|)],
                          order.contents[Position(order.couples[k].1, |order.contents|)])
  {
    var n := |order.contents|;
    var ratios: seq<Double> := [];
    for i := 0 to |order.couples|
      invariant |ratios| == i
      invariant forall k :: 0 <= k < i ==> InBounds(order.couples[k].0, n) && InBounds(order.couples[k].1, n)
      invariant forall k :: 0 <= k < i ==>
        ratios[k] == ratio(order.contents[Position(order.couples[k].0, n)], order.contents[Position(order.couples[k].1, n)])
    {
      var (ia, ib) := order.couples[i];
      if !InBounds(ia, n) || !InBounds(ib, n) {
        return Err(IndexOutOfRange);
      }
      var a := order.contents[Position(ia, n)];
      var b := order.contents[Position(ib, n)];
      ratios := ratios + [ratio(a, b)];
    }
    r := Ok(ratios);
  }
}

/**
 * The C++ program: RatioVect's and Order's serialisers, which append fields to
 * an output string stream in loops; their deserialisers, which pull fields
 * from an input string stream and push them onto vectors; and Order::execute,
 * which fills a pre-sized score vector slot by slot. Each method is proved
 * against the layout functions of Wire, whose laws are in WireLaws.
 *
 * Counts and lengths are size_t, so every vector and string the program holds
 * is shorter than 2^64; the serialisers require that of their argument.
 */
module QuickDiff {
  import opened Results
  import opened Bytes
  import Utf8
  import opened Wire
  import opened WireLaws
  import opened Streams

  // ------------------------------------------------------------- RatioVect

  /** RatioVect::serialize: an 8-byte count, then 8 bytes per ratio. */
  method SerializeRatios(v: seq<Double>) returns (bin: seq<byte>)
    requires |v| < U64_LIMIT
    ensures bin == RatiosBytes(v)
    ensures |bin| == U64_SIZE + 8 * |v|
    ensures ParseRatios(bin) == Ok((v, []))
  {
    var oss := new OStream();
    oss.WriteU64(|v|);
    for i := 0 to |v|
      invariant oss.buf == U64Bytes(|v|) + DoubleList(v[..i])
    {
      oss.WriteDouble(v[i]);
      assert v[..i + 1] == v[..i] + [v[i]];
      assert DoubleList([v[i]]) == v[i];
      DoubleListAppend(v[..i], [v[i]]);
    }
    assert v[..|v|] == v;
    bin := oss.buf;
    RatiosLength(v);
    RatiosRoundTrip(v, []);
    assert bin + [] == bin;
  }

  /**
   * The loop of RatioVect::deserialize: `count` doubles pushed back in the
   * order they are read, bit for bit; fails when the bytes run out first.
   */
  method ReadRatioList(iss: IStream, count: u64) returns (r: Result<seq<Double>>)
    requires iss.Valid()
    modifies iss
    ensures iss.Valid()
    ensures Resume(r, iss.Remaining()) == ParseDoubleList(old(iss.Remaining()), count)
  {
    ghost var all := ParseDoubleList(iss.Remaining(), count);
    var n := count;
    var ratios: seq<Double> := [];
    PrependNothing(all);
    while n > 0
      invariant iss.Valid()
      invariant all == Prepend(ratios, ParseDoubleList(iss.Remaining(), n))
      decreases n
    {
      DoubleListStep(ratios, iss.Remaining(), n);
      var ratio := iss.ReadDouble();
      if ratio.None? {
        return Err(Truncated);
      }
      ratios := ratios + [ratio.value];
      n := n - 1;
    }
    PrependDone(ratios, iss.Remaining());
    r := Ok(ratios);
  }

  /**
   * RatioVect::deserialize: reads the count, then that many doubles. Bytes
   * after the last ratio are not looked at, so what it accepts is a
   * serialised vector followed by anything.
   */
  method DeserializeRatios(bin: seq<byte>) returns (r: Result<seq<Double>>)
    ensures r == Value(ParseRatios(bin))
    ensures r.Ok? ==> |r.value| < U64_LIMIT && RatiosBytes(r.value) <= bin
  {
    var iss := new IStream(bin);
    var n := iss.ReadU64();
    if n.None? {
      return Err(Truncated);
    }
    r := ReadRatioList(iss, n.value);
    if r.Ok? {
      RatiosCanonical(bin);
    }
  }

  // ---------------------------------------------------------------- Order

  /**
   * Order<u32string>::serialize_contents: the content count, then each
   * content's UTF-8 encoding framed by its byte length.
   */
  method SerializeContents(contents: seq<Content>) returns (bin: seq<byte>)
    requires |contents| < U64_LIMIT && ContentsFit(contents)
    ensures bin == ContentsBytes(contents)
    ensures ParseContents(bin) == Ok((contents, []))
  {
    var oss := new OStream();
    oss.WriteU64(|contents|);
    for i := 0 to |contents|
      invariant oss.buf == U64Bytes(|contents|) + Frames(contents[..i])
    {
      ContentsFitAt(contents, i);
      FramesSnoc(contents, i);
      var contentBin := Utf8.Encode(contents[i]);
      oss.WriteU64(|contentBin|);
      oss.WriteString(contentBin);
    }
    assert contents[..|contents|] == contents;
    bin := oss.buf;
    ContentsRoundTrip(contents, []);
    assert bin + [] == bin;
  }

  /** Order::serialize_couples: the couple count, then `a` and `b` of each couple, in order. */
  method SerializeCouples(couples: seq<Couple>) returns (bin: seq<byte>)
    requires |couples| < U64_LIMIT
    ensures bin == CouplesBytes(couples)
    ensures |bin| == U64_SIZE + 16 * |couples|
    ensures ParseCouples(bin) == Ok((couples, []))
  {
    var oss := new OStream();
    oss.WriteU64(|couples|);
    for i := 0 to |couples|
      invariant oss.buf == U64Bytes(|couples|) + CoupleList(couples[..i])
    {
      CoupleListSnoc(couples, i);
      oss.WriteU64(couples[i].a);
      oss.WriteU64(couples[i].b);
    }
    assert couples[..|couples|] == couples;
    bin := oss.buf;
    CoupleListLength(couples);
    CouplesRoundTrip(couples, []);
    assert bin + [] == bin;
  }

  /** Order::serialize: the contents section followed by the couples section. */
  method Serialize(o: Order) returns (bin: seq<byte>)
    requires Fits(o)
    ensures bin == ContentsBytes(o.contents) + CouplesBytes(o.couples)
    ensures |bin| == U64_SIZE + FramedSize(o.contents) + U64_SIZE + 16 * |o.couples|
    ensures ParseOrder(bin) == Ok((o, []))
  {
    var contentsBin := SerializeContents(o.contents);
    var couplesBin := SerializeCouples(o.couples);
    bin := contentsBin + couplesBin;
    OrderLength(o);
    OrderRoundTrip(o, []);
    assert bin + [] == bin;
  }

  /**
   * One pass of the loop in Order<u32string>::deserialize_contents: a length,
   * that many bytes, and their UTF-8 decoding (utf8::utf8to32, which throws
   * on malformed input).
   */
  method ReadContent(iss: IStream) returns (r: Result<Content>)
    requires iss.Valid()
    modifies iss
    ensures iss.Valid()
    ensures Resume(r, iss.Remaining()) == ParseContent(old(iss.Remaining()))
  {
    var len := iss.ReadU64();
    if len.None? {
      return Err(Truncated);
    }
    var contentBin := iss.ReadBytes(len.value);
    if contentBin.None? {
      return Err(Truncated);
    }
    var content := Utf8.Decode(contentBin.value);
    if content.None? {
      return Err(InvalidUtf8);
    }
    r := Ok(content.value);
  }

  /**
   * The loop of Order<u32string>::deserialize_contents: `count` contents
   * pushed back in the order they are read.
   */
  method ReadContentList(iss: IStream, count: u64) returns (r: Result<seq<Content>>)
    requires iss.Valid()
    modifies iss
    ensures iss.Valid()
    ensures Resume(r, iss.Remaining()) == ParseContentList(old(iss.Remaining()), count)
  {
    ghost var all := ParseContentList(iss.Remaining(), count);
    var n := count;
    var contents: seq<Content> := [];
    PrependNothing(all);
    while n > 0
      invariant iss.Valid()
      invariant all == Prepend(contents, ParseContentList(iss.Remaining(), n))
      decreases n
    {
      ContentListStep(contents, iss.Remaining(), n);
      var content := ReadContent(iss);
      if content.Err? {
        return Err(content.error);
      }
      contents := contents + [content.value];
      n := n - 1;
    }
    PrependDone(contents, iss.Remaining());
    r := Ok(contents);
  }

  /**
   * Order<u32string>::deserialize_contents: reads the count, then the
   * contents, leaving the stream just after the last content.
   */
  method DeserializeContents(iss: IStream) returns (r: Result<seq<Content>>)
    requires iss.Valid()
    modifies iss
    ensures iss.Valid()
    ensures Resume(r, iss.Remaining()) == ParseContents(old(iss.Remaining()))
  {
    var n := iss.ReadU64();
    if n.None? {
      return Err(Truncated);
    }
    r := ReadContentList(iss, n.value);
  }

  /** One pass of the loop of Order::deserialize_couples: two indices. */
  method ReadCouple(iss: IStream) returns (r: Result<Couple>)
    requires iss.Valid()
    modifies iss
    ensures iss.Valid()
    ensures Resume(r, iss.Remaining()) == ParseCouple(old(iss.Remaining()))
  {
    var a := iss.ReadU64();
    if a.None? {
      return Err(Truncated);
    }
    var b := iss.ReadU64();
    if b.None? {
      return Err(Truncated);
    }
    r := Ok(Couple(a.value, b.value));
  }

  /** The loop of Order::deserialize_couples: `count` couples pushed back in the order they are read. */
  method ReadCoupleList(iss: IStream, count: u64) returns (r: Result<seq<Couple>>)
    requires iss.Valid()
    modifies iss
    ensures iss.Valid()
    ensures Resume(r, iss.Remaining()) == ParseCoupleList(old(iss.Remaining()), count)
  {
    ghost var all := ParseCoupleList(iss.Remaining(), count);
    var n := count;
    var couples: seq<Couple> := [];
    PrependNothing(all);
    while n > 0
      invariant iss.Valid()
      invariant all == Prepend(couples, ParseCoupleList(iss.Remaining(), n))
      decreases n
    {
      CoupleListStep(couples, iss.Remaining(), n);
      var couple := ReadCouple(iss);
      if couple.Err? {
        return Err(couple.error);
      }
      couples := couples + [couple.value];
      n := n - 1;
    }
    PrependDone(couples, iss.Remaining());
    r := Ok(couples);
  }

  /**
   * Order::deserialize_couples: reads the count, then the couples, leaving
   * the stream just after the last couple.
   */
  method DeserializeCouples(iss: IStream) returns (r: Result<seq<Couple>>)
    requires iss.Valid()
    modifies iss
    ensures iss.Valid()
    ensures Resume(r, iss.Remaining()) == ParseCouples(old(iss.Remaining()))
  {
    var n := iss.ReadU64();
    if n.None? {
      return Err(Truncated);
    }
    r := ReadCoupleList(iss, n.value);
  }

  /**
   * Order::deserialize: the contents section, then the couples section, read
   * from one stream. Bytes after the last couple are not looked at, so what
   * it accepts is a serialised order followed by anything; the program's
   * self-test `serialize(deserialize(bin)) == bin` holds exactly when nothing follows.
   */
  method Deserialize(bin: seq<byte>) returns (r: Result<Order>)
    ensures r == Value(ParseOrder(bin))
    ensures r.Ok? ==> Fits(r.value) && OrderBytes(r.value) <= bin
    ensures r.Ok? ==> (OrderBytes(r.value) == bin <==> ParseOrder(bin).value.1 == [])
  {
    var iss := new IStream(bin);
    var contents := DeserializeContents(iss);
    if contents.Err? {
      return Err(contents.error);
    }
    var couples := DeserializeCouples(iss);
    if couples.Err? {
      return Err(couples.error);
    }
    r := Ok(Order(contents.value, couples.value));
    OrderCanonical(bin);
  }

  /**
   * Order::execute: a score vector sized to the couples, whose slot i receives
   * the ratio of the two contents couple i names. The OpenMP loop may run its
   * iterations in any order and on any thread; `schedule` is that order, any
   * sequence that visits every slot. Each iteration writes only its own slot,
   * so the result is the same for every schedule. The program indexes the
   * contents without a check, so the indices must be in range.
   */
  method Execute(o: Order, ratio: (Content, Content) -> Double, schedule: seq<nat>)
    returns (ratios: seq<Double>)
    requires forall i :: 0 <= i < |o.couples| ==> o.couples[i].a < |o.contents| && o.couples[i].b < |o.contents|
    requires forall k :: 0 <= k < |schedule| ==> schedule[k] < |o.couples|
    requires forall i :: 0 <= i < |o.couples| ==> i in schedule
    ensures |ratios| == |o.couples|
    ensures forall i :: 0 <= i < |o.couples| ==>
      ratios[i] == ratio(o.contents[o.couples[i].a], o.contents[o.couples[i].b])
  {
    var buf := new Double[|o.couples|](_ => ZERO);
    for k := 0 to |schedule|
      invariant forall j :: 0 <= j < k ==>
        buf[schedule[j]] == ratio(o.contents[o.couples[schedule[j]].a], o.contents[o.couples[schedule[j]].b])
    {
      var i := schedule[k];
      var a := o.contents[o.couples[i].a];
      var b := o.contents[o.couples[i].b];
      buf[i] := ratio(a, b);
    }
    ratios := buf[..];
    forall i | 0 <= i < |o.couples|
      ensures ratios[i] == ratio(o.contents[o.couples[i].a], o.contents[o.couples[i].b])
    {
      assert i in schedule;
      var k :| 0 <= k < |schedule| && schedule[k] == i;
    }
  }
}

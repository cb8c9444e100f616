/**
 * Laws of the wire layout: every parser reads back what the matching
 * serialiser wrote (round trip), everything a parser accepts is exactly what
 * the serialiser would write (canonicity), any cut-short encoding is refused as
 * truncated, and the sizes of the encodings.
 */
module WireLaws {
  import opened Results
  import opened Bytes
  import Utf8
  import opened Wire

  // ------------------------------------------------------- sequence helpers

  lemma TakeAppend<T>(a: seq<T>, b: seq<T>, k: nat)
    requires |a| <= k <= |a| + |b|
    ensures (a + b)[..k] == a + b[..k - |a|]
  {
  }

  lemma TakeAll<T>(s: seq<T>)
    ensures s[..|s|] == s
  {
  }

  // ----------------------------------------------------- reading a prefix

  lemma ReadU64Prefix(x: u64, rest: seq<byte>, k: nat)
    requires k <= U64_SIZE + |rest|
    ensures ReadU64((U64Bytes(x) + rest)[..k]) == if k < U64_SIZE then None else Some((x, rest[..k - U64_SIZE]))
  {
    if k >= U64_SIZE {
      var t := (U64Bytes(x) + rest)[..k];
      TakeAppend(U64Bytes(x), rest, k);
      assert t[..U64_SIZE] == U64Bytes(x);
      assert t[U64_SIZE..] == rest[..k - U64_SIZE];
      ValueOfBytes(x);
    }
  }

  lemma ReadBytesPrefix(b: seq<byte>, rest: seq<byte>, k: nat)
    requires k <= |b| + |rest|
    ensures ReadBytes((b + rest)[..k], |b|) == if k < |b| then None else Some((b, rest[..k - |b|]))
  {
    if k >= |b| {
      TakeAppend(b, rest, k);
      assert (b + rest)[..k][..|b|] == b;
      assert (b + rest)[..k][|b|..] == rest[..k - |b|];
    }
  }

  lemma ReadDoublePrefix(d: Double, rest: seq<byte>, k: nat)
    requires k <= 8 + |rest|
    ensures ReadDouble((d + rest)[..k]) == if k < 8 then None else Some((d, rest[..k - 8]))
  {
    if k >= 8 {
      TakeAppend(d, rest, k);
      assert (d + rest)[..k][..8] == d;
      assert (d + rest)[..k][8..] == rest[..k - 8];
    }
  }

  /**
   * Reading the first `k` bytes of a framed content: it fails as truncated when
   * the frame is cut, and otherwise reads the content and leaves what follows.
   */
  lemma ContentPrefix(c: Content, rest: seq<byte>, k: nat)
    requires LengthFits(c) && k <= |Frame(c)| + |rest|
    ensures ParseContent((Frame(c) + rest)[..k])
         == if k < |Frame(c)| then Err(Truncated) else Ok((c, rest[..k - |Frame(c)|]))
  {
    var e := Utf8.Encode(c);
    assert Frame(c) + rest == U64Bytes(|e|) + (e + rest);
    ReadU64Prefix(|e|, e + rest, k);
    if k >= U64_SIZE {
      ReadBytesPrefix(e, rest, k - U64_SIZE);
      Utf8.DecodeEncode(c);
    }
  }

  /** A list of contents that starts with a whole frame reads that content first. */
  lemma ContentListCons(c: Content, t: seq<byte>, n: nat)
    requires LengthFits(c)
    ensures ParseContentList(Frame(c) + t, n + 1) == Prepend([c], ParseContentList(t, n))
  {
    var s := Frame(c) + t;
    ContentPrefix(c, t, |s|);
    assert s[..|s|] == s;
    assert t[..|t|] == t;
  }

  lemma {:induction false} ContentListPrefix(cs: seq<Content>, rest: seq<byte>, k: nat)
    requires ContentsFit(cs) && k <= |Frames(cs)| + |rest|
    ensures ParseContentList((Frames(cs) + rest)[..k], |cs|)
         == if k < |Frames(cs)| then Err(Truncated) else Ok((cs, rest[..k - |Frames(cs)|]))
  {
    if cs == [] {
      assert Frames(cs) + rest == rest;
    } else {
      var c, tail := cs[0], cs[1..];
      var f, ft := Frame(c), Frames(tail);
      assert Frames(cs) + rest == f + (ft + rest);
      if k < |f| {
        ContentPrefix(c, ft + rest, k);
      } else {
        var k' := k - |f|;
        assert (Frames(cs) + rest)[..k] == f + (ft + rest)[..k'];
        ContentListCons(c, (ft + rest)[..k'], |tail|);
        ContentListPrefix(tail, rest, k');
        assert [c] + tail == cs;
      }
    }
  }

  lemma ContentsPrefix(cs: seq<Content>, rest: seq<byte>, k: nat)
    requires |cs| < U64_LIMIT && ContentsFit(cs) && k <= |ContentsBytes(cs)| + |rest|
    ensures ParseContents((ContentsBytes(cs) + rest)[..k])
         == if k < |ContentsBytes(cs)| then Err(Truncated) else Ok((cs, rest[..k - |ContentsBytes(cs)|]))
  {
    var t := (ContentsBytes(cs) + rest)[..k];
    var tail := Frames(cs) + rest;
    assert ContentsBytes(cs) + rest == U64Bytes(|cs|) + tail;
    ReadU64Prefix(|cs|, tail, k);
    if k >= U64_SIZE {
      ContentListPrefix(cs, rest, k - U64_SIZE);
    }
  }

  lemma CouplePrefix(p: Couple, rest: seq<byte>, k: nat)
    requires k <= |CoupleBytes(p)| + |rest|
    ensures ParseCouple((CoupleBytes(p) + rest)[..k])
         == if k < |CoupleBytes(p)| then Err(Truncated) else Ok((p, rest[..k - |CoupleBytes(p)|]))
  {
    assert CoupleBytes(p) + rest == U64Bytes(p.a) + (U64Bytes(p.b) + rest);
    ReadU64Prefix(p.a, U64Bytes(p.b) + rest, k);
    if k >= U64_SIZE {
      ReadU64Prefix(p.b, rest, k - U64_SIZE);
    }
  }

  lemma {:induction false} CoupleListPrefix(ps: seq<Couple>, rest: seq<byte>, k: nat)
    requires k <= |CoupleList(ps)| + |rest|
    ensures ParseCoupleList((CoupleList(ps) + rest)[..k], |ps|)
         == if k < |CoupleList(ps)| then Err(Truncated) else Ok((ps, rest[..k - |CoupleList(ps)|]))
  {
    if ps == [] {
      assert CoupleList(ps) + rest == rest;
    } else {
      var f := CoupleBytes(ps[0]);
      var tl := CoupleList(ps[1..]);
      assert CoupleList(ps) + rest == f + (tl + rest);
      CouplePrefix(ps[0], tl + rest, k);
      if k >= |f| {
        CoupleListPrefix(ps[1..], rest, k - |f|);
        assert [ps[0]] + ps[1..] == ps;
      }
    }
  }

  lemma CouplesPrefix(ps: seq<Couple>, rest: seq<byte>, k: nat)
    requires |ps| < U64_LIMIT && k <= |CouplesBytes(ps)| + |rest|
    ensures ParseCouples((CouplesBytes(ps) + rest)[..k])
         == if k < |CouplesBytes(ps)| then Err(Truncated) else Ok((ps, rest[..k - |CouplesBytes(ps)|]))
  {
    var t := (CouplesBytes(ps) + rest)[..k];
    var tail := CoupleList(ps) + rest;
    assert CouplesBytes(ps) + rest == U64Bytes(|ps|) + tail;
    ReadU64Prefix(|ps|, tail, k);
    if k >= U64_SIZE {
      CoupleListPrefix(ps, rest, k - U64_SIZE);
    }
  }

  /** Reading an order from a cut-short encoding fails as truncated. */
  lemma OrderPrefix(o: Order, rest: seq<byte>, k: nat)
    requires Fits(o) && k < |OrderBytes(o)|
    ensures ParseOrder((OrderBytes(o) + rest)[..k]) == Err(Truncated)
  {
    var cb := ContentsBytes(o.contents);
    var pb := CouplesBytes(o.couples);
    var s := (OrderBytes(o) + rest)[..k];
    assert s == (cb + (pb + rest))[..k];
    ContentsPrefix(o.contents, pb + rest, k);
    if k >= |cb| {
      CouplesPrefix(o.couples, rest, k - |cb|);
    }
  }

  lemma {:induction false} DoubleListPrefix(v: seq<Double>, rest: seq<byte>, k: nat)
    requires k <= |DoubleList(v)| + |rest|
    ensures ParseDoubleList((DoubleList(v) + rest)[..k], |v|)
         == if k < |DoubleList(v)| then Err(Truncated) else Ok((v, rest[..k - |DoubleList(v)|]))
  {
    if v == [] {
      assert DoubleList(v) + rest == rest;
    } else {
      var tl := DoubleList(v[1..]);
      assert DoubleList(v) + rest == v[0] + (tl + rest);
      ReadDoublePrefix(v[0], tl + rest, k);
      if k >= 8 {
        DoubleListPrefix(v[1..], rest, k - 8);
        assert [v[0]] + v[1..] == v;
      }
    }
  }

  lemma RatiosPrefix(v: seq<Double>, rest: seq<byte>, k: nat)
    requires |v| < U64_LIMIT && k <= |RatiosBytes(v)| + |rest|
    ensures ParseRatios((RatiosBytes(v) + rest)[..k])
         == if k < |RatiosBytes(v)| then Err(Truncated) else Ok((v, rest[..k - |RatiosBytes(v)|]))
  {
    var t := (RatiosBytes(v) + rest)[..k];
    var tail := DoubleList(v) + rest;
    assert RatiosBytes(v) + rest == U64Bytes(|v|) + tail;
    ReadU64Prefix(|v|, tail, k);
    if k >= U64_SIZE {
      DoubleListPrefix(v, rest, k - U64_SIZE);
    }
  }

  // ------------------------------------------------------------ round trips

  /** Order::deserialize_contents reads back what serialize_contents wrote. */
  lemma ContentsRoundTrip(cs: seq<Content>, rest: seq<byte>)
    requires |cs| < U64_LIMIT && ContentsFit(cs)
    ensures ParseContents(ContentsBytes(cs) + rest) == Ok((cs, rest))
  {
    var s := ContentsBytes(cs) + rest;
    ContentsPrefix(cs, rest, |s|);
    TakeAll(s);
    TakeAll(rest);
  }

  /** Order::deserialize_couples reads back what serialize_couples wrote, in order. */
  lemma CouplesRoundTrip(ps: seq<Couple>, rest: seq<byte>)
    requires |ps| < U64_LIMIT
    ensures ParseCouples(CouplesBytes(ps) + rest) == Ok((ps, rest))
  {
    var s := CouplesBytes(ps) + rest;
    CouplesPrefix(ps, rest, |s|);
    TakeAll(s);
    TakeAll(rest);
  }

  /** Order::deserialize reads back what Order::serialize wrote, whatever follows it. */
  lemma OrderRoundTrip(o: Order, rest: seq<byte>)
    requires Fits(o)
    ensures ParseOrder(OrderBytes(o) + rest) == Ok((o, rest))
  {
    var pb := CouplesBytes(o.couples);
    assert OrderBytes(o) + rest == ContentsBytes(o.contents) + (pb + rest);
    ContentsRoundTrip(o.contents, pb + rest);
    CouplesRoundTrip(o.couples, rest);
  }

  /** RatioVect::deserialize reads back what RatioVect::serialize wrote, bit for bit. */
  lemma RatiosRoundTrip(v: seq<Double>, rest: seq<byte>)
    requires |v| < U64_LIMIT
    ensures ParseRatios(RatiosBytes(v) + rest) == Ok((v, rest))
  {
    var s := RatiosBytes(v) + rest;
    RatiosPrefix(v, rest, |s|);
    TakeAll(s);
    TakeAll(rest);
  }

  // ------------------------------------------------------------ canonicity

  lemma ContentCanonical(s: seq<byte>)
    requires ParseContent(s).Ok?
    ensures LengthFits(ParseContent(s).value.0)
    ensures Frame(ParseContent(s).value.0) + ParseContent(s).value.1 == s
  {
    ReadU64Consumes(s);
    var (n, s1) := ReadU64(s).value;
    var (bin, s2) := ReadBytes(s1, n).value;
    Utf8.EncodeDecode(bin);
  }

  lemma {:induction false} ContentListCanonical(s: seq<byte>, n: nat)
    requires ParseContentList(s, n).Ok?
    ensures var (cs, rest) := ParseContentList(s, n).value;
      |cs| == n && ContentsFit(cs) && Frames(cs) + rest == s
    decreases n
  {
    if n > 0 {
      var (c, s1) := ParseContent(s).value;
      ContentCanonical(s);
      ContentListCanonical(s1, n - 1);
      var (tl, rest) := ParseContentList(s1, n - 1).value;
      var cs := ParseContentList(s, n).value.0;
      assert cs == [c] + tl;
      assert cs[1..] == tl;
      assert Frames(cs) + rest == Frame(c) + (Frames(tl) + rest);
    }
  }

  lemma ContentsCanonical(s: seq<byte>)
    requires ParseContents(s).Ok?
    ensures var (cs, rest) := ParseContents(s).value;
      |cs| < U64_LIMIT && ContentsFit(cs) && ContentsBytes(cs) + rest == s
  {
    ReadU64Consumes(s);
    var (n, s1) := ReadU64(s).value;
    ContentListCanonical(s1, n);
  }

  lemma CoupleCanonical(s: seq<byte>)
    requires ParseCouple(s).Ok?
    ensures CoupleBytes(ParseCouple(s).value.0) + ParseCouple(s).value.1 == s
  {
    ReadU64Consumes(s);
    var (a, t1) := ReadU64(s).value;
    ReadU64Consumes(t1);
    var (b, t2) := ReadU64(t1).value;
    assert U64Bytes(a) + (U64Bytes(b) + t2) == s;
  }

  lemma {:induction false} CoupleListCanonical(s: seq<byte>, n: nat)
    requires ParseCoupleList(s, n).Ok?
    ensures var (ps, rest) := ParseCoupleList(s, n).value;
      |ps| == n && CoupleList(ps) + rest == s
    decreases n
  {
    if n > 0 {
      var (p, s1) := ParseCouple(s).value;
      CoupleCanonical(s);
      CoupleListCanonical(s1, n - 1);
      var (tl, rest) := ParseCoupleList(s1, n - 1).value;
      var ps := ParseCoupleList(s, n).value.0;
      assert ps == [p] + tl;
      assert ps[1..] == tl;
      assert CoupleList(ps) + rest == CoupleBytes(p) + (CoupleList(tl) + rest);
    }
  }

  lemma CouplesCanonical(s: seq<byte>)
    requires ParseCouples(s).Ok?
    ensures var (ps, rest) := ParseCouples(s).value;
      |ps| < U64_LIMIT && CouplesBytes(ps) + rest == s
  {
    ReadU64Consumes(s);
    var (n, s1) := ReadU64(s).value;
    CoupleListCanonical(s1, n);
  }

  /**
   * Every blob Order::deserialize accepts is an encoding the serialiser would
   * write, followed by the bytes left unread; so serialize(deserialize(bin))
   * equals bin exactly when nothing is left unread.
   */
  lemma OrderCanonical(s: seq<byte>)
    requires ParseOrder(s).Ok?
    ensures var (o, rest) := ParseOrder(s).value;
      Fits(o) && OrderBytes(o) + rest == s && (OrderBytes(o) == s <==> rest == [])
  {
    var (cs, s1) := ParseContents(s).value;
    ContentsCanonical(s);
    CouplesCanonical(s1);
    var (o, rest) := ParseOrder(s).value;
    assert OrderBytes(o) + rest == ContentsBytes(cs) + (CouplesBytes(o.couples) + rest);
  }

  lemma {:induction false} DoubleListCanonical(s: seq<byte>, n: nat)
    requires ParseDoubleList(s, n).Ok?
    ensures var (v, rest) := ParseDoubleList(s, n).value;
      |v| == n && DoubleList(v) + rest == s
    decreases n
  {
    if n > 0 {
      var (d, s1) := ReadDouble(s).value;
      DoubleListCanonical(s1, n - 1);
      var (tl, rest) := ParseDoubleList(s1, n - 1).value;
      var v := ParseDoubleList(s, n).value.0;
      assert v == [d] + tl;
      assert v[1..] == tl;
      assert DoubleList(v) + rest == d + (DoubleList(tl) + rest);
    }
  }

  /** Every blob RatioVect::deserialize accepts is a serialised vector followed by the unread bytes. */
  lemma RatiosCanonical(s: seq<byte>)
    requires ParseRatios(s).Ok?
    ensures var (v, rest) := ParseRatios(s).value;
      |v| < U64_LIMIT && RatiosBytes(v) + rest == s
  {
    ReadU64Consumes(s);
    var (n, s1) := ReadU64(s).value;
    DoubleListCanonical(s1, n);
  }

  // ------------------------------------------------------------ truncation

  /** Cutting an accepted blob anywhere before its last couple makes Order::deserialize fail. */
  lemma TruncatedOrderFails(s: seq<byte>, k: nat)
    requires ParseOrder(s).Ok? && k < |s| - |ParseOrder(s).value.1|
    ensures ParseOrder(s[..k]) == Err(Truncated)
  {
    var (o, rest) := ParseOrder(s).value;
    OrderCanonical(s);
    OrderPrefix(o, rest, k);
  }

  /** Cutting an accepted score vector anywhere before its last ratio makes it fail. */
  lemma TruncatedRatiosFail(s: seq<byte>, k: nat)
    requires ParseRatios(s).Ok? && k < |s| - |ParseRatios(s).value.1|
    ensures ParseRatios(s[..k]) == Err(Truncated)
  {
    var (v, rest) := ParseRatios(s).value;
    RatiosCanonical(s);
    RatiosPrefix(v, rest, k);
  }

  // ---------------------------------------------------------------- sizes

  /** The total size of the framed contents: 8 bytes of length plus the UTF-8 bytes, each. */
  function FramedSize(cs: seq<Content>): nat {
    if cs == [] then 0 else U64_SIZE + |Utf8.Encode(cs[0])| + FramedSize(cs[1..])
  }

  lemma {:induction false} FramesLength(cs: seq<Content>)
    requires ContentsFit(cs)
    ensures |Frames(cs)| == FramedSize(cs)
  {
    if cs != [] {
      FramesLength(cs[1..]);
    }
  }

  lemma {:induction false} CoupleListLength(ps: seq<Couple>)
    ensures |CoupleList(ps)| == 16 * |ps|
  {
    if ps != [] {
      CoupleListLength(ps[1..]);
    }
  }

  lemma {:induction false} DoubleListLength(v: seq<Double>)
    ensures |DoubleList(v)| == 8 * |v|
  {
    if v != [] {
      DoubleListLength(v[1..]);
    }
  }

  /** A serialised job takes 8 + sum(8 + |utf8(c)|) + 8 + 16 * n_couples bytes. */
  lemma OrderLength(o: Order)
    requires Fits(o)
    ensures |OrderBytes(o)| == U64_SIZE + FramedSize(o.contents) + U64_SIZE + 16 * |o.couples|
  {
    FramesLength(o.contents);
    CoupleListLength(o.couples);
  }

  /** A serialised score vector takes 8 + 8 * n bytes. */
  lemma RatiosLength(v: seq<Double>)
    requires |v| < U64_LIMIT
    ensures |RatiosBytes(v)| == U64_SIZE + 8 * |v|
  {
    DoubleListLength(v);
  }

  // ---------------------------------------------- appending, for the loops

  lemma {:induction false} FramesAppend(a: seq<Content>, b: seq<Content>)
    requires ContentsFit(a) && ContentsFit(b)
    ensures ContentsFit(a + b) && Frames(a + b) == Frames(a) + Frames(b)
  {
    assert ContentsFit(a + b) by {
      forall c | c in a + b
        ensures LengthFits(c)
      {
        assert c in a || c in b;
      }
    }
    if a == [] {
      assert a + b == b;
    } else {
      var tail := a[1..];
      assert (a + b)[1..] == tail + b && (a + b)[0] == a[0];
      assert ContentsFit(tail) by {
        forall c | c in tail
          ensures LengthFits(c)
        {
          assert c in a;
        }
      }
      FramesAppend(tail, b);
    }
  }

  lemma {:induction false} CoupleListAppend(a: seq<Couple>, b: seq<Couple>)
    ensures CoupleList(a + b) == CoupleList(a) + CoupleList(b)
  {
    if a != [] {
      CoupleListAppend(a[1..], b);
      assert (a + b)[1..] == a[1..] + b;
      assert CoupleList(a + b) == CoupleBytes(a[0]) + CoupleList(a[1..] + b);
    } else {
      assert a + b == b;
    }
  }

  lemma {:induction false} DoubleListAppend(a: seq<Double>, b: seq<Double>)
    ensures DoubleList(a + b) == DoubleList(a) + DoubleList(b)
  {
    if a != [] {
      DoubleListAppend(a[1..], b);
      assert (a + b)[1..] == a[1..] + b;
      assert DoubleList(a + b) == a[0] + DoubleList(a[1..] + b);
    } else {
      assert a + b == b;
    }
  }

  /** The frames of the first i + 1 contents: those of the first i, then one more. */
  lemma FramesSnoc(cs: seq<Content>, i: nat)
    requires i < |cs| && ContentsFit(cs[..i]) && LengthFits(cs[i])
    ensures ContentsFit(cs[..i + 1])
    ensures Frames(cs[..i + 1]) == Frames(cs[..i]) + Frame(cs[i])
  {
    assert Frames([cs[i]]) == Frame(cs[i]) + Frames([]);
    FramesAppend(cs[..i], [cs[i]]);
    assert cs[..i + 1] == cs[..i] + [cs[i]];
  }

  /** The couple bytes of the first i + 1 couples: those of the first i, then one more. */
  lemma CoupleListSnoc(ps: seq<Couple>, i: nat)
    requires i < |ps|
    ensures CoupleList(ps[..i + 1]) == CoupleList(ps[..i]) + U64Bytes(ps[i].a) + U64Bytes(ps[i].b)
  {
    assert CoupleList([ps[i]]) == CoupleBytes(ps[i]);
    CoupleListAppend(ps[..i], [ps[i]]);
    assert ps[..i + 1] == ps[..i] + [ps[i]];
  }

  /** Every content of a list whose contents fit fits, and so does every prefix. */
  lemma ContentsFitAt(cs: seq<Content>, i: nat)
    requires ContentsFit(cs) && i < |cs|
    ensures ContentsFit(cs[..i]) && LengthFits(cs[i])
  {
    assert forall j :: 0 <= j < i ==> cs[..i][j] == cs[j];
  }

  // ------------------------------------ one more pass of a deserialising loop

  lemma ContentListStep(acc: seq<Content>, s: seq<byte>, k: nat)
    requires k > 0
    ensures ParseContent(s).Err? ==> Prepend(acc, ParseContentList(s, k)) == Err(ParseContent(s).error)
    ensures ParseContent(s).Ok? ==>
      Prepend(acc, ParseContentList(s, k))
      == Prepend(acc + [ParseContent(s).value.0], ParseContentList(ParseContent(s).value.1, k - 1))
  {
    if ParseContent(s).Ok? {
      var (c, rest) := ParseContent(s).value;
      PrependTwice(acc, [c], ParseContentList(rest, k - 1));
    }
  }

  lemma CoupleListStep(acc: seq<Couple>, s: seq<byte>, k: nat)
    requires k > 0
    ensures ParseCouple(s).Err? ==> Prepend(acc, ParseCoupleList(s, k)) == Err(ParseCouple(s).error)
    ensures ParseCouple(s).Ok? ==>
      Prepend(acc, ParseCoupleList(s, k))
      == Prepend(acc + [ParseCouple(s).value.0], ParseCoupleList(ParseCouple(s).value.1, k - 1))
  {
    if ParseCouple(s).Ok? {
      var (p, rest) := ParseCouple(s).value;
      PrependTwice(acc, [p], ParseCoupleList(rest, k - 1));
    }
  }

  lemma DoubleListStep(acc: seq<Double>, s: seq<byte>, k: nat)
    requires k > 0
    ensures ReadDouble(s).None? ==> Prepend(acc, ParseDoubleList(s, k)) == Err(Truncated)
    ensures ReadDouble(s).Some? ==>
      Prepend(acc, ParseDoubleList(s, k))
      == Prepend(acc + [ReadDouble(s).value.0], ParseDoubleList(ReadDouble(s).value.1, k - 1))
  {
    if ReadDouble(s).Some? {
      var (d, rest) := ReadDouble(s).value;
      PrependTwice(acc, [d], ParseDoubleList(rest, k - 1));
    }
  }
}

/** Where each field stands in an image: the offsets of fixed fields, counts and elements, from the start. */
module WireOffsets {
  import opened Machine
  import opened Codec
  import opened Layout
  import WireObservation
  import WireResult
  import WireCheckpoint
  import WireEvent
  import WireFrame
  import JournalFile
  import GateRecord
  import Gate

  /** The bytes of a field stand at an offset. */
  ghost predicate Stands(b: Bytes, at: nat, f: Field) {
    at + |Encode(f)| <= |b| && b[at..at + |Encode(f)|] == Encode(f)
  }

  lemma Placed(a: seq<Field>, f: Field, b: seq<Field>)
    ensures Stands(Enc(a + [f] + b), |Enc(a)|, f)
  {
    hide Enc, Encode;
    EncSnoc(a, f);
    EncConcat(a + [f], b);
    var (x, y, z) := (Enc(a), Encode(f), Enc(b));
    assert (x + y + z)[|x|..|x| + |y|] == y;
  }

  /** A field of a fixed part stands behind the widths of those before it. */
  lemma FixedPlaced(before: seq<Field>, fs: seq<Field>, ks: seq<Kind>, after: seq<Field>, i: nat)
    requires KindsAre(fs, ks) && i < |ks|
    ensures Stands(Enc(before + fs + after), |Enc(before)| + Widths(ks, i), fs[i])
  {
    hide Enc, Encode, Stands;
    EncLength(fs, ks, i);
    EncConcat(before, fs[..i]);
    Placed(before + fs[..i], fs[i], fs[i + 1..] + after);
    assert before + fs + after == before + fs[..i] + [fs[i]] + (fs[i + 1..] + after);
  }

  lemma FixedLength(before: seq<Field>, fs: seq<Field>, ks: seq<Kind>)
    requires KindsAre(fs, ks)
    ensures |Enc(before + fs)| == |Enc(before)| + Widths(ks, |ks|)
  {
    hide Enc, Encode;
    EncConcat(before, fs);
    EncLength(fs, ks, |ks|);
    assert fs[..|fs|] == fs;
  }

  /** A count stands where its part begins. */
  lemma CountPlaced(before: seq<Field>, n: u32, body: seq<Field>, after: seq<Field>)
    ensures Stands(Enc(before + ([U32(n)] + body) + after), |Enc(before)|, U32(n))
  {
    Placed(before, U32(n), body + after);
    assert before + ([U32(n)] + body) + after == before + [U32(n)] + (body + after);
  }

  /** The elements of a counted array follow their count, eight bytes each. */
  lemma ElementPlaced(before: seq<Field>, n: u32, xs: seq<u64>, after: seq<Field>, i: nat)
    requires i < |xs|
    ensures Stands(Enc(before + ([U32(n)] + U64s(xs)) + after), |Enc(before)| + 4 + 8 * i, U64(xs[i]))
  {
    hide Enc, Encode, Stands;
    var a := before + [U32(n)];
    CountLength(before, n);
    EncU64s(a, xs[..i]);
    Placed(a + U64s(xs[..i]), U64(xs[i]), U64s(xs[i + 1..]) + after);
    SplitArray(xs, i);
    hide U64s;
    Rearranged(before, U32(n), U64s(xs[..i]), U64(xs[i]), U64s(xs[i + 1..]), after);
  }

  lemma Rearranged(before: seq<Field>, c: Field, x: seq<Field>, e: Field, y: seq<Field>, after: seq<Field>)
    ensures before + ([c] + (x + [e] + y)) + after == (before + [c]) + x + [e] + (y + after)
  {
  }

  lemma SplitArray(xs: seq<u64>, i: nat)
    requires i < |xs|
    ensures U64s(xs) == U64s(xs[..i]) + [U64(xs[i])] + U64s(xs[i + 1..])
  {
  }

  lemma CountLength(before: seq<Field>, n: u32)
    ensures |Enc(before + [U32(n)])| == |Enc(before)| + 4
  {
    EncSnoc(before, U32(n));
  }

  lemma ArrayLength(before: seq<Field>, n: u32, xs: seq<u64>)
    ensures |Enc(before + ([U32(n)] + U64s(xs)))| == |Enc(before)| + 4 + 8 * |xs|
  {
    hide Enc, Encode;
    CountLength(before, n);
    EncU64s(before + [U32(n)], xs);
    assert before + ([U32(n)] + U64s(xs)) == before + [U32(n)] + U64s(xs);
  }

  lemma NoFields()
    ensures Enc([]) == [] && |Enc([])| == 0
  {
  }

  /** Two counted arrays behind one another. */
  ghost predicate ArraysStand(b: Bytes, at: nat, n: u32, xs: seq<u64>, m: u32, ys: seq<u64>) {
    && Stands(b, at, U32(n)) && (forall i :: 0 <= i < |xs| ==> Stands(b, at + 4 + 8 * i, U64(xs[i])))
    && Stands(b, at + 4 + 8 * |xs|, U32(m))
    && (forall i :: 0 <= i < |ys| ==> Stands(b, at + 8 + 8 * |xs| + 8 * i, U64(ys[i])))
  }

  lemma ArraysPlaced(h: seq<Field>, n: u32, xs: seq<u64>, m: u32, ys: seq<u64>, after: seq<Field>)
    ensures ArraysStand(Enc(h + ([U32(n)] + U64s(xs)) + ([U32(m)] + U64s(ys)) + after), |Enc(h)|, n, xs, m, ys)
  {
    hide Enc, Stands, U64s;
    var (p, c) := ([U32(n)] + U64s(xs), [U32(m)] + U64s(ys));
    var all := h + p + c + after;
    Together(h + p, c, after);
    CountPlaced(h, n, U64s(xs), c + after);
    CountPlaced(h + p, m, U64s(ys), after);
    ArrayLength(h, n, xs);
    forall i | 0 <= i < |xs|
      ensures Stands(Enc(all), |Enc(h)| + 4 + 8 * i, U64(xs[i]))
    {
      ElementPlaced(h, n, xs, c + after, i);
    }
    forall i | 0 <= i < |ys|
      ensures Stands(Enc(all), |Enc(h)| + 8 + 8 * |xs| + 8 * i, U64(ys[i]))
    {
      ElementPlaced(h + p, m, ys, after, i);
    }
  }

  lemma Together(a: seq<Field>, b: seq<Field>, c: seq<Field>)
    ensures a + b + c == a + (b + c)
  {
  }

  // -------------------------------------------------------------------- observations

  lemma ObservationWidths()
    ensures var k := WireObservation.HEAD;
            && Widths(k, 0) == 0 && Widths(k, 1) == 4 && Widths(k, 2) == 8 && Widths(k, 3) == 40 && Widths(k, 4) == 48
            && Widths(k, 5) == 56 && Widths(k, 6) == 64 && Widths(k, 7) == 72 && Widths(k, 8) == 76 && Widths(k, 9) == 84
            && Widths(k, 10) == 88 && Widths(k, 11) == 92 && Widths(k, 12) == 96 && Widths(k, 13) == 100
  {
    var k := WireObservation.HEAD;
    assert Widths(k, 1) == 4;
    assert Widths(k, 2) == 8;
    assert Widths(k, 3) == 40;
    assert Widths(k, 4) == 48;
    assert Widths(k, 5) == 56;
    assert Widths(k, 6) == 64;
    assert Widths(k, 7) == 72;
    assert Widths(k, 8) == 76;
    assert Widths(k, 9) == 84;
    assert Widths(k, 10) == 88;
    assert Widths(k, 11) == 92;
    assert Widths(k, 12) == 96;
  }

  lemma ObservationParts(o: WireObservation.Observation) returns (p: seq<Field>, c: seq<Field>)
    requires o.CountsFit()
    ensures p == [U32(o.payloadCount)] + U64s(o.payload[..o.payloadCount])
    ensures c == [U32(o.covCount)] + U64s(o.covariance[..o.covCount])
    ensures WireObservation.Image(o) == Enc(WireObservation.Head(o) + p + c)
    ensures |Enc(WireObservation.Head(o))| == 100 && |Enc(WireObservation.Head(o) + p)| == 104 + 8 * o.payloadCount
  {
    hide Enc, U64s, WireObservation.Head;
    p, c := [U32(o.payloadCount)] + U64s(o.payload[..o.payloadCount]), [U32(o.covCount)] + U64s(o.covariance[..o.covCount]);
    ThreeParts(WireObservation.Head(o), p, c);
    WireObservation.HeadLength(o);
    ArrayLength(WireObservation.Head(o), o.payloadCount, o.payload[..o.payloadCount]);
  }

  /** The fixed fields of an observation's image. */
  lemma ObservationHead(o: WireObservation.Observation)
    requires o.CountsFit()
    ensures var b := WireObservation.Image(o);
            && Stands(b, 0, U32(o.structSize)) && Stands(b, 4, U32(o.schemaVersion)) && Stands(b, 8, Raw(o.sensorId))
            && Stands(b, 40, U64(o.bootId)) && Stands(b, 48, U64(o.sequence)) && Stands(b, 56, U64(ToUnsigned(o.sampleTime)))
            && Stands(b, 64, U64(ToUnsigned(o.arrivalTime))) && Stands(b, 72, U32(o.clockDomain))
            && Stands(b, 76, U64(o.timeUncertainty)) && Stands(b, 84, U32(o.frame)) && Stands(b, 88, U32(o.units))
            && Stands(b, 92, U32(o.calibration)) && Stands(b, 96, U32(o.shape))
  {
    ObservationWidths();
    ObservationHeadIs(o);
    ObservationField(o, 0);
    ObservationField(o, 1);
    ObservationField(o, 2);
    ObservationField(o, 3);
    ObservationField(o, 4);
    ObservationField(o, 5);
    ObservationField(o, 6);
    ObservationField(o, 7);
    ObservationField(o, 8);
    ObservationField(o, 9);
    ObservationField(o, 10);
    ObservationField(o, 11);
    ObservationField(o, 12);
    hide *;
  }

  lemma ObservationHeadIs(o: WireObservation.Observation)
    ensures var h := WireObservation.Head(o);
            && h[0] == U32(o.structSize) && h[1] == U32(o.schemaVersion) && h[2] == Raw(o.sensorId) && h[3] == U64(o.bootId)
            && h[4] == U64(o.sequence) && h[5] == U64(ToUnsigned(o.sampleTime)) && h[6] == U64(ToUnsigned(o.arrivalTime))
            && h[7] == U32(o.clockDomain) && h[8] == U64(o.timeUncertainty) && h[9] == U32(o.frame) && h[10] == U32(o.units)
            && h[11] == U32(o.calibration) && h[12] == U32(o.shape)
  {
  }

  lemma ObservationField(o: WireObservation.Observation, i: nat)
    requires o.CountsFit() && i < 13
    ensures Stands(WireObservation.Image(o), Widths(WireObservation.HEAD, i), WireObservation.Head(o)[i])
  {
    var h := WireObservation.Head(o);
    hide Enc, Stands, U64s, WireObservation.Head, WireObservation.Image, Widths;
    var p, c := ObservationParts(o);
    NoFields();
    FixedPlaced([], h, WireObservation.HEAD, p + c, i);
    assert h + p + c == [] + h + (p + c);
  }

  /** Its counts and elements. */
  lemma ObservationArrays(o: WireObservation.Observation)
    requires o.CountsFit()
    ensures ArraysStand(WireObservation.Image(o), 100, o.payloadCount, o.payload[..o.payloadCount],
                        o.covCount, o.covariance[..o.covCount])
  {
    hide Enc, Stands, U64s, ArraysStand, WireObservation.Head, WireObservation.Image;
    var h := WireObservation.Head(o);
    var p, c := ObservationParts(o);
    ArraysPlaced(h, o.payloadCount, o.payload[..o.payloadCount], o.covCount, o.covariance[..o.covCount], []);
    Appended(h + p + c);
  }

  lemma Appended(fs: seq<Field>)
    ensures fs + [] == fs
  {
  }

  // ------------------------------------------------------------------------- results

  /** Where the part behind the arrays of a result begins. */
  function ResultBehind(r: WireResult.Result): nat {
    76 + 8 * r.payloadCount + 8 * r.covCount
  }

  lemma ResultWidths()
    ensures var k := WireResult.RESULT_HEAD;
            && Widths(k, 0) == 0 && Widths(k, 1) == 4 && Widths(k, 2) == 8 && Widths(k, 3) == 40 && Widths(k, 4) == 48
            && Widths(k, 5) == 52 && Widths(k, 6) == 60 && Widths(k, 7) == 64 && Widths(k, 8) == 68
    ensures var k := WireResult.RESULT_MIDDLE;
            && Widths(k, 0) == 0 && Widths(k, 1) == 32 && Widths(k, 2) == 64 && Widths(k, 3) == 72 && Widths(k, 4) == 80
  {
    var k := WireResult.RESULT_HEAD;
    assert Widths(k, 1) == 4;
    assert Widths(k, 2) == 8;
    assert Widths(k, 3) == 40;
    assert Widths(k, 4) == 48;
    assert Widths(k, 5) == 52;
    assert Widths(k, 6) == 60;
    assert Widths(k, 7) == 64;
    var m := WireResult.RESULT_MIDDLE;
    assert Widths(m, 1) == 32;
    assert Widths(m, 2) == 64;
    assert Widths(m, 3) == 72;
  }

  function ResultArrays(r: WireResult.Result): (fs: seq<Field>)
    requires r.CountsFit()
  {
    ([U32(r.payloadCount)] + U64s(r.payload[..r.payloadCount])) + ([U32(r.covCount)] + U64s(r.covariance[..r.covCount]))
  }

  function ResultSources(r: WireResult.Result): (fs: seq<Field>)
    requires r.CountsFit()
  {
    [U32(r.sourceCount)] + WireResult.Raws(r.sources[..r.sourceCount])
  }

  lemma ResultImage(r: WireResult.Result)
    requires r.CountsFit()
    ensures var (h, m) := (WireResult.ResultHead(r), WireResult.ResultMiddle(r));
            && Image(WireResult.ResultShape(), r) == Enc(h + ResultArrays(r) + m + ResultSources(r) + [U32(r.dgtAction)])
            && |Enc(h)| == 68 && |Enc(h + ResultArrays(r))| == ResultBehind(r)
            && |Enc(h + ResultArrays(r) + m)| == ResultBehind(r) + 80
  {
    hide Enc, U64s, WireResult.Raws, WireResult.ResultHead, WireResult.ResultMiddle, Flatten;
    var (h, m, s) := (WireResult.ResultHead(r), WireResult.ResultMiddle(r), ResultSources(r));
    var (p, c) := ([U32(r.payloadCount)] + U64s(r.payload[..r.payloadCount]), [U32(r.covCount)] + U64s(r.covariance[..r.covCount]));
    WireResult.SixParts(h, p, c, m, s, [U32(r.dgtAction)]);
    Together(h, p, c);
    ResultWidths();
    NoFields();
    Prepended(h);
    FixedLength([], h, WireResult.RESULT_HEAD);
    ArrayLength(h, r.payloadCount, r.payload[..r.payloadCount]);
    ArrayLength(h + p, r.covCount, r.covariance[..r.covCount]);
    FixedLength(h + ResultArrays(r), m, WireResult.RESULT_MIDDLE);
  }

  lemma Prepended(fs: seq<Field>)
    ensures [] + fs == fs
  {
  }

  lemma ResultFieldsAre(r: WireResult.Result)
    ensures var h := WireResult.ResultHead(r);
            && h[0] == U32(r.structSize) && h[1] == U32(r.schemaVersion) && h[2] == Raw(r.pipelineId) && h[3] == U64(r.window)
            && h[4] == U32(r.broker) && h[5] == U64(r.epoch) && h[6] == U32(r.status) && h[7] == U32(r.shape)
    ensures var m := WireResult.ResultMiddle(r);
            && m[0] == Raw(r.inputDigest) && m[1] == Raw(r.configDigest)
            && m[2] == U64(ToUnsigned(r.timestamp)) && m[3] == U64(ToUnsigned(r.validUntil))
  {
  }

  lemma ResultHeadField(r: WireResult.Result, i: nat)
    requires r.CountsFit() && i < 8
    ensures Stands(Image(WireResult.ResultShape(), r), Widths(WireResult.RESULT_HEAD, i), WireResult.ResultHead(r)[i])
  {
    hide Enc, Stands, Widths, Image, ResultArrays, ResultSources, WireResult.ResultHead, WireResult.ResultMiddle;
    ResultImage(r);
    NoFields();
    var h := WireResult.ResultHead(r);
    var rest := ResultArrays(r) + WireResult.ResultMiddle(r) + ResultSources(r) + [U32(r.dgtAction)];
    FixedPlaced([], h, WireResult.RESULT_HEAD, rest, i);
    Fourfold(h, ResultArrays(r), WireResult.ResultMiddle(r), ResultSources(r), [U32(r.dgtAction)]);
    Prepended(h);
  }

  lemma Fourfold(a: seq<Field>, b: seq<Field>, c: seq<Field>, d: seq<Field>, e: seq<Field>)
    ensures a + b + c + d + e == a + (b + c + d + e) == (a + b) + c + (d + e) == (a + b + c) + d + e
  {
  }

  lemma ResultMiddleField(r: WireResult.Result, i: nat)
    requires r.CountsFit() && i < 4
    ensures Stands(Image(WireResult.ResultShape(), r), ResultBehind(r) + Widths(WireResult.RESULT_MIDDLE, i), WireResult.ResultMiddle(r)[i])
  {
    hide Enc, Stands, Widths, Image, ResultArrays, ResultSources, WireResult.ResultHead, WireResult.ResultMiddle;
    ResultImage(r);
    var (h, m) := (WireResult.ResultHead(r), WireResult.ResultMiddle(r));
    FixedPlaced(h + ResultArrays(r), m, WireResult.RESULT_MIDDLE, ResultSources(r) + [U32(r.dgtAction)], i);
    Fourfold(h, ResultArrays(r), m, ResultSources(r), [U32(r.dgtAction)]);
  }

  /** The fixed fields of a result's image before its arrays. */
  lemma ResultFixed(r: WireResult.Result)
    requires r.CountsFit()
    ensures var b := Image(WireResult.ResultShape(), r);
            && Stands(b, 0, U32(r.structSize)) && Stands(b, 4, U32(r.schemaVersion)) && Stands(b, 8, Raw(r.pipelineId))
            && Stands(b, 40, U64(r.window)) && Stands(b, 48, U32(r.broker)) && Stands(b, 52, U64(r.epoch))
            && Stands(b, 60, U32(r.status)) && Stands(b, 64, U32(r.shape))
  {
    hide *;
    ResultWidths();
    ResultFieldsAre(r);
    ResultHeadField(r, 0);
    ResultHeadField(r, 1);
    ResultHeadField(r, 2);
    ResultHeadField(r, 3);
    ResultHeadField(r, 4);
    ResultHeadField(r, 5);
    ResultHeadField(r, 6);
    ResultHeadField(r, 7);
  }

  /** And those behind them. */
  lemma ResultDigests(r: WireResult.Result)
    requires r.CountsFit()
    ensures var (b, at) := (Image(WireResult.ResultShape(), r), ResultBehind(r));
            && Stands(b, at, Raw(r.inputDigest)) && Stands(b, at + 32, Raw(r.configDigest))
            && Stands(b, at + 64, U64(ToUnsigned(r.timestamp))) && Stands(b, at + 72, U64(ToUnsigned(r.validUntil)))
  {
    hide *;
    ResultWidths();
    ResultFieldsAre(r);
    ResultMiddleField(r, 0);
    ResultMiddleField(r, 1);
    ResultMiddleField(r, 2);
    ResultMiddleField(r, 3);
  }

  lemma RawsLength(before: seq<Field>, xs: seq<Bytes>, n: nat)
    requires n <= |xs| && forall i :: 0 <= i < |xs| ==> |xs[i]| == WireResult.ID_LEN
    ensures |Enc(before + WireResult.Raws(xs[..n]))| == |Enc(before)| + 32 * n
  {
    hide Enc;
    if n == 0 {
      assert before + WireResult.Raws(xs[..0]) == before;
    } else {
      RawsLength(before, xs, n - 1);
      EncSnoc(before + WireResult.Raws(xs[..n - 1]), Raw(xs[n - 1]));
      assert before + WireResult.Raws(xs[..n]) == before + WireResult.Raws(xs[..n - 1]) + [Raw(xs[n - 1])];
    }
  }

  /** Its counts, arrays and sources, and the last field. */
  lemma ResultCounted(r: WireResult.Result, i: nat)
    requires r.CountsFit()
    ensures var (b, at) := (Image(WireResult.ResultShape(), r), ResultBehind(r) + 80);
            && ArraysStand(b, 68, r.payloadCount, r.payload[..r.payloadCount], r.covCount, r.covariance[..r.covCount])
            && Stands(b, at, U32(r.sourceCount)) && (i < r.sourceCount ==> Stands(b, at + 4 + 32 * i, Raw(r.sources[i])))
            && Stands(b, at + 4 + 32 * r.sourceCount, U32(r.dgtAction))
  {
    hide Enc, Stands, ArraysStand, Image, U64s, WireResult.Raws, WireResult.ResultHead, WireResult.ResultMiddle;
    ResultImage(r);
    var (h, m, last) := (WireResult.ResultHead(r), WireResult.ResultMiddle(r), [U32(r.dgtAction)]);
    var xs := r.sources[..r.sourceCount];
    Fourfold(h, ResultArrays(r), m, ResultSources(r), last);
    ResultArraysPlaced(r);
    var before := h + ResultArrays(r) + m;
    CountPlaced(before, r.sourceCount, WireResult.Raws(xs), last);
    SourcesPlaced(before, r.sourceCount, xs, last, i);
    assert xs[..|xs|] == xs;
  }

  lemma ResultArraysPlaced(r: WireResult.Result)
    requires r.CountsFit()
    ensures ArraysStand(Image(WireResult.ResultShape(), r), 68, r.payloadCount, r.payload[..r.payloadCount],
                        r.covCount, r.covariance[..r.covCount])
  {
    hide Enc, Stands, ArraysStand, Image, U64s, WireResult.Raws, WireResult.ResultHead, WireResult.ResultMiddle;
    ResultImage(r);
    var (h, m, s, last) := (WireResult.ResultHead(r), WireResult.ResultMiddle(r), ResultSources(r), [U32(r.dgtAction)]);
    var (p, c) := ([U32(r.payloadCount)] + U64s(r.payload[..r.payloadCount]), [U32(r.covCount)] + U64s(r.covariance[..r.covCount]));
    ArraysPlaced(h, r.payloadCount, r.payload[..r.payloadCount], r.covCount, r.covariance[..r.covCount], m + s + last);
    Together(h, p, c);
    Threefold(h + (p + c), m, s, last);
  }

  lemma Threefold(a: seq<Field>, b: seq<Field>, c: seq<Field>, d: seq<Field>)
    ensures a + b + c + d == a + (b + c + d)
  {
  }

  lemma SourcesPlaced(before: seq<Field>, n: u32, xs: seq<Bytes>, last: seq<Field>, i: nat)
    requires |xs| == n && |last| == 1 && forall k :: 0 <= k < |xs| ==> |xs[k]| == WireResult.ID_LEN
    ensures var b := Enc(before + ([U32(n)] + WireResult.Raws(xs)) + last);
            && (i < n ==> Stands(b, |Enc(before)| + 4 + 32 * i, Raw(xs[i])))
            && Stands(b, |Enc(before)| + 4 + 32 * n, last[0])
  {
    hide Enc, Encode, Stands;
    var a := before + [U32(n)];
    CountLength(before, n);
    var rs := WireResult.Raws(xs);
    if i < n {
      RawsLength(a, xs, i);
      Placed(a + WireResult.Raws(xs[..i]), rs[i], rs[i + 1..] + last);
      assert WireResult.Raws(xs[..i]) == rs[..i] && rs == rs[..i] + [rs[i]] + rs[i + 1..];
      Rearranged(before, U32(n), rs[..i], rs[i], rs[i + 1..], last);
    }
    RawsLength(a, xs, n);
    assert xs[..n] == xs;
    Placed(a + rs, last[0], []);
    assert before + ([U32(n)] + rs) + last == a + rs + [last[0]] + [];
  }

  // --------------------------------------------------------------------- checkpoints

  lemma CheckpointWidths()
    ensures var k := WireCheckpoint.HEAD;
            && Widths(k, 0) == 0 && Widths(k, 1) == 4 && Widths(k, 2) == 8 && Widths(k, 3) == 40 && Widths(k, 4) == 48
            && Widths(k, 5) == 52
    ensures var k := WireCheckpoint.VERSIONS;
            Widths(k, 0) == 0 && Widths(k, 1) == 4 && Widths(k, 2) == 8 && Widths(k, 3) == 12
  {
    var k := WireCheckpoint.HEAD;
    assert Widths(k, 1) == 4;
    assert Widths(k, 2) == 8;
    assert Widths(k, 3) == 40;
    assert Widths(k, 4) == 48;
    var v := WireCheckpoint.VERSIONS;
    assert Widths(v, 1) == 4;
    assert Widths(v, 2) == 8;
  }

  /** Where the part behind the arrays of a checkpoint begins. */
  function CheckpointBehind(k: WireCheckpoint.Checkpoint): nat {
    56 + 8 * (k.dim + k.dim * k.dim)
  }

  function CheckpointState(k: WireCheckpoint.Checkpoint): seq<Field>
    requires k.CountsFit()
  {
    [U32(k.dim)] + WireCheckpoint.StateFields(k)
  }

  function CheckpointSources(k: WireCheckpoint.Checkpoint): seq<Field>
    requires k.CountsFit()
  {
    [U32(k.sourceCount)] + WireCheckpoint.SourceFields(k.sources[..k.sourceCount])
  }

  lemma CheckpointImage(k: WireCheckpoint.Checkpoint)
    requires k.CountsFit()
    ensures var (h, v, last) := (WireCheckpoint.HeadFields(k), WireCheckpoint.VersionFields(k), [U64(ToUnsigned(k.createdAt))]);
            && Image(WireCheckpoint.CheckpointShape(), k) == Enc(h + CheckpointState(k) + v + CheckpointSources(k) + last)
            && |Enc(h)| == 52 && |Enc(h + CheckpointState(k))| == CheckpointBehind(k)
            && |Enc(h + CheckpointState(k) + v)| == CheckpointBehind(k) + 12
  {
    hide Enc, U64s, WireCheckpoint.SourceFields, WireCheckpoint.HeadFields, WireCheckpoint.VersionFields, WireCheckpoint.StateFields,
         Flatten, ToUnsigned;
    var (h, v, last) := (WireCheckpoint.HeadFields(k), WireCheckpoint.VersionFields(k), [U64(ToUnsigned(k.createdAt))]);
    WireCheckpoint.FiveParts(h, CheckpointState(k), v, CheckpointSources(k), last);
    CheckpointWidths();
    NoFields();
    Prepended(h);
    FixedLength([], h, WireCheckpoint.HEAD);
    StateLength(h, k);
    FixedLength(h + CheckpointState(k), v, WireCheckpoint.VERSIONS);
  }

  lemma StateLength(h: seq<Field>, k: WireCheckpoint.Checkpoint)
    requires k.CountsFit()
    ensures |Enc(h + CheckpointState(k))| == |Enc(h)| + 4 + 8 * (k.dim + k.dim * k.dim)
  {
    hide Enc, U64s;
    WireCheckpoint.SquareFits(k.dim);
    var (xs, ys) := (k.mean[..k.dim], k.covariance[..k.dim * k.dim]);
    CountLength(h, k.dim);
    EncU64s(h + [U32(k.dim)], xs);
    EncU64s(h + [U32(k.dim)] + U64s(xs), ys);
    assert h + ([U32(k.dim)] + (U64s(xs) + U64s(ys))) == h + [U32(k.dim)] + U64s(xs) + U64s(ys);
  }

  lemma CheckpointFieldsAre(k: WireCheckpoint.Checkpoint)
    ensures var h := WireCheckpoint.HeadFields(k);
            && h[0] == U32(k.structSize) && h[1] == U32(k.schemaVersion) && h[2] == Raw(k.pipelineId) && h[3] == U64(k.window)
            && h[4] == U32(k.mode)
    ensures var v := WireCheckpoint.VersionFields(k);
            v[0] == U32(k.calibration) && v[1] == U32(k.policy) && v[2] == U32(k.dgtAction)
  {
  }

  lemma CheckpointHeadField(k: WireCheckpoint.Checkpoint, i: nat)
    requires k.CountsFit() && i < 5
    ensures Stands(Image(WireCheckpoint.CheckpointShape(), k), Widths(WireCheckpoint.HEAD, i), WireCheckpoint.HeadFields(k)[i])
  {
    hide Enc, Stands, Widths, Image, CheckpointState, CheckpointSources, WireCheckpoint.HeadFields, WireCheckpoint.VersionFields, ToUnsigned;
    CheckpointImage(k);
    NoFields();
    var (h, v, last) := (WireCheckpoint.HeadFields(k), WireCheckpoint.VersionFields(k), [U64(ToUnsigned(k.createdAt))]);
    FixedPlaced([], h, WireCheckpoint.HEAD, CheckpointState(k) + v + CheckpointSources(k) + last, i);
    Fourfold(h, CheckpointState(k), v, CheckpointSources(k), last);
    Prepended(h);
  }

  lemma CheckpointVersionField(k: WireCheckpoint.Checkpoint, i: nat)
    requires k.CountsFit() && i < 3
    ensures Stands(Image(WireCheckpoint.CheckpointShape(), k), CheckpointBehind(k) + Widths(WireCheckpoint.VERSIONS, i),
                   WireCheckpoint.VersionFields(k)[i])
  {
    hide Enc, Stands, Widths, Image, CheckpointState, CheckpointSources, WireCheckpoint.HeadFields, WireCheckpoint.VersionFields, ToUnsigned;
    CheckpointImage(k);
    var (h, v, last) := (WireCheckpoint.HeadFields(k), WireCheckpoint.VersionFields(k), [U64(ToUnsigned(k.createdAt))]);
    FixedPlaced(h + CheckpointState(k), v, WireCheckpoint.VERSIONS, CheckpointSources(k) + last, i);
    Fourfold(h, CheckpointState(k), v, CheckpointSources(k), last);
  }

  /** The fixed fields of a checkpoint's image, before and behind its arrays. */
  lemma CheckpointFixed(k: WireCheckpoint.Checkpoint)
    requires k.CountsFit()
    ensures var (b, at) := (Image(WireCheckpoint.CheckpointShape(), k), CheckpointBehind(k));
            && Stands(b, 0, U32(k.structSize)) && Stands(b, 4, U32(k.schemaVersion)) && Stands(b, 8, Raw(k.pipelineId))
            && Stands(b, 40, U64(k.window)) && Stands(b, 48, U32(k.mode))
            && Stands(b, at, U32(k.calibration)) && Stands(b, at + 4, U32(k.policy)) && Stands(b, at + 8, U32(k.dgtAction))
  {
    hide *;
    CheckpointWidths();
    CheckpointFieldsAre(k);
    CheckpointHeadField(k, 0);
    CheckpointHeadField(k, 1);
    CheckpointHeadField(k, 2);
    CheckpointHeadField(k, 3);
    CheckpointHeadField(k, 4);
    CheckpointVersionField(k, 0);
    CheckpointVersionField(k, 1);
    CheckpointVersionField(k, 2);
  }

  /** Its mean and its covariance, row by row, behind the count that governs both. */
  lemma CheckpointArrays(k: WireCheckpoint.Checkpoint, i: nat)
    requires k.CountsFit() && k.dim * k.dim <= WireCheckpoint.MAX_DIM * WireCheckpoint.MAX_DIM
    ensures var b := Image(WireCheckpoint.CheckpointShape(), k);
            && Stands(b, 52, U32(k.dim)) && (i < k.dim ==> Stands(b, 56 + 8 * i, U64(k.mean[i])))
            && (i < k.dim * k.dim ==> Stands(b, 56 + 8 * k.dim + 8 * i, U64(k.covariance[i])))
  {
    hide Enc, Stands, Image, U64s, CheckpointSources, WireCheckpoint.HeadFields, WireCheckpoint.VersionFields, ToUnsigned;
    CheckpointImage(k);
    var (h, v, last) := (WireCheckpoint.HeadFields(k), WireCheckpoint.VersionFields(k), [U64(ToUnsigned(k.createdAt))]);
    var (xs, ys) := (k.mean[..k.dim], k.covariance[..k.dim * k.dim]);
    var after := v + CheckpointSources(k) + last;
    Threefold(h + CheckpointState(k), v, CheckpointSources(k), last);
    CountPlaced(h, k.dim, U64s(xs) + U64s(ys), after);
    StatePlaced(h, k.dim, xs, ys, after, i);
  }

  lemma StatePlaced(h: seq<Field>, n: u32, xs: seq<u64>, ys: seq<u64>, after: seq<Field>, i: nat)
    ensures var b := Enc(h + ([U32(n)] + (U64s(xs) + U64s(ys))) + after);
            && (i < |xs| ==> Stands(b, |Enc(h)| + 4 + 8 * i, U64(xs[i])))
            && (i < |ys| ==> Stands(b, |Enc(h)| + 4 + 8 * |xs| + 8 * i, U64(ys[i])))
  {
    hide Enc, Stands, Encode;
    var all := h + ([U32(n)] + (U64s(xs) + U64s(ys))) + after;
    ArrayTwice(h, n, U64s(xs), U64s(ys), after);
    if i < |xs| { ElementPlaced(h, n, xs, U64s(ys) + after, i); }
    if i < |ys| {
      var a := h + ([U32(n)] + U64s(xs));
      ArrayLength(h, n, xs);
      EncU64s(a, ys[..i]);
      SplitArray(ys, i);
      Placed(a + U64s(ys[..i]), U64(ys[i]), U64s(ys[i + 1..]) + after);
      Spread(a, U64s(ys[..i]), U64(ys[i]), U64s(ys[i + 1..]), after);
    }
  }

  lemma ArrayTwice(h: seq<Field>, n: u32, x: seq<Field>, y: seq<Field>, after: seq<Field>)
    ensures h + ([U32(n)] + (x + y)) + after == h + ([U32(n)] + x) + (y + after) == (h + ([U32(n)] + x)) + y + after
  {
  }

  lemma Spread(a: seq<Field>, x: seq<Field>, e: Field, y: seq<Field>, after: seq<Field>)
    ensures a + (x + [e] + y) + after == a + x + [e] + (y + after)
  {
  }

  lemma {:induction false} SourcesLength(before: seq<Field>, ss: seq<WireCheckpoint.Source>)
    ensures |Enc(before + WireCheckpoint.SourceFields(ss))| == |Enc(before)| + 48 * |ss|
  {
    hide Enc, Encode;
    if ss == [] {
      assert before + WireCheckpoint.SourceFields(ss) == before;
    } else {
      var (front, s) := (ss[..|ss| - 1], ss[|ss| - 1]);
      SourcesLength(before, front);
      RecordLength(before + WireCheckpoint.SourceFields(front), s);
      assert before + WireCheckpoint.SourceFields(ss) == before + WireCheckpoint.SourceFields(front) + WireCheckpoint.FieldsOf(s);
    }
  }

  lemma RecordLength(a: seq<Field>, s: WireCheckpoint.Source)
    ensures |Enc(a + WireCheckpoint.FieldsOf(s))| == |Enc(a)| + 48
    ensures |Enc(a + [Raw(s.sensorId)])| == |Enc(a)| + 32 && |Enc(a + [Raw(s.sensorId), U64(s.bootId)])| == |Enc(a)| + 40
  {
    hide Enc;
    EncSnoc(a, Raw(s.sensorId));
    EncSnoc(a + [Raw(s.sensorId)], U64(s.bootId));
    EncSnoc(a + [Raw(s.sensorId), U64(s.bootId)], U64(s.last));
    assert a + [Raw(s.sensorId)] + [U64(s.bootId)] == a + [Raw(s.sensorId), U64(s.bootId)];
    assert a + [Raw(s.sensorId), U64(s.bootId)] + [U64(s.last)] == a + WireCheckpoint.FieldsOf(s);
  }

  /** The fields of one tracked source. */
  lemma RecordPlaced(a: seq<Field>, s: WireCheckpoint.Source, after: seq<Field>)
    ensures var (b, at) := (Enc(a + WireCheckpoint.FieldsOf(s) + after), |Enc(a)|);
            Stands(b, at, Raw(s.sensorId)) && Stands(b, at + 32, U64(s.bootId)) && Stands(b, at + 40, U64(s.last))
  {
    hide Enc, Encode, Stands;
    RecordLength(a, s);
    var (x, y, z) := (Raw(s.sensorId), U64(s.bootId), U64(s.last));
    Placed(a, x, [y, z] + after);
    Placed(a + [x], y, [z] + after);
    Placed(a + [x, y], z, after);
    assert a + [x] + [y] == a + [x, y];
    assert a + [x, y, z] + after == a + [x] + ([y, z] + after) == a + [x] + [y] + ([z] + after) == a + [x, y] + [z] + after;
  }

  lemma SourcesSplit(ss: seq<WireCheckpoint.Source>, i: nat) returns (more: seq<Field>)
    requires i < |ss|
    ensures WireCheckpoint.SourceFields(ss) == WireCheckpoint.SourceFields(ss[..i]) + WireCheckpoint.FieldsOf(ss[i]) + more
  {
    hide WireCheckpoint.SourceFields, WireCheckpoint.FieldsOf;
    WireCheckpoint.FieldsStep(ss);
    var (front, s) := (ss[..|ss| - 1], ss[|ss| - 1]);
    if i == |ss| - 1 {
      more := [];
      Appended(WireCheckpoint.SourceFields(front) + WireCheckpoint.FieldsOf(s));
    } else {
      var rest := SourcesSplit(front, i);
      assert front[..i] == ss[..i];
      more := rest + WireCheckpoint.FieldsOf(s);
      Together(WireCheckpoint.SourceFields(ss[..i]) + WireCheckpoint.FieldsOf(ss[i]), rest, WireCheckpoint.FieldsOf(s));
    }
  }

  /** Its tracked sources and the creation time. */
  lemma CheckpointTail(k: WireCheckpoint.Checkpoint, i: nat)
    requires k.CountsFit()
    ensures var (b, at) := (Image(WireCheckpoint.CheckpointShape(), k), CheckpointBehind(k) + 12);
            && Stands(b, at, U32(k.sourceCount)) && Stands(b, at + 4 + 48 * k.sourceCount, U64(ToUnsigned(k.createdAt)))
            && (i < k.sourceCount ==>
                && Stands(b, at + 4 + 48 * i, Raw(k.sources[i].sensorId)) && Stands(b, at + 36 + 48 * i, U64(k.sources[i].bootId))
                && Stands(b, at + 44 + 48 * i, U64(k.sources[i].last)))
  {
    hide Enc, Encode, Stands, Image, CheckpointState, WireCheckpoint.HeadFields, WireCheckpoint.VersionFields, WireCheckpoint.SourceFields,
         WireCheckpoint.FieldsOf, ToUnsigned;
    CheckpointImage(k);
    var last := U64(ToUnsigned(k.createdAt));
    var before := WireCheckpoint.HeadFields(k) + CheckpointState(k) + WireCheckpoint.VersionFields(k);
    var (ss, n) := (k.sources[..k.sourceCount], k.sourceCount);
    var (a, fs) := (before + [U32(n)], WireCheckpoint.SourceFields(ss));
    CountPlaced(before, n, fs, [last]);
    CountLength(before, n);
    SourcesLength(a, ss);
    Placed(a + fs, last, []);
    TailIs(before, U32(n), fs, last);
    if i < n {
      var more := SourcesSplit(ss, i);
      var (x, y) := (WireCheckpoint.SourceFields(ss[..i]), WireCheckpoint.FieldsOf(ss[i]));
      SourcesLength(a, ss[..i]);
      RecordPlaced(a + x, ss[i], more + [last]);
      RecordAt(before, U32(n), x, y, more, last);
    }
  }

  lemma TailIs(before: seq<Field>, c: Field, fs: seq<Field>, last: Field)
    ensures before + ([c] + fs) + [last] == before + [c] + fs + [last] + []
  {
  }

  lemma RecordAt(before: seq<Field>, c: Field, x: seq<Field>, y: seq<Field>, more: seq<Field>, last: Field)
    ensures before + ([c] + (x + y + more)) + [last] == before + [c] + x + y + (more + [last])
  {
  }

  // -------------------------------------------------------------------------- events

  lemma EventWidths()
    ensures var k := WireEvent.HEAD;
            && Widths(k, 0) == 0 && Widths(k, 1) == 4 && Widths(k, 2) == 8 && Widths(k, 3) == 12 && Widths(k, 4) == 16
            && Widths(k, 5) == 24
  {
    var k := WireEvent.HEAD;
    assert Widths(k, 1) == 4;
    assert Widths(k, 2) == 8;
    assert Widths(k, 3) == 12;
    assert Widths(k, 4) == 16;
  }

  lemma EventField(e: WireEvent.Event, i: nat)
    requires i < 5
    ensures Stands(Image(WireEvent.EventShape(), e), Widths(WireEvent.HEAD, i), WireEvent.HeadFields(e)[i])
    ensures |Enc(WireEvent.HeadFields(e))| == 24
  {
    EventWidths();
    NoFields();
    hide Enc, Stands, Widths, Flatten, WireEvent.HeadFields, WireEvent.PayloadFields;
    var (h, p) := (WireEvent.HeadFields(e), [U32(|e.payload|)] + WireEvent.PayloadFields(e.payload));
    TwoParts(h, p);
    Prepended(h);
    FixedLength([], h, WireEvent.HEAD);
    FixedPlaced([], h, WireEvent.HEAD, p, i);
  }

  lemma EventFieldsAre(e: WireEvent.Event)
    ensures var h := WireEvent.HeadFields(e);
            && h[0] == U32(e.structSize) && h[1] == U32(e.schemaVersion) && h[2] == U32(e.eventType) && h[3] == U32(e.reserved)
            && h[4] == U64(ToUnsigned(e.timestamp))
  {
  }

  /** The fields of an event's image, its payload last. */
  lemma EventFixed(e: WireEvent.Event)
    ensures var b := Image(WireEvent.EventShape(), e);
            && Stands(b, 0, U32(e.structSize)) && Stands(b, 4, U32(e.schemaVersion)) && Stands(b, 8, U32(e.eventType))
            && Stands(b, 12, U32(e.reserved)) && Stands(b, 16, U64(ToUnsigned(e.timestamp)))
            && Stands(b, 24, U32(|e.payload|)) && Stands(b, 28, Raw(e.payload)) && |b| == 28 + |e.payload|
  {
    EventPayload(e);
    hide *;
    EventWidths();
    EventFieldsAre(e);
    EventField(e, 0);
    EventField(e, 1);
    EventField(e, 2);
    EventField(e, 3);
    EventField(e, 4);
  }

  lemma EventPayload(e: WireEvent.Event)
    ensures var b := Image(WireEvent.EventShape(), e);
            Stands(b, 24, U32(|e.payload|)) && Stands(b, 28, Raw(e.payload)) && |b| == 28 + |e.payload|
  {
    EventField(e, 0);
    hide Enc, Encode, Stands, Flatten, WireEvent.HeadFields;
    var (h, n) := (WireEvent.HeadFields(e), U32(|e.payload|));
    var fs := WireEvent.PayloadFields(e.payload);
    TwoParts(h, [n] + fs);
    Appended(h + ([n] + fs));
    CountPlaced(h, |e.payload|, fs, []);
    CountLength(h, |e.payload|);
    Together(h, [n], fs);
    PayloadPlaced(h + [n], e.payload);
  }

  lemma PayloadPlaced(a: seq<Field>, x: Bytes)
    requires |x| < TWO_32
    ensures var b := Enc(a + WireEvent.PayloadFields(x)); Stands(b, |Enc(a)|, Raw(x)) && |b| == |Enc(a)| + |x|
  {
    hide Enc, Stands;
    if x == [] {
      Appended(a);
      NothingStands(Enc(a), x);
    } else {
      Placed(a, Raw(x), []);
      EncSnoc(a, Raw(x));
      Appended(a + [Raw(x)]);
    }
  }

  lemma NothingStands(b: Bytes, x: Bytes)
    requires x == []
    ensures Stands(b, |b|, Raw(x))
  {
  }

  // --------------------------------------------------------------------- gate states

  /** The fields of a gate state's image. */
  lemma GateStateFixed(s: Gate.State)
    requires |s.pipelines| <= Gate.MAX_PIPELINES
    ensures var b := GateRecord.Image(s);
            && Stands(b, 0, U32(s.structSize)) && Stands(b, 4, U32(s.schemaVersion)) && Stands(b, 8, U64(s.epoch))
            && Stands(b, 16, U32(s.owner)) && Stands(b, 20, U32(|s.pipelines|))
  {
    GateStateHead(s);
    GateStateCount(s);
    hide *;
  }

  lemma GateStateCount(s: Gate.State)
    requires |s.pipelines| <= Gate.MAX_PIPELINES
    ensures Stands(GateRecord.Image(s), 20, U32(|s.pipelines|))
  {
    hide Enc, Stands, Flatten, GateRecord.HeadFields, GateRecord.PipelineFields;
    var (h, ps) := (GateRecord.HeadFields(s), GateRecord.PipelineFields(s.pipelines));
    GateRecord.HeadLength(s);
    TwoParts(h, [U32(|s.pipelines|)] + ps);
    CountPlaced(h, |s.pipelines|, ps, []);
    Appended(h + ([U32(|s.pipelines|)] + ps));
  }

  lemma GateStateHead(s: Gate.State)
    requires |s.pipelines| <= Gate.MAX_PIPELINES
    ensures var b := GateRecord.Image(s);
            && Stands(b, 0, U32(s.structSize)) && Stands(b, 4, U32(s.schemaVersion)) && Stands(b, 8, U64(s.epoch))
            && Stands(b, 16, U32(s.owner))
  {
    GateStateWidths();
    GateStateFieldsAre(s);
    hide *;
    GateStateField(s, 0);
    GateStateField(s, 1);
    GateStateField(s, 2);
    GateStateField(s, 3);
  }

  lemma GateStateWidths()
    ensures var k := GateRecord.HEAD; Widths(k, 0) == 0 && Widths(k, 1) == 4 && Widths(k, 2) == 8 && Widths(k, 3) == 16
  {
    var k := GateRecord.HEAD;
    assert Widths(k, 1) == 4;
    assert Widths(k, 2) == 8;
  }

  lemma GateStateFieldsAre(s: Gate.State)
    ensures var h := GateRecord.HeadFields(s);
            h[0] == U32(s.structSize) && h[1] == U32(s.schemaVersion) && h[2] == U64(s.epoch) && h[3] == U32(s.owner)
  {
  }

  lemma GateStateField(s: Gate.State, i: nat)
    requires |s.pipelines| <= Gate.MAX_PIPELINES && i < 4
    ensures Stands(GateRecord.Image(s), Widths(GateRecord.HEAD, i), GateRecord.HeadFields(s)[i])
  {
    hide Enc, Stands, Widths, Flatten, GateRecord.HeadFields, GateRecord.PipelineFields;
    var (h, rest) := (GateRecord.HeadFields(s), [U32(|s.pipelines|)] + GateRecord.PipelineFields(s.pipelines));
    NoFields();
    TwoParts(h, rest);
    Prepended(h);
    FixedPlaced([], h, GateRecord.HEAD, rest, i);
  }

  lemma PipelineLength(a: seq<Field>, p: Gate.Pipeline)
    ensures |Enc(a + [Raw(p.id)])| == |Enc(a)| + 32 && |Enc(a + [Raw(p.id), U32(p.hasCommitted)])| == |Enc(a)| + 36
    ensures |Enc(a + [Raw(p.id), U32(p.hasCommitted), U64(p.last)])| == |Enc(a)| + 44
  {
    hide Enc;
    var (x, y, z) := (Raw(p.id), U32(p.hasCommitted), U64(p.last));
    EncSnoc(a, x);
    EncSnoc(a + [x], y);
    EncSnoc(a + [x, y], z);
    assert a + [x] + [y] == a + [x, y] && a + [x, y] + [z] == a + [x, y, z];
  }

  /** The fields of one pipeline's slot. */
  lemma PipelinePlaced(a: seq<Field>, p: Gate.Pipeline, after: seq<Field>)
    ensures var (b, at) := (Enc(a + GateRecord.FieldsOf(p) + after), |Enc(a)|);
            && Stands(b, at, Raw(p.id)) && Stands(b, at + 32, U32(p.hasCommitted)) && Stands(b, at + 36, U64(p.last))
            && Stands(b, at + 44, Raw(p.digest))
  {
    hide Enc, Encode, Stands;
    PipelineLength(a, p);
    var (x, y, z, w) := (Raw(p.id), U32(p.hasCommitted), U64(p.last), Raw(p.digest));
    Placed(a, x, [y, z, w] + after);
    Placed(a + [x], y, [z, w] + after);
    Placed(a + [x, y], z, [w] + after);
    Placed(a + [x, y, z], w, after);
    FourSplit(a, x, y, z, w, after);
  }

  lemma FourSplit(a: seq<Field>, x: Field, y: Field, z: Field, w: Field, after: seq<Field>)
    ensures a + [x, y, z, w] + after == a + [x] + ([y, z, w] + after)
    ensures a + [x, y, z, w] + after == a + [x] + [y] + ([z, w] + after)
    ensures a + [x, y, z, w] + after == a + [x, y] + [z] + ([w] + after)
    ensures a + [x, y, z, w] + after == a + [x, y, z] + [w] + after
  {
  }

  lemma PipelinesSplit(ps: seq<Gate.Pipeline>, i: nat) returns (more: seq<Field>)
    requires i < |ps|
    ensures GateRecord.PipelineFields(ps) == GateRecord.PipelineFields(ps[..i]) + GateRecord.FieldsOf(ps[i]) + more
  {
    hide GateRecord.PipelineFields, GateRecord.FieldsOf;
    GateRecord.FieldsStep(ps);
    var (front, p) := (ps[..|ps| - 1], ps[|ps| - 1]);
    if i == |ps| - 1 {
      more := [];
      Appended(GateRecord.PipelineFields(front) + GateRecord.FieldsOf(p));
    } else {
      var rest := PipelinesSplit(front, i);
      assert front[..i] == ps[..i];
      more := rest + GateRecord.FieldsOf(p);
      Together(GateRecord.PipelineFields(ps[..i]) + GateRecord.FieldsOf(ps[i]), rest, GateRecord.FieldsOf(p));
    }
  }

  /** The slot of pipeline `i` takes 76 bytes from 24 + 76 i on. */
  lemma GateStatePipeline(s: Gate.State, i: nat)
    requires |s.pipelines| <= Gate.MAX_PIPELINES && i < |s.pipelines|
    ensures var (b, at, p) := (GateRecord.Image(s), 24 + 76 * i, s.pipelines[i]);
            && Stands(b, at, Raw(p.id)) && Stands(b, at + 32, U32(p.hasCommitted)) && Stands(b, at + 36, U64(p.last))
            && Stands(b, at + 44, Raw(p.digest))
  {
    hide Enc, Encode, Stands, Flatten, GateRecord.HeadFields, GateRecord.PipelineFields, GateRecord.FieldsOf;
    var (h, n, ps) := (GateRecord.HeadFields(s), U32(|s.pipelines|), s.pipelines);
    GateRecord.HeadLength(s);
    TwoParts(h, [n] + GateRecord.PipelineFields(ps));
    var more := PipelinesSplit(ps, i);
    var (x, y) := (GateRecord.PipelineFields(ps[..i]), GateRecord.FieldsOf(ps[i]));
    CountLength(h, |ps|);
    EncConcat(h + [n], x);
    GateRecord.PipelinesLength(ps[..i]);
    PipelinePlaced(h + [n] + x, ps[i], more);
    SlotAt(h, n, x, y, more);
  }

  lemma SlotAt(h: seq<Field>, n: Field, x: seq<Field>, y: seq<Field>, more: seq<Field>)
    ensures h + ([n] + (x + y + more)) == h + [n] + x + y + more
  {
  }

  // ------------------------------------------------------------------------- headers

  lemma OneFixedPart(fs: seq<Field>, ks: seq<Kind>, i: nat)
    requires KindsAre(fs, ks) && i < |ks|
    ensures Stands(Enc(Flatten([fs])), Widths(ks, i), fs[i])
  {
    hide Enc, Stands, Widths, Flatten;
    OnePart(fs);
    NoFields();
    FixedPlaced([], fs, ks, [], i);
    Prepended(fs);
    Appended(fs);
  }

  lemma JournalHeaderField(h: JournalFile.Header, i: nat)
    requires i < 8
    ensures Stands(JournalFile.HeaderImage(h), Widths(JournalFile.HEADER_KINDS, i), JournalFile.HeaderFields(h)[i])
  {
    hide Enc, Stands, Widths, Flatten, JournalFile.HeaderFields;
    OneFixedPart(JournalFile.HeaderFields(h), JournalFile.HEADER_KINDS, i);
  }

  lemma JournalHeaderIs(h: JournalFile.Header)
    ensures var f := JournalFile.HeaderFields(h);
            && f[0] == U32(h.magic) && f[1] == U32(h.recordLen) && f[2] == U32(h.obsLen) && f[3] == U32(h.crc)
            && f[4] == U64(h.window) && f[5] == U64(ToUnsigned(h.admittedAt)) && f[6] == U32(h.reason) && f[7] == U32(h.reserved)
    ensures var k := JournalFile.HEADER_KINDS;
            && Widths(k, 0) == 0 && Widths(k, 1) == 4 && Widths(k, 2) == 8 && Widths(k, 3) == 12 && Widths(k, 4) == 16
            && Widths(k, 5) == 24 && Widths(k, 6) == 32 && Widths(k, 7) == 36
  {
    hide ToUnsigned;
    var k := JournalFile.HEADER_KINDS;
    assert Widths(k, 1) == 4;
    assert Widths(k, 2) == 8;
    assert Widths(k, 3) == 12;
    assert Widths(k, 4) == 16;
    assert Widths(k, 5) == 24;
    assert Widths(k, 6) == 32;
  }

  /** The fields of a journal record's header. */
  lemma JournalHeaderFixed(h: JournalFile.Header)
    ensures var b := JournalFile.HeaderImage(h);
            && Stands(b, 0, U32(h.magic)) && Stands(b, 4, U32(h.recordLen)) && Stands(b, 8, U32(h.obsLen))
            && Stands(b, 12, U32(h.crc)) && Stands(b, 16, U64(h.window)) && Stands(b, 24, U64(ToUnsigned(h.admittedAt)))
            && Stands(b, 32, U32(h.reason)) && Stands(b, 36, U32(h.reserved))
  {
    hide *;
    JournalHeaderIs(h);
    JournalHeaderField(h, 0);
    JournalHeaderField(h, 1);
    JournalHeaderField(h, 2);
    JournalHeaderField(h, 3);
    JournalHeaderField(h, 4);
    JournalHeaderField(h, 5);
    JournalHeaderField(h, 6);
    JournalHeaderField(h, 7);
  }

  lemma FrameHeaderField(h: WireFrame.Header, i: nat)
    requires i < 9
    ensures Stands(WireFrame.HeaderImage(h), Widths(WireFrame.KINDS, i), WireFrame.HeaderFields(h)[i])
  {
    hide Enc, Stands, Widths, Flatten, WireFrame.HeaderFields;
    OneFixedPart(WireFrame.HeaderFields(h), WireFrame.KINDS, i);
  }

  lemma FrameHeaderIs(h: WireFrame.Header)
    ensures var f := WireFrame.HeaderFields(h);
            && f[0] == U8(h.m0) && f[1] == U8(h.m1) && f[2] == U8(h.m2) && f[3] == U8(h.m3) && f[4] == U8(h.version)
            && f[5] == U8(h.msgType) && f[6] == U16(h.flags) && f[7] == U32(h.payloadLen) && f[8] == U32(h.crc)
    ensures var k := WireFrame.KINDS;
            && Widths(k, 0) == 0 && Widths(k, 1) == 1 && Widths(k, 2) == 2 && Widths(k, 3) == 3 && Widths(k, 4) == 4
            && Widths(k, 5) == 5 && Widths(k, 6) == 6 && Widths(k, 7) == 8 && Widths(k, 8) == 12
  {
    var k := WireFrame.KINDS;
    assert Widths(k, 1) == 1;
    assert Widths(k, 2) == 2;
    assert Widths(k, 3) == 3;
    assert Widths(k, 4) == 4;
    assert Widths(k, 5) == 5;
    assert Widths(k, 6) == 6;
    assert Widths(k, 7) == 8;
  }

  /** The fields of a frame's header. */
  lemma FrameHeaderFixed(h: WireFrame.Header)
    ensures var b := WireFrame.HeaderImage(h);
            && Stands(b, 0, U8(h.m0)) && Stands(b, 1, U8(h.m1)) && Stands(b, 2, U8(h.m2)) && Stands(b, 3, U8(h.m3))
            && Stands(b, 4, U8(h.version)) && Stands(b, 5, U8(h.msgType)) && Stands(b, 6, U16(h.flags))
            && Stands(b, 8, U32(h.payloadLen)) && Stands(b, 12, U32(h.crc))
  {
    hide *;
    FrameHeaderIs(h);
    FrameHeaderField(h, 0);
    FrameHeaderField(h, 1);
    FrameHeaderField(h, 2);
    FrameHeaderField(h, 3);
    FrameHeaderField(h, 4);
    FrameHeaderField(h, 5);
    FrameHeaderField(h, 6);
    FrameHeaderField(h, 7);
    FrameHeaderField(h, 8);
  }
}

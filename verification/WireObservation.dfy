/** The observation codec. Doubles are their 64-bit patterns. */
module WireObservation {
  import opened Machine
  import opened Codec
  import opened Cursor
  import opened Layout

  const SENSOR_ID_LEN := 32
  const MAX_PAYLOAD := 6
  const MAX_COV := 36
  /** The size of the struct on a platform with 8-byte alignment of 64-bit members. */
  const OBSERVATION_SIZE: u32 := 456

  datatype RawObservation = Observation(
    structSize: u32,
    schemaVersion: u32,
    sensorId: Bytes,
    bootId: u64,
    sequence: u64,
    sampleTime: i64,
    arrivalTime: i64,
    clockDomain: u32,
    timeUncertainty: u64,
    frame: u32,
    units: u32,
    calibration: u32,
    shape: u32,
    payloadCount: u32,
    payload: seq<u64>,
    covCount: u32,
    covariance: seq<u64>)
  {
    predicate Shaped() {
      |sensorId| == SENSOR_ID_LEN && |payload| == MAX_PAYLOAD && |covariance| == MAX_COV
    }

    /** The counts lie within the arrays. */
    predicate CountsFit() {
      payloadCount <= MAX_PAYLOAD && covCount <= MAX_COV
    }
  }

  function Blank(): RawObservation {
    RawObservation.Observation(
      0, 0, Zeros(SENSOR_ID_LEN), 0, 0, 0, 0, 0, 0, 0, 0, 0, 0, 0, seq(MAX_PAYLOAD, _ => 0), 0, seq(MAX_COV, _ => 0))
  }

  type Observation = o: RawObservation | o.Shaped() witness Blank()

  // --------------------------------------------------------------------- the layout

  const HEAD: seq<Kind> := [K32, K32, KRaw(SENSOR_ID_LEN), K64, K64, K64, K64, K32, K64, K32, K32, K32, K32]

  const PARTS: seq<Part> := [Fixed(HEAD), Counted(MAX_PAYLOAD, K64s), Counted(MAX_COV, K64s)]

  function Head(o: Observation): (fs: seq<Field>)
    ensures KindsAre(fs, HEAD)
  {
    [U32(o.structSize), U32(o.schemaVersion), Raw(o.sensorId), U64(o.bootId), U64(o.sequence),
     U64(ToUnsigned(o.sampleTime)), U64(ToUnsigned(o.arrivalTime)), U32(o.clockDomain), U64(o.timeUncertainty),
     U32(o.frame), U32(o.units), U32(o.calibration), U32(o.shape)]
  }

  function Sections(o: Observation): seq<seq<Field>> {
    if !o.CountsFit() then []
    else
      [Head(o), [U32(o.payloadCount)] + U64s(o.payload[..o.payloadCount]),
       [U32(o.covCount)] + U64s(o.covariance[..o.covCount])]
  }

  /** What a decoder makes of an encoded observation: the local struct size, and
      zeros behind the counted elements. */
  function Normal(o: Observation): Observation {
    if !o.CountsFit() then o
    else
      o.(structSize := OBSERVATION_SIZE, payload := Trimmed(o.payload, o.payloadCount),
         covariance := Trimmed(o.covariance, o.covCount))
  }

  function ObservationShape(): Shape<Observation> {
    Shape(PARTS, Sections, (o: Observation) => o.CountsFit(), Normal)
  }

  ghost function Image(o: Observation): Bytes {
    Layout.Image(ObservationShape(), o)
  }

  ghost function Decoded(data: Bytes): Option<Observation> {
    Layout.Decoded(ObservationShape(), data)
  }

  // ----------------------------------------------------------------------- its laws

  lemma Fitting(o: Observation)
    requires o.CountsFit()
    ensures AllFit(PARTS, Sections(o))
  {
    hide Fits, U64s, Head;
    FixedFits(HEAD, Head(o));
    U64sFit(o.payload[..o.payloadCount]);
    CountedFits(Counted(MAX_PAYLOAD, K64s), o.payloadCount, U64s(o.payload[..o.payloadCount]));
    U64sFit(o.covariance[..o.covCount]);
    CountedFits(Counted(MAX_COV, K64s), o.covCount, U64s(o.covariance[..o.covCount]));
  }

  lemma Determined(a: Observation, b: Observation)
    requires a.CountsFit() && b.CountsFit() && Sections(a) == Sections(b)
    ensures Normal(a) == Normal(b)
  {
    hide Trimmed, U64s;
    var (x, y) := (Sections(a), Sections(b));
    assert x[0] == y[0] && x[1] == y[1] && x[2] == y[2];
    CountedEqual(a.payloadCount, U64s(a.payload[..a.payloadCount]), b.payloadCount, U64s(b.payload[..b.payloadCount]));
    TrimmedEqual(a.payload, a.payloadCount, b.payload, b.payloadCount);
    CountedEqual(a.covCount, U64s(a.covariance[..a.covCount]), b.covCount, U64s(b.covariance[..b.covCount]));
    TrimmedEqual(a.covariance, a.covCount, b.covariance, b.covCount);
    HeadDetermines(a, b);
  }

  lemma HeadDetermines(a: Observation, b: Observation)
    requires Head(a) == Head(b)
    ensures a.(payloadCount := b.payloadCount, payload := b.payload, covCount := b.covCount, covariance := b.covariance) == b
  {
    var (x, y) := (Head(a), Head(b));
    assert x[0] == y[0] && x[1] == y[1] && x[2] == y[2] && x[3] == y[3] && x[4] == y[4] && x[5] == y[5] && x[6] == y[6];
    assert x[7] == y[7] && x[8] == y[8] && x[9] == y[9] && x[10] == y[10] && x[11] == y[11] && x[12] == y[12];
  }

  /** So for observations: decoding inverts encoding, and prefixes are rejected. */
  lemma ObservationIsLawful()
    ensures Lawful(ObservationShape())
  {
    hide Sections, Normal, AllFit;
    forall o: Observation | o.CountsFit()
      ensures AllFit(PARTS, Sections(o))
    {
      Fitting(o);
    }
    forall a: Observation, b: Observation | a.CountsFit() && b.CountsFit() && Sections(a) == Sections(b)
      ensures Normal(a) == Normal(b)
    {
      Determined(a, b);
    }
  }

  /** Decoding what was encoded gives the observation back, up to its struct size
      and the unused array elements, whatever follows it. */
  lemma RoundTrip(o: Observation, rest: Bytes)
    requires o.CountsFit()
    ensures Decoded(Image(o) + rest) == Some(Normal(o))
  {
    ObservationIsLawful();
    Layout.RoundTrip(ObservationShape(), o, rest);
  }

  /** Every strict prefix of an encoding is malformed. */
  lemma StrictPrefixRejected(o: Observation, k: nat)
    requires o.CountsFit() && k < |Image(o)|
    ensures Decoded(Image(o)[..k]) == None
  {
    ObservationIsLawful();
    Layout.StrictPrefixRejected(ObservationShape(), o, k);
  }

  /** An observation takes 108 bytes plus eight for each counted element. */
  lemma ImageLength(o: Observation)
    requires o.CountsFit()
    ensures |Image(o)| == 108 + 8 * (o.payloadCount + o.covCount)
  {
    hide Enc, Head, U64s, Encode;
    var h := Head(o);
    var (p, c) := (U64s(o.payload[..o.payloadCount]), U64s(o.covariance[..o.covCount]));
    HeadLength(o);
    EncWord(h, o.payloadCount);
    EncU64s(h + [U32(o.payloadCount)], o.payload[..o.payloadCount]);
    var b := h + [U32(o.payloadCount)] + p;
    EncWord(b, o.covCount);
    EncU64s(b + [U32(o.covCount)], o.covariance[..o.covCount]);
    ThreeParts(h, [U32(o.payloadCount)] + p, [U32(o.covCount)] + c);
    Rejoin(h, U32(o.payloadCount), p);
    Rejoin(b, U32(o.covCount), c);
  }

  lemma EncWord(fs: seq<Field>, v: u32)
    ensures |Enc(fs + [U32(v)])| == |Enc(fs)| + 4
  {
    EncSnoc(fs, U32(v));
  }

  lemma HeadLength(o: Observation)
    ensures |Enc(Head(o))| == 100
  {
    var (h, k) := (Head(o), HEAD);
    EncLength(h, k, 13);
    assert h[..13] == h;
    HeadWidth(k);
  }

  lemma HeadWidth(k: seq<Kind>)
    requires k == HEAD
    ensures Widths(k, 13) == 100
  {
    assert Widths(k, 1) == 4;
    assert Widths(k, 2) == 8;
    assert Widths(k, 3) == 40;
    assert Widths(k, 4) == 48;
    assert Widths(k, 5) == 56;
    assert Widths(k, 6) == 64;
    assert Widths(k, 7) == 72;
    assert Widths(k, 8) == 76;
    assert Widths(k, 9) == 84;
    assert Widths(k, 10) == 88;
    assert Widths(k, 11) == 92;
    assert Widths(k, 12) == 96;
  }

  // ------------------------------------------------------------------ the codecs

  method EncodeObservation(o: Observation, out: array<byte>, cap: nat) returns (st: WireStatus, len: nat)
    requires cap <= out.Length
    modifies out
    ensures st == Malformed <==> !o.CountsFit()
    ensures st == BufferTooSmall <==> o.CountsFit() && cap < |Image(o)|
    ensures st == Ok <==> o.CountsFit() && |Image(o)| <= cap
    ensures st == Ok ==> len == |Image(o)| && out[..len] == Image(o)
  {
    hide Enc, Writer.Valid, Sections;
    len := 0;
    if o.payloadCount > MAX_PAYLOAD || o.covCount > MAX_COV { return Malformed, len; }
    var c := new Writer(out, cap);
    WriteAll(o, c);
    c.Written();
    if !c.ok { return BufferTooSmall, len; }
    return Ok, c.off;
  }

  method WriteAll(o: Observation, c: Writer)
    requires c.Valid() && c.log == [] && o.CountsFit()
    modifies c, c.buf
    ensures c.Valid() && c.log == Flatten(Sections(o))
  {
    hide Enc, Writer.Valid, Head, U64s, Flatten;
    WriteNames(o, c);
    WriteRest(o, c);
    ghost var (a, b) := (Head(o), U64s(o.payload[..o.payloadCount]));
    c.U32(o.payloadCount);
    c.U64Array(o.payload, o.payloadCount);
    assert c.log == a + ([U32(o.payloadCount)] + b);
    ghost var (ab, d) := (c.log, U64s(o.covariance[..o.covCount]));
    c.U32(o.covCount);
    c.U64Array(o.covariance, o.covCount);
    assert c.log == ab + ([U32(o.covCount)] + d);
    ThreeParts(a, [U32(o.payloadCount)] + b, [U32(o.covCount)] + d);
  }

  method WriteNames(o: Observation, c: Writer)
    requires c.Valid() && c.log == []
    modifies c, c.buf
    ensures c.Valid() && c.log == Head(o)[..5]
  {
    hide Writer.Valid;
    c.U32(o.structSize);
    c.U32(o.schemaVersion);
    c.Fixed(o.sensorId);
    c.U64(o.bootId);
    c.U64(o.sequence);
  }

  method WriteRest(o: Observation, c: Writer)
    requires c.Valid() && c.log == Head(o)[..5]
    modifies c, c.buf
    ensures c.Valid() && c.log == Head(o)
  {
    hide Writer.Valid;
    ghost var first := c.log;
    c.I64(o.sampleTime);
    c.I64(o.arrivalTime);
    c.U32(o.clockDomain);
    c.U64(o.timeUncertainty);
    c.U32(o.frame);
    c.U32(o.units);
    c.U32(o.calibration);
    c.U32(o.shape);
    assert c.log == first + Head(o)[5..];
  }

  method DecodeObservation(data: Bytes) returns (st: WireStatus, out: Observation)
    ensures st == Ok || st == Malformed
    ensures Decoded(data) == if st == Ok then Some(out) else None
  {
    hide Enc, Reader.Valid, Layout.Decoded, Stands, Sections, Normal, AllFit, Flatten, Lawful, U64s, Head, KindsAre;
    ObservationIsLawful();
    var c := new Reader(data, GrammarOf(PARTS));
    StandsAtStart(c, PARTS);
    hide GrammarOf;
    out := ReadHead(c);
    ghost var a := Head(out);
    var good, n, xs := ReadU64s(c, MAX_PAYLOAD, PARTS, 1, [a]);
    if !good { DecodedNone(ObservationShape(), data); return Malformed, out; }
    SameHead(out, out.(payloadCount := n, payload := xs));
    out := out.(payloadCount := n, payload := xs);
    ghost var b := [U32(n)] + U64s(xs[..n]);
    assert [a] + [b] == [a, b];
    good, n, xs := ReadU64s(c, MAX_COV, PARTS, 2, [a, b]);
    if !good { DecodedNone(ObservationShape(), data); return Malformed, out; }
    SameHead(out, out.(covCount := n, covariance := xs));
    out := out.(covCount := n, covariance := xs);
    ghost var d := [U32(n)] + U64s(xs[..n]);
    assert [a, b] + [d] == [a, b, d];
    SoFarParts(c, PARTS, 3, [a, b, d]);
    StandsValid(c, PARTS, 3, [a, b, d]);
    c.SoFar();
    if !c.ok { DecodedNone(ObservationShape(), data); return Malformed, out; }
    WasRead(out, c.log, data, a, b, d);
    return Ok, out.(structSize := OBSERVATION_SIZE);
  }

  lemma SameHead(a: Observation, b: Observation)
    requires b == a.(payloadCount := b.payloadCount, payload := b.payload, covCount := b.covCount, covariance := b.covariance)
    ensures Head(b) == Head(a)
  {
  }

  lemma WasRead(out: Observation, log: seq<Field>, data: Bytes, a: seq<Field>, b: seq<Field>, d: seq<Field>)
    requires out.CountsFit() && Enc(log) <= data && log == Flatten([a, b, d]) && a == Head(out)
    requires b == [U32(out.payloadCount)] + U64s(out.payload[..out.payloadCount])
    requires d == [U32(out.covCount)] + U64s(out.covariance[..out.covCount])
    requires forall i :: out.payloadCount <= i < MAX_PAYLOAD ==> out.payload[i] == 0
    requires forall i :: out.covCount <= i < MAX_COV ==> out.covariance[i] == 0
    ensures Decoded(data).Some? && Decoded(data).value == out.(structSize := OBSERVATION_SIZE)
  {
    hide Enc, Flatten, U64s, Head, Trimmed;
    ObservationIsLawful();
    DecodedIs(ObservationShape(), out, data);
    TrimmedIs(out.payload, out.payloadCount);
    TrimmedIs(out.covariance, out.covCount);
  }

  method ReadHead(c: Reader) returns (out: Observation)
    requires Stands(c, PARTS, 0, []) && c.log == []
    modifies c
    ensures Stands(c, PARTS, 1, [Head(out)])
  {
    SameGrammar(c, PARTS, 0, []);
    BeginFixed(c, PARTS, 0, []);
    hide Reader.Valid, GrammarOf, Stands, Head;
    out := ReadNames(c);
    out := ReadTimes(c, out);
    out := ReadUnits(c, out);
    FixedFits(HEAD, Head(out));
    assert [] + Head(out) == Head(out);
    NoParts(PARTS);
    StandsNext(c, PARTS, 0, [], Head(out));
    assert [] + [Head(out)] == [Head(out)];
  }

  method ReadNames(c: Reader) returns (out: Observation)
    requires c.Valid() && c.todo == HEAD && c.at == 0 && c.log == []
    modifies c
    ensures c.Valid() && c.todo == HEAD && c.at == 5
    ensures c.ok ==> c.log == Head(out)[..5]
  {
    hide Reader.Valid;
    var structSize := c.U32();
    var schemaVersion := c.U32();
    var sensorId := c.Fixed(SENSOR_ID_LEN);
    var bootId := c.U64();
    var sequence := c.U64();
    out := Blank().(structSize := structSize, schemaVersion := schemaVersion, sensorId := sensorId, bootId := bootId,
                    sequence := sequence);
  }

  method ReadTimes(c: Reader, names: Observation) returns (out: Observation)
    requires c.Valid() && c.todo == HEAD && c.at == 5 && (c.ok ==> c.log == Head(names)[..5])
    modifies c
    ensures c.Valid() && c.todo == HEAD && c.at == 9
    ensures c.ok ==> c.log == Head(out)[..9]
  {
    hide Reader.Valid;
    ghost var first := c.log;
    var sampleTime := c.I64();
    var arrivalTime := c.I64();
    var clockDomain := c.U32();
    var timeUncertainty := c.U64();
    out := names.(sampleTime := sampleTime, arrivalTime := arrivalTime, clockDomain := clockDomain,
                  timeUncertainty := timeUncertainty);
    assert Head(out)[..5] == Head(names)[..5];
    assert c.ok ==> c.log == first + Head(out)[5..9];
  }

  method ReadUnits(c: Reader, times: Observation) returns (out: Observation)
    requires c.Valid() && c.todo == HEAD && c.at == 9 && (c.ok ==> c.log == Head(times)[..9])
    modifies c
    ensures c.Valid() && (c.ok ==> c.log == Head(out))
  {
    hide Reader.Valid;
    ghost var first := c.log;
    var frame := c.U32();
    var units := c.U32();
    var calibration := c.U32();
    var shape := c.U32();
    out := times.(frame := frame, units := units, calibration := calibration, shape := shape);
    assert Head(out)[..9] == Head(times)[..9];
    assert c.ok ==> c.log == first + Head(out)[9..];
  }
}

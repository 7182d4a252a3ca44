/** The result codec. Doubles are their 64-bit patterns. */
module WireResult {
  import opened Machine
  import opened Codec
  import opened Cursor
  import opened Layout

  const ID_LEN := 32
  const DIGEST_LEN := 32
  const MAX_PAYLOAD := 6
  const MAX_COV := 36
  const MAX_SOURCES := 8
  /** The struct size on a platform with 8-byte alignment of 64-bit members. */
  const RESULT_SIZE: u32 := 768

  function Raws(xs: seq<Bytes>): (fs: seq<Field>)
    ensures |fs| == |xs| && forall i :: 0 <= i < |xs| ==> fs[i] == Raw(xs[i])
  {
    seq(|xs|, i requires 0 <= i < |xs| => Raw(xs[i]))
  }

  function IdKinds(n: nat): (ks: seq<Kind>)
    ensures |ks| == n && forall i :: 0 <= i < n ==> ks[i] == KRaw(ID_LEN)
  {
    seq(n, _ => KRaw(ID_LEN))
  }

  function NoId(): Bytes {
    Zeros(ID_LEN)
  }

  // ----------------------------------------------------------------------- results

  datatype RawResult = Result(
    structSize: u32, schemaVersion: u32, pipelineId: Bytes, window: u64, broker: u32, epoch: u64, status: u32, shape: u32,
    payloadCount: u32, payload: seq<u64>, covCount: u32, covariance: seq<u64>,
    inputDigest: Bytes, configDigest: Bytes, timestamp: i64, validUntil: i64,
    sourceCount: u32, sources: seq<Bytes>, dgtAction: u32)
  {
    predicate Shaped() {
      && |pipelineId| == ID_LEN && |payload| == MAX_PAYLOAD && |covariance| == MAX_COV
      && |inputDigest| == DIGEST_LEN && |configDigest| == DIGEST_LEN
      && |sources| == MAX_SOURCES && forall i :: 0 <= i < MAX_SOURCES ==> |sources[i]| == ID_LEN
    }

    predicate CountsFit() {
      payloadCount <= MAX_PAYLOAD && covCount <= MAX_COV && sourceCount <= MAX_SOURCES
    }
  }

  function BlankResult(): RawResult {
    Result(0, 0, NoId(), 0, 0, 0, 0, 0, 0, seq(MAX_PAYLOAD, _ => 0), 0, seq(MAX_COV, _ => 0), NoId(), NoId(), 0, 0, 0,
           seq(MAX_SOURCES, _ => NoId()), 0)
  }

  type Result = r: RawResult | r.Shaped() witness BlankResult()

  const RESULT_HEAD: seq<Kind> := [K32, K32, KRaw(ID_LEN), K64, K32, K64, K32, K32]
  const RESULT_MIDDLE: seq<Kind> := [KRaw(DIGEST_LEN), KRaw(DIGEST_LEN), K64, K64]

  const RESULT_PARTS: seq<Part> :=
    [Fixed(RESULT_HEAD), Counted(MAX_PAYLOAD, K64s), Counted(MAX_COV, K64s), Fixed(RESULT_MIDDLE),
     Counted(MAX_SOURCES, IdKinds), Fixed([K32])]

  function ResultHead(r: Result): (fs: seq<Field>)
    ensures KindsAre(fs, RESULT_HEAD)
  {
    [U32(r.structSize), U32(r.schemaVersion), Raw(r.pipelineId), U64(r.window), U32(r.broker), U64(r.epoch), U32(r.status),
     U32(r.shape)]
  }

  function ResultMiddle(r: Result): (fs: seq<Field>)
    ensures KindsAre(fs, RESULT_MIDDLE)
  {
    [Raw(r.inputDigest), Raw(r.configDigest), U64(ToUnsigned(r.timestamp)), U64(ToUnsigned(r.validUntil))]
  }

  function ResultSections(r: Result): seq<seq<Field>> {
    if !r.CountsFit() then []
    else
      [ResultHead(r), [U32(r.payloadCount)] + U64s(r.payload[..r.payloadCount]),
       [U32(r.covCount)] + U64s(r.covariance[..r.covCount]), ResultMiddle(r),
       [U32(r.sourceCount)] + Raws(r.sources[..r.sourceCount]), [U32(r.dgtAction)]]
  }

  function NormalSources(r: Result): seq<Bytes>
    requires r.CountsFit()
  {
    r.sources[..r.sourceCount] + seq(MAX_SOURCES - r.sourceCount, _ => NoId())
  }

  function NormalResult(r: Result): Result {
    if !r.CountsFit() then r
    else
      r.(structSize := RESULT_SIZE, payload := Trimmed(r.payload, r.payloadCount),
         covariance := Trimmed(r.covariance, r.covCount), sources := NormalSources(r))
  }

  function ResultShape(): Shape<Result> {
    Shape(RESULT_PARTS, ResultSections, (r: Result) => r.CountsFit(), NormalResult)
  }

  lemma SourcesEqual(a: Result, b: Result)
    requires a.CountsFit() && b.CountsFit() && Raws(a.sources[..a.sourceCount]) == Raws(b.sources[..b.sourceCount])
    ensures a.sourceCount == b.sourceCount && NormalSources(a) == NormalSources(b)
  {
    assert |Raws(a.sources[..a.sourceCount])| == a.sourceCount && |Raws(b.sources[..b.sourceCount])| == b.sourceCount;
    forall i | 0 <= i < a.sourceCount
      ensures a.sources[i] == b.sources[i]
    {
      assert Raws(a.sources[..a.sourceCount])[i] == Raw(a.sources[i]) && Raws(b.sources[..b.sourceCount])[i] == Raw(b.sources[i]);
    }
  }

  lemma ResultFits(r: Result)
    requires r.CountsFit()
    ensures AllFit(RESULT_PARTS, ResultSections(r))
  {
    hide Fits, U64s, Raws, ResultHead, ResultMiddle;
    FixedFits(RESULT_HEAD, ResultHead(r));
    FixedFits(RESULT_MIDDLE, ResultMiddle(r));
    FixedFits([K32], [U32(r.dgtAction)]);
    U64sFit(r.payload[..r.payloadCount]);
    CountedFits(Counted(MAX_PAYLOAD, K64s), r.payloadCount, U64s(r.payload[..r.payloadCount]));
    U64sFit(r.covariance[..r.covCount]);
    CountedFits(Counted(MAX_COV, K64s), r.covCount, U64s(r.covariance[..r.covCount]));
    RawsFit(r.sources[..r.sourceCount]);
    CountedFits(Counted(MAX_SOURCES, IdKinds), r.sourceCount, Raws(r.sources[..r.sourceCount]));
  }

  lemma RawsFit(xs: seq<Bytes>)
    requires forall i :: 0 <= i < |xs| ==> |xs[i]| == ID_LEN
    ensures KindsAre(Raws(xs), IdKinds(|xs|))
  {
  }

  lemma ResultDetermined(a: Result, b: Result)
    requires a.CountsFit() && b.CountsFit() && ResultSections(a) == ResultSections(b)
    ensures NormalResult(a) == NormalResult(b)
  {
    hide Trimmed, NormalSources, U64s, Raws;
    var (x, y) := (ResultSections(a), ResultSections(b));
    assert x[0] == y[0] && x[1] == y[1] && x[2] == y[2] && x[3] == y[3] && x[4] == y[4] && x[5] == y[5];
    CountedEqual(a.payloadCount, U64s(a.payload[..a.payloadCount]), b.payloadCount, U64s(b.payload[..b.payloadCount]));
    TrimmedEqual(a.payload, a.payloadCount, b.payload, b.payloadCount);
    CountedEqual(a.covCount, U64s(a.covariance[..a.covCount]), b.covCount, U64s(b.covariance[..b.covCount]));
    TrimmedEqual(a.covariance, a.covCount, b.covariance, b.covCount);
    CountedEqual(a.sourceCount, Raws(a.sources[..a.sourceCount]), b.sourceCount, Raws(b.sources[..b.sourceCount]));
    SourcesEqual(a, b);
    ResultFixedEqual(a, b);
  }

  lemma ResultFixedEqual(a: Result, b: Result)
    requires ResultHead(a) == ResultHead(b) && ResultMiddle(a) == ResultMiddle(b)
    ensures a.schemaVersion == b.schemaVersion && a.pipelineId == b.pipelineId && a.window == b.window && a.broker == b.broker
    ensures a.epoch == b.epoch && a.status == b.status && a.shape == b.shape
    ensures a.inputDigest == b.inputDigest && a.configDigest == b.configDigest
    ensures a.timestamp == b.timestamp && a.validUntil == b.validUntil
  {
    var (x, y) := (ResultHead(a), ResultHead(b));
    assert x[1] == y[1] && x[2] == y[2] && x[3] == y[3] && x[4] == y[4] && x[5] == y[5] && x[6] == y[6] && x[7] == y[7];
    var (u, v) := (ResultMiddle(a), ResultMiddle(b));
    assert u[0] == v[0] && u[1] == v[1] && u[2] == v[2] && u[3] == v[3];
  }

  /** So for results: decoding inverts encoding, and prefixes are rejected. */
  lemma ResultIsLawful()
    ensures Lawful(ResultShape())
  {
    hide ResultSections, NormalResult, AllFit;
    forall r: Result | r.CountsFit()
      ensures AllFit(RESULT_PARTS, ResultSections(r))
    {
      ResultFits(r);
    }
    forall a: Result, b: Result | a.CountsFit() && b.CountsFit() && ResultSections(a) == ResultSections(b)
      ensures NormalResult(a) == NormalResult(b)
    {
      ResultDetermined(a, b);
    }
  }

  method EncodeResult(r: Result, out: array<byte>, cap: nat) returns (st: WireStatus, len: nat)
    requires cap <= out.Length
    modifies out
    ensures st == Malformed <==> !r.CountsFit()
    ensures st == BufferTooSmall <==> r.CountsFit() && cap < |Image(ResultShape(), r)|
    ensures st == Ok ==> len == |Image(ResultShape(), r)| && out[..len] == Image(ResultShape(), r)
    ensures st == Ok || st == BufferTooSmall || st == Malformed
  {
    hide Enc, Writer.Valid, ResultSections;
    len := 0;
    if r.payloadCount > MAX_PAYLOAD || r.covCount > MAX_COV || r.sourceCount > MAX_SOURCES { return Malformed, len; }
    var c := new Writer(out, cap);
    WriteResult(r, c);
    c.Written();
    if !c.ok { return BufferTooSmall, len; }
    return Ok, c.off;
  }

  method WriteResult(r: Result, c: Writer)
    requires c.Valid() && c.log == [] && r.CountsFit()
    modifies c, c.buf
    ensures c.Valid() && c.log == Flatten(ResultSections(r))
  {
    hide Enc, Writer.Valid, ResultHead, ResultMiddle, U64s, Raws, Flatten;
    WriteResultHead(r, c);
    ghost var (a, b) := (ResultHead(r), U64s(r.payload[..r.payloadCount]));
    assert c.log == a;
    c.U32(r.payloadCount);
    c.U64Array(r.payload, r.payloadCount);
    assert c.log == a + ([U32(r.payloadCount)] + b);
    ghost var (ab, d) := (c.log, U64s(r.covariance[..r.covCount]));
    c.U32(r.covCount);
    c.U64Array(r.covariance, r.covCount);
    assert c.log == ab + ([U32(r.covCount)] + d);
    WriteResultMiddle(r, c);
    ghost var (abde, f) := (c.log, Raws(r.sources[..r.sourceCount]));
    c.U32(r.sourceCount);
    WriteIds(r.sources, r.sourceCount, c);
    assert c.log == abde + ([U32(r.sourceCount)] + f);
    c.U32(r.dgtAction);
    SixParts(a, [U32(r.payloadCount)] + b, [U32(r.covCount)] + d, ResultMiddle(r), [U32(r.sourceCount)] + f, [U32(r.dgtAction)]);
  }

  lemma SixParts(a: seq<Field>, b: seq<Field>, c: seq<Field>, d: seq<Field>, e: seq<Field>, f: seq<Field>)
    ensures Flatten([a, b, c, d, e, f]) == a + b + c + d + e + f
  {
    FlattenSnoc([], a);
    FlattenSnoc([a], b);
    FlattenSnoc([a, b], c);
    FlattenSnoc([a, b, c], d);
    FlattenSnoc([a, b, c, d], e);
    FlattenSnoc([a, b, c, d, e], f);
    assert [] + [a] == [a] && [a] + [b] == [a, b] && [a, b] + [c] == [a, b, c] && [a, b, c] + [d] == [a, b, c, d];
    assert [a, b, c, d] + [e] == [a, b, c, d, e] && [a, b, c, d, e] + [f] == [a, b, c, d, e, f];
    assert [] + a == a;
  }

  method WriteResultHead(r: Result, c: Writer)
    requires c.Valid()
    modifies c, c.buf
    ensures c.Valid() && c.log == old(c.log) + ResultHead(r)
  {
    hide Writer.Valid;
    c.U32(r.structSize);
    c.U32(r.schemaVersion);
    c.Fixed(r.pipelineId);
    c.U64(r.window);
    c.U32(r.broker);
    c.U64(r.epoch);
    c.U32(r.status);
    c.U32(r.shape);
  }

  method WriteResultMiddle(r: Result, c: Writer)
    requires c.Valid()
    modifies c, c.buf
    ensures c.Valid() && c.log == old(c.log) + ResultMiddle(r)
  {
    hide Writer.Valid;
    c.Fixed(r.inputDigest);
    c.Fixed(r.configDigest);
    c.I64(r.timestamp);
    c.I64(r.validUntil);
  }

  method WriteIds(ids: seq<Bytes>, n: nat, c: Writer)
    requires c.Valid() && n <= |ids|
    modifies c, c.buf
    ensures c.Valid() && c.log == old(c.log) + Raws(ids[..n])
  {
    hide Writer.Valid;
    for i := 0 to n
      invariant c.Valid() && c.log == old(c.log) + Raws(ids[..i])
    {
      c.Fixed(ids[i]);
      assert Raws(ids[..i + 1]) == Raws(ids[..i]) + [Raw(ids[i])];
    }
  }

  method DecodeResult(data: Bytes) returns (st: WireStatus, out: Result)
    ensures st == Ok || st == Malformed
    ensures Decoded(ResultShape(), data) == if st == Ok then Some(out) else None
  {
    hide Enc, Reader.Valid, Decoded, Stands, ResultSections, NormalResult, AllFit, Flatten, Lawful, U64s, Raws, KindsAre;
    ResultIsLawful();
    var c := new Reader(data, GrammarOf(RESULT_PARTS));
    StandsAtStart(c, RESULT_PARTS);
    hide GrammarOf;
    out := ReadResultHead(c);
    ghost var a := ResultHead(out);
    var good, n, xs := ReadU64s(c, MAX_PAYLOAD, RESULT_PARTS, 1, [a]);
    if !good { DecodedNone(ResultShape(), data); return Malformed, out; }
    out := out.(payloadCount := n, payload := xs);
    ghost var b := [U32(n)] + U64s(xs[..n]);
    assert [a] + [b] == [a, b];
    good, n, xs := ReadU64s(c, MAX_COV, RESULT_PARTS, 2, [a, b]);
    if !good { DecodedNone(ResultShape(), data); return Malformed, out; }
    out := out.(covCount := n, covariance := xs);
    ghost var d := [U32(n)] + U64s(xs[..n]);
    assert [a, b] + [d] == [a, b, d];
    st, out := FinishResult(c, out, a, b, d);
  }

  method ReadResultHead(c: Reader) returns (out: Result)
    requires Stands(c, RESULT_PARTS, 0, []) && c.log == []
    modifies c
    ensures Stands(c, RESULT_PARTS, 1, [ResultHead(out)])
  {
    SameGrammar(c, RESULT_PARTS, 0, []);
    BeginFixed(c, RESULT_PARTS, 0, []);
    hide Reader.Valid, GrammarOf, Stands, ResultHead;
    out := ReadResultNames(c);
    out := ReadResultStatus(c, out);
    FixedFits(RESULT_HEAD, ResultHead(out));
    assert [] + ResultHead(out) == ResultHead(out);
    NoParts(RESULT_PARTS);
    StandsNext(c, RESULT_PARTS, 0, [], ResultHead(out));
    assert [] + [ResultHead(out)] == [ResultHead(out)];
  }

  method ReadResultStatus(c: Reader, names: Result) returns (out: Result)
    requires c.Valid() && c.todo == RESULT_HEAD && c.at == 6 && (c.ok ==> c.log == ResultHead(names)[..6])
    modifies c
    ensures c.Valid() && (c.ok ==> c.log == ResultHead(out))
  {
    hide Reader.Valid;
    ghost var first := c.log;
    var status := c.U32();
    var shape := c.U32();
    out := names.(status := status, shape := shape);
    assert ResultHead(out)[..6] == ResultHead(names)[..6];
    assert c.ok ==> c.log == first + ResultHead(out)[6..];
  }

  method ReadResultNames(c: Reader) returns (out: Result)
    requires c.Valid() && c.todo == RESULT_HEAD && c.at == 0 && c.log == []
    modifies c
    ensures c.Valid() && c.todo == RESULT_HEAD && c.at == 6
    ensures c.ok ==> c.log == ResultHead(out)[..6]
  {
    hide Reader.Valid;
    var structSize := c.U32();
    var schemaVersion := c.U32();
    var pipelineId := c.Fixed(ID_LEN);
    var window := c.U64();
    var broker := c.U32();
    var epoch := c.U64();
    out := BlankResult().(structSize := structSize, schemaVersion := schemaVersion, pipelineId := pipelineId, window := window,
                          broker := broker, epoch := epoch);
  }

  /** From the digests on. */
  method FinishResult(c: Reader, head: Result, ghost a: seq<Field>, ghost b: seq<Field>, ghost d: seq<Field>)
    returns (st: WireStatus, out: Result)
    requires Stands(c, RESULT_PARTS, 3, [a, b, d]) && head.payloadCount <= MAX_PAYLOAD && head.covCount <= MAX_COV
    requires a == ResultHead(head) && b == [U32(head.payloadCount)] + U64s(head.payload[..head.payloadCount])
    requires d == [U32(head.covCount)] + U64s(head.covariance[..head.covCount])
    requires forall i :: head.payloadCount <= i < MAX_PAYLOAD ==> head.payload[i] == 0
    requires forall i :: head.covCount <= i < MAX_COV ==> head.covariance[i] == 0
    modifies c
    ensures st == Ok || st == Malformed
    ensures Decoded(ResultShape(), c.data) == if st == Ok then Some(out) else None
  {
    hide Enc, Reader.Valid, Decoded, Stands, ResultSections, NormalResult, AllFit, Flatten, Lawful, U64s, Raws, GrammarOf, KindsAre,
         ResultHead, ResultMiddle;
    ResultIsLawful();
    SameGrammar(c, RESULT_PARTS, 3, [a, b, d]);
    out := ReadResultMiddle(c, head, [a, b, d]);
    ghost var e := ResultMiddle(out);
    assert [a, b, d] + [e] == [a, b, d, e];
    var good, n, ids := ReadIds(c, RESULT_PARTS, 4, [a, b, d, e]);
    if !good { DecodedNone(ResultShape(), c.data); return Malformed, out; }
    SameMiddle(out, out.(sourceCount := n, sources := ids));
    out := out.(sourceCount := n, sources := ids);
    ghost var f := [U32(n)] + Raws(ids[..n]);
    assert [a, b, d, e] + [f] == [a, b, d, e, f];
    SoFarParts(c, RESULT_PARTS, 5, [a, b, d, e, f]);
    BeginFixed(c, RESULT_PARTS, 5, [a, b, d, e, f]);
    ghost var middle := out;
    var dgtAction := c.U32();
    out := out.(dgtAction := dgtAction);
    c.SoFar();
    if !c.ok { DecodedNone(ResultShape(), c.data); return Malformed, out; }
    LastWord([a, b, d, e, f], dgtAction);
    SameHead(head, out);
    SameMiddle(middle, out);
    ResultRead(out, c.log, c.data, a, b, d, e, f);
    return Ok, out.(structSize := RESULT_SIZE);
  }

  lemma ResultRead(out: Result, log: seq<Field>, data: Bytes, a: seq<Field>, b: seq<Field>, d: seq<Field>, e: seq<Field>, f: seq<Field>)
    requires out.CountsFit() && Enc(log) <= data && log == Flatten([a, b, d, e, f] + [[U32(out.dgtAction)]])
    requires a == ResultHead(out) && b == [U32(out.payloadCount)] + U64s(out.payload[..out.payloadCount])
    requires d == [U32(out.covCount)] + U64s(out.covariance[..out.covCount]) && e == ResultMiddle(out)
    requires f == [U32(out.sourceCount)] + Raws(out.sources[..out.sourceCount])
    requires forall i :: out.payloadCount <= i < MAX_PAYLOAD ==> out.payload[i] == 0
    requires forall i :: out.covCount <= i < MAX_COV ==> out.covariance[i] == 0
    requires forall i :: out.sourceCount <= i < MAX_SOURCES ==> out.sources[i] == NoId()
    ensures Decoded(ResultShape(), data).Some? && Decoded(ResultShape(), data).value == out.(structSize := RESULT_SIZE)
  {
    hide Enc, Flatten, U64s, Raws, ResultHead, ResultMiddle, Trimmed;
    assert [a, b, d, e, f] + [[U32(out.dgtAction)]] == ResultSections(out);
    ResultIsLawful();
    DecodedIs(ResultShape(), out, data);
    TrimmedIs(out.payload, out.payloadCount);
    TrimmedIs(out.covariance, out.covCount);
    assert NormalSources(out) == out.sources;
  }

  method ReadResultMiddle(c: Reader, head: Result, ghost fss: seq<seq<Field>>) returns (out: Result)
    requires Stands(c, RESULT_PARTS, 3, fss)
    modifies c
    ensures out == head.(inputDigest := out.inputDigest, configDigest := out.configDigest, timestamp := out.timestamp,
                         validUntil := out.validUntil)
    ensures ResultHead(out) == ResultHead(head) && Stands(c, RESULT_PARTS, 4, fss + [ResultMiddle(out)])
  {
    SameGrammar(c, RESULT_PARTS, 3, fss);
    BeginFixed(c, RESULT_PARTS, 3, fss);
    SoFarParts(c, RESULT_PARTS, 3, fss);
    hide Reader.Valid, GrammarOf, Stands, Flatten, AllFit, ResultMiddle, Fits;
    out := ReadMiddleFields(c, head);
    FixedFits(RESULT_MIDDLE, ResultMiddle(out));
    SameHead(head, out);
    StandsNext(c, RESULT_PARTS, 3, fss, ResultMiddle(out));
  }

  lemma SameHead(a: Result, b: Result)
    requires b.structSize == a.structSize && b.schemaVersion == a.schemaVersion && b.pipelineId == a.pipelineId
    requires b.window == a.window && b.broker == a.broker && b.epoch == a.epoch && b.status == a.status && b.shape == a.shape
    ensures ResultHead(b) == ResultHead(a)
  {
  }

  lemma SameMiddle(a: Result, b: Result)
    requires b.inputDigest == a.inputDigest && b.configDigest == a.configDigest
    requires b.timestamp == a.timestamp && b.validUntil == a.validUntil
    ensures ResultMiddle(b) == ResultMiddle(a)
  {
  }

  method ReadMiddleFields(c: Reader, head: Result) returns (out: Result)
    requires c.Valid() && c.todo == RESULT_MIDDLE && c.at == 0
    modifies c
    ensures out == head.(inputDigest := out.inputDigest, configDigest := out.configDigest, timestamp := out.timestamp,
                         validUntil := out.validUntil)
    ensures c.Valid() && (c.ok ==> old(c.ok) && c.log == old(c.log) + ResultMiddle(out))
  {
    hide Reader.Valid;
    var inputDigest := c.Fixed(DIGEST_LEN);
    var configDigest := c.Fixed(DIGEST_LEN);
    var timestamp := c.I64();
    var validUntil := c.I64();
    out := head.(inputDigest := inputDigest, configDigest := configDigest, timestamp := timestamp, validUntil := validUntil);
  }

  /** A counted array of identifiers; what is not read stays zero. */
  method ReadIds(c: Reader, ghost ps: seq<Part>, ghost j: nat, ghost fss: seq<seq<Field>>)
    returns (good: bool, n: u32, ids: seq<Bytes>)
    requires Stands(c, ps, j, fss) && j < |ps| && ps[j] == Counted(MAX_SOURCES, IdKinds)
    modifies c
    ensures !good ==> NoParse(c.grammar, c.data)
    ensures |ids| == MAX_SOURCES && forall i :: 0 <= i < MAX_SOURCES ==> |ids[i]| == ID_LEN
    ensures good ==> n <= MAX_SOURCES && Stands(c, ps, j + 1, fss + [[U32(n)] + Raws(ids[..n])])
    ensures good ==> forall i :: n <= i < MAX_SOURCES ==> ids[i] == NoId()
  {
    SameGrammar(c, ps, j, fss);
    hide Reader.Valid, AllFit, GrammarOf, Asks, Flatten, Fits, Stands, KindsAre, Raws;
    ids := seq(MAX_SOURCES, _ => NoId());
    good, n := ReadCount(c, MAX_SOURCES, ps, j, fss);
    if !good { return false, n, ids; }
    hide IdKinds;
    ids := ReadIdArray(c, n);
    RawsFit(ids[..n]);
    CountedFits(ps[j], n, Raws(ids[..n]));
    Rejoin(Flatten(fss), U32(n), Raws(ids[..n]));
    StandsNext(c, ps, j, fss, [U32(n)] + Raws(ids[..n]));
  }

  method ReadIdArray(c: Reader, n: nat) returns (ids: seq<Bytes>)
    requires c.Valid() && n <= MAX_SOURCES && c.todo == IdKinds(n) && c.at == 0
    modifies c
    ensures c.Valid() && |ids| == MAX_SOURCES && forall i :: 0 <= i < MAX_SOURCES ==> |ids[i]| == ID_LEN
    ensures forall i :: n <= i < MAX_SOURCES ==> ids[i] == NoId()
    ensures c.ok ==> old(c.ok) && c.log == old(c.log) + Raws(ids[..n])
  {
    hide Reader.Valid;
    ids := seq(MAX_SOURCES, _ => NoId());
    for i := 0 to n
      invariant c.Valid() && c.todo == IdKinds(n) && c.at == i
      invariant |ids| == MAX_SOURCES && (forall k :: 0 <= k < MAX_SOURCES ==> |ids[k]| == ID_LEN)
      invariant forall k :: i <= k < MAX_SOURCES ==> ids[k] == NoId()
      invariant c.ok ==> old(c.ok) && c.log == old(c.log) + Raws(ids[..i])
    {
      ghost var before := ids[..i];
      var id := c.Fixed(ID_LEN);
      ids := ids[i := id];
      assert ids[..i] == before && ids[..i + 1] == before + [id];
      assert Raws(before + [id]) == Raws(before) + [Raw(id)];
    }
  }
}

/** The checkpoint codec: one count governs two arrays, another an array of records. */
module WireCheckpoint {
  import opened Machine
  import opened Codec
  import opened Cursor
  import opened Layout

  const ID_LEN := 32
  const MAX_DIM := 6
  const MAX_TRACKED := 16
  /** The struct size on a platform with 8-byte alignment of 64-bit members. */
  const CHECKPOINT_SIZE: u32 := 1184

  datatype RawSource = Source(sensorId: Bytes, bootId: u64, last: u64)

  type Source = s: RawSource | |s.sensorId| == ID_LEN witness NoSource()

  function NoSource(): RawSource {
    Source(Zeros(ID_LEN), 0, 0)
  }

  datatype RawCheckpoint = Checkpoint(
    structSize: u32, schemaVersion: u32, pipelineId: Bytes, window: u64, mode: u32,
    dim: u32, mean: seq<u64>, covariance: seq<u64>,
    calibration: u32, policy: u32, dgtAction: u32,
    sourceCount: u32, sources: seq<Source>, createdAt: i64)
  {
    predicate Shaped() {
      |pipelineId| == ID_LEN && |mean| == MAX_DIM && |covariance| == MAX_DIM * MAX_DIM && |sources| == MAX_TRACKED
    }

    predicate CountsFit() {
      dim <= MAX_DIM && sourceCount <= MAX_TRACKED
    }
  }

  function Blank(): RawCheckpoint {
    Checkpoint(0, 0, Zeros(ID_LEN), 0, 0, 0, seq(MAX_DIM, _ => 0), seq(MAX_DIM * MAX_DIM, _ => 0), 0, 0, 0, 0,
               seq(MAX_TRACKED, _ => NoSource()), 0)
  }

  type Checkpoint = k: RawCheckpoint | k.Shaped() witness Blank()

  // --------------------------------------------------------------------- the layout

  const HEAD: seq<Kind> := [K32, K32, KRaw(ID_LEN), K64, K32]
  const VERSIONS: seq<Kind> := [K32, K32, K32]

  function Cells(n: nat): nat { n + n * n }

  function StateKinds(n: nat): (ks: seq<Kind>) {
    K64s(Cells(n))
  }

  function SourceKind(): seq<Kind> {
    [KRaw(ID_LEN), K64, K64]
  }

  function FieldsOf(s: Source): seq<Field> {
    [Raw(s.sensorId), U64(s.bootId), U64(s.last)]
  }

  function SourceKinds(n: nat): (ks: seq<Kind>)
    ensures |ks| == 3 * n
  {
    if n == 0 then [] else SourceKinds(n - 1) + SourceKind()
  }

  lemma {:induction false} SourceKindsAt(n: nat, i: nat)
    requires i < n
    ensures var ks := SourceKinds(n); ks[3 * i] == KRaw(ID_LEN) && ks[3 * i + 1] == K64 && ks[3 * i + 2] == K64
  {
    if i < n - 1 { SourceKindsAt(n - 1, i); }
  }

  const PARTS: seq<Part> :=
    [Fixed(HEAD), Counted(MAX_DIM, StateKinds), Fixed(VERSIONS), Counted(MAX_TRACKED, SourceKinds), Fixed([K64])]

  lemma SquareFits(n: nat)
    requires n <= MAX_DIM
    ensures n * n <= MAX_DIM * MAX_DIM
  {
    if n < MAX_DIM {
      assert n == 0 || n == 1 || n == 2 || n == 3 || n == 4 || n == 5;
    }
  }

  function HeadFields(k: Checkpoint): (fs: seq<Field>)
    ensures KindsAre(fs, HEAD)
  {
    [U32(k.structSize), U32(k.schemaVersion), Raw(k.pipelineId), U64(k.window), U32(k.mode)]
  }

  function StateFields(k: Checkpoint): (fs: seq<Field>)
    requires k.CountsFit()
  {
    SquareFits(k.dim);
    U64s(k.mean[..k.dim]) + U64s(k.covariance[..k.dim * k.dim])
  }

  function VersionFields(k: Checkpoint): (fs: seq<Field>)
    ensures KindsAre(fs, VERSIONS)
  {
    [U32(k.calibration), U32(k.policy), U32(k.dgtAction)]
  }

  function SourceFields(ss: seq<Source>): (fs: seq<Field>)
    ensures |fs| == 3 * |ss|
  {
    if ss == [] then []
    else
      var n := |ss| - 1;
      SourceFields(ss[..n]) + FieldsOf(ss[n])
  }

  lemma {:induction false} SourceFieldsAt(ss: seq<Source>, i: nat)
    requires i < |ss|
    ensures var fs := SourceFields(ss);
            fs[3 * i] == Raw(ss[i].sensorId) && fs[3 * i + 1] == U64(ss[i].bootId) && fs[3 * i + 2] == U64(ss[i].last)
  {
    if i < |ss| - 1 { SourceFieldsAt(ss[..|ss| - 1], i); }
  }

  function Sections(k: Checkpoint): seq<seq<Field>> {
    if !k.CountsFit() then []
    else
      [HeadFields(k), [U32(k.dim)] + StateFields(k), VersionFields(k),
       [U32(k.sourceCount)] + SourceFields(k.sources[..k.sourceCount]), [U64(ToUnsigned(k.createdAt))]]
  }

  function NormalSources(k: Checkpoint): seq<Source>
    requires k.CountsFit()
  {
    k.sources[..k.sourceCount] + seq(MAX_TRACKED - k.sourceCount, _ => NoSource())
  }

  function Normal(k: Checkpoint): Checkpoint {
    if !k.CountsFit() then k
    else
      SquareFits(k.dim);
      k.(structSize := CHECKPOINT_SIZE, mean := Trimmed(k.mean, k.dim), covariance := Trimmed(k.covariance, k.dim * k.dim),
         sources := NormalSources(k))
  }

  function CheckpointShape(): Shape<Checkpoint> {
    Shape(PARTS, Sections, (k: Checkpoint) => k.CountsFit(), Normal)
  }

  // ----------------------------------------------------------------------- its laws

  lemma StateFits(k: Checkpoint)
    requires k.CountsFit()
    ensures KindsAre(StateFields(k), StateKinds(k.dim))
  {
    SquareFits(k.dim);
  }

  lemma {:induction false} SourcesFit(ss: seq<Source>)
    ensures KindsAre(SourceFields(ss), SourceKinds(|ss|))
  {
    hide SourceFields, SourceKinds, KindsAre, SourceKind, FieldsOf;
    if ss == [] {
      NoSources();
    } else {
      var (front, s) := (ss[..|ss| - 1], ss[|ss| - 1]);
      SourcesFit(front);
      OneFits(s);
      FieldsStep(ss);
      SourceKindsStep(|ss|);
      FitTogether(SourceFields(front), SourceKinds(|front|), FieldsOf(s), SourceKind());
    }
  }

  lemma OneFits(s: Source)
    ensures KindsAre(FieldsOf(s), SourceKind())
  {
  }

  lemma FieldsStep(ss: seq<Source>)
    requires ss != []
    ensures SourceFields(ss) == SourceFields(ss[..|ss| - 1]) + FieldsOf(ss[|ss| - 1])
  {
  }

  lemma SourceKindsStep(n: nat)
    requires n > 0
    ensures SourceKinds(n) == SourceKinds(n - 1) + SourceKind()
  {
  }

  lemma Fitting(k: Checkpoint)
    requires k.CountsFit()
    ensures AllFit(PARTS, Sections(k))
  {
    hide Fits, HeadFields, StateFields, VersionFields, SourceFields, KindsAre, StateKinds, SourceKinds;
    FixedFits(HEAD, HeadFields(k));
    StateFits(k);
    CountedFits(Counted(MAX_DIM, StateKinds), k.dim, StateFields(k));
    FixedFits(VERSIONS, VersionFields(k));
    SourcesFit(k.sources[..k.sourceCount]);
    CountedFits(Counted(MAX_TRACKED, SourceKinds), k.sourceCount, SourceFields(k.sources[..k.sourceCount]));
    LastFits(k);
  }

  lemma LastFits(k: Checkpoint)
    ensures Fits(Fixed([K64]), [U64(ToUnsigned(k.createdAt))])
  {
  }

  lemma StateDetermined(a: Checkpoint, b: Checkpoint)
    requires a.CountsFit() && b.CountsFit() && a.dim == b.dim && StateFields(a) == StateFields(b)
    ensures Normal(a).mean == Normal(b).mean && Normal(a).covariance == Normal(b).covariance
  {
    var n := a.dim;
    SquareFits(n);
    var (x, y) := (U64s(a.mean[..n]), U64s(b.mean[..n]));
    assert StateFields(a)[..n] == x && StateFields(b)[..n] == y;
    assert StateFields(a)[n..] == U64s(a.covariance[..n * n]) && StateFields(b)[n..] == U64s(b.covariance[..n * n]);
    hide StateFields, U64s, Trimmed;
    TrimmedEqual(a.mean, n, b.mean, n);
    TrimmedEqual(a.covariance, n * n, b.covariance, n * n);
  }

  lemma SourcesDetermined(xs: seq<Source>, ys: seq<Source>)
    requires SourceFields(xs) == SourceFields(ys)
    ensures xs == ys
  {
    assert |SourceFields(xs)| == 3 * |xs| && |SourceFields(ys)| == 3 * |ys|;
    forall i | 0 <= i < |xs|
      ensures xs[i] == ys[i]
    {
      var (f, g) := (SourceFields(xs), SourceFields(ys));
      SourceFieldsAt(xs, i);
      SourceFieldsAt(ys, i);
      assert f[3 * i] == g[3 * i] && f[3 * i + 1] == g[3 * i + 1] && f[3 * i + 2] == g[3 * i + 2];
    }
  }

  lemma Determined(a: Checkpoint, b: Checkpoint)
    requires a.CountsFit() && b.CountsFit() && Sections(a) == Sections(b)
    ensures Normal(a) == Normal(b)
  {
    hide StateFields, SourceFields, Trimmed;
    var (x, y) := (Sections(a), Sections(b));
    assert x[0] == y[0] && x[1] == y[1] && x[2] == y[2] && x[3] == y[3] && x[4] == y[4];
    CountedEqual(a.dim, StateFields(a), b.dim, StateFields(b));
    StateDetermined(a, b);
    CountedEqual(a.sourceCount, SourceFields(a.sources[..a.sourceCount]), b.sourceCount, SourceFields(b.sources[..b.sourceCount]));
    SourcesDetermined(a.sources[..a.sourceCount], b.sources[..b.sourceCount]);
    FixedDetermined(a, b);
  }

  lemma FixedDetermined(a: Checkpoint, b: Checkpoint)
    requires HeadFields(a) == HeadFields(b) && VersionFields(a) == VersionFields(b)
    requires [U64(ToUnsigned(a.createdAt))] == [U64(ToUnsigned(b.createdAt))]
    ensures a.schemaVersion == b.schemaVersion && a.pipelineId == b.pipelineId && a.window == b.window && a.mode == b.mode
    ensures a.calibration == b.calibration && a.policy == b.policy && a.dgtAction == b.dgtAction && a.createdAt == b.createdAt
  {
    var (x, y) := (HeadFields(a), HeadFields(b));
    assert x[1] == y[1] && x[2] == y[2] && x[3] == y[3] && x[4] == y[4];
    var (u, v) := (VersionFields(a), VersionFields(b));
    assert u[0] == v[0] && u[1] == v[1] && u[2] == v[2];
    assert [U64(ToUnsigned(a.createdAt))][0] == [U64(ToUnsigned(b.createdAt))][0];
  }

  /** So for checkpoints: decoding inverts encoding, and prefixes are rejected. */
  lemma CheckpointIsLawful()
    ensures Lawful(CheckpointShape())
  {
    hide Sections, Normal, AllFit;
    forall k: Checkpoint | k.CountsFit()
      ensures AllFit(PARTS, Sections(k))
    {
      Fitting(k);
    }
    forall a: Checkpoint, b: Checkpoint | a.CountsFit() && b.CountsFit() && Sections(a) == Sections(b)
      ensures Normal(a) == Normal(b)
    {
      Determined(a, b);
    }
  }

  // ----------------------------------------------------------------------- encoding

  method EncodeCheckpoint(k: Checkpoint, out: array<byte>, cap: nat) returns (st: WireStatus, len: nat)
    requires cap <= out.Length
    modifies out
    ensures st == Malformed <==> !k.CountsFit()
    ensures st == BufferTooSmall <==> k.CountsFit() && cap < |Image(CheckpointShape(), k)|
    ensures st == Ok ==> len == |Image(CheckpointShape(), k)| && out[..len] == Image(CheckpointShape(), k)
    ensures st == Ok || st == BufferTooSmall || st == Malformed
  {
    hide Enc, Writer.Valid, Sections;
    len := 0;
    if k.dim > MAX_DIM || k.sourceCount > MAX_TRACKED { return Malformed, len; }
    var c := new Writer(out, cap);
    WriteAll(k, c);
    c.Written();
    if !c.ok { return BufferTooSmall, len; }
    return Ok, c.off;
  }

  method WriteAll(k: Checkpoint, c: Writer)
    requires c.Valid() && c.log == [] && k.CountsFit()
    modifies c, c.buf
    ensures c.Valid() && c.log == Flatten(Sections(k))
  {
    hide Enc, Writer.Valid, U64s, SourceFields, Flatten;
    c.U32(k.structSize);
    c.U32(k.schemaVersion);
    c.Fixed(k.pipelineId);
    c.U64(k.window);
    c.U32(k.mode);
    assert c.log == HeadFields(k);
    SquareFits(k.dim);
    ghost var (a, b) := (U64s(k.mean[..k.dim]), U64s(k.covariance[..k.dim * k.dim]));
    c.U32(k.dim);
    c.U64Array(k.mean, k.dim);
    c.U64Array(k.covariance, k.dim * k.dim);
    assert c.log == HeadFields(k) + ([U32(k.dim)] + (a + b));
    WriteRest(k, c, HeadFields(k), [U32(k.dim)] + StateFields(k));
  }

  method WriteRest(k: Checkpoint, c: Writer, ghost head: seq<Field>, ghost state: seq<Field>)
    requires c.Valid() && k.CountsFit() && c.log == head + state
    requires head == HeadFields(k) && state == [U32(k.dim)] + StateFields(k)
    modifies c, c.buf
    ensures c.Valid() && c.log == Flatten(Sections(k))
  {
    hide Enc, Writer.Valid, StateFields, HeadFields, SourceFields, Flatten;
    c.U32(k.calibration);
    c.U32(k.policy);
    c.U32(k.dgtAction);
    assert c.log == head + state + VersionFields(k);
    ghost var first := c.log;
    c.U32(k.sourceCount);
    for i := 0 to k.sourceCount
      invariant c.Valid() && c.log == first + ([U32(k.sourceCount)] + SourceFields(k.sources[..i]))
    {
      ghost var before := SourceFields(k.sources[..i]);
      c.Fixed(k.sources[i].sensorId);
      c.U64(k.sources[i].bootId);
      c.U64(k.sources[i].last);
      SourceSnoc(k.sources, i);
    }
    c.I64(k.createdAt);
    FiveParts(head, state, VersionFields(k), [U32(k.sourceCount)] + SourceFields(k.sources[..k.sourceCount]),
              [U64(ToUnsigned(k.createdAt))]);
  }

  lemma SourceSnoc(ss: seq<Source>, i: nat)
    requires i < |ss|
    ensures SourceFields(ss[..i + 1]) == SourceFields(ss[..i]) + [Raw(ss[i].sensorId), U64(ss[i].bootId), U64(ss[i].last)]
  {
    assert ss[..i + 1][..i] == ss[..i];
  }

  lemma FiveParts(a: seq<Field>, b: seq<Field>, c: seq<Field>, d: seq<Field>, e: seq<Field>)
    ensures Flatten([a, b, c, d, e]) == a + b + c + d + e
  {
    ThreeParts(a, b, c);
    FlattenSnoc([a, b, c], d);
    FlattenSnoc([a, b, c, d], e);
    assert [a, b, c] + [d] == [a, b, c, d] && [a, b, c, d] + [e] == [a, b, c, d, e];
  }

  // ----------------------------------------------------------------------- decoding

  method DecodeCheckpoint(data: Bytes) returns (st: WireStatus, out: Checkpoint)
    ensures st == Ok || st == Malformed
    ensures Decoded(CheckpointShape(), data) == if st == Ok then Some(out) else None
  {
    hide Enc, Reader.Valid, Decoded, Stands, Sections, Normal, AllFit, Flatten, Lawful, StateFields, SourceFields, KindsAre, HeadFields;
    CheckpointIsLawful();
    var c := new Reader(data, GrammarOf(PARTS));
    StandsAtStart(c, PARTS);
    hide GrammarOf;
    out := ReadHead(c);
    ghost var a := HeadFields(out);
    var good;
    good, out := ReadState(c, out, [a]);
    if !good { DecodedNone(CheckpointShape(), data); return Malformed, out; }
    ghost var b := [U32(out.dim)] + StateFields(out);
    assert [a] + [b] == [a, b];
    out := ReadVersions(c, out, [a, b]);
    ghost var d := VersionFields(out);
    assert [a, b] + [d] == [a, b, d];
    st, out := FinishCheckpoint(c, out, a, b, d);
  }

  method ReadHead(c: Reader) returns (out: Checkpoint)
    requires Stands(c, PARTS, 0, []) && c.log == []
    modifies c
    ensures Stands(c, PARTS, 1, [HeadFields(out)]) && out.sourceCount == 0
  {
    SameGrammar(c, PARTS, 0, []);
    BeginFixed(c, PARTS, 0, []);
    hide Reader.Valid, GrammarOf, Stands, HeadFields;
    out := ReadHeadFields(c);
    FixedFits(HEAD, HeadFields(out));
    assert [] + HeadFields(out) == HeadFields(out);
    NoParts(PARTS);
    StandsNext(c, PARTS, 0, [], HeadFields(out));
    assert [] + [HeadFields(out)] == [HeadFields(out)];
  }

  method ReadHeadFields(c: Reader) returns (out: Checkpoint)
    requires c.Valid() && c.todo == HEAD && c.at == 0 && c.log == []
    modifies c
    ensures c.Valid() && (c.ok ==> c.log == HeadFields(out)) && out.sourceCount == 0
  {
    hide Reader.Valid;
    var structSize := c.U32();
    var schemaVersion := c.U32();
    var pipelineId := c.Fixed(ID_LEN);
    var window := c.U64();
    var mode := c.U32();
    out := Blank().(structSize := structSize, schemaVersion := schemaVersion, pipelineId := pipelineId, window := window, mode := mode);
  }

  /** What is not read of the arrays is zero. */
  predicate StateZeroed(k: Checkpoint) {
    k.dim <= MAX_DIM && (forall i :: k.dim <= i < MAX_DIM ==> k.mean[i] == 0)
    && forall i :: k.dim * k.dim <= i < MAX_DIM * MAX_DIM ==> k.covariance[i] == 0
  }

  method ReadState(c: Reader, head: Checkpoint, ghost fss: seq<seq<Field>>) returns (good: bool, out: Checkpoint)
    requires Stands(c, PARTS, 1, fss) && head.sourceCount == 0
    modifies c
    ensures out == head.(dim := out.dim, mean := out.mean, covariance := out.covariance)
    ensures !good ==> NoParse(c.grammar, c.data)
    ensures good ==> StateZeroed(out) && out.CountsFit() && Stands(c, PARTS, 2, fss + [[U32(out.dim)] + StateFields(out)])
    ensures HeadFields(out) == HeadFields(head)
  {
    SameGrammar(c, PARTS, 1, fss);
    hide Reader.Valid, AllFit, GrammarOf, Asks, Flatten, Fits, Stands, KindsAre;
    out := head;
    var n;
    good, n := ReadCount(c, MAX_DIM, PARTS, 1, fss);
    if !good { return; }
    out := ReadCells(c, head, n);
    StateFits(out);
    hide StateFields;
    CountedDone(c, PARTS, 1, fss, n, StateFields(out));
  }

  method ReadCells(c: Reader, head: Checkpoint, n: u32) returns (out: Checkpoint)
    requires c.Valid() && n <= MAX_DIM && c.todo == StateKinds(n) && c.at == 0 && head.sourceCount == 0
    modifies c
    ensures out == head.(dim := n, mean := out.mean, covariance := out.covariance) && StateZeroed(out)
    ensures c.Valid() && (c.ok ==> old(c.ok) && c.log == old(c.log) + StateFields(out))
  {
    hide Reader.Valid, U64s;
    SquareFits(n);
    var mean := c.U64Array(n, MAX_DIM);
    var covariance := c.U64Array(n * n, MAX_DIM * MAX_DIM);
    out := head.(dim := n, mean := mean, covariance := covariance);
  }

  method ReadVersions(c: Reader, head: Checkpoint, ghost fss: seq<seq<Field>>) returns (out: Checkpoint)
    requires Stands(c, PARTS, 2, fss)
    modifies c
    ensures out == head.(calibration := out.calibration, policy := out.policy, dgtAction := out.dgtAction)
    ensures Stands(c, PARTS, 3, fss + [VersionFields(out)])
    ensures HeadFields(out) == HeadFields(head) && (head.CountsFit() ==> StateFields(out) == StateFields(head))
  {
    SameGrammar(c, PARTS, 2, fss);
    SoFarParts(c, PARTS, 2, fss);
    BeginFixed(c, PARTS, 2, fss);
    hide Reader.Valid, GrammarOf, Stands, Flatten, AllFit, Fits, VersionFields, HeadFields, StateFields;
    out := ReadVersionFields(c, head);
    FixedFits(VERSIONS, VersionFields(out));
    StandsNext(c, PARTS, 2, fss, VersionFields(out));
  }

  method ReadVersionFields(c: Reader, head: Checkpoint) returns (out: Checkpoint)
    requires c.Valid() && c.todo == VERSIONS && c.at == 0
    modifies c
    ensures out == head.(calibration := out.calibration, policy := out.policy, dgtAction := out.dgtAction)
    ensures HeadFields(out) == HeadFields(head) && (head.CountsFit() ==> StateFields(out) == StateFields(head))
    ensures c.Valid() && (c.ok ==> old(c.ok) && c.log == old(c.log) + VersionFields(out))
  {
    hide Reader.Valid;
    var calibration := c.U32();
    var policy := c.U32();
    var dgtAction := c.U32();
    out := head.(calibration := calibration, policy := policy, dgtAction := dgtAction);
  }

  /** The tracked sources and the creation time. */
  method FinishCheckpoint(c: Reader, head: Checkpoint, ghost a: seq<Field>, ghost b: seq<Field>, ghost d: seq<Field>)
    returns (st: WireStatus, out: Checkpoint)
    requires Stands(c, PARTS, 3, [a, b, d]) && StateZeroed(head) && head.CountsFit()
    requires a == HeadFields(head) && b == [U32(head.dim)] + StateFields(head) && d == VersionFields(head)
    modifies c
    ensures st == Ok || st == Malformed
    ensures Decoded(CheckpointShape(), c.data) == if st == Ok then Some(out) else None
  {
    hide Enc, Reader.Valid, Decoded, Stands, Sections, Normal, AllFit, Flatten, Lawful, StateFields, SourceFields, KindsAre,
         HeadFields, VersionFields, GrammarOf;
    CheckpointIsLawful();
    SameGrammar(c, PARTS, 3, [a, b, d]);
    out := head;
    var good, n, sources := ReadSources(c, [a, b, d]);
    if !good { DecodedNone(CheckpointShape(), c.data); return Malformed, out; }
    out := head.(sourceCount := n, sources := sources);
    SameFields(head, out);
    ghost var e := [U32(out.sourceCount)] + SourceFields(out.sources[..out.sourceCount]);
    assert [a, b, d] + [e] == [a, b, d, e];
    SoFarParts(c, PARTS, 4, [a, b, d, e]);
    BeginFixed(c, PARTS, 4, [a, b, d, e]);
    var createdAt := c.I64();
    SameFields(out, out.(createdAt := createdAt));
    out := out.(createdAt := createdAt);
    c.SoFar();
    if !c.ok { DecodedNone(CheckpointShape(), c.data); return Malformed, out; }
    FlattenSnoc([a, b, d, e], [U64(ToUnsigned(createdAt))]);
    WasRead(out, c.log, c.data, a, b, d, e);
    return Ok, out.(structSize := CHECKPOINT_SIZE);
  }

  lemma SameFields(k: Checkpoint, j: Checkpoint)
    requires j == k.(sourceCount := j.sourceCount, sources := j.sources, createdAt := j.createdAt)
    ensures HeadFields(j) == HeadFields(k) && VersionFields(j) == VersionFields(k)
    ensures k.CountsFit() && j.CountsFit() ==> StateFields(j) == StateFields(k)
  {
  }

  lemma WasRead(out: Checkpoint, log: seq<Field>, data: Bytes, a: seq<Field>, b: seq<Field>, d: seq<Field>, e: seq<Field>)
    requires out.CountsFit() && Enc(log) <= data && log == Flatten([a, b, d, e] + [[U64(ToUnsigned(out.createdAt))]])
    requires a == HeadFields(out) && b == [U32(out.dim)] + StateFields(out) && d == VersionFields(out)
    requires e == [U32(out.sourceCount)] + SourceFields(out.sources[..out.sourceCount])
    requires StateZeroed(out) && forall i :: out.sourceCount <= i < MAX_TRACKED ==> out.sources[i] == NoSource()
    ensures Decoded(CheckpointShape(), data).Some? && Decoded(CheckpointShape(), data).value == out.(structSize := CHECKPOINT_SIZE)
  {
    hide Enc, Flatten, StateFields, SourceFields, HeadFields, VersionFields, Trimmed;
    assert [a, b, d, e] + [[U64(ToUnsigned(out.createdAt))]] == Sections(out);
    CheckpointIsLawful();
    DecodedIs(CheckpointShape(), out, data);
    SquareFits(out.dim);
    TrimmedIs(out.mean, out.dim);
    TrimmedIs(out.covariance, out.dim * out.dim);
    assert NormalSources(out) == out.sources;
  }

  method ReadSources(c: Reader, ghost fss: seq<seq<Field>>) returns (good: bool, n: u32, ss: seq<Source>)
    requires Stands(c, PARTS, 3, fss)
    modifies c
    ensures !good ==> NoParse(c.grammar, c.data)
    ensures |ss| == MAX_TRACKED && (good ==> forall i :: n <= i < MAX_TRACKED ==> ss[i] == NoSource())
    ensures good ==> n <= MAX_TRACKED && Stands(c, PARTS, 4, fss + [[U32(n)] + SourceFields(ss[..n])])
  {
    SameGrammar(c, PARTS, 3, fss);
    hide Reader.Valid, AllFit, GrammarOf, Asks, Flatten, Fits, Stands, KindsAre, SourceFields, SourceKinds;
    ss := seq(MAX_TRACKED, _ => NoSource());
    good, n := ReadCount(c, MAX_TRACKED, PARTS, 3, fss);
    if !good { return; }
    ss := ReadSourceArray(c, n);
    SourcesFit(ss[..n]);
    CountedDone(c, PARTS, 3, fss, n, SourceFields(ss[..n]));
  }

  method ReadSourceArray(c: Reader, n: nat) returns (ss: seq<Source>)
    requires c.Valid() && n <= MAX_TRACKED && c.todo == SourceKinds(n) && c.at == 0
    modifies c
    ensures c.Valid() && |ss| == MAX_TRACKED && forall i :: n <= i < MAX_TRACKED ==> ss[i] == NoSource()
    ensures c.ok ==> old(c.ok) && c.log == old(c.log) + SourceFields(ss[..n])
  {
    hide Reader.Valid, SourceFields, SourceKinds;
    ss := seq(MAX_TRACKED, _ => NoSource());
    NoSources();
    for i := 0 to n
      invariant c.Valid() && c.todo == SourceKinds(n) && c.at == 3 * i && |ss| == MAX_TRACKED
      invariant forall k :: i <= k < MAX_TRACKED ==> ss[k] == NoSource()
      invariant c.ok ==> old(c.ok) && c.log == old(c.log) + SourceFields(ss[..i])
    {
      ghost var before := ss[..i];
      SourceKindsAt(n, i);
      var s := ReadSource(c);
      ss := ss[i := s];
      assert ss[..i] == before;
      SourceSnoc(ss, i);
    }
  }

  method ReadSource(c: Reader) returns (s: Source)
    requires c.Valid() && c.at + 3 <= |c.todo|
    requires c.todo[c.at] == KRaw(ID_LEN) && c.todo[c.at + 1] == K64 && c.todo[c.at + 2] == K64
    modifies c
    ensures c.Valid() && c.todo == old(c.todo) && c.at == old(c.at) + 3
    ensures c.ok ==> old(c.ok) && c.log == old(c.log) + [Raw(s.sensorId), U64(s.bootId), U64(s.last)]
  {
    hide Reader.Valid;
    var id := c.Fixed(ID_LEN);
    var boot := c.U64();
    var last := c.U64();
    s := Source(id, boot, last);
  }

  lemma NoSources()
    ensures SourceFields([]) == [] && KindsAre([], SourceKinds(0))
  {
  }
}

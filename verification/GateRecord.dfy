/** The gate's durable record: state codec, checksummed framing, and what loading
    notices about a damaged file. */
module GateRecord {
  import opened Machine
  import opened Codec
  import opened Cursor
  import opened Layout
  import opened Gate
  import Crc32

  const MAGIC: u32 := 0x4F424754
  const HEADER_LEN := 16
  const MAX_RECORD_PAYLOAD := 8192

  datatype LoadResult = Loaded(state: State) | MalformedRecord | BadChecksum

  // ----------------------------------------------------- the layout of a gate state

  const HEAD: seq<Kind> := [K32, K32, K64, K32]

  function PipelineKind(): seq<Kind> {
    [KRaw(PIPELINE_ID_LEN), K32, K64, KRaw(DIGEST_LEN)]
  }

  function PipelineKinds(n: nat): (ks: seq<Kind>)
    ensures |ks| == 4 * n
  {
    if n == 0 then [] else PipelineKinds(n - 1) + PipelineKind()
  }

  lemma {:induction false} PipelineKindsAt(n: nat, i: nat)
    requires i < n
    ensures var ks := PipelineKinds(n);
            && ks[4 * i] == KRaw(PIPELINE_ID_LEN) && ks[4 * i + 1] == K32
            && ks[4 * i + 2] == K64 && ks[4 * i + 3] == KRaw(DIGEST_LEN)
  {
    if i < n - 1 { PipelineKindsAt(n - 1, i); }
  }

  const PARTS: seq<Part> := [Fixed(HEAD), Counted(MAX_PIPELINES, PipelineKinds)]

  function HeadFields(s: State): (fs: seq<Field>)
    ensures KindsAre(fs, HEAD)
  {
    [U32(s.structSize), U32(s.schemaVersion), U64(s.epoch), U32(s.owner)]
  }

  function FieldsOf(p: Pipeline): seq<Field> {
    [Raw(p.id), U32(p.hasCommitted), U64(p.last), Raw(p.digest)]
  }

  function PipelineFields(ps: seq<Pipeline>): (fs: seq<Field>)
    ensures |fs| == 4 * |ps|
  {
    if ps == [] then [] else PipelineFields(ps[..|ps| - 1]) + FieldsOf(ps[|ps| - 1])
  }

  lemma {:induction false} PipelineFieldsAt(ps: seq<Pipeline>, i: nat)
    requires i < |ps|
    ensures var fs := PipelineFields(ps);
            && fs[4 * i] == Raw(ps[i].id) && fs[4 * i + 1] == U32(ps[i].hasCommitted)
            && fs[4 * i + 2] == U64(ps[i].last) && fs[4 * i + 3] == Raw(ps[i].digest)
  {
    if i < |ps| - 1 { PipelineFieldsAt(ps[..|ps| - 1], i); }
  }

  function Sections(s: State): seq<seq<Field>> {
    if |s.pipelines| > MAX_PIPELINES then []
    else [HeadFields(s), [U32(|s.pipelines|)] + PipelineFields(s.pipelines)]
  }

  /** What decoding makes of an encoded state: this build's struct size. */
  function Normal(s: State): State {
    s.(structSize := GATE_STATE_SIZE)
  }

  function StateShape(): Shape<State> {
    Shape(PARTS, Sections, (s: State) => |s.pipelines| <= MAX_PIPELINES, Normal)
  }

  ghost function Image(s: State): Bytes {
    Layout.Image(StateShape(), s)
  }

  ghost function Decoded(data: Bytes): Option<State> {
    Layout.Decoded(StateShape(), data)
  }

  // ----------------------------------------------------------------------- its laws

  lemma {:induction false} PipelinesFit(ps: seq<Pipeline>)
    ensures KindsAre(PipelineFields(ps), PipelineKinds(|ps|))
  {
    hide PipelineKinds, PipelineFields, KindsAre, FieldsOf, PipelineKind;
    if ps == [] {
      NoPipelines();
    } else {
      var (front, p) := (ps[..|ps| - 1], ps[|ps| - 1]);
      PipelinesFit(front);
      OneFits(p);
      PipelineKindsStep(|ps|);
      FieldsStep(ps);
      FitTogether(PipelineFields(front), PipelineKinds(|front|), FieldsOf(p), PipelineKind());
    }
  }

  lemma OneFits(p: Pipeline)
    ensures KindsAre(FieldsOf(p), PipelineKind())
  {
  }

  lemma PipelineKindsStep(n: nat)
    requires n > 0
    ensures PipelineKinds(n) == PipelineKinds(n - 1) + PipelineKind()
  {
  }

  lemma FieldsStep(ps: seq<Pipeline>)
    requires ps != []
    ensures PipelineFields(ps) == PipelineFields(ps[..|ps| - 1]) + FieldsOf(ps[|ps| - 1])
  {
  }

  lemma Fitting(s: State)
    requires |s.pipelines| <= MAX_PIPELINES
    ensures AllFit(PARTS, Sections(s))
  {
    hide Fits, HeadFields, PipelineFields, PipelineKinds, KindsAre;
    FixedFits(HEAD, HeadFields(s));
    PipelinesFit(s.pipelines);
    CountedFits(Counted(MAX_PIPELINES, PipelineKinds), |s.pipelines|, PipelineFields(s.pipelines));
  }

  lemma PipelinesDetermined(xs: seq<Pipeline>, ys: seq<Pipeline>)
    requires PipelineFields(xs) == PipelineFields(ys)
    ensures xs == ys
  {
    var (f, g) := (PipelineFields(xs), PipelineFields(ys));
    assert |f| == 4 * |xs| && |g| == 4 * |ys|;
    forall i | 0 <= i < |xs|
      ensures xs[i] == ys[i]
    {
      PipelineFieldsAt(xs, i);
      PipelineFieldsAt(ys, i);
      assert f[4 * i] == g[4 * i] && f[4 * i + 1] == g[4 * i + 1] && f[4 * i + 2] == g[4 * i + 2] && f[4 * i + 3] == g[4 * i + 3];
    }
  }

  lemma Determined(a: State, b: State)
    requires |a.pipelines| <= MAX_PIPELINES && |b.pipelines| <= MAX_PIPELINES && Sections(a) == Sections(b)
    ensures a == b
  {
    hide PipelineFields;
    var (x, y) := (Sections(a), Sections(b));
    assert x[0] == y[0] && x[1] == y[1];
    CountedEqual(|a.pipelines|, PipelineFields(a.pipelines), |b.pipelines|, PipelineFields(b.pipelines));
    PipelinesDetermined(a.pipelines, b.pipelines);
    var (f, g) := (HeadFields(a), HeadFields(b));
    assert f[0] == g[0] && f[1] == g[1] && f[2] == g[2] && f[3] == g[3];
  }

  /** So for gate states: decoding inverts encoding, and prefixes are rejected. */
  lemma StateIsLawful()
    ensures Lawful(StateShape())
  {
    hide Sections, Normal, AllFit;
    forall s: State | |s.pipelines| <= MAX_PIPELINES
      ensures AllFit(PARTS, Sections(s))
    {
      Fitting(s);
    }
    forall a: State, b: State | |a.pipelines| <= MAX_PIPELINES && |b.pipelines| <= MAX_PIPELINES && Sections(a) == Sections(b)
      ensures Normal(a) == Normal(b)
    {
      Determined(a, b);
    }
  }

  lemma StrictPrefixRejected(s: State, k: nat)
    requires |s.pipelines| <= MAX_PIPELINES && k < |Image(s)|
    ensures Decoded(Image(s)[..k]) == None
  {
    StateIsLawful();
    Layout.StrictPrefixRejected(StateShape(), s, k);
  }

  lemma ImageLength(s: State)
    requires |s.pipelines| <= MAX_PIPELINES
    ensures |Image(s)| == 24 + 76 * |s.pipelines|
  {
    hide Enc, HeadFields, PipelineFields;
    var (h, p) := (HeadFields(s), PipelineFields(s.pipelines));
    HeadLength(s);
    EncSnoc(h, U32(|s.pipelines|));
    Rejoin(h, U32(|s.pipelines|), p);
    EncConcat(h + [U32(|s.pipelines|)], p);
    PipelinesLength(s.pipelines);
    TwoParts(h, [U32(|s.pipelines|)] + p);
  }

  lemma HeadLength(s: State)
    ensures |Enc(HeadFields(s))| == 20
  {
    FourLong(U32(s.structSize), U32(s.schemaVersion), U64(s.epoch), U32(s.owner));
  }

  lemma {:induction false} PipelinesLength(ps: seq<Pipeline>)
    ensures |Enc(PipelineFields(ps))| == 76 * |ps|
  {
    if ps != [] {
      var (front, p) := (ps[..|ps| - 1], ps[|ps| - 1]);
      PipelinesLength(front);
      EncConcat(PipelineFields(front), FieldsOf(p));
      FourLong(Raw(p.id), U32(p.hasCommitted), U64(p.last), Raw(p.digest));
    }
  }

  lemma FourLong(a: Field, b: Field, c: Field, d: Field)
    ensures Enc([a, b, c, d]) == Encode(a) + Encode(b) + Encode(c) + Encode(d)
  {
    hide Encode;
    assert [a, b, c, d][..3] == [a, b, c] && [a, b, c][..2] == [a, b] && [a, b][..1] == [a] && [a][..0] == [];
    assert Enc([a]) == Encode(a);
    assert Enc([a, b]) == Encode(a) + Encode(b);
    assert Enc([a, b, c]) == Encode(a) + Encode(b) + Encode(c);
  }

  // ------------------------------------------------------------ the state's codecs

  datatype EncodeResult = Encoded(len: nat) | InvalidArgument | NoRoom

  method EncodeState(s: GateState, out: array<byte>, cap: nat) returns (r: EncodeResult)
    requires cap <= out.Length
    modifies out
    ensures r.InvalidArgument? <==> |s.pipelines| > MAX_PIPELINES
    ensures r.NoRoom? <==> |s.pipelines| <= MAX_PIPELINES && cap < |Image(s.Value())|
    ensures r.Encoded? ==> r.len == |Image(s.Value())| && out[..r.len] == Image(s.Value())
  {
    hide Enc, Writer.Valid, Flatten;
    if |s.pipelines| > MAX_PIPELINES { return InvalidArgument; }
    var c := new Writer(out, cap);
    WriteHead(s, c);
    ghost var counted := c.log;
    WritePipelines(s.pipelines, c);
    Rejoin(HeadFields(s.Value()), U32(|s.pipelines|), PipelineFields(s.pipelines));
    TwoParts(HeadFields(s.Value()), [U32(|s.pipelines|)] + PipelineFields(s.pipelines));
    c.Written();
    return if c.ok then Encoded(c.off) else NoRoom;
  }

  method WriteHead(s: GateState, c: Writer)
    requires c.Valid() && c.log == [] && |s.pipelines| <= MAX_PIPELINES
    modifies c, c.buf
    ensures c.Valid() && c.log == HeadFields(s.Value()) + [U32(|s.pipelines|)]
  {
    hide Writer.Valid;
    c.U32(s.structSize);
    c.U32(s.schemaVersion);
    c.U64(s.epoch);
    c.U32(s.owner);
    assert c.log == HeadFields(s.Value());
    c.U32(|s.pipelines|);
  }

  method WritePipelines(ps: seq<Pipeline>, c: Writer)
    requires c.Valid()
    modifies c, c.buf
    ensures c.Valid() && c.log == old(c.log) + PipelineFields(ps)
  {
    hide Writer.Valid, PipelineFields;
    NoPipelines();
    for i := 0 to |ps|
      invariant c.Valid() && c.log == old(c.log) + PipelineFields(ps[..i])
    {
      c.Fixed(ps[i].id);
      c.U32(ps[i].hasCommitted);
      c.U64(ps[i].last);
      c.Fixed(ps[i].digest);
      PipelineSnoc(ps, i);
    }
    assert ps[..|ps|] == ps;
  }

  lemma NoPipelines()
    ensures PipelineFields([]) == [] && KindsAre([], PipelineKinds(0))
  {
  }

  lemma PipelineSnoc(ps: seq<Pipeline>, i: nat)
    requires i < |ps|
    ensures PipelineFields(ps[..i + 1]) == PipelineFields(ps[..i]) + [Raw(ps[i].id), U32(ps[i].hasCommitted), U64(ps[i].last), Raw(ps[i].digest)]
  {
    assert ps[..i + 1][..i] == ps[..i];
  }

  method DecodeState(data: Bytes) returns (ok: bool, s: State)
    ensures Decoded(data) == if ok then Some(s) else None
  {
    hide Enc, Reader.Valid, Layout.Decoded, Stands, Sections, Normal, AllFit, Flatten, Lawful, PipelineFields, KindsAre, HeadFields;
    StateIsLawful();
    var c := new Reader(data, GrammarOf(PARTS));
    StandsAtStart(c, PARTS);
    hide GrammarOf;
    s := ReadHead(c);
    ghost var a := HeadFields(s);
    var good, pipelines := ReadPipelines(c, [a]);
    if !good { DecodedNone(StateShape(), data); return false, s; }
    SameHead(s, s.(pipelines := pipelines));
    s := s.(pipelines := pipelines);
    ghost var b := [U32(|pipelines|)] + PipelineFields(pipelines);
    assert [a] + [b] == [a, b];
    SoFarParts(c, PARTS, 2, [a, b]);
    StandsValid(c, PARTS, 2, [a, b]);
    c.SoFar();
    if !c.ok { DecodedNone(StateShape(), data); return false, s; }
    WasRead(s, c.log, data, a, b);
    s := s.(structSize := GATE_STATE_SIZE);
    return true, s;
  }

  lemma SameHead(a: State, b: State)
    requires b == a.(pipelines := b.pipelines)
    ensures HeadFields(b) == HeadFields(a)
  {
  }

  lemma WasRead(s: State, log: seq<Field>, data: Bytes, a: seq<Field>, b: seq<Field>)
    requires |s.pipelines| <= MAX_PIPELINES && Enc(log) <= data && log == Flatten([a, b])
    requires a == HeadFields(s) && b == [U32(|s.pipelines|)] + PipelineFields(s.pipelines)
    ensures Decoded(data) == Some(s.(structSize := GATE_STATE_SIZE))
  {
    hide Enc, Flatten, PipelineFields, HeadFields;
    StateIsLawful();
    DecodedIs(StateShape(), s, data);
  }

  method ReadHead(c: Reader) returns (s: State)
    requires Stands(c, PARTS, 0, []) && c.log == []
    modifies c
    ensures Stands(c, PARTS, 1, [HeadFields(s)]) && s.pipelines == []
  {
    SameGrammar(c, PARTS, 0, []);
    BeginFixed(c, PARTS, 0, []);
    hide Reader.Valid, GrammarOf, Stands, HeadFields;
    s := ReadHeadFields(c);
    FixedFits(HEAD, HeadFields(s));
    assert [] + HeadFields(s) == HeadFields(s);
    NoParts(PARTS);
    StandsNext(c, PARTS, 0, [], HeadFields(s));
    assert [] + [HeadFields(s)] == [HeadFields(s)];
  }

  method ReadHeadFields(c: Reader) returns (s: State)
    requires c.Valid() && c.todo == HEAD && c.at == 0 && c.log == []
    modifies c
    ensures c.Valid() && (c.ok ==> c.log == HeadFields(s)) && s.pipelines == []
  {
    hide Reader.Valid;
    var structSize := c.U32();
    var schemaVersion := c.U32();
    var epoch := c.U64();
    var owner := c.U32();
    s := State(structSize, schemaVersion, epoch, owner, []);
  }

  method ReadPipelines(c: Reader, ghost fss: seq<seq<Field>>) returns (good: bool, ps: seq<Pipeline>)
    requires Stands(c, PARTS, 1, fss)
    modifies c
    ensures !good ==> NoParse(c.grammar, c.data)
    ensures |ps| <= MAX_PIPELINES
    ensures good ==> Stands(c, PARTS, 2, fss + [[U32(|ps|)] + PipelineFields(ps)])
  {
    SameGrammar(c, PARTS, 1, fss);
    hide Reader.Valid, AllFit, GrammarOf, Asks, Flatten, Fits, Stands, KindsAre, PipelineFields, PipelineKinds;
    ps := [];
    var count;
    good, count := ReadCount(c, MAX_PIPELINES, PARTS, 1, fss);
    if !good { return; }
    ps := ReadPipelineArray(c, count);
    PipelinesFit(ps);
    CountedDone(c, PARTS, 1, fss, count, PipelineFields(ps));
  }

  method ReadPipelineArray(c: Reader, n: nat) returns (ps: seq<Pipeline>)
    requires c.Valid() && c.todo == PipelineKinds(n) && c.at == 0
    modifies c
    ensures c.Valid() && |ps| == n
    ensures c.ok ==> old(c.ok) && c.log == old(c.log) + PipelineFields(ps)
  {
    hide Reader.Valid, PipelineFields, PipelineKinds;
    ps := [];
    NoPipelines();
    for i := 0 to n
      invariant c.Valid() && c.todo == PipelineKinds(n) && c.at == 4 * i && |ps| == i
      invariant c.ok ==> old(c.ok) && c.log == old(c.log) + PipelineFields(ps)
    {
      PipelineKindsAt(n, i);
      var p := ReadPipeline(c);
      PipelineSnoc(ps + [p], i);
      assert (ps + [p])[..i] == ps && (ps + [p])[..i + 1] == ps + [p];
      ps := ps + [p];
    }
  }

  method ReadPipeline(c: Reader) returns (p: Pipeline)
    requires c.Valid() && c.at + 4 <= |c.todo|
    requires c.todo[c.at] == KRaw(PIPELINE_ID_LEN) && c.todo[c.at + 1] == K32
    requires c.todo[c.at + 2] == K64 && c.todo[c.at + 3] == KRaw(DIGEST_LEN)
    modifies c
    ensures c.Valid() && c.todo == old(c.todo) && c.at == old(c.at) + 4
    ensures c.ok ==> old(c.ok) && c.log == old(c.log) + [Raw(p.id), U32(p.hasCommitted), U64(p.last), Raw(p.digest)]
  {
    hide Reader.Valid;
    var id := c.Fixed(PIPELINE_ID_LEN);
    var hasCommitted := c.U32();
    var last := c.U64();
    var digest := c.Fixed(DIGEST_LEN);
    p := Pipeline(id, hasCommitted, last, digest);
  }

  // --------------------------------------------------------------- the framed record

  ghost function Header(len: u32, crc: u32): (h: Bytes)
    ensures |h| == HEADER_LEN
  {
    FourLong(U32(MAGIC), U32(len), U32(crc), U32(0));
    Enc([U32(MAGIC), U32(len), U32(crc), U32(0)])
  }

  ghost function Record(s: State): (r: Bytes)
    requires |s.pipelines| <= MAX_PIPELINES
    ensures |r| == HEADER_LEN + |Image(s)|
  {
    ImageLength(s);
    Header(|Image(s)|, Crc32.Crc(Image(s))) + Image(s)
  }

  /** The 32-bit word at an offset. */
  ghost function Word(file: Bytes, at: nat): nat
    requires at + 4 <= |file|
  {
    Codec.Value(file[at..at + 4])
  }

  ghost function Load(file: Bytes): LoadResult {
    if |file| < HEADER_LEN then MalformedRecord
    else
      var len := Word(file, 4);
      if Word(file, 0) != MAGIC || len > MAX_RECORD_PAYLOAD || |file| - HEADER_LEN < len then MalformedRecord
      else LoadPayload(file[HEADER_LEN..HEADER_LEN + len], Word(file, 8))
  }

  ghost function LoadPayload(payload: Bytes, crc: nat): LoadResult {
    if Crc32.Crc(payload) != crc then BadChecksum
    else
      match Decoded(payload)
      case Some(s) => Loaded(s)
      case None => MalformedRecord
  }

  lemma HeaderWords(len: u32, crc: u32, rest: Bytes)
    ensures var f := Header(len, crc) + rest; Word(f, 0) == MAGIC && Word(f, 4) == len && Word(f, 8) == crc
  {
    FourLong(U32(MAGIC), U32(len), U32(crc), U32(0));
    hide Enc, LittleEndian, Codec.Value;
    WordIs(MAGIC);
    WordIs(len);
    WordIs(crc);
    FourWords(Encode(U32(MAGIC)), Encode(U32(len)), Encode(U32(crc)), Encode(U32(0)), rest);
  }

  lemma FourWords(a: Bytes, b: Bytes, c: Bytes, d: Bytes, rest: Bytes)
    requires |a| == |b| == |c| == |d| == 4
    ensures var f := a + b + c + d + rest; f[0..4] == a && f[4..8] == b && f[8..12] == c
  {
    var f := a + b + c + d + rest;
    assert f == a + (b + (c + (d + rest)));
  }

  lemma WordIs(v: u32)
    ensures Codec.Value(Encode(U32(v))) == v
  {
    Powers();
    ValueOfLittleEndian(v, 4);
  }

  /** A record loads back as the state it was made from. */
  lemma LoadOfRecord(s: State, rest: Bytes)
    requires |s.pipelines| <= MAX_PIPELINES
    ensures Load(Record(s) + rest) == Loaded(Normal(s))
  {
    hide Header, Word, Image, Decoded, Normal, Crc32.Crc;
    var payload := Image(s);
    var crc := Crc32.Crc(payload);
    ImageLength(s);
    HeaderWords(|payload|, crc, payload + rest);
    DecodedWhole(s);
    var f := Record(s) + rest;
    assert f == Header(|payload|, crc) + (payload + rest);
    assert f[HEADER_LEN..HEADER_LEN + |payload|] == payload;
  }

  lemma DecodedWhole(s: State)
    requires |s.pipelines| <= MAX_PIPELINES
    ensures Decoded(Image(s)) == Some(Normal(s))
  {
    StateIsLawful();
    DecodedIs(StateShape(), s, Image(s));
  }

  /** A file cut short anywhere is refused. */
  lemma TruncatedRecordRefused(s: State, k: nat)
    requires |s.pipelines| <= MAX_PIPELINES && k < |Record(s)|
    ensures Load(Record(s)[..k]) == MalformedRecord
  {
    hide Header, Image, Decoded;
    var payload := Image(s);
    var crc := Crc32.Crc(payload);
    ImageLength(s);
    HeaderWords(|payload|, crc, payload);
    var f := Record(s);
    if k >= HEADER_LEN {
      assert f[..k][0..4] == f[0..4] && f[..k][4..8] == f[4..8];
    }
  }

  /** Changing any one byte of the payload is noticed by the checksum. */
  lemma ChangedPayloadByteRefused(s: State, i: nat, b: byte)
    requires |s.pipelines| <= MAX_PIPELINES
    requires HEADER_LEN <= i < |Record(s)| && b != Record(s)[i]
    ensures Load(Record(s)[i := b]) == BadChecksum
  {
    hide Header, Image, Decoded, Crc32.Crc;
    var payload := Image(s);
    ImageLength(s);
    HeaderWords(|payload|, Crc32.Crc(payload), payload);
    var j := i - HEADER_LEN;
    Crc32.ByteChangeDetected(payload, j, b);
    var f := Record(s);
    var g := f[i := b];
    assert g[HEADER_LEN..HEADER_LEN + |payload|] == payload[j := b];
    assert g[0..4] == f[0..4] && g[4..8] == f[4..8] && g[8..12] == f[8..12];
  }

  /** So is any damage confined to four consecutive bytes of the payload. */
  lemma ChangedWordRefused(s: State, damaged: Bytes, i: nat)
    requires |s.pipelines| <= MAX_PIPELINES && |damaged| == |Record(s)| && damaged != Record(s)
    requires HEADER_LEN <= i && i + 4 <= |Record(s)|
    requires damaged[..i] == Record(s)[..i] && damaged[i + 4..] == Record(s)[i + 4..]
    ensures Load(damaged) == BadChecksum
  {
    hide Header, Image, Decoded, Crc32.Crc;
    var payload := Image(s);
    ImageLength(s);
    HeaderWords(|payload|, Crc32.Crc(payload), payload);
    var f := Record(s);
    var j := i - HEADER_LEN;
    var other := damaged[HEADER_LEN..];
    assert f[HEADER_LEN..] == payload;
    Window(damaged, f, HEADER_LEN, i);
    Crc32.FourByteChangeDetected(payload, other, j);
    SameWords(damaged, f);
    assert damaged[HEADER_LEN..HEADER_LEN + |payload|] == other;
  }

  /** Dropping a common prefix keeps a window of differences a window. */
  lemma Window(d: Bytes, f: Bytes, h: nat, i: nat)
    requires |d| == |f| && h <= i && i + 4 <= |f| && d[..i] == f[..i] && d[i + 4..] == f[i + 4..]
    ensures d[..h] == f[..h] && (d != f ==> d[h..] != f[h..])
    ensures d[h..][..i - h] == f[h..][..i - h] && d[h..][i - h + 4..] == f[h..][i - h + 4..]
  {
    assert d[..i][..h] == d[..h] && f[..i][..h] == f[..h];
    assert d[..i][h..] == d[h..][..i - h] && f[..i][h..] == f[h..][..i - h];
    assert d[i + 4..] == d[h..][i - h + 4..] && f[i + 4..] == f[h..][i - h + 4..];
    assert d == d[..h] + d[h..] && f == f[..h] + f[h..];
  }

  lemma SameWords(f: Bytes, g: Bytes)
    requires |f| >= HEADER_LEN && |g| >= HEADER_LEN && f[..HEADER_LEN] == g[..HEADER_LEN]
    ensures f[0..4] == g[0..4] && f[4..8] == g[4..8] && f[8..12] == g[8..12]
  {
    assert forall i :: 0 <= i < HEADER_LEN ==> f[..HEADER_LEN][i] == f[i] && g[..HEADER_LEN][i] == g[i];
  }

  /** A changed magic byte is refused. */
  lemma ChangedMagicRefused(s: State, i: nat, b: byte)
    requires |s.pipelines| <= MAX_PIPELINES && i < 4 && b != Record(s)[i]
    ensures Load(Record(s)[i := b]) == MalformedRecord
  {
    hide Header, Image, Decoded, Crc32.Crc, Codec.Value;
    ImageLength(s);
    HeaderWords(|Image(s)|, Crc32.Crc(Image(s)), Image(s));
    var f := Record(s);
    WordChanges(f[0..4], i, b);
    assert f[i := b][0..4] == f[0..4][i := b];
  }

  /** A changed byte of the stored checksum is refused. */
  lemma ChangedChecksumRefused(s: State, i: nat, b: byte)
    requires |s.pipelines| <= MAX_PIPELINES && 8 <= i < 12 && b != Record(s)[i]
    ensures Load(Record(s)[i := b]) == BadChecksum
  {
    hide Header, Image, Decoded, Crc32.Crc, Codec.Value;
    ImageLength(s);
    HeaderWords(|Image(s)|, Crc32.Crc(Image(s)), Image(s));
    var f := Record(s);
    var g := f[i := b];
    WordChanges(f[8..12], i - 8, b);
    assert g[8..12] == f[8..12][i - 8 := b] && g[0..4] == f[0..4] && g[4..8] == f[4..8];
    assert g[HEADER_LEN..HEADER_LEN + |Image(s)|] == Image(s);
  }

  /** A changed reserved byte is not looked at. */
  lemma ChangedReservedByteIgnored(s: State, i: nat, b: byte)
    requires |s.pipelines| <= MAX_PIPELINES && 12 <= i < HEADER_LEN
    ensures Load(Record(s)[i := b]) == Loaded(Normal(s))
  {
    hide Header, Image, Decoded, Crc32.Crc, Normal, Codec.Value;
    ImageLength(s);
    HeaderWords(|Image(s)|, Crc32.Crc(Image(s)), Image(s));
    DecodedWhole(s);
    var f := Record(s);
    var g := f[i := b];
    assert g[0..4] == f[0..4] && g[4..8] == f[4..8] && g[8..12] == f[8..12];
    assert g[HEADER_LEN..HEADER_LEN + |Image(s)|] == Image(s);
  }

  /** A record can pass its checksum and still be refused by the decoder: one with no payload does. */
  lemma EmptyRecordFailsToDecode()
    ensures var (f, crc) := (Header(0, Crc32.Crc([])), Crc32.Crc([]));
            && Word(f, 0) == MAGIC && Word(f, 4) == 0 && Word(f, 8) == crc
            && Load(f) == LoadPayload([], crc) == MalformedRecord && Decoded([]) == None
  {
    hide Header, Word, Image, Crc32.Crc, Layout.Decoded;
    var f := Header(0, Crc32.Crc([]));
    HeaderWords(0, Crc32.Crc([]), []);
    assert f + [] == f && f[HEADER_LEN..HEADER_LEN + 0] == [];
    NothingDecodes();
  }

  lemma NothingDecodes()
    ensures Decoded([]) == None
  {
    var s := State(0, 0, 0, NONE, []);
    hide Image, Decoded;
    ImageLength(s);
    StrictPrefixRejected(s, 0);
    assert Image(s)[..0] == [];
  }

  lemma WordChanges(w: Bytes, i: nat, b: byte)
    requires i < |w| && w[i] != b
    ensures Codec.Value(w[i := b]) != Codec.Value(w)
  {
    var v := w[i := b];
    LittleEndianOfValue(w);
    LittleEndianOfValue(v);
    assert w[i] != v[i];
  }

  // ------------------------------------------------------------- persist and load

  /** The bytes to be written, unless the state has too many pipelines to encode. */
  method PersistState(s: GateState) returns (record: Option<Bytes>)
    ensures record == if |s.pipelines| <= MAX_PIPELINES then Some(Record(s.Value())) else None
  {
    hide Enc, Writer.Valid, Image, Crc32.Crc;
    var payload := new byte[MAX_RECORD_PAYLOAD](_ => 0);
    var encoded := EncodeState(s, payload, MAX_RECORD_PAYLOAD);
    if |s.pipelines| <= MAX_PIPELINES { ImageLength(s.Value()); }
    if !encoded.Encoded? { return None; }
    var len := encoded.len;
    var crc := Crc32.Compute(payload[..len]);
    var hdr := new byte[HEADER_LEN](_ => 0);
    var c := new Writer(hdr, HEADER_LEN);
    c.U32(MAGIC);
    c.U32(len);
    c.U32(crc);
    c.U32(0);
    assert c.log == [U32(MAGIC), U32(len), U32(crc), U32(0)];
    c.Written();
    HeaderWords(len, crc, []);
    assert hdr[..] + payload[..len] == Record(s.Value());
    return Some(hdr[..] + payload[..len]);
  }

  method LoadState(file: Bytes) returns (r: LoadResult)
    ensures r == Load(file)
  {
    hide Decoded, Crc32.Crc, Codec.Value;
    if |file| < HEADER_LEN { return MalformedRecord; }
    var magic := ReadWord(file, 0);
    var len := ReadWord(file, 4);
    var crc := ReadWord(file, 8);
    if magic != MAGIC || len > MAX_RECORD_PAYLOAD { return MalformedRecord; }
    if |file| - HEADER_LEN < len { return MalformedRecord; }
    var payload := file[HEADER_LEN..HEADER_LEN + len];
    var actual := Crc32.Compute(payload);
    if actual != crc { return BadChecksum; }
    var ok, s := DecodeState(payload);
    return if ok then Loaded(s) else MalformedRecord;
  }

  method ReadWord(file: Bytes, at: nat) returns (v: nat)
    requires at + 4 <= |file|
    ensures v == Word(file, at)
  {
    var b := file[at..at + 4];
    Reader.Value4(b);
    v := Reader.Joined4(b[0], b[1], b[2], b[3]);
  }
}

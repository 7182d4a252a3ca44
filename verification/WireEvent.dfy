/** The event codec: a payload of announced length, copied into storage the caller provides. */
module WireEvent {
  import opened Machine
  import opened Codec
  import opened Cursor
  import opened Layout

  const MAX_PAYLOAD := 0x10_0000
  /** The struct size on a platform with 8-byte pointers. */
  const EVENT_SIZE: u32 := 40

  datatype RawEvent = Event(structSize: u32, schemaVersion: u32, eventType: u32, reserved: u32, timestamp: i64, payload: Bytes)

  type Event = e: RawEvent | |e.payload| < TWO_32 witness Event(0, 0, 0, 0, 0, [])

  const HEAD: seq<Kind> := [K32, K32, K32, K32, K64]

  /** An empty payload has no bytes behind its length. */
  function PayloadKinds(n: nat): seq<Kind> {
    if n == 0 then [] else [KRaw(n)]
  }

  const PARTS: seq<Part> := [Fixed(HEAD), Counted(MAX_PAYLOAD, PayloadKinds)]

  function HeadFields(e: Event): (fs: seq<Field>)
    ensures KindsAre(fs, HEAD)
  {
    [U32(e.structSize), U32(e.schemaVersion), U32(e.eventType), U32(e.reserved), U64(ToUnsigned(e.timestamp))]
  }

  function PayloadFields(p: Bytes): seq<Field> {
    if p == [] then [] else [Raw(p)]
  }

  predicate Fitting(e: Event) { |e.payload| <= MAX_PAYLOAD }

  function Sections(e: Event): seq<seq<Field>> {
    [HeadFields(e), [U32(|e.payload|)] + PayloadFields(e.payload)]
  }

  function Normal(e: Event): Event {
    e.(structSize := EVENT_SIZE)
  }

  function EventShape(): Shape<Event> {
    Shape(PARTS, Sections, Fitting, Normal)
  }

  lemma PayloadFits(p: Bytes)
    requires |p| <= MAX_PAYLOAD
    ensures KindsAre(PayloadFields(p), PayloadKinds(|p|)) && Fits(PARTS[1], [U32(|p|)] + PayloadFields(p))
  {
    CountedFits(PARTS[1], |p|, PayloadFields(p));
  }

  lemma Determined(a: Event, b: Event)
    requires Sections(a) == Sections(b)
    ensures Normal(a) == Normal(b)
  {
    assert Sections(a)[0] == Sections(b)[0] && Sections(a)[1] == Sections(b)[1];
    CountedEqual(|a.payload|, PayloadFields(a.payload), |b.payload|, PayloadFields(b.payload));
    if a.payload != [] {
      assert PayloadFields(a.payload)[0] == PayloadFields(b.payload)[0];
    }
    var (x, y) := (HeadFields(a), HeadFields(b));
    assert x[1] == y[1] && x[2] == y[2] && x[3] == y[3] && x[4] == y[4];
  }

  /** So for events: decoding inverts encoding, and prefixes are rejected. */
  lemma EventIsLawful()
    ensures Lawful(EventShape())
  {
    hide Normal, Fits, HeadFields, PayloadFields;
    forall e: Event | Fitting(e)
      ensures AllFit(PARTS, Sections(e))
    {
      FixedFits(HEAD, HeadFields(e));
      PayloadFits(e.payload);
    }
    forall a: Event, b: Event | Fitting(a) && Fitting(b) && Sections(a) == Sections(b)
      ensures Normal(a) == Normal(b)
    {
      Determined(a, b);
    }
  }

  method EncodeEvent(e: Event, out: array<byte>, cap: nat) returns (st: WireStatus, len: nat)
    requires cap <= out.Length
    modifies out
    ensures st == Ok || st == BufferTooSmall || st == TooLarge
    ensures st == TooLarge <==> !Fitting(e)
    ensures st == BufferTooSmall <==> Fitting(e) && cap < |Image(EventShape(), e)|
    ensures st == Ok ==> len == |Image(EventShape(), e)| && out[..len] == Image(EventShape(), e)
    ensures st != Malformed
  {
    hide Enc, Writer.Valid;
    len := 0;
    if |e.payload| > MAX_PAYLOAD { return TooLarge, len; }
    var c := new Writer(out, cap);
    c.U32(e.structSize);
    c.U32(e.schemaVersion);
    c.U32(e.eventType);
    c.U32(e.reserved);
    c.I64(e.timestamp);
    assert c.log == HeadFields(e);
    c.U32(|e.payload|);
    if |e.payload| > 0 { c.Fixed(e.payload); }
    TwoParts(HeadFields(e), [U32(|e.payload|)] + PayloadFields(e.payload));
    assert c.log == Flatten(Sections(e));
    c.Written();
    if !c.ok { return BufferTooSmall, len; }
    return Ok, c.off;
  }

  /** Decodes an event whose payload the storage can hold; says so when it cannot. */
  method DecodeEvent(data: Bytes, storage: array<byte>) returns (st: WireStatus, out: Event)
    modifies storage
    ensures st == Malformed ==> Decoded(EventShape(), data) == None
    ensures st == Ok ==> Decoded(EventShape(), data) == Some(out)
    ensures st == Ok ==> |out.payload| <= storage.Length && storage[..|out.payload|] == out.payload
    ensures Decoded(EventShape(), data).Some? ==>
              (st == BufferTooSmall <==> |Decoded(EventShape(), data).value.payload| > storage.Length)
    ensures st == Ok || st == BufferTooSmall || st == Malformed
    ensures storage.Length >= MAX_PAYLOAD ==> st != BufferTooSmall
  {
    hide Enc, Reader.Valid, Decoded, Stands, Sections, AllFit, Flatten, Lawful, PayloadFields, KindsAre, HeadFields;
    EventIsLawful();
    var c := new Reader(data, GrammarOf(PARTS));
    StandsAtStart(c, PARTS);
    hide GrammarOf;
    out := ReadHead(c);
    ghost var a := HeadFields(out);
    var good, n := ReadCount(c, MAX_PAYLOAD, PARTS, 1, [a]);
    if !good { DecodedNone(EventShape(), data); return Malformed, out; }
    c.SoFar();
    OneFlat(a);
    if n > 0 && storage.Length < n {
      Announced(a, n, c.log, data);
      return BufferTooSmall, out;
    }
    var payload: Bytes := [];
    if n > 0 {
      payload := c.Fixed(n);
      forall i | 0 <= i < n { storage[i] := payload[i]; }
    }
    assert storage[..n] == payload;
    SameHead(out, out.(payload := payload));
    PayloadIs(payload);
    assert c.ok ==> c.log == a + [U32(n)] + PayloadFields(payload);
    out := out.(payload := payload);
    c.SoFar();
    if !c.ok { DecodedNone(EventShape(), data); return Malformed, out; }
    WasRead(out, c.log, data, a);
    return Ok, out.(structSize := EVENT_SIZE);
  }

  lemma SameHead(a: Event, b: Event)
    requires b == a.(payload := b.payload)
    ensures HeadFields(b) == HeadFields(a)
  {
  }

  lemma PayloadIs(p: Bytes)
    ensures PayloadFields(p) == if |p| == 0 then [] else [Raw(p)]
  {
  }

  lemma OneFlat(a: seq<Field>)
    ensures Flatten([a]) == a
  {
    assert [a][1..] == [];
    assert a + [] == a;
  }

  lemma WasRead(out: Event, log: seq<Field>, data: Bytes, a: seq<Field>)
    requires Fitting(out) && Enc(log) <= data && a == HeadFields(out)
    requires log == a + [U32(|out.payload|)] + PayloadFields(out.payload)
    ensures Decoded(EventShape(), data).Some? && Decoded(EventShape(), data).value == out.(structSize := EVENT_SIZE)
  {
    hide Enc, Flatten, HeadFields, PayloadFields;
    TwoParts(a, [U32(|out.payload|)] + PayloadFields(out.payload));
    Rejoin(a, U32(|out.payload|), PayloadFields(out.payload));
    EventIsLawful();
    DecodedIs(EventShape(), out, data);
  }

  /** The announced length is that of any event the data holds. */
  lemma Announced(a: seq<Field>, n: u32, log: seq<Field>, data: Bytes)
    requires log == a + [U32(n)] && KindsAre(a, HEAD) && Enc(log) <= data && Follows(GrammarOf(PARTS), log)
    ensures Decoded(EventShape(), data).Some? ==> |Decoded(EventShape(), data).value.payload| == n
  {
    hide Enc, HeadFields, PayloadFields, GrammarOf;
    if Decoded(EventShape(), data).Some? {
      var e :| Begins(EventShape(), e, data) && Decoded(EventShape(), data).value == Normal(e);
      var fs := Flatten(Sections(e));
      EventIsLawful();
      Law(EventShape(), e, e);
      TwoParts(HeadFields(e), [U32(|e.payload|)] + PayloadFields(e.payload));
      assert |HeadFields(e)| == 5 && fs[5] == U32(|e.payload|);
      Agree(GrammarOf(PARTS), log, fs, data, 6);
      assert log[..6][5] == fs[..6][5];
    }
  }

  method ReadHead(c: Reader) returns (out: Event)
    requires Stands(c, PARTS, 0, []) && c.log == []
    modifies c
    ensures Stands(c, PARTS, 1, [HeadFields(out)])
  {
    SameGrammar(c, PARTS, 0, []);
    BeginFixed(c, PARTS, 0, []);
    hide Reader.Valid, GrammarOf, Stands, HeadFields;
    out := ReadHeadFields(c);
    FixedFits(HEAD, HeadFields(out));
    assert [] + HeadFields(out) == HeadFields(out);
    NoParts(PARTS);
    StandsNext(c, PARTS, 0, [], HeadFields(out));
    assert [] + [HeadFields(out)] == [HeadFields(out)];
  }

  method ReadHeadFields(c: Reader) returns (out: Event)
    requires c.Valid() && c.todo == HEAD && c.at == 0 && c.log == []
    modifies c
    ensures c.Valid() && (c.ok ==> c.log == HeadFields(out))
  {
    hide Reader.Valid;
    var structSize := c.U32();
    var schemaVersion := c.U32();
    var eventType := c.U32();
    var reserved := c.U32();
    var timestamp := c.I64();
    out := Event(structSize, schemaVersion, eventType, reserved, timestamp, []);
  }
}

/** Frames on a byte stream: the header in front of every message, and sending and receiving
    over a connection that moves any number of bytes at a time, stalls, or breaks. */
module WireFrame {
  import opened Machine
  import opened Codec
  import opened Cursor
  import opened Layout
  import Crc32

  const MAGIC0: byte := 0x4F
  const MAGIC1: byte := 0x42
  const MAGIC2: byte := 0x57
  const MAGIC3: byte := 0x46
  const VERSION: byte := 1
  const HEADER_LEN := 16
  const MAX_PAYLOAD := 0x10_0000

  datatype Header = Header(m0: byte, m1: byte, m2: byte, m3: byte, version: byte, msgType: byte, flags: u16,
                           payloadLen: u32, crc: u32)
  {
    predicate Magic() {
      m0 == MAGIC0 && m1 == MAGIC1 && m2 == MAGIC2 && m3 == MAGIC3
    }
  }

  // ------------------------------------------------------------------ the header codec

  const KINDS: seq<Kind> := [K8, K8, K8, K8, K8, K8, K16, K32, K32]
  const PARTS: seq<Part> := [Fixed(KINDS)]

  function HeaderFields(h: Header): (fs: seq<Field>)
    ensures KindsAre(fs, KINDS)
  {
    [U8(h.m0), U8(h.m1), U8(h.m2), U8(h.m3), U8(h.version), U8(h.msgType), U16(h.flags), U32(h.payloadLen), U32(h.crc)]
  }

  function HeaderShape(): Shape<Header> {
    Shape(PARTS, (h: Header) => [HeaderFields(h)], (h: Header) => true, (h: Header) => h)
  }

  ghost function HeaderImage(h: Header): (b: Bytes)
    ensures |b| == HEADER_LEN
  {
    HeaderLength(h);
    Image(HeaderShape(), h)
  }

  ghost function HeaderOf(data: Bytes): Option<Header> {
    Decoded(HeaderShape(), data)
  }

  /** What a header's checks say, in their order. */
  ghost function StatusOf(data: Bytes): WireStatus {
    match HeaderOf(data)
    case None => Malformed
    case Some(h) =>
      if !h.Magic() then Malformed
      else if h.version != VERSION then VersionUnsupported
      else if h.payloadLen > MAX_PAYLOAD then TooLarge
      else Ok
  }

  lemma HeaderLength(h: Header)
    ensures |Image(HeaderShape(), h)| == HEADER_LEN
  {
    var (fs, k) := (HeaderFields(h), KINDS);
    OnePart(fs);
    EncLength(fs, k, 9);
    assert fs[..9] == fs;
    hide Enc, HeaderFields;
    assert Widths(k, 1) == 1;
    assert Widths(k, 2) == 2;
    assert Widths(k, 3) == 3;
    assert Widths(k, 4) == 4;
    assert Widths(k, 5) == 5;
    assert Widths(k, 6) == 6;
    assert Widths(k, 7) == 8;
    assert Widths(k, 8) == 12;
  }

  /** Every frame begins with the magic bytes and the version. */
  lemma ImageStart(h: Header)
    ensures HeaderImage(h)[..5] == [h.m0, h.m1, h.m2, h.m3, h.version]
  {
    var fs := HeaderFields(h);
    OnePart(fs);
    assert fs[..5] == [U8(h.m0), U8(h.m1), U8(h.m2), U8(h.m3), U8(h.version)];
    hide HeaderFields;
    FiveBytes(fs[..5], h.m0, h.m1, h.m2, h.m3, h.version);
    EncPrefix(fs, 5);
  }

  lemma FiveBytes(fs: seq<Field>, a: byte, b: byte, c: byte, d: byte, e: byte)
    requires fs == [U8(a), U8(b), U8(c), U8(d), U8(e)]
    ensures Enc(fs) == [a, b, c, d, e]
  {
    EncEmpty();
    OneByte(a);
    OneByte(b);
    OneByte(c);
    OneByte(d);
    OneByte(e);
    hide Enc, Encode;
    EncSnoc([], U8(a));
    EncSnoc([U8(a)], U8(b));
    EncSnoc([U8(a), U8(b)], U8(c));
    EncSnoc([U8(a), U8(b), U8(c)], U8(d));
    EncSnoc([U8(a), U8(b), U8(c), U8(d)], U8(e));
    assert [] + [U8(a)] == [U8(a)] && [U8(a)] + [U8(b)] == [U8(a), U8(b)];
    assert [U8(a), U8(b)] + [U8(c)] == [U8(a), U8(b), U8(c)];
    assert [U8(a), U8(b), U8(c)] + [U8(d)] == [U8(a), U8(b), U8(c), U8(d)];
    assert fs == [U8(a), U8(b), U8(c), U8(d)] + [U8(e)];
  }

  lemma OneByte(v: byte)
    ensures Encode(U8(v)) == [v]
  {
    assert LittleEndian(v, 1) == [v];
  }

  lemma SameFields(g: Header, h: Header)
    requires HeaderFields(g) == HeaderFields(h)
    ensures g == h
  {
    var (a, b) := (HeaderFields(g), HeaderFields(h));
    assert a[0] == b[0] && a[1] == b[1] && a[2] == b[2] && a[3] == b[3] && a[4] == b[4];
    assert a[5] == b[5] && a[6] == b[6] && a[7] == b[7] && a[8] == b[8];
  }

  /** So for headers: decoding inverts encoding, and prefixes are rejected. */
  lemma HeaderIsLawful()
    ensures Lawful(HeaderShape())
  {
    hide HeaderFields;
    var c := HeaderShape();
    forall g: Header, h: Header | c.sections(g) == c.sections(h)
      ensures g == h
    {
      assert [HeaderFields(g)][0] == [HeaderFields(h)][0];
      SameFields(g, h);
    }
  }

  lemma HeaderIs(h: Header, data: Bytes)
    requires HeaderImage(h) <= data
    ensures HeaderOf(data) == Some(h)
  {
    HeaderIsLawful();
    DecodedIs(HeaderShape(), h, data);
  }

  lemma HeaderNone(data: Bytes)
    requires NoParse(GrammarOf(PARTS), data)
    ensures HeaderOf(data) == None
  {
    HeaderIsLawful();
    DecodedNone(HeaderShape(), data);
  }

  /** Exactly what is said of a header, by its fields. */
  lemma HeaderStatusIff(h: Header)
    ensures var (st, magic) := (StatusOf(HeaderImage(h)), h.m0 == 0x4F && h.m1 == 0x42 && h.m2 == 0x57 && h.m3 == 0x46);
            && (st == Malformed <==> !magic)
            && (st == VersionUnsupported <==> magic && h.version != 1)
            && (st == TooLarge <==> magic && h.version == 1 && h.payloadLen > 0x10_0000)
            && (st == Ok <==> magic && h.version == 1 && h.payloadLen <= 0x10_0000)
  {
    hide HeaderImage, HeaderOf;
    HeaderIs(h, HeaderImage(h));
  }

  method EncodeHeader(version: byte, msgType: byte, flags: u16, payloadLen: u32, crc: u32) returns (b: Bytes)
    ensures b == HeaderImage(Header(MAGIC0, MAGIC1, MAGIC2, MAGIC3, version, msgType, flags, payloadLen, crc))
  {
    hide Enc, Writer.Valid, Flatten;
    var out := new byte[HEADER_LEN](_ => 0);
    var c := new Writer(out, HEADER_LEN);
    c.U8(MAGIC0);
    c.U8(MAGIC1);
    c.U8(MAGIC2);
    c.U8(MAGIC3);
    c.U8(version);
    c.U8(msgType);
    c.U16(flags);
    c.U32(payloadLen);
    c.U32(crc);
    ghost var h := Header(MAGIC0, MAGIC1, MAGIC2, MAGIC3, version, msgType, flags, payloadLen, crc);
    assert c.log == HeaderFields(h);
    c.Written();
    OnePart(HeaderFields(h));
    assert |HeaderImage(h)| == HEADER_LEN;
    return out[..];
  }

  method DecodeHeader(b: Bytes) returns (st: WireStatus, h: Header)
    ensures st == StatusOf(b)
    ensures st != Malformed ==> HeaderOf(b) == Some(h)
  {
    hide Enc, Reader.Valid, HeaderOf, HeaderImage, Asks, GrammarOf, Stands;
    var c := new Reader(b, GrammarOf(PARTS));
    StandsAtStart(c, PARTS);
    BeginFixed(c, PARTS, 0, []);
    h := ReadMagic(c);
    c.SoFar();
    if !c.ok { HeaderNone(b); return Malformed, h; }
    if !h.Magic() {
      WrongMagic(h, b);
      return Malformed, h;
    }
    h := ReadRest(c, h);
    c.SoFar();
    if !c.ok { HeaderNone(b); return Malformed, h; }
    WasRead(h, c.log, b);
    if h.version != VERSION { return VersionUnsupported, h; }
    if h.payloadLen > MAX_PAYLOAD { return TooLarge, h; }
    return Ok, h;
  }

  /** The header's first four bytes are those of any message that starts the data. */
  lemma WrongMagic(h: Header, data: Bytes)
    requires Follows(GrammarOf(PARTS), HeaderFields(h)[..4]) && Enc(HeaderFields(h)[..4]) <= data && !h.Magic()
    ensures StatusOf(data) == Malformed
  {
    hide Enc, Asks;
    HeaderIsLawful();
    if HeaderOf(data).Some? {
      var g: Header :| Begins(HeaderShape(), g, data) && HeaderOf(data).value == g;
      Law(HeaderShape(), g, g);
      OnePart(HeaderFields(g));
      hide GrammarOf, Flatten;
      PartialExtends(GrammarOf(PARTS), HeaderFields(h)[..4], HeaderFields(g), data);
      var (x, y) := (HeaderFields(h)[..4], HeaderFields(g));
      assert x[0] == y[0] && x[1] == y[1] && x[2] == y[2] && x[3] == y[3];
    }
  }

  lemma WasRead(h: Header, log: seq<Field>, data: Bytes)
    requires log == HeaderFields(h) && Enc(log) <= data
    ensures HeaderOf(data) == Some(h)
  {
    OnePart(HeaderFields(h));
    hide HeaderFields, Enc, Flatten;
    HeaderIs(h, data);
  }

  method ReadMagic(c: Reader) returns (h: Header)
    requires c.Valid() && c.log == [] && c.todo == KINDS && c.at == 0
    modifies c
    ensures c.Valid() && c.todo == KINDS && c.at == 4
    ensures c.ok ==> c.log == HeaderFields(h)[..4]
  {
    hide Reader.Valid;
    var m0 := c.U8();
    var m1 := c.U8();
    var m2 := c.U8();
    var m3 := c.U8();
    h := Header(m0, m1, m2, m3, 0, 0, 0, 0, 0);
  }

  method ReadRest(c: Reader, magic: Header) returns (h: Header)
    requires c.Valid() && c.todo == KINDS && c.at == 4 && magic.Magic()
    requires c.ok ==> c.log == HeaderFields(magic)[..4]
    modifies c
    ensures c.Valid() && (c.ok ==> c.log == HeaderFields(h)) && h.Magic()
  {
    hide Reader.Valid;
    ghost var first := c.log;
    var version := c.U8();
    var msgType := c.U8();
    var flags := c.U16();
    var payloadLen := c.U32();
    var crc := c.U32();
    h := magic.(version := version, msgType := msgType, flags := flags, payloadLen := payloadLen, crc := crc);
    assert HeaderFields(h)[..4] == HeaderFields(magic)[..4];
    assert c.ok ==> c.log == first + HeaderFields(h)[4..];
  }

  // -------------------------------------------------------------------- a connection

  /** What one wait on a connection brings: nothing in time, an error, or at most `n` bytes moved. */
  datatype Chance = Timeout | Broken | Moves(n: nat)

  /** What a peer's bytes still to come are, and what the waits for them will bring. */
  datatype Inbound = Inbound(rest: Bytes, net: seq<Chance>)

  datatype Received = Whole(bytes: Bytes) | Nothing | Lost

  function Least(a: nat, b: nat): nat {
    if a <= b then a else b
  }

  /** Receiving `len` bytes, `got` being here already. */
  function Receive(c: Inbound, len: nat, got: Bytes): (Received, Inbound)
    decreases |c.net|
  {
    if |got| >= len then (Whole(got), c)
    else if c.net == [] then (Lost, c)
    else
      var d := c.(net := c.net[1..]);
      match c.net[0]
      case Timeout => (if got == [] then Nothing else Lost, d)
      case Broken => (Lost, d)
      case Moves(n) =>
        var m := Least(n, Least(len - |got|, |c.rest|));
        if m == 0 then (Lost, d) else Receive(Inbound(c.rest[m..], d.net), len, got + c.rest[..m])
  }

  /** Sending a buffer: whether all of it went, what went, and the waits left. */
  function Send(buf: Bytes, net: seq<Chance>): (bool, Bytes, seq<Chance>)
    decreases |net|
  {
    if buf == [] then (true, [], net)
    else if net == [] then (false, [], net)
    else
      match net[0]
      case Timeout => (false, [], net[1..])
      case Broken => (false, [], net[1..])
      case Moves(n) =>
        var m := Least(n, |buf|);
        if m == 0 then (false, [], net[1..])
        else
          Behind(buf[..m], Send(buf[m..], net[1..]))
  }

  /** The outcome of sending a buffer whose first part has gone. */
  function Behind(first: Bytes, r: (bool, Bytes, seq<Chance>)): (bool, Bytes, seq<Chance>) {
    (r.0, first + r.1, r.2)
  }

  /** A whole receipt is the next bytes, however they were cut; an empty one takes nothing. */
  lemma {:induction false} Receives(c: Inbound, len: nat, got: Bytes)
    requires |got| <= len
    ensures var (r, d) := Receive(c, len, got);
            var k := len - |got|;
            && (r.Whole? ==> k <= |c.rest| && r.bytes == got + c.rest[..k] && d.rest == c.rest[k..])
            && (r.Nothing? ==> got == [] && d.rest == c.rest)
            && |d.net| <= |c.net| && (k > 0 && !r.Lost? ==> |d.net| < |c.net|)
    decreases |c.net|
  {
    if |got| < len && c.net != [] && c.net[0].Moves? {
      var m := Least(c.net[0].n, Least(len - |got|, |c.rest|));
      if m > 0 {
        Receives(Inbound(c.rest[m..], c.net[1..]), len, got + c.rest[..m]);
        var k := len - |got|;
        if k <= |c.rest| {
          assert c.rest[..k] == c.rest[..m] + c.rest[m..][..k - m] && c.rest[k..] == c.rest[m..][k - m..];
        }
      }
    } else if |got| == len {
      assert got + c.rest[..0] == got;
    }
  }

  lemma NothingSent(buf: Bytes, net: seq<Chance>)
    ensures buf[..0] == [] && Send(buf, net) == Behind(buf[..0], Send(buf[0..], net))
  {
    assert buf[0..] == buf && buf[..0] == [];
    assert [] + Send(buf, net).1 == Send(buf, net).1;
  }

  lemma AllSent(buf: Bytes, net: seq<Chance>)
    ensures buf[|buf|..] == [] && Send([], net) == (true, [], net) && Behind(buf, (true, [], net)) == (true, buf, net)
    ensures buf[..|buf|] == buf
  {
    assert buf + [] == buf;
  }

  lemma BehindTwice(a: Bytes, b: Bytes, r: (bool, Bytes, seq<Chance>))
    ensures Behind(a, Behind(b, r)) == Behind(a + b, r)
  {
    assert a + (b + r.1) == a + b + r.1;
  }

  lemma AppendMore(before: Bytes, buf: Bytes, sent: nat, m: nat)
    requires sent + m <= |buf|
    ensures before + buf[..sent] + buf[sent..sent + m] == before + buf[..sent + m]
  {
  }

  /** One more wait of a sender that has `sent` bytes behind it. */
  lemma SendStep(buf: Bytes, sent: nat, net: seq<Chance>)
    requires sent < |buf|
    ensures var now := Behind(buf[..sent], Send(buf[sent..], net));
            if net == [] then now == (false, buf[..sent], [])
            else if net[0].Moves? && Least(net[0].n, |buf| - sent) > 0 then
              var m := Least(net[0].n, |buf| - sent);
              now == Behind(buf[..sent + m], Send(buf[sent + m..], net[1..]))
            else now == (false, buf[..sent], net[1..])
  {
    assert buf[..sent] + [] == buf[..sent];
    if net != [] && net[0].Moves? {
      var m := Least(net[0].n, |buf| - sent);
      BehindTwice(buf[..sent], buf[sent..sent + m], Send(buf[sent + m..], net[1..]));
      assert buf[sent..][m..] == buf[sent + m..] && buf[sent..][..m] == buf[sent..sent + m];
      assert buf[..sent + m] == buf[..sent] + buf[sent..sent + m];
    }
  }

  predicate AllMove(net: seq<Chance>) {
    forall i :: 0 <= i < |net| ==> net[i].Moves? && net[i].n > 0
  }

  /** A network that keeps moving bytes delivers what the peer sent. */
  lemma {:induction false} ReceivesAll(c: Inbound, len: nat, got: Bytes)
    requires |got| <= len && len - |got| <= |c.rest| && AllMove(c.net) && |c.net| >= len - |got|
    ensures var (r, d) := Receive(c, len, got);
            r.Whole? && AllMove(d.net) && |d.net| >= |c.net| - (len - |got|)
    decreases |c.net|
  {
    if |got| < len {
      var m := Least(c.net[0].n, Least(len - |got|, |c.rest|));
      ReceivesAll(Inbound(c.rest[m..], c.net[1..]), len, got + c.rest[..m]);
    }
  }

  lemma {:induction false} Sends(buf: Bytes, net: seq<Chance>)
    ensures var (all, sent, left) := Send(buf, net);
            sent <= buf && (all <==> sent == buf) && |left| <= |net|
    decreases |net|
  {
    if buf != [] && net != [] && net[0].Moves? {
      var m := Least(net[0].n, |buf|);
      if m > 0 {
        Sends(buf[m..], net[1..]);
        assert buf == buf[..m] + buf[m..];
      }
    }
  }

  // -------------------------------------------------------------------------- frames

  datatype Message = Message(msgType: byte, payload: Bytes)

  predicate Sendable(m: Message) {
    |m.payload| <= MAX_PAYLOAD
  }

  ghost function HeaderFor(m: Message): Header
    requires Sendable(m)
  {
    Header(MAGIC0, MAGIC1, MAGIC2, MAGIC3, VERSION, m.msgType, 0, |m.payload|, Crc32.Crc(m.payload))
  }

  ghost function FrameOf(m: Message): (b: Bytes)
    requires Sendable(m)
    ensures |b| == HEADER_LEN + |m.payload|
  {
    HeaderImage(HeaderFor(m)) + m.payload
  }

  /** The bytes of some messages, up to one that is too long to send. */
  ghost function StreamOf(ms: seq<Message>): Bytes {
    if ms == [] || !Sendable(ms[0]) then [] else FrameOf(ms[0]) + StreamOf(ms[1..])
  }

  /** Sending a frame: the header, then the payload. */
  ghost function SendMessage(m: Message, net: seq<Chance>): (bool, Bytes, seq<Chance>)
    requires Sendable(m)
  {
    var head := HeaderImage(HeaderFor(m));
    var (all, sent, left) := Send(head, net);
    if all then Behind(sent, Send(m.payload, left)) else (false, sent, left)
  }

  /** What the peer of someone sending these messages gets to see, the first failure ending it. */
  ghost function Posted(ms: seq<Message>, net: seq<Chance>): Bytes
    decreases |ms|
  {
    if ms == [] || !Sendable(ms[0]) then []
    else
      var (all, sent, left) := SendMessage(ms[0], net);
      if all then sent + Posted(ms[1..], left) else sent
  }

  datatype Delivery = Frame(m: Message) | NoneYet | Failed

  /** One frame from a connection into a buffer of `cap` bytes. */
  ghost function Delivered(c: Inbound, cap: nat): (r: (Delivery, Inbound))
    ensures !r.0.Failed? ==> |r.1.net| < |c.net|
  {
    Receives(c, HEADER_LEN, []);
    var (r, d) := Receive(c, HEADER_LEN, []);
    match r
    case Nothing => (NoneYet, d)
    case Lost => (Failed, d)
    case Whole(b) =>
      if StatusOf(b) != Ok || HeaderOf(b).value.payloadLen > cap then (Failed, d)
      else DeliveredBody(HeaderOf(b).value, d)
  }

  ghost function DeliveredBody(h: Header, c: Inbound): (r: (Delivery, Inbound))
    ensures |r.1.net| <= |c.net| && !r.0.NoneYet?
  {
    Receives(c, h.payloadLen, []);
    var (r, d) := Receive(c, h.payloadLen, []);
    if r.Whole? && Crc32.Crc(r.bytes) == h.crc then (Frame(Message(h.msgType, r.bytes)), d) else (Failed, d)
  }

  /** Everything received until the first failure, asking again whenever nothing was there. */
  ghost function Session(c: Inbound, cap: nat): seq<Message>
    decreases |c.net|
  {
    var (r, d) := Delivered(c, cap);
    match r
    case Failed => []
    case NoneYet => Session(d, cap)
    case Frame(m) => [m] + Session(d, cap)
  }

  lemma HeaderForIs(m: Message)
    requires Sendable(m)
    ensures StatusOf(HeaderImage(HeaderFor(m))) == Ok && HeaderOf(HeaderImage(HeaderFor(m))) == Some(HeaderFor(m))
  {
    hide HeaderOf, HeaderImage;
    HeaderIs(HeaderFor(m), HeaderImage(HeaderFor(m)));
  }

  /** What a receiver makes of the bytes some messages start: the next message, whole, or
      nothing and nothing taken, or failure. */
  lemma NextDelivery(c: Inbound, cap: nat, ms: seq<Message>)
    requires c.rest <= StreamOf(ms)
    ensures var (r, d) := Delivered(c, cap);
            && (r.Frame? ==> ms != [] && r.m == ms[0] && d.rest <= StreamOf(ms[1..]))
            && (r.NoneYet? ==> d.rest == c.rest)
  {
    hide HeaderImage, HeaderOf, StatusOf, Receive, Crc32.Crc, StreamOf, FrameOf;
    Receives(c, HEADER_LEN, []);
    var (r, d) := Receive(c, HEADER_LEN, []);
    if r.Whole? {
      StreamHead(ms);
      var m := ms[0];
      var h := HeaderFor(m);
      CutPrefix(c.rest, HeaderImage(h), m.payload + StreamOf(ms[1..]));
      HeaderForIs(m);
      Receives(d, h.payloadLen, []);
      var (b, e) := Receive(d, h.payloadLen, []);
      if b.Whole? {
        CutPrefix(d.rest, m.payload, StreamOf(ms[1..]));
      }
    }
  }

  lemma StreamHead(ms: seq<Message>)
    requires StreamOf(ms) != []
    ensures ms != [] && Sendable(ms[0])
    ensures StreamOf(ms) == HeaderImage(HeaderFor(ms[0])) + (ms[0].payload + StreamOf(ms[1..]))
  {
  }

  lemma CutPrefix(x: Bytes, a: Bytes, b: Bytes)
    requires x <= a + b && |a| <= |x|
    ensures [] + x[..|a|] == x[..|a|] == a && x[|a|..] <= b
  {
    assert x == (a + b)[..|x|];
  }

  /** What is received is always an initial part of what was sent, in order and unchanged,
      however the bytes were cut and whatever broke on either side. */
  lemma {:induction false} ReceivedInOrder(c: Inbound, cap: nat, ms: seq<Message>)
    requires c.rest <= StreamOf(ms)
    ensures Session(c, cap) <= ms
    decreases |c.net|
  {
    hide Delivered, StreamOf;
    NextDelivery(c, cap, ms);
    var (r, d) := Delivered(c, cap);
    match r
    case Failed =>
    case NoneYet => ReceivedInOrder(d, cap, ms);
    case Frame(m) =>
      ReceivedInOrder(d, cap, ms[1..]);
      assert ms == [ms[0]] + ms[1..];
  }

  lemma {:induction false} PostedIsPrefix(ms: seq<Message>, net: seq<Chance>)
    ensures Posted(ms, net) <= StreamOf(ms)
    decreases |ms|
  {
    if ms != [] && Sendable(ms[0]) {
      hide FrameOf, SendMessage;
      SendsMessage(ms[0], net);
      var (all, sent, left) := SendMessage(ms[0], net);
      PostedIsPrefix(ms[1..], left);
      hide Posted, StreamOf;
      Longer(sent, Posted(ms[1..], left), StreamOf(ms[1..]));
    }
  }

  lemma Longer(a: Bytes, x: Bytes, y: Bytes)
    requires x <= y
    ensures a + x <= a + y && a <= a + y
  {
  }

  /** A message is sent whole or cut short. */
  lemma SendsMessage(m: Message, net: seq<Chance>)
    requires Sendable(m)
    ensures var (all, sent, left) := SendMessage(m, net); sent <= FrameOf(m) && (all <==> sent == FrameOf(m))
  {
    hide Send, HeaderImage;
    var head := HeaderImage(HeaderFor(m));
    Sends(head, net);
    Sends(m.payload, Send(head, net).2);
  }

  /** From one end of a connection to the other, for a sender that stops at its first failed send. */
  lemma PeerReceivesPrefix(ms: seq<Message>, sending: seq<Chance>, receiving: seq<Chance>, cap: nat)
    ensures Session(Inbound(Posted(ms, sending), receiving), cap) <= ms
  {
    PostedIsPrefix(ms, sending);
    ReceivedInOrder(Inbound(Posted(ms, sending), receiving), cap, ms);
  }

  predicate AllFitInto(ms: seq<Message>, cap: nat) {
    forall i :: 0 <= i < |ms| ==> Sendable(ms[i]) && |ms[i].payload| <= cap
  }

  lemma StreamStep(ms: seq<Message>, cap: nat)
    requires ms != [] && AllFitInto(ms, cap)
    ensures Sendable(ms[0]) && |ms[0].payload| <= cap && AllFitInto(ms[1..], cap)
    ensures StreamOf(ms) == FrameOf(ms[0]) + StreamOf(ms[1..])
  {
  }

  lemma SessionStep(c: Inbound, cap: nat, m: Message, d: Inbound)
    requires Delivered(c, cap) == (Frame(m), d)
    ensures Session(c, cap) == [m] + Session(d, cap)
  {
    hide Delivered;
  }

  /** With no break and no pause every message arrives that the buffer can hold. */
  lemma {:induction false} EverythingArrives(c: Inbound, cap: nat, ms: seq<Message>)
    requires AllFitInto(ms, cap) && c.rest == StreamOf(ms) && AllMove(c.net) && |c.net| >= |c.rest|
    ensures Session(c, cap) == ms
    decreases |ms|
  {
    hide *;
    if ms == [] {
      ReceivedInOrder(c, cap, ms);
    } else {
      StreamStep(ms, cap);
      FirstArrives(c, cap, ms[0], StreamOf(ms[1..]));
      var (_, d) := Delivered(c, cap);
      EverythingArrives(d, cap, ms[1..]);
      SessionStep(c, cap, ms[0], d);
      assert ms == [ms[0]] + ms[1..];
    }
  }

  lemma FirstArrives(c: Inbound, cap: nat, m: Message, more: Bytes)
    requires Sendable(m) && |m.payload| <= cap && c.rest == FrameOf(m) + more
    requires AllMove(c.net) && |c.net| >= |c.rest|
    ensures var (r, d) := Delivered(c, cap); r == Frame(m) && d.rest == more && AllMove(d.net) && |d.net| >= |more|
  {
    hide HeaderImage, HeaderOf, StatusOf, Receive, Crc32.Crc, AllMove;
    var h := HeaderFor(m);
    ReceivesAll(c, HEADER_LEN, []);
    Receives(c, HEADER_LEN, []);
    var (r, d) := Receive(c, HEADER_LEN, []);
    HeadAndRest(c.rest, HeaderImage(h), m.payload + more);
    HeaderForIs(m);
    ReceivesAll(d, h.payloadLen, []);
    Receives(d, h.payloadLen, []);
    HeadAndRest(d.rest, m.payload, more);
  }

  lemma HeadAndRest(x: Bytes, a: Bytes, b: Bytes)
    requires x == a + b
    ensures |a| <= |x| && x[..|a|] == a && x[|a|..] == b && [] + x[..|a|] == a
  {
  }

  /** A pause between frames changes nothing. */
  lemma PauseIsHarmless(c: Inbound, cap: nat)
    requires c.net != [] && c.net[0] == Timeout
    ensures Delivered(c, cap) == (NoneYet, c.(net := c.net[1..]))
    ensures Session(c, cap) == Session(c.(net := c.net[1..]), cap)
  {
    hide HeaderOf, StatusOf, DeliveredBody;
  }

  /** A frame whose payload was changed in one byte is never delivered. */
  lemma ChangedPayloadNeverDelivered(c: Inbound, cap: nat, m: Message, i: nat, b: byte, more: Bytes)
    requires Sendable(m) && HEADER_LEN <= i < |FrameOf(m)| && b != FrameOf(m)[i]
    requires c.rest == FrameOf(m)[i := b] + more
    ensures !Delivered(c, cap).0.Frame?
  {
    hide HeaderImage, HeaderOf, StatusOf, Receive, Crc32.Crc;
    var (h, j) := (HeaderFor(m), i - HEADER_LEN);
    Receives(c, HEADER_LEN, []);
    var (r, d) := Receive(c, HEADER_LEN, []);
    if r.Whole? {
      assert c.rest == HeaderImage(h) + (m.payload[j := b] + more);
      HeadAndRest(c.rest, HeaderImage(h), m.payload[j := b] + more);
      HeaderForIs(m);
      Receives(d, h.payloadLen, []);
      HeadAndRest(d.rest, m.payload[j := b], more);
      Crc32.ByteChangeDetected(m.payload, j, b);
    }
  }

  /** One end of a connection. */
  class Socket {
    var incoming: Bytes
    var outgoing: Bytes
    var net: seq<Chance>

    ghost function Value(): Inbound
      reads this
    {
      Inbound(incoming, net)
    }

    method RecvAll(len: nat) returns (r: Received)
      modifies this`incoming, this`net
      ensures (r, Value()) == Receive(old(Value()), len, [])
    {
      var got: Bytes := [];
      while |got| < len
        invariant Receive(old(Value()), len, []) == Receive(Value(), len, got)
        invariant |got| <= len
        decreases |net|
      {
        if net == [] { return Lost; }
        var chance := net[0];
        net := net[1..];
        match chance
        case Timeout => return if |got| == 0 then Nothing else Lost;
        case Broken => return Lost;
        case Moves(n) =>
          var m := Least(n, Least(len - |got|, |incoming|));
          if m == 0 { return Lost; }
          got := got + incoming[..m];
          incoming := incoming[m..];
      }
      return Whole(got);
    }

    method SendAll(buf: Bytes) returns (all: bool)
      modifies this`outgoing, this`net
      ensures var (done, sent, left) := Send(buf, old(net)); all == done && outgoing == old(outgoing) + sent && net == left
    {
      var sent: nat := 0;
      hide Send, Behind;
      assert outgoing + buf[..0] == outgoing;
      NothingSent(buf, net);
      while sent < |buf|
        invariant sent <= |buf| && outgoing == old(outgoing) + buf[..sent]
        invariant Send(buf, old(net)) == Behind(buf[..sent], Send(buf[sent..], net))
        decreases |net|
      {
        SendStep(buf, sent, net);
        if net == [] { return false; }
        var chance := net[0];
        net := net[1..];
        if !chance.Moves? { return false; }
        var m := Least(chance.n, |buf| - sent);
        if m == 0 { return false; }
        AppendMore(old(outgoing), buf, sent, m);
        outgoing := outgoing + buf[sent..sent + m];
        sent := sent + m;
      }
      AllSent(buf, net);
      return true;
    }

    method SendFrame(msgType: byte, payload: Bytes) returns (ok: bool)
      modifies this`outgoing, this`net
      ensures var m := Message(msgType, payload);
              if !Sendable(m) then !ok && outgoing == old(outgoing) && net == old(net)
              else
                var (all, sent, left) := SendMessage(m, old(net));
                ok == all && outgoing == old(outgoing) + sent && net == left
    {
      hide HeaderImage, Crc32.Crc, Send;
      if |payload| > MAX_PAYLOAD { return false; }
      var crc := Crc32.Compute(payload);
      var head := EncodeHeader(VERSION, msgType, 0, |payload|, crc);
      Sends(head, net);
      ok := SendAll(head);
      if !ok { return; }
      if |payload| > 0 {
        ok := SendAll(payload);
      } else {
        AllSent(payload, net);
      }
    }

    method RecvFrame(cap: nat) returns (r: Delivery)
      modifies this`incoming, this`net
      ensures (r, Value()) == Delivered(old(Value()), cap)
    {
      hide HeaderOf, StatusOf, Receive, Crc32.Crc;
      var head := RecvAll(HEADER_LEN);
      if head.Nothing? { return NoneYet; }
      if head.Lost? { return Failed; }
      var st, h := DecodeHeader(head.bytes);
      if st != Ok { return Failed; }
      if h.payloadLen > cap { return Failed; }
      var body := Whole([]);
      if h.payloadLen > 0 {
        body := RecvAll(h.payloadLen);
      } else {
        ReceiveNothing(Value());
      }
      if !body.Whole? { return Failed; }
      var crc := Crc32.Compute(body.bytes);
      if crc != h.crc { return Failed; }
      return Frame(Message(h.msgType, body.bytes));
    }
  }

  lemma ReceiveNothing(c: Inbound)
    ensures Receive(c, 0, []) == (Whole([]), c)
  {
  }
}

/** The journal segment: checksummed records appended to a file and read back one at a time. */
module JournalFile {
  import opened Machine
  import opened Codec
  import opened Cursor
  import opened WireObservation
  import Layout
  import Crc32

  const MAGIC: u32 := 0x4A4F5242
  const HEADER_LEN := 40
  const MAX_OBS_LEN := 4096

  datatype Header = Header(magic: u32, recordLen: u32, obsLen: u32, crc: u32, window: u64, admittedAt: i64, reason: u32,
                           reserved: u32)

  /** What one append is asked to write. */
  datatype Record = Record(window: u64, admittedAt: i64, reason: u32, obs: Observation)

  /** What one read delivers. */
  datatype Entry = Entry(header: Header, obs: Observation)

  datatype Status = Success | NotFound | Torn | Oversize | BadChecksum | IoError

  // ------------------------------------------------------------------- the header

  const HEADER_KINDS: seq<Kind> := [K32, K32, K32, K32, K64, K64, K32, K32]
  const PARTS: seq<Layout.Part> := [Layout.Fixed(HEADER_KINDS)]

  function HeaderFields(h: Header): (fs: seq<Field>)
    ensures Layout.KindsAre(fs, HEADER_KINDS)
  {
    [U32(h.magic), U32(h.recordLen), U32(h.obsLen), U32(h.crc), U64(h.window), U64(ToUnsigned(h.admittedAt)),
     U32(h.reason), U32(h.reserved)]
  }

  function HeaderShape(): Layout.Shape<Header> {
    Layout.Shape(PARTS, (h: Header) => [HeaderFields(h)], (h: Header) => true, (h: Header) => h)
  }

  ghost function HeaderImage(h: Header): (b: Bytes)
    ensures |b| == HEADER_LEN
  {
    HeaderLength(h);
    Layout.Image(HeaderShape(), h)
  }

  ghost function HeaderOf(data: Bytes): Option<Header> {
    Layout.Decoded(HeaderShape(), data)
  }

  lemma HeaderLength(h: Header)
    ensures |Layout.Image(HeaderShape(), h)| == HEADER_LEN
  {
    var (fs, k) := (HeaderFields(h), HEADER_KINDS);
    Layout.OnePart(fs);
    EncLength(fs, k, 8);
    assert fs[..8] == fs;
    hide Enc, HeaderFields;
    assert Widths(k, 1) == 4;
    assert Widths(k, 2) == 8;
    assert Widths(k, 3) == 12;
    assert Widths(k, 4) == 16;
    assert Widths(k, 5) == 24;
    assert Widths(k, 6) == 32;
    assert Widths(k, 7) == 36;
  }

  lemma SameFields(g: Header, h: Header)
    requires HeaderFields(g) == HeaderFields(h)
    ensures g == h
  {
    var (a, b) := (HeaderFields(g), HeaderFields(h));
    assert a[0] == b[0] && a[1] == b[1] && a[2] == b[2] && a[3] == b[3];
    assert a[4] == b[4] && a[5] == b[5] && a[6] == b[6] && a[7] == b[7];
  }

  /** So for headers: decoding inverts encoding, and prefixes are rejected. */
  lemma HeaderIsLawful()
    ensures Layout.Lawful(HeaderShape())
  {
    hide HeaderFields;
    var c := HeaderShape();
    forall g: Header, h: Header | c.sections(g) == c.sections(h)
      ensures g == h
    {
      assert [HeaderFields(g)][0] == [HeaderFields(h)][0];
      SameFields(g, h);
    }
  }

  lemma HeaderIs(h: Header, data: Bytes)
    requires HeaderImage(h) <= data
    ensures HeaderOf(data) == Some(h)
  {
    HeaderIsLawful();
    Layout.DecodedIs(HeaderShape(), h, data);
  }

  lemma HeaderNone(data: Bytes)
    requires NoParse(Layout.GrammarOf(PARTS), data)
    ensures HeaderOf(data) == None
  {
    HeaderIsLawful();
    Layout.DecodedNone(HeaderShape(), data);
  }

  method EncodeHeader(h: Header) returns (b: Bytes)
    ensures b == HeaderImage(h)
  {
    hide Enc, Writer.Valid, Layout.Flatten;
    var out := new byte[HEADER_LEN](_ => 0);
    var c := new Writer(out, HEADER_LEN);
    c.U32(h.magic);
    c.U32(h.recordLen);
    c.U32(h.obsLen);
    c.U32(h.crc);
    c.U64(h.window);
    c.I64(h.admittedAt);
    c.U32(h.reason);
    c.U32(h.reserved);
    assert c.log == HeaderFields(h);
    c.Written();
    Layout.OnePart(HeaderFields(h));
    assert |HeaderImage(h)| == HEADER_LEN;
    return out[..];
  }

  method DecodeHeader(b: Bytes) returns (ok: bool, h: Header)
    ensures HeaderOf(b) == if ok then Some(h) else None
  {
    hide Enc, Reader.Valid, HeaderOf, HeaderImage, Layout.Asks, Layout.GrammarOf, Layout.Stands;
    var c := new Reader(b, Layout.GrammarOf(PARTS));
    Layout.StandsAtStart(c, PARTS);
    Layout.BeginFixed(c, PARTS, 0, []);
    h := ReadLengths(c);
    h := ReadIdentity(c, h);
    ok := c.ok;
    c.SoFar();
    if ok {
      WasRead(h, c.log, b);
    } else {
      HeaderNone(b);
    }
  }

  lemma WasRead(h: Header, log: seq<Field>, data: Bytes)
    requires log == HeaderFields(h) && Enc(log) <= data
    ensures HeaderOf(data) == Some(h)
  {
    Layout.OnePart(HeaderFields(h));
    hide HeaderFields, Enc, Layout.Flatten;
    HeaderIs(h, data);
  }

  /** The first four words of the header. */
  method ReadLengths(c: Reader) returns (h: Header)
    requires c.Valid() && c.log == [] && c.todo == HEADER_KINDS && c.at == 0
    modifies c
    ensures c.Valid() && c.todo == HEADER_KINDS && c.at == 4
    ensures c.ok ==> c.log == HeaderFields(h)[..4]
  {
    hide Reader.Valid;
    var magic := c.U32();
    var recordLen := c.U32();
    var obsLen := c.U32();
    var crc := c.U32();
    h := Header(magic, recordLen, obsLen, crc, 0, 0, 0, 0);
  }

  method ReadIdentity(c: Reader, lengths: Header) returns (h: Header)
    requires c.Valid() && c.todo == HEADER_KINDS && c.at == 4
    requires c.ok ==> c.log == HeaderFields(lengths)[..4]
    modifies c
    ensures c.Valid() && (c.ok ==> c.log == HeaderFields(h))
  {
    hide Reader.Valid;
    ghost var first := c.log;
    var window := c.U64();
    var admittedAt := c.I64();
    var reason := c.U32();
    var reserved := c.U32();
    h := lengths.(window := window, admittedAt := admittedAt, reason := reason, reserved := reserved);
    assert HeaderFields(h)[..4] == HeaderFields(lengths)[..4];
    assert c.ok ==> c.log == first + HeaderFields(h)[4..];
  }

  // ------------------------------------------------------------------- the records

  ghost function HeaderFor(r: Record): Header
    requires r.obs.CountsFit()
  {
    ImageLength(r.obs);
    Header(MAGIC, HEADER_LEN + |Image(r.obs)|, |Image(r.obs)|, Crc32.Crc(Image(r.obs)), r.window, r.admittedAt, r.reason, 0)
  }

  ghost function RecordImage(r: Record): (b: Bytes)
    requires r.obs.CountsFit()
    ensures |b| == HEADER_LEN + |Image(r.obs)|
  {
    HeaderImage(HeaderFor(r)) + Image(r.obs)
  }

  ghost function EntryFor(r: Record): Entry
    requires r.obs.CountsFit()
  {
    Entry(HeaderFor(r), Normal(r.obs))
  }

  ghost predicate AllFit(rs: seq<Record>) {
    forall i :: 0 <= i < |rs| ==> rs[i].obs.CountsFit()
  }

  ghost function FileOf(rs: seq<Record>): Bytes
    requires AllFit(rs)
  {
    if rs == [] then [] else RecordImage(rs[0]) + FileOf(rs[1..])
  }

  /** What a read makes of the bytes from the current position on. */
  datatype Scan = End | Stop(status: Status) | Found(entry: Entry, len: nat)

  ghost function ScanOf(rest: Bytes): (s: Scan)
    ensures s.Found? ==> 0 < s.len <= |rest|
    ensures s.Stop? ==> s.status != Success && s.status != NotFound
  {
    if rest == [] then End
    else if |rest| < HEADER_LEN then Stop(Torn)
    else
      match HeaderOf(rest[..HEADER_LEN])
      case None => Stop(Torn)
      case Some(h) => ScanBody(h, rest[HEADER_LEN..])
  }

  ghost function ScanBody(h: Header, body: Bytes): Scan {
    if h.magic != MAGIC then Stop(Torn)
    else if h.obsLen > MAX_OBS_LEN || h.recordLen != HEADER_LEN + h.obsLen then Stop(Oversize)
    else if |body| < h.obsLen then Stop(Torn)
    else if Crc32.Crc(body[..h.obsLen]) != h.crc then Stop(BadChecksum)
    else
      match Decoded(body[..h.obsLen])
      case None => Stop(Torn)
      case Some(o) => Found(Entry(h, o), HEADER_LEN + h.obsLen)
  }

  // ------------------------------------------------------------ reading and writing

  /** A file as its bytes and a position. */
  class File {
    var data: Bytes
    var pos: nat

    ghost predicate Valid()
      reads this
    {
      pos <= |data|
    }

    constructor (data: Bytes)
      ensures Valid() && this.data == data && pos == 0
    {
      this.data, this.pos := data, 0;
    }

    method Read(n: nat) returns (b: Bytes)
      requires Valid()
      modifies this`pos
      ensures Valid() && pos == old(pos) + |b| && b == data[old(pos)..pos]
      ensures |b| == if n <= |data| - old(pos) then n else |data| - old(pos)
    {
      var m := if n <= |data| - pos then n else |data| - pos;
      b := data[pos..pos + m];
      pos := pos + m;
    }

    /** Appends as many of the bytes as the device takes. */
    method Append(b: Bytes, room: nat) returns (all: bool)
      modifies this`data
      ensures all <==> |b| <= room
      ensures data == old(data) + if all then b else b[..room]
    {
      all := |b| <= room;
      data := data + if all then b else b[..room];
    }
  }

  /** Appends one record; `room` is how much the device still takes, `synced` whether flushing works. */
  method AppendRecord(f: File, r: Record, room: nat, synced: bool) returns (st: Status)
    modifies f`data
    ensures !r.obs.CountsFit() ==> st == Torn && f.data == old(f.data)
    ensures r.obs.CountsFit() ==> st == if |RecordImage(r)| <= room && synced then Success else IoError
    ensures r.obs.CountsFit() ==> f.data == old(f.data) + if |RecordImage(r)| <= room then RecordImage(r) else RecordImage(r)[..room]
  {
    hide Image, Crc32.Crc, HeaderImage;
    var buf := new byte[MAX_OBS_LEN](_ => 0);
    var es, len := EncodeObservation(r.obs, buf, MAX_OBS_LEN);
    if r.obs.CountsFit() { ImageLength(r.obs); }
    if es != Ok { return Torn; }
    var body := buf[..len];
    var crc := Crc32.Compute(body);
    var hdr := Header(MAGIC, HEADER_LEN + len, len, crc, r.window, r.admittedAt, r.reason, 0);
    var head := EncodeHeader(hdr);
    assert RecordImage(r) == head + body;
    ghost var was := f.data;
    var all := f.Append(head, room);
    if !all {
      assert RecordImage(r)[..room] == head[..room];
      return IoError;
    }
    all := f.Append(body, room - HEADER_LEN);
    if !all {
      assert RecordImage(r)[..room] == head + body[..room - HEADER_LEN];
      assert f.data == was + RecordImage(r)[..room];
      return IoError;
    }
    assert f.data == was + RecordImage(r);
    return if synced then Success else IoError;
  }

  /** Reads the next record, or leaves the position where it was. */
  method ReadRecord(f: File, prior: Entry) returns (st: Status, e: Entry)
    requires f.Valid()
    modifies f`pos
    ensures f.Valid()
    ensures var s := ScanOf(old(f.data[f.pos..]));
            match s
            case End => st == NotFound && f.pos == old(f.pos)
            case Stop(why) => st == why && f.pos == old(f.pos)
            case Found(entry, len) => st == Success && e == entry && f.pos == old(f.pos) + len
  {
    hide Crc32.Crc, Decoded, HeaderOf;
    ghost var rest := f.data[f.pos..];
    var start := f.pos;
    e := prior;
    var head := f.Read(HEADER_LEN);
    if |head| == 0 { return NotFound, e; }
    if |head| != HEADER_LEN {
      f.pos := start;
      return Torn, e;
    }
    assert head == rest[..HEADER_LEN] && f.data[f.pos..] == rest[HEADER_LEN..];
    var ok, hdr := DecodeHeader(head);
    if !ok || hdr.magic != MAGIC {
      f.pos := start;
      return Torn, e;
    }
    if hdr.obsLen > MAX_OBS_LEN || hdr.recordLen != HEADER_LEN + hdr.obsLen {
      f.pos := start;
      return Oversize, e;
    }
    var body := f.Read(hdr.obsLen);
    if |body| != hdr.obsLen {
      f.pos := start;
      return Torn, e;
    }
    assert body == rest[HEADER_LEN..][..hdr.obsLen];
    var crc := Crc32.Compute(body);
    if crc != hdr.crc {
      f.pos := start;
      return BadChecksum, e;
    }
    var ds, obs := DecodeObservation(body);
    if ds != Ok {
      f.pos := start;
      return Torn, e;
    }
    return Success, Entry(hdr, obs);
  }

  // ---------------------------------------------------------------- what reads give

  /** A whole record at the current position is found, whatever follows. */
  lemma RecordFound(r: Record, rest: Bytes)
    requires r.obs.CountsFit()
    ensures ScanOf(RecordImage(r) + rest) == Found(EntryFor(r), |RecordImage(r)|)
  {
    hide Crc32.Crc, Image, HeaderImage, Decoded, HeaderOf, Normal;
    var (h, body) := (HeaderFor(r), Image(r.obs));
    var all := RecordImage(r) + rest;
    assert all[..HEADER_LEN] == HeaderImage(h) && all[HEADER_LEN..] == body + rest;
    assert (body + rest)[..h.obsLen] == body;
    HeaderIs(h, HeaderImage(h));
    ImageLength(r.obs);
    WholeDecodes(r.obs);
  }

  lemma WholeDecodes(o: Observation)
    requires o.CountsFit()
    ensures Decoded(Image(o)) == Some(Normal(o))
  {
    hide Image, Normal, Decoded;
    RoundTrip(o, []);
    assert Image(o) + [] == Image(o);
  }

  /** Exactly what a read makes of a position, by the header there: the magic number comes first, then the
      lengths, then the bytes that must be there, their checksum, and their decoding. */
  lemma ScanIff(rest: Bytes)
    ensures ScanOf(rest) == End <==> rest == []
    ensures |rest| >= HEADER_LEN && HeaderOf(rest[..HEADER_LEN]).Some? ==>
              var (s, h) := (ScanOf(rest), HeaderOf(rest[..HEADER_LEN]).value);
              var fits := h.magic == MAGIC && h.obsLen <= MAX_OBS_LEN && h.recordLen == HEADER_LEN + h.obsLen;
              var whole := fits && HEADER_LEN + h.obsLen <= |rest|;
              && (s == Stop(Oversize) <==> h.magic == MAGIC && !fits)
              && (s == Stop(BadChecksum) <==> whole && Crc32.Crc(rest[HEADER_LEN..HEADER_LEN + h.obsLen]) != h.crc)
              && (s.Found? <==> whole && Crc32.Crc(rest[HEADER_LEN..HEADER_LEN + h.obsLen]) == h.crc
                                && Decoded(rest[HEADER_LEN..HEADER_LEN + h.obsLen]).Some?)
              && (!s.Found? && s != Stop(Oversize) && s != Stop(BadChecksum) ==> s == Stop(Torn))
    ensures 0 < |rest| < HEADER_LEN ==> ScanOf(rest) == Stop(Torn)
  {
    hide Crc32.Crc, Decoded, HeaderOf;
    if |rest| >= HEADER_LEN && HeaderOf(rest[..HEADER_LEN]).Some? {
      var h := HeaderOf(rest[..HEADER_LEN]).value;
      if h.obsLen <= |rest[HEADER_LEN..]| {
        assert rest[HEADER_LEN..][..h.obsLen] == rest[HEADER_LEN..HEADER_LEN + h.obsLen];
      }
    }
  }

  /** A record cut short is reported as torn, unless nothing of it is left. */
  lemma CutRecordIsTorn(r: Record, k: nat)
    requires r.obs.CountsFit() && 0 < k < |RecordImage(r)|
    ensures ScanOf(RecordImage(r)[..k]) == Stop(Torn)
  {
    hide Crc32.Crc, Image, HeaderImage, Decoded, HeaderOf;
    var h := HeaderFor(r);
    ImageLength(r.obs);
    if k >= HEADER_LEN {
      var cut := RecordImage(r)[..k];
      assert cut[..HEADER_LEN] == HeaderImage(h) && |cut[HEADER_LEN..]| < h.obsLen;
      HeaderIs(h, HeaderImage(h));
    }
  }

  /** Changing one byte of the observation in a stored record is noticed, and nothing is delivered. */
  lemma ChangedByteRefused(r: Record, i: nat, b: byte, rest: Bytes)
    requires r.obs.CountsFit() && HEADER_LEN <= i < |RecordImage(r)| && b != RecordImage(r)[i]
    ensures ScanOf(RecordImage(r)[i := b] + rest) == Stop(BadChecksum)
  {
    hide Crc32.Crc, Image, HeaderImage, Decoded, HeaderOf;
    var (h, body) := (HeaderFor(r), Image(r.obs));
    ImageLength(r.obs);
    var all := RecordImage(r)[i := b] + rest;
    assert all[..HEADER_LEN] == HeaderImage(h) && all[HEADER_LEN..] == body[i - HEADER_LEN := b] + rest;
    assert (body[i - HEADER_LEN := b] + rest)[..h.obsLen] == body[i - HEADER_LEN := b];
    HeaderIs(h, HeaderImage(h));
    Crc32.ByteChangeDetected(body, i - HEADER_LEN, b);
  }

  /** Everything repeated reads deliver, and where and how they stop. */
  datatype Reads = Reads(entries: seq<Entry>, stopped: nat, status: Status)

  ghost function ReadsOf(rest: Bytes): Reads
    decreases |rest|
  {
    match ScanOf(rest)
    case End => Reads([], 0, NotFound)
    case Stop(why) => Reads([], 0, why)
    case Found(e, len) =>
      var more := ReadsOf(rest[len..]);
      Reads([e] + more.entries, len + more.stopped, more.status)
  }

  ghost function Entries(rs: seq<Record>): (es: seq<Entry>)
    requires AllFit(rs)
    ensures |es| == |rs| && forall i :: 0 <= i < |rs| ==> es[i] == EntryFor(rs[i])
  {
    seq(|rs|, i requires 0 <= i < |rs| => EntryFor(rs[i]))
  }

  /** The position of record `m` in the file. */
  ghost function Boundary(rs: seq<Record>, m: nat): nat
    requires AllFit(rs) && m <= |rs|
  {
    |FileOf(rs[..m])|
  }

  lemma BoundaryStep(rs: seq<Record>, m: nat)
    requires AllFit(rs) && 0 < m <= |rs|
    ensures Boundary(rs, m) == |RecordImage(rs[0])| + Boundary(rs[1..], m - 1)
  {
    assert rs[..m][1..] == rs[1..][..m - 1];
  }

  /** A file cut at byte `k`, holding the first `m` records whole, reads as exactly those
      records; then it ends cleanly if `k` is a record boundary and is torn otherwise, with
      the position at the start of the torn record. */
  lemma {:induction false} CutFileReads(rs: seq<Record>, k: nat, m: nat)
    requires AllFit(rs) && k <= |FileOf(rs)| && m <= |rs| && Boundary(rs, m) <= k
    requires m < |rs| ==> k < Boundary(rs, m + 1)
    ensures ReadsOf(FileOf(rs)[..k]) ==
            Reads(Entries(rs[..m]), Boundary(rs, m), if k == Boundary(rs, m) then NotFound else Torn)
  {
    hide RecordImage, EntryFor, ReadsOf;
    if rs == [] {
      assert FileOf(rs)[..k] == [];
      NothingToRead();
    } else {
      var (first, others) := (RecordImage(rs[0]), FileOf(rs[1..]));
      if m == 0 {
        FirstBoundary(rs);
        CutFirst(rs[0], k);
        assert FileOf(rs)[..k] == first[..k];
        assert Entries(rs[..0]) == [];
      } else {
        BoundaryStep(rs, m);
        if m < |rs| { BoundaryStep(rs, m + 1); }
        var j := k - |first|;
        CutFileReads(rs[1..], j, m - 1);
        assert FileOf(rs)[..k] == first + others[..j];
        ReadsStep(rs[0], others[..j]);
        EntriesStep(rs, m);
      }
    }
  }

  lemma CutFirst(r: Record, k: nat)
    requires r.obs.CountsFit() && k < |RecordImage(r)|
    ensures ReadsOf(RecordImage(r)[..k]) == Reads([], 0, if k == 0 then NotFound else Torn)
  {
    hide RecordImage, EntryFor, ScanOf;
    if k == 0 {
      assert RecordImage(r)[..k] == [];
      NothingToRead();
    } else {
      CutRecordIsTorn(r, k);
    }
  }

  lemma FirstBoundary(rs: seq<Record>)
    requires AllFit(rs) && rs != []
    ensures Boundary(rs, 0) == 0 && Boundary(rs, 1) == |RecordImage(rs[0])|
  {
    hide RecordImage;
    assert rs[..1] == [rs[0]] + [];
    FileOfCons(rs[0], []);
    NoRecords();
  }

  lemma ReadsStep(r: Record, rest: Bytes)
    requires r.obs.CountsFit()
    ensures ReadsOf(RecordImage(r) + rest) ==
            Reads([EntryFor(r)] + ReadsOf(rest).entries, |RecordImage(r)| + ReadsOf(rest).stopped, ReadsOf(rest).status)
  {
    hide RecordImage, EntryFor, ScanOf;
    RecordFound(r, rest);
    var all := RecordImage(r) + rest;
    assert all[|RecordImage(r)|..] == rest;
  }

  lemma NothingToRead()
    ensures ReadsOf([]) == Reads([], 0, NotFound)
  {
  }

  lemma EntriesStep(rs: seq<Record>, m: nat)
    requires AllFit(rs) && 0 < m <= |rs|
    ensures Entries(rs[..m]) == [EntryFor(rs[0])] + Entries(rs[1..][..m - 1])
  {
    hide EntryFor;
  }

  /** An untouched file reads back whole. */
  lemma WholeFileReads(rs: seq<Record>)
    requires AllFit(rs)
    ensures ReadsOf(FileOf(rs)) == Reads(Entries(rs), |FileOf(rs)|, NotFound)
  {
    assert rs[..|rs|] == rs && FileOf(rs)[..|FileOf(rs)|] == FileOf(rs);
    CutFileReads(rs, |FileOf(rs)|, |rs|);
  }

  /** Records behind records. */
  lemma {:induction false} FileOfConcat(rs: seq<Record>, qs: seq<Record>)
    requires AllFit(rs) && AllFit(qs)
    ensures FileOf(rs + qs) == FileOf(rs) + FileOf(qs)
  {
    hide RecordImage, FileOf;
    if rs == [] {
      NoRecords();
      assert rs + qs == qs && [] + FileOf(qs) == FileOf(qs);
    } else {
      FileOfConcat(rs[1..], qs);
      assert rs + qs == [rs[0]] + (rs[1..] + qs);
      FileOfCons(rs[0], rs[1..] + qs);
      assert rs == [rs[0]] + rs[1..];
      FileOfCons(rs[0], rs[1..]);
      Associate(RecordImage(rs[0]), FileOf(rs[1..]), FileOf(qs));
    }
  }

  /** Appending adds the record behind the others. */
  lemma FileOfSnoc(rs: seq<Record>, r: Record)
    requires AllFit(rs) && r.obs.CountsFit()
    ensures FileOf(rs + [r]) == FileOf(rs) + RecordImage(r)
  {
    FileOfConcat(rs, [r]);
    assert [r] == [r] + [] && RecordImage(r) + [] == RecordImage(r);
    FileOfCons(r, []);
    NoRecords();
  }

  lemma Associate(a: Bytes, b: Bytes, c: Bytes)
    ensures a + (b + c) == (a + b) + c
  {
  }

  lemma NoRecords()
    ensures FileOf([]) == []
  {
  }

  lemma FileOfCons(r: Record, rs: seq<Record>)
    requires AllFit(rs) && r.obs.CountsFit()
    ensures FileOf([r] + rs) == RecordImage(r) + FileOf(rs)
  {
    hide RecordImage;
    assert ([r] + rs)[1..] == rs;
  }
}

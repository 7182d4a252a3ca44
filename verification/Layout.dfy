/** Messages laid out as fixed runs of fields and counted runs, and what holds for every
    such message at once. */
module Layout {
  import opened Machine
  import opened Codec
  import opened Cursor

  /** A run of fixed kinds, or a 32-bit count and a body whose kinds it determines. */
  datatype Part = Fixed(ks: seq<Kind>) | Counted(max: nat, body: nat -> seq<Kind>)

  predicate KindsAre(fs: seq<Field>, ks: seq<Kind>) {
    |fs| == |ks| && forall i :: 0 <= i < |fs| ==> KindOf(fs[i]) == ks[i]
  }

  predicate Fits(p: Part, fs: seq<Field>) {
    match p
    case Fixed(ks) => KindsAre(fs, ks)
    case Counted(max, body) => fs != [] && fs[0].U32? && fs[0].w <= max && KindsAre(fs[1..], body(fs[0].w))
  }

  predicate AllFit(ps: seq<Part>, fss: seq<seq<Field>>) {
    |ps| == |fss| && forall i :: 0 <= i < |ps| ==> Fits(ps[i], fss[i])
  }

  function Flatten(fss: seq<seq<Field>>): seq<Field> {
    if fss == [] then [] else fss[0] + Flatten(fss[1..])
  }

  /** What a layout asks for after some fields. */
  function Asks(ps: seq<Part>, fs: seq<Field>): Next {
    if ps == [] then Done
    else
      match ps[0]
      case Fixed(ks) => if |fs| < |ks| then Read(ks[|fs|]) else Asks(ps[1..], fs[|ks|..])
      case Counted(max, body) =>
        if fs == [] then Read(K32)
        else if !fs[0].U32? || fs[0].w > max then Bad
        else
          var ks := body(fs[0].w);
          if |fs| - 1 < |ks| then Read(ks[|fs| - 1]) else Asks(ps[1..], fs[1 + |ks|..])
  }

  function GrammarOf(ps: seq<Part>): Grammar {
    fs => Asks(ps, fs)
  }

  lemma PartPasses(p: Part, ps: seq<Part>, f: seq<Field>, gs: seq<Field>)
    requires Fits(p, f)
    ensures Asks([p] + ps, f + gs) == Asks(ps, gs)
  {
    assert ([p] + ps)[1..] == ps;
    assert (f + gs)[|f|..] == gs;
    if p.Counted? {
      assert (f + gs)[0] == f[0];
    }
  }

  lemma PartAsks(p: Part, ps: seq<Part>, f: seq<Field>, i: nat)
    requires Fits(p, f) && i < |f|
    ensures Asks([p] + ps, f[..i]) == Read(KindOf(f[i]))
  {
    if p.Counted? && i > 0 {
      assert f[..i][0] == f[0] && f[1..][i - 1] == f[i];
    }
  }

  /** Behind complete parts the layout asks what the remaining parts ask. */
  lemma {:induction false} AsksBehind(ps: seq<Part>, qs: seq<Part>, fss: seq<seq<Field>>, gs: seq<Field>)
    requires AllFit(ps, fss)
    ensures Asks(ps + qs, Flatten(fss) + gs) == Asks(qs, gs)
  {
    hide Asks, Fits;
    if ps == [] {
      assert ps + qs == qs && Flatten(fss) + gs == gs;
    } else {
      assert AllFit(ps[1..], fss[1..]);
      AsksBehind(ps[1..], qs, fss[1..], gs);
      assert ps + qs == [ps[0]] + (ps[1..] + qs);
      assert Flatten(fss) + gs == fss[0] + (Flatten(fss[1..]) + gs);
      PartPasses(ps[0], ps[1..] + qs, fss[0], Flatten(fss[1..]) + gs);
    }
  }

  /** Each field of a fitting message is the one asked for. */
  lemma {:induction false} FieldAsked(ps: seq<Part>, fss: seq<seq<Field>>, i: nat)
    requires AllFit(ps, fss) && i < |Flatten(fss)|
    ensures Asks(ps, Flatten(fss)[..i]) == Read(KindOf(Flatten(fss)[i]))
  {
    hide Asks, Fits;
    var (f, rest) := (fss[0], Flatten(fss[1..]));
    assert ps == [ps[0]] + ps[1..];
    assert AllFit(ps[1..], fss[1..]);
    if i < |f| {
      PartAsks(ps[0], ps[1..], f, i);
      assert Flatten(fss)[..i] == f[..i];
    } else {
      FieldAsked(ps[1..], fss[1..], i - |f|);
      assert Flatten(fss)[..i] == f + rest[..i - |f|];
      PartPasses(ps[0], ps[1..], f, rest[..i - |f|]);
    }
  }

  /** A message that fits its layout parses. */
  lemma FittingParses(ps: seq<Part>, fss: seq<seq<Field>>)
    requires AllFit(ps, fss)
    ensures Parses(GrammarOf(ps), Flatten(fss))
  {
    var fs := Flatten(fss);
    forall i | 0 <= i < |fs|
      ensures GrammarOf(ps)(fs[..i]) == Read(KindOf(fs[i]))
    {
      FieldAsked(ps, fss, i);
    }
    AsksBehind(ps, [], fss, []);
    assert ps + [] == ps && fs + [] == fs;
  }

  /** The fields determine the parts. */
  lemma {:induction false} PartsDetermined(ps: seq<Part>, xs: seq<seq<Field>>, ys: seq<seq<Field>>)
    requires AllFit(ps, xs) && AllFit(ps, ys) && Flatten(xs) == Flatten(ys)
    ensures xs == ys
  {
    if ps != [] {
      FirstDetermined(ps[0], xs[0], Flatten(xs[1..]), ys[0], Flatten(ys[1..]));
      assert AllFit(ps[1..], xs[1..]) && AllFit(ps[1..], ys[1..]);
      PartsDetermined(ps[1..], xs[1..], ys[1..]);
      assert xs == [xs[0]] + xs[1..] && ys == [ys[0]] + ys[1..];
    }
  }

  lemma FirstDetermined(p: Part, x: seq<Field>, xs: seq<Field>, y: seq<Field>, ys: seq<Field>)
    requires Fits(p, x) && Fits(p, y) && x + xs == y + ys
    ensures x == y && xs == ys
  {
    if p.Counted? {
      assert (x + xs)[0] == x[0] && (y + ys)[0] == y[0];
    }
    assert |x| == |y|;
    assert (x + xs)[..|x|] == x && (y + ys)[..|y|] == y;
    assert (x + xs)[|x|..] == xs && (y + ys)[|y|..] == ys;
  }

  lemma {:induction false} FlattenSnoc(fss: seq<seq<Field>>, fs: seq<Field>)
    ensures Flatten(fss + [fs]) == Flatten(fss) + fs
  {
    if fss == [] {
      assert fss + [fs] == [fs] && Flatten([fs][1..]) == [];
    } else {
      FlattenSnoc(fss[1..], fs);
      assert (fss + [fs])[1..] == fss[1..] + [fs];
    }
  }

  lemma OnePart(a: seq<Field>)
    ensures Flatten([a]) == a
  {
    FlattenSnoc([], a);
    assert [] + [a] == [a] && [] + a == a;
  }

  lemma TwoParts(a: seq<Field>, b: seq<Field>)
    ensures Flatten([a, b]) == a + b
  {
    OnePart(a);
    FlattenSnoc([a], b);
    assert [a] + [b] == [a, b];
  }

  lemma ThreeParts(a: seq<Field>, b: seq<Field>, c: seq<Field>)
    ensures Flatten([a, b, c]) == a + b + c
  {
    TwoParts(a, b);
    FlattenSnoc([a, b], c);
    assert [a, b] + [c] == [a, b, c];
  }

  // --------------------------------------------------------- what a reader may expect

  lemma AsksInside(p: Part, ps: seq<Part>, gs: seq<Field>, n: nat)
    requires p.Counted? && n <= p.max && n < TWO_32
    ensures Asks([p] + ps, []) == Read(K32)
    ensures |gs| < |p.body(n)| ==> Asks([p] + ps, [U32(n)] + gs) == Read(p.body(n)[|gs|])
  {
  }

  /** Fixed kinds come next. */
  lemma ExpectFixed(before: seq<Part>, ks: seq<Kind>, after: seq<Part>, fss: seq<seq<Field>>)
    requires AllFit(before, fss)
    ensures Reader.AsksFor(GrammarOf(before + ([Fixed(ks)] + after)), Flatten(fss), ks)
  {
    var qs := [Fixed(ks)] + after;
    forall gs: seq<Field> | |gs| < |ks|
      ensures GrammarOf(before + qs)(Flatten(fss) + gs) == Read(ks[|gs|])
    {
      AsksBehind(before, qs, fss, gs);
    }
  }

  /** A count comes next. */
  lemma ExpectCount(before: seq<Part>, p: Part, after: seq<Part>, fss: seq<seq<Field>>)
    requires AllFit(before, fss) && p.Counted?
    ensures Reader.AsksFor(GrammarOf(before + ([p] + after)), Flatten(fss), [K32])
  {
    var qs := [p] + after;
    forall gs: seq<Field> | |gs| < 1
      ensures GrammarOf(before + qs)(Flatten(fss) + gs) == Read([K32][|gs|])
    {
      AsksBehind(before, qs, fss, gs);
      assert gs == [];
    }
  }

  /** After a good count its body comes next; a bad count is rejected. */
  lemma ExpectBody(before: seq<Part>, p: Part, after: seq<Part>, fss: seq<seq<Field>>, n: u32)
    requires AllFit(before, fss) && p.Counted?
    ensures n <= p.max ==> Reader.AsksFor(GrammarOf(before + ([p] + after)), Flatten(fss) + [U32(n)], p.body(n))
    ensures n > p.max ==> GrammarOf(before + ([p] + after))(Flatten(fss) + [U32(n)]) == Bad
  {
    var qs := [p] + after;
    if n <= p.max {
      forall gs: seq<Field> | |gs| < |p.body(n)|
        ensures GrammarOf(before + qs)(Flatten(fss) + [U32(n)] + gs) == Read(p.body(n)[|gs|])
      {
        assert Flatten(fss) + [U32(n)] + gs == Flatten(fss) + ([U32(n)] + gs);
        AsksBehind(before, qs, fss, [U32(n)] + gs);
        AsksInside(p, after, gs, n);
      }
    } else {
      AsksBehind(before, qs, fss, [U32(n)]);
    }
  }

  lemma SplitAt(ps: seq<Part>, j: nat)
    requires j < |ps|
    ensures ps == ps[..j] + ([ps[j]] + ps[j + 1..])
  {
  }

  /** A complete part more. */
  lemma PartDone(ps: seq<Part>, j: nat, fss: seq<seq<Field>>, fs: seq<Field>)
    requires j < |ps| && AllFit(ps[..j], fss) && Fits(ps[j], fs)
    ensures AllFit(ps[..j + 1], fss + [fs]) && Flatten(fss + [fs]) == Flatten(fss) + fs
  {
    hide Fits;
    FlattenSnoc(fss, fs);
  }

  /** So far the reader has read exactly these complete parts, or the data holds no message. */
  ghost predicate Stands(c: Reader, ps: seq<Part>, j: nat, fss: seq<seq<Field>>)
    reads c
  {
    && c.Valid() && c.grammar == GrammarOf(ps) && j <= |ps|
    && (c.ok ==> AllFit(ps[..j], fss) && c.log == Flatten(fss))
  }

  lemma StandsAtStart(c: Reader, ps: seq<Part>)
    requires c.Valid() && c.grammar == GrammarOf(ps) && c.log == []
    ensures Stands(c, ps, 0, [])
  {
  }

  lemma StandsNext(c: Reader, ps: seq<Part>, j: nat, fss: seq<seq<Field>>, fs: seq<Field>)
    requires c.Valid() && c.grammar == GrammarOf(ps) && j < |ps|
    requires c.ok ==> AllFit(ps[..j], fss) && Fits(ps[j], fs) && c.log == Flatten(fss) + fs
    ensures Stands(c, ps, j + 1, fss + [fs])
  {
    hide Reader.Valid, GrammarOf, Fits;
    if c.ok { PartDone(ps, j, fss, fs); }
  }

  /** Announces a fixed part. */
  ghost method BeginFixed(c: Reader, ps: seq<Part>, j: nat, fss: seq<seq<Field>>)
    requires Stands(c, ps, j, fss) && j < |ps| && ps[j].Fixed?
    modifies c`todo, c`at
    ensures c.Valid() && c.todo == ps[j].ks && c.at == 0
  {
    hide Reader.Valid, AllFit, GrammarOf, Asks, Flatten, Reader.AsksFor;
    if c.ok {
      SplitAt(ps, j);
      ExpectFixed(ps[..j], ps[j].ks, ps[j + 1..], fss);
    }
    c.Expect(ps[j].ks);
  }

  /** Reads the count of a counted part; what follows is announced if the count is good. */
  method ReadCount(c: Reader, max: nat, ghost ps: seq<Part>, ghost j: nat, ghost fss: seq<seq<Field>>) returns (good: bool, n: u32)
    requires Stands(c, ps, j, fss) && j < |ps| && ps[j].Counted? && ps[j].max == max
    modifies c
    ensures c.Valid()
    ensures good <==> c.ok && n <= max
    ensures !good ==> NoParse(c.grammar, c.data)
    ensures good ==> AllFit(ps[..j], fss) && c.log == Flatten(fss) + [U32(n)] && c.todo == ps[j].body(n) && c.at == 0
  {
    hide Reader.Valid, AllFit, GrammarOf, Asks, Flatten, Reader.AsksFor;
    if c.ok {
      SplitAt(ps, j);
      ExpectCount(ps[..j], ps[j], ps[j + 1..], fss);
    }
    c.Expect([K32]);
    n := c.U32();
    c.SoFar();
    good := c.ok && n <= max;
    if c.ok {
      ExpectBody(ps[..j], ps[j], ps[j + 1..], fss, n);
      if n <= max {
        c.Expect(ps[j].body(n));
      } else {
        StuckExcludes(c.grammar, c.log, c.data);
      }
    }
  }

  function K64s(n: nat): (ks: seq<Kind>)
    ensures |ks| == n && forall i :: 0 <= i < n ==> ks[i] == K64
  {
    seq(n, _ => K64)
  }

  lemma CountedFits(p: Part, n: u32, fs: seq<Field>)
    requires p.Counted? && n <= p.max && KindsAre(fs, p.body(n))
    ensures Fits(p, [U32(n)] + fs)
  {
    assert ([U32(n)] + fs)[1..] == fs;
  }

  lemma FitTogether(fs: seq<Field>, ks: seq<Kind>, gs: seq<Field>, ls: seq<Kind>)
    requires KindsAre(fs, ks) && KindsAre(gs, ls)
    ensures KindsAre(fs + gs, ks + ls)
  {
  }

  lemma U64sFit(xs: seq<u64>)
    ensures KindsAre(U64s(xs), K64s(|xs|))
  {
  }

  lemma Rejoin(a: seq<Field>, f: Field, b: seq<Field>)
    ensures (a + [f]) + b == a + ([f] + b)
  {
  }

  lemma SameGrammar(c: Reader, ps: seq<Part>, j: nat, fss: seq<seq<Field>>)
    requires Stands(c, ps, j, fss)
    ensures c.grammar == GrammarOf(ps)
  {
  }

  /** A count and its whole body have been read. */
  lemma CountedDone(c: Reader, ps: seq<Part>, j: nat, fss: seq<seq<Field>>, n: u32, fs: seq<Field>)
    requires c.Valid() && c.grammar == GrammarOf(ps) && j < |ps|
    requires ps[j].Counted? && n <= ps[j].max && KindsAre(fs, ps[j].body(n))
    requires c.ok ==> AllFit(ps[..j], fss) && c.log == Flatten(fss) + [U32(n)] + fs
    ensures Stands(c, ps, j + 1, fss + [[U32(n)] + fs])
  {
    hide Reader.Valid, AllFit, GrammarOf, Flatten, Fits, Stands, KindsAre;
    CountedFits(ps[j], n, fs);
    Rejoin(Flatten(fss), U32(n), fs);
    StandsNext(c, ps, j, fss, [U32(n)] + fs);
  }

  /** A counted array of 64-bit elements. */
  method ReadU64s(c: Reader, max: nat, ghost ps: seq<Part>, ghost j: nat, ghost fss: seq<seq<Field>>)
    returns (good: bool, n: u32, xs: seq<u64>)
    requires Stands(c, ps, j, fss) && j < |ps| && ps[j] == Counted(max, K64s)
    modifies c
    ensures !good ==> NoParse(c.grammar, c.data)
    ensures |xs| == max && (good ==> n <= max && Stands(c, ps, j + 1, fss + [[U32(n)] + U64s(xs[..n])]))
    ensures forall i :: n <= i < max ==> xs[i] == 0
  {
    SameGrammar(c, ps, j, fss);
    hide Reader.Valid, AllFit, GrammarOf, Asks, Flatten, Fits, Stands, KindsAre, U64s, K64s;
    good, n := ReadCount(c, max, ps, j, fss);
    if !good { return false, n, seq(max, _ => 0); }
    xs := c.U64Array(n, max);
    U64sFit(xs[..n]);
    CountedDone(c, ps, j, fss, n, U64s(xs[..n]));
  }

  // ------------------------------------------------------------- parts of messages

  /** The counted prefix of an array, and zeros behind it. */
  function Trimmed(xs: seq<u64>, n: nat): (r: seq<u64>)
    requires n <= |xs|
    ensures |r| == |xs| && r[..n] == xs[..n]
  {
    xs[..n] + seq(|xs| - n, _ => 0)
  }

  lemma TrimmedIs(xs: seq<u64>, n: nat)
    requires n <= |xs| && forall i :: n <= i < |xs| ==> xs[i] == 0
    ensures Trimmed(xs, n) == xs
  {
  }

  lemma TrimmedEqual(xs: seq<u64>, n: nat, ys: seq<u64>, m: nat)
    requires n <= |xs| == |ys| && m <= |ys| && U64s(xs[..n]) == U64s(ys[..m])
    ensures n == m && Trimmed(xs, n) == Trimmed(ys, m)
  {
    assert |U64s(xs[..n])| == n && |U64s(ys[..m])| == m;
    forall i | 0 <= i < n
      ensures xs[i] == ys[i]
    {
      assert U64s(xs[..n])[i] == U64(xs[i]) && U64s(ys[..m])[i] == U64(ys[i]);
    }
  }

  /** Counts in front of the bodies are equal and so are the bodies. */
  lemma CountedEqual(n: u32, a: seq<Field>, m: u32, b: seq<Field>)
    requires [U32(n)] + a == [U32(m)] + b
    ensures n == m && a == b
  {
    assert ([U32(n)] + a)[0] == U32(n) && ([U32(m)] + b)[0] == U32(m);
    assert ([U32(n)] + a)[1..] == a && ([U32(m)] + b)[1..] == b;
  }

  lemma FixedFits(ks: seq<Kind>, fs: seq<Field>)
    requires KindsAre(fs, ks)
    ensures Fits(Fixed(ks), fs)
  {
  }

  lemma NoParts(ps: seq<Part>)
    ensures AllFit(ps[..0], []) && Flatten([]) == []
  {
  }

  lemma LastWord(fss: seq<seq<Field>>, v: u32)
    ensures Flatten(fss + [[U32(v)]]) == Flatten(fss) + [U32(v)]
  {
    FlattenSnoc(fss, [U32(v)]);
  }

  lemma StandsValid(c: Reader, ps: seq<Part>, j: nat, fss: seq<seq<Field>>)
    requires Stands(c, ps, j, fss)
    ensures c.Valid()
  {
  }

  lemma SoFarParts(c: Reader, ps: seq<Part>, j: nat, fss: seq<seq<Field>>)
    requires Stands(c, ps, j, fss)
    ensures c.ok ==> AllFit(ps[..j], fss) && c.log == Flatten(fss)
  {
  }

  // ------------------------------------------------------------------------ messages

  /** A kind of message: its layout, the fields of a value, which values can be encoded, and
      what a decoder makes of them. */
  datatype Shape<!M(!new)> = Shape(parts: seq<Part>, sections: M -> seq<seq<Field>>, encodable: M -> bool, normal: M -> M)

  ghost predicate Lawful<M(!new)>(c: Shape<M>) {
    && (forall m: M :: c.encodable(m) ==> AllFit(c.parts, c.sections(m)))
    && forall a: M, b: M :: c.encodable(a) && c.encodable(b) && c.sections(a) == c.sections(b) ==> c.normal(a) == c.normal(b)
  }

  ghost function Image<M(!new)>(c: Shape<M>, m: M): Bytes {
    Enc(Flatten(c.sections(m)))
  }

  ghost predicate Begins<M(!new)>(c: Shape<M>, m: M, data: Bytes) {
    c.encodable(m) && Image(c, m) <= data
  }

  ghost function Decoded<M(!new)>(c: Shape<M>, data: Bytes): (r: Option<M>)
    ensures r.Some? ==> exists m :: Begins(c, m, data) && r.value == c.normal(m)
    ensures r.None? ==> forall m :: !Begins(c, m, data)
  {
    if m :| Begins(c, m, data) then Some(c.normal(m)) else None
  }

  lemma Law<M(!new)>(c: Shape<M>, a: M, b: M)
    requires Lawful(c) && c.encodable(a) && c.encodable(b)
    ensures AllFit(c.parts, c.sections(a)) && Parses(GrammarOf(c.parts), Flatten(c.sections(a)))
    ensures c.sections(a) == c.sections(b) ==> c.normal(a) == c.normal(b)
  {
    FittingParses(c.parts, c.sections(a));
  }

  /** Two messages that start the same data are the same up to normalisation. */
  lemma SameMessage<M(!new)>(c: Shape<M>, a: M, b: M, data: Bytes)
    requires Lawful(c) && Begins(c, a, data) && Begins(c, b, data)
    ensures c.normal(a) == c.normal(b)
  {
    Law(c, a, b);
    Law(c, b, a);
    hide Lawful, Asks, AllFit, Fits, Flatten, Enc, Parses;
    ParseUnique(GrammarOf(c.parts), Flatten(c.sections(a)), Flatten(c.sections(b)), data);
    PartsDetermined(c.parts, c.sections(a), c.sections(b));
  }

  lemma DecodedIs<M(!new)>(c: Shape<M>, m: M, data: Bytes)
    requires Lawful(c) && Begins(c, m, data)
    ensures Decoded(c, data) == Some(c.normal(m))
  {
    hide Lawful, Begins;
    var q :| Begins(c, q, data) && Decoded(c, data).value == c.normal(q);
    SameMessage(c, m, q, data);
  }

  lemma DecodedNone<M(!new)>(c: Shape<M>, data: Bytes)
    requires Lawful(c) && NoParse(GrammarOf(c.parts), data)
    ensures Decoded(c, data) == None
  {
    forall m: M
      ensures !Begins(c, m, data)
    {
      if c.encodable(m) {
        Law(c, m, m);
      }
    }
  }

  /** Decoding an encoded message gives it back in normal form, whatever follows it. */
  lemma RoundTrip<M(!new)>(c: Shape<M>, m: M, rest: Bytes)
    requires Lawful(c) && c.encodable(m)
    ensures Decoded(c, Image(c, m) + rest) == Some(c.normal(m))
  {
    DecodedIs(c, m, Image(c, m) + rest);
  }

  /** No strict prefix of an encoded message decodes. */
  lemma StrictPrefixRejected<M(!new)>(c: Shape<M>, m: M, k: nat)
    requires Lawful(c) && c.encodable(m) && k < |Image(c, m)|
    ensures Decoded(c, Image(c, m)[..k]) == None
  {
    var fs := Flatten(c.sections(m));
    Law(c, m, m);
    PrefixRejected(GrammarOf(c.parts), fs, k);
    DecodedNone(c, Image(c, m)[..k]);
  }

  /** Different encodable messages, apart from what decoding normalises, have images neither of which starts the other. */
  lemma ImagesAreSeparate<M(!new)>(c: Shape<M>, a: M, b: M)
    requires Lawful(c) && c.encodable(a) && c.encodable(b) && c.normal(a) != c.normal(b)
    ensures !(Image(c, a) <= Image(c, b))
  {
    if Image(c, a) <= Image(c, b) {
      DecodedIs(c, a, Image(c, b));
      DecodedIs(c, b, Image(c, b));
    }
  }
}

/** Looking into scanned texts: the member of an object, the elements of an array, and
    what string literals decode to. */
module JsonSpans {
  import opened Machine
  import opened Json

  /** A window into a text; for a string without its quotes. */
  datatype Span = Span(off: nat, len: nat, isString: bool) {
    function Shift(k: nat): Span { this.(off := k + off) }
  }

  /** The span of a value of length `m` that starts at `at`, given whether it is quoted. */
  function SpanOf(at: nat, quoted: bool, m: nat): Span
    requires quoted ==> m >= 2
  {
    if quoted then Span(at + 1, m - 2, true) else Span(at, m, false)
  }

  /** The span holds this value. */
  ghost predicate Holds(json: Bytes, sp: Span, v: Value) {
    && sp.off + sp.len <= |json| && (sp.isString <==> v.Str?)
    && json[sp.off..sp.off + sp.len] == if v.Str? then Raw(v.pieces) else Text(v)
  }

  lemma HoldsShifted(json: Bytes, k: nat, sp: Span, v: Value)
    requires k <= |json| && Holds(json[k..], sp, v)
    ensures Holds(json, sp.Shift(k), v)
  {
    hide Raw, Text;
    assert json[k..][sp.off..sp.off + sp.len] == json[k + sp.off..k + sp.off + sp.len];
  }

  lemma HoldsHere(v: Value, rest: Bytes)
    requires Good(v)
    ensures v.Str? ==> |Text(v)| >= 2
    ensures Holds(Text(v) + rest, SpanOf(0, v.Str?, |Text(v)|), v)
  {
    TextStarts(v);
    if v.Str? {
      hide Raw;
      assert (Text(v) + rest)[1..1 + |Raw(v.pieces)|] == Raw(v.pieces);
    } else {
      hide Text;
      assert (Text(v) + rest)[0..|Text(v)|] == Text(v);
    }
  }

  // ---------------------------------------------------------------------- arrays

  /** The values found between a bracket and its end, and whether the end was proper. */
  datatype Listing = Listing(spans: seq<Span>, closed: bool)

  function Shifted(k: nat, spans: seq<Span>): (r: seq<Span>)
    ensures |r| == |spans| && forall i :: 0 <= i < |spans| ==> r[i] == spans[i].Shift(k)
  {
    seq(|spans|, i requires 0 <= i < |spans| => spans[i].Shift(k))
  }

  /** The text without its leading white space. */
  function Trim(s: Bytes): (t: Bytes)
    ensures |t| <= |s|
  {
    s[Spaces(s)..]
  }

  lemma Trimmed(a: Bytes, rest: Bytes)
    requires AllSpace(a) && (rest == [] || !IsSpace(rest[0]))
    ensures Trim(a + rest) == rest
  {
    SpacesStop(a, rest);
  }

  predicate Starts(s: Bytes, c: byte) { s != [] && s[0] == c }

  /** What is met next in an array: the end, nothing usable, or a value and what follows it. */
  datatype Turn = AtEnd | Nothing | Element(span: Span, rest: Bytes)

  function TurnOf(s: Bytes): (r: Turn)
    ensures r.Element? ==> |r.rest| <= |s|
  {
    var t := Trim(s);
    if t == [] then Nothing
    else if t[0] == CLOSE_BRACKET then AtEnd
    else
      match ValueLen(t)
      case None => Nothing
      case Some(m) => Element(SpanOf(|s| - |t|, t[0] == QUOTE, m), Trim(t[m..]))
  }

  function Elements(s: Bytes): Listing
    decreases |s|
  {
    match TurnOf(s)
    case Nothing => Listing([], false)
    case AtEnd => Listing([], true)
    case Element(sp, w) =>
      if Starts(w, COMMA) then
        var more := Elements(w[1..]);
        Listing([sp] + Shifted(|s| - |w| + 1, more.spans), more.closed)
      else Listing([sp], Starts(w, CLOSE_BRACKET))
  }

  /** After the opening bracket, if there is one. */
  function ArrayOpen(json: Bytes): (r: Option<nat>)
    ensures r.Some? ==> r.value <= |json|
  {
    var a := Spaces(json);
    if a < |json| && json[a] == OPEN_BRACKET then Some(a + 1) else None
  }

  function Listed(json: Bytes): Listing {
    match ArrayOpen(json)
    case None => Listing([], false)
    case Some(k) => var l := Elements(json[k..]); Listing(Shifted(k, l.spans), l.closed)
  }

  function ItemValues(xs: Items): (vs: seq<Value>)
    ensures |vs| > 0
  {
    [xs.value] + if xs.Items? then ItemValues(xs.more) else []
  }

  ghost predicate ListsExactly(json: Bytes, l: Listing, vs: seq<Value>) {
    l.closed && |l.spans| == |vs| && forall i :: 0 <= i < |vs| ==> Holds(json, l.spans[i], vs[i])
  }

  /** A list of elements is listed completely. */
  lemma {:induction false} ElementsExact(xs: Items, rest: Bytes)
    requires GoodItems(xs)
    ensures var s := ItemsText(xs) + ([CLOSE_BRACKET] + rest); ListsExactly(s, Elements(s), ItemValues(xs))
  {
    hide Text, ValueLen, Elements, Holds, Good, Shifted, ListsExactly, ItemsText, AllSpace;
    var end := Ending(xs, rest);
    var s := ItemsText(xs) + ([CLOSE_BRACKET] + rest);
    ItemsSplit(xs, rest);
    ElementStep(xs.before, xs.value, xs.after, end);
    HoldsBehind(xs.before, xs.value, xs.after + end);
    Behind(xs.before, Text(xs.value), xs.after, end);
    if xs.Items? {
      ElementsExact(xs.more, rest);
      var k := |xs.before| + |Text(xs.value)| + |xs.after| + 1;
      var l := Elements(end[1..]);
      AllShifted(s, k, l, ItemValues(xs.more));
      ListsCons(s, SpanOf(|xs.before|, xs.value.Str?, |Text(xs.value)|), xs.value, Listing(Shifted(k, l.spans), l.closed),
                ItemValues(xs.more));
    } else {
      ListsOne(s, SpanOf(|xs.before|, xs.value.Str?, |Text(xs.value)|), xs.value);
    }
  }

  /** What follows the first element of a list and the space behind it. */
  ghost function Ending(xs: Items, rest: Bytes): Bytes {
    if xs.Items? then [COMMA] + (ItemsText(xs.more) + ([CLOSE_BRACKET] + rest)) else [CLOSE_BRACKET] + rest
  }

  lemma ItemsSplit(xs: Items, rest: Bytes)
    ensures ItemsText(xs) + ([CLOSE_BRACKET] + rest) == xs.before + (Text(xs.value) + (xs.after + Ending(xs, rest)))
  {
    hide Text;
    var tail := if xs.Items? then [COMMA] + ItemsText(xs.more) else [];
    Join(xs.before, Text(xs.value) + (xs.after + tail), [CLOSE_BRACKET] + rest);
    Join(Text(xs.value), xs.after + tail, [CLOSE_BRACKET] + rest);
    Join(xs.after, tail, [CLOSE_BRACKET] + rest);
    if xs.Items? {
      Join([COMMA], ItemsText(xs.more), [CLOSE_BRACKET] + rest);
    } else {
      assert tail + ([CLOSE_BRACKET] + rest) == [CLOSE_BRACKET] + rest;
    }
  }

  lemma ListsOne(s: Bytes, sp: Span, v: Value)
    requires Holds(s, sp, v)
    ensures ListsExactly(s, Listing([sp], true), [v] + [])
  {
    hide Holds;
  }

  lemma ListsCons(s: Bytes, sp: Span, v: Value, l: Listing, vs: seq<Value>)
    requires Holds(s, sp, v) && ListsExactly(s, l, vs)
    ensures ListsExactly(s, Listing([sp] + l.spans, l.closed), [v] + vs)
  {
    hide Holds;
  }

  lemma AllShifted(s: Bytes, k: nat, l: Listing, vs: seq<Value>)
    requires k <= |s| && ListsExactly(s[k..], l, vs)
    ensures ListsExactly(s, Listing(Shifted(k, l.spans), l.closed), vs)
  {
    hide Holds;
    forall i | 0 <= i < |vs|
      ensures Holds(s, Shifted(k, l.spans)[i], vs[i])
    {
      HoldsShifted(s, k, l.spans[i], vs[i]);
    }
  }

  /** Where a value stands behind `head`. */
  lemma HoldsBehind(head: Bytes, v: Value, rest: Bytes)
    requires Good(v)
    ensures v.Str? ==> |Text(v)| >= 2
    ensures Holds(head + (Text(v) + rest), SpanOf(|head|, v.Str?, |Text(v)|), v)
  {
    HoldsHere(v, rest);
    hide Text, Holds, Good;
    var s := head + (Text(v) + rest);
    assert s[|head|..] == Text(v) + rest;
    HoldsShifted(s, |head|, SpanOf(0, v.Str?, |Text(v)|), v);
  }

  /** What the listing makes of one element and the byte that ends it. */
  lemma ElementStep(before: Bytes, v: Value, after: Bytes, end: Bytes)
    requires AllSpace(before) && Good(v) && AllSpace(after)
    requires end != [] && (end[0] == COMMA || end[0] == CLOSE_BRACKET)
    ensures v.Str? ==> |Text(v)| >= 2
    ensures var s := before + (Text(v) + (after + end));
            var sp := SpanOf(|before|, v.Str?, |Text(v)|);
            var k := |before| + |Text(v)| + |after| + 1;
            Elements(s) == if end[0] == COMMA then Listing([sp] + Shifted(k, Elements(end[1..]).spans), Elements(end[1..]).closed)
                           else Listing([sp], true)
  {
    hide ValueLen, Good, Trim;
    TextStarts(v);
    ScanIsExact(v, after + end);
    hide Text, Elements, TurnOf, Shifted;
    var t := Text(v) + (after + end);
    StartsAlike(Text(v), after + end);
    Trimmed(before, t);
    Trimmed(after, end);
    TurnIs(before + t, t, end, |Text(v)|);
    ElementsTurn(before + t, SpanOf(|before|, v.Str?, |Text(v)|), end);
  }

  lemma StartsAlike(a: Bytes, b: Bytes)
    requires a != []
    ensures (a + b)[0] == a[0] && (a + b)[|a|..] == b
  {
  }

  lemma Behind(a: Bytes, b: Bytes, c: Bytes, end: Bytes)
    requires end != []
    ensures var t := b + (c + end);
            && (a + t)[|a|..] == t && t[|b|..] == c + end
            && (a + t)[|a| + |b| + |c| + 1..] == end[1..]
  {
    var t := b + (c + end);
    var k := |a| + |b| + |c| + 1;
    forall i | 0 <= i < |end| - 1
      ensures (a + t)[k..][i] == end[1..][i]
    {
    }
  }

  /** One turn, with the parts known. */
  lemma TurnIs(s: Bytes, t: Bytes, w: Bytes, m: nat)
    requires Trim(s) == t && t != [] && t[0] != CLOSE_BRACKET && ValueLen(t) == Some(m) && Trim(t[m..]) == w
    ensures t[0] == QUOTE ==> m >= 2
    ensures TurnOf(s) == Element(SpanOf(|s| - |t|, t[0] == QUOTE, m), w)
  {
    hide ValueLen, Trim, SpanOf;
  }

  lemma ElementsTurn(s: Bytes, sp: Span, w: Bytes)
    requires TurnOf(s) == Element(sp, w) && (Starts(w, COMMA) || Starts(w, CLOSE_BRACKET))
    ensures Elements(s) == if w[0] == COMMA
                           then Listing([sp] + Shifted(|s| - |w| + 1, Elements(w[1..]).spans), Elements(w[1..]).closed)
                           else Listing([sp], true)
  {
    hide TurnOf, Shifted;
  }

  /** The elements of a printed array: as many as it has, each span holding its element.
      So the count is the number of elements, and getting element `i` succeeds exactly
      below that number. */
  lemma ArrayIsExact(space: Bytes, v: Value, rest: Bytes)
    requires AllSpace(space) && Good(v) && (v.Arr? || v.EmptyArr?)
    ensures var json := space + (Text(v) + rest);
            ListsExactly(json, Listed(json), if v.Arr? then ItemValues(v.items) else [])
  {
    hide Elements, Holds, ItemsText, ItemValues;
    var json := space + (Text(v) + rest);
    SpacesStop(space, Text(v) + rest);
    var inside := if v.Arr? then ItemsText(v.items) else v.space;
    var k := |space| + 1;
    Join([OPEN_BRACKET], inside + [CLOSE_BRACKET], rest);
    Join(inside, [CLOSE_BRACKET], rest);
    assert json[k..] == inside + ([CLOSE_BRACKET] + rest);
    assert json[|space|] == OPEN_BRACKET;
    if v.Arr? {
      ElementsExact(v.items, rest);
      var (l, vs) := (Elements(json[k..]), ItemValues(v.items));
      forall i | 0 <= i < |vs|
        ensures Holds(json, Shifted(k, l.spans)[i], vs[i])
      {
        HoldsShifted(json, k, l.spans[i], vs[i]);
      }
    } else {
      NoElements(v.space, rest);
    }
  }

  lemma NoElements(space: Bytes, rest: Bytes)
    requires AllSpace(space)
    ensures Elements(space + ([CLOSE_BRACKET] + rest)) == Listing([], true)
  {
    Trimmed(space, [CLOSE_BRACKET] + rest);
  }

  // --------------------------------------------------------------------- objects

  /** A raw key, and what follows its colon and white space. */
  datatype KeyPart = KeyPart(raw: Bytes, rest: Bytes)

  function KeyOf(s: Bytes): (r: Option<KeyPart>)
    ensures r.Some? ==> |r.value.rest| < |s|
  {
    var t := Trim(s);
    if !Starts(t, QUOTE) then None
    else
      match Skip(t[1..])
      case None => None
      case Some(n) =>
        var u := Trim(t[1 + n..]);
        if !Starts(u, COLON) then None else Some(KeyPart(t[1..n], Trim(u[1..])))
  }

  function FindFrom(s: Bytes, key: Bytes): Option<Span>
    decreases |s|
  {
    match KeyOf(s)
    case None => None
    case Some(part) =>
      match ValueLen(part.rest)
      case None => None
      case Some(m) =>
        if part.raw == key then Some(SpanOf(|s| - |part.rest|, part.rest[0] == QUOTE, m))
        else
          var w := Trim(part.rest[m..]);
          if !Starts(w, COMMA) then None
          else
            match FindFrom(w[1..], key)
            case None => None
            case Some(sp) => Some(sp.Shift(|s| - |w| + 1))
  }

  function ObjectFind(json: Bytes, key: Bytes): Option<Span> {
    var a := Spaces(json);
    if a == |json| || json[a] != OPEN_BRACE then None
    else
      match FindFrom(json[a + 1..], key)
      case None => None
      case Some(sp) => Some(sp.Shift(a + 1))
  }

  /** The value of the first member whose key is written like this. */
  function Lookup(ms: Members, key: Bytes): Option<Value> {
    if Raw(ms.key) == key then Some(ms.value)
    else if ms.Members? then Lookup(ms.more, key)
    else None
  }

  ghost predicate FindsExactly(json: Bytes, r: Option<Span>, v: Option<Value>) {
    match v
    case None => r == None
    case Some(value) => r.Some? && Holds(json, r.value, value)
  }

  lemma KeyExact(before: Bytes, key: seq<Piece>, afterKey: Bytes, beforeValue: Bytes, rest: Bytes)
    requires AllSpace(before) && AllGood(key) && AllSpace(afterKey) && AllSpace(beforeValue)
    requires rest != [] && !IsSpace(rest[0])
    ensures KeyOf(before + (Quoted(key) + (afterKey + ([COLON] + (beforeValue + rest))))) == Some(KeyPart(Raw(key), rest))
  {
    hide Skip, Raw, Trim, AllGood, AllSpace;
    var c := beforeValue + rest;
    var u := afterKey + ([COLON] + c);
    var t := Quoted(key) + u;
    Trimmed(before, t);
    RawSkips(key, u);
    Unquote(Raw(key), u);
    Trimmed(afterKey, [COLON] + c);
    assert ([COLON] + c)[1..] == c;
    Trimmed(beforeValue, rest);
  }

  lemma Unquote(raw: Bytes, u: Bytes)
    ensures var t := ([QUOTE] + (raw + [QUOTE])) + u;
            t[0] == QUOTE && t[1..] == raw + ([QUOTE] + u) && t[1..|raw| + 1] == raw && t[|raw| + 2..] == u
  {
  }

  /** Looking for a key among printed members finds the first member with it, or nothing. */
  lemma {:induction false} FindExact(ms: Members, key: Bytes, rest: Bytes)
    requires GoodMembers(ms)
    ensures var s := MembersText(ms) + ([CLOSE_BRACE] + rest); FindsExactly(s, FindFrom(s, key), Lookup(ms, key))
  {
    hide Text, ValueLen, FindFrom, Holds, Good, Quoted, KeyOf, Raw;
    var tail := MembersTail(ms);
    var end := tail + ([CLOSE_BRACE] + rest);
    var s := MembersText(ms) + ([CLOSE_BRACE] + rest);
    MembersSplit(ms, [CLOSE_BRACE] + rest);
    assert end[0] == if ms.Members? then COMMA else CLOSE_BRACE;
    MemberStep(ms, end, key);
    MemberHolds(ms, end);
    if Raw(ms.key) != key && ms.Members? {
      FindExact(ms.more, key, rest);
      var inner := MembersText(ms.more) + ([CLOSE_BRACE] + rest);
      Join([COMMA], MembersText(ms.more), [CLOSE_BRACE] + rest);
      assert end[1..] == inner;
      if Lookup(ms.more, key).Some? {
        HoldsShifted(s, MemberLen(ms) + 1, FindFrom(inner, key).value, Lookup(ms.more, key).value);
      }
    }
  }

  ghost function MemberLen(ms: Members): nat {
    |ms.before| + |Quoted(ms.key)| + |ms.afterKey| + 1 + |ms.beforeValue| + |Text(ms.value)| + |ms.after|
  }

  ghost function MemberThen(ms: Members, end: Bytes): Bytes {
    ms.before + (Quoted(ms.key) + (ms.afterKey + ([COLON] + (ms.beforeValue + (Text(ms.value) + (ms.after + end))))))
  }

  lemma MembersSplit(ms: Members, rest: Bytes)
    ensures MembersText(ms) + rest == MemberThen(ms, MembersTail(ms) + rest)
  {
    hide Text, Quoted;
    var tail := MembersTail(ms);
    var g := ms.after + tail;
    var f := Text(ms.value) + g;
    var e := ms.beforeValue + f;
    var d := [COLON] + e;
    var c := ms.afterKey + d;
    var b := Quoted(ms.key) + c;
    assert MembersText(ms) == ms.before + b;
    hide MembersText, MembersTail;
    Join(ms.before, b, rest);
    Join(Quoted(ms.key), c, rest);
    Join(ms.afterKey, d, rest);
    Join([COLON], e, rest);
    Join(ms.beforeValue, f, rest);
    Join(Text(ms.value), g, rest);
    Join(ms.after, tail, rest);
  }

  lemma MemberStep(ms: Members, end: Bytes, key: Bytes)
    requires AllSpace(ms.before) && AllGood(ms.key) && AllSpace(ms.afterKey) && AllSpace(ms.beforeValue)
    requires Good(ms.value) && AllSpace(ms.after) && end != [] && (end[0] == COMMA || end[0] == CLOSE_BRACE)
    ensures ms.value.Str? ==> |Text(ms.value)| >= 2
    ensures var (s, k) := (MemberThen(ms, end), MemberLen(ms) + 1);
            FindFrom(s, key) ==
            if Raw(ms.key) == key then Some(SpanOf(ValueAt(ms), ms.value.Str?, |Text(ms.value)|))
            else if end[0] == COMMA && FindFrom(end[1..], key).Some? then Some(FindFrom(end[1..], key).value.Shift(k))
            else None
  {
    hide ValueLen, Good, FindFrom, KeyOf, Raw, Trim;
    var v := ms.value;
    var x := Text(v) + (ms.after + end);
    TextStarts(v);
    ScanIsExact(v, ms.after + end);
    hide Text, Quoted;
    StartsAlike(Text(v), ms.after + end);
    KeyExact(ms.before, ms.key, ms.afterKey, ms.beforeValue, x);
    Trimmed(ms.after, end);
    FindUnfold(MemberThen(ms, end), key, KeyPart(Raw(ms.key), x), end, |Text(v)|);
  }

  ghost function ValueAt(ms: Members): nat {
    |ms.before| + |Quoted(ms.key)| + |ms.afterKey| + 1 + |ms.beforeValue|
  }

  /** The value of the first member and what follows it, in their places. */
  lemma MemberHolds(ms: Members, end: Bytes)
    requires Good(ms.value) && end != []
    ensures ms.value.Str? ==> |Text(ms.value)| >= 2
    ensures var s := MemberThen(ms, end);
            && Holds(s, SpanOf(ValueAt(ms), ms.value.Str?, |Text(ms.value)|), ms.value)
            && MemberLen(ms) + 1 <= |s| && s[MemberLen(ms) + 1..] == end[1..]
  {
    hide Text, Quoted, Holds, Good;
    var x := Text(ms.value) + (ms.after + end);
    var head := ms.before + (Quoted(ms.key) + (ms.afterKey + ([COLON] + ms.beforeValue)));
    assert MemberThen(ms, end) == head + x by {
      Join(ms.before, Quoted(ms.key) + (ms.afterKey + ([COLON] + ms.beforeValue)), x);
      Join(Quoted(ms.key), ms.afterKey + ([COLON] + ms.beforeValue), x);
      Join(ms.afterKey, [COLON] + ms.beforeValue, x);
      Join([COLON], ms.beforeValue, x);
    }
    HoldsBehind(head, ms.value, ms.after + end);
    Behind(head, Text(ms.value), ms.after, end);
  }

  lemma FindUnfold(s: Bytes, key: Bytes, part: KeyPart, w: Bytes, m: nat)
    requires KeyOf(s) == Some(part) && part.rest != [] && ValueLen(part.rest) == Some(m)
    requires Trim(part.rest[m..]) == w && (Starts(w, COMMA) || Starts(w, CLOSE_BRACE))
    ensures part.rest[0] == QUOTE ==> m >= 2
    ensures var k := |s| - |w| + 1;
            FindFrom(s, key) == if part.raw == key then Some(SpanOf(|s| - |part.rest|, part.rest[0] == QUOTE, m))
                                else if w[0] == COMMA && FindFrom(w[1..], key).Some? then Some(FindFrom(w[1..], key).value.Shift(k))
                                else None
  {
    hide ValueLen, Trim, KeyOf;
  }

  /** Finding a key in a printed object gives the first member's value, or nothing if no key is written like it. */
  lemma ObjectFindIsExact(space: Bytes, v: Value, key: Bytes, rest: Bytes)
    requires AllSpace(space) && Good(v) && (v.Obj? || v.EmptyObj?)
    ensures var json := space + (Text(v) + rest);
            FindsExactly(json, ObjectFind(json, key), if v.Obj? then Lookup(v.members, key) else None)
  {
    hide FindFrom, Holds, MembersText, Lookup;
    var json := space + (Text(v) + rest);
    SpacesStop(space, Text(v) + rest);
    var inside := if v.Obj? then MembersText(v.members) else v.space;
    var k := |space| + 1;
    Join([OPEN_BRACE], inside + [CLOSE_BRACE], rest);
    Join(inside, [CLOSE_BRACE], rest);
    assert json[k..] == inside + ([CLOSE_BRACE] + rest);
    assert json[|space|] == OPEN_BRACE;
    if v.Obj? {
      FindExact(v.members, key, rest);
      if Lookup(v.members, key).Some? {
        HoldsShifted(json, k, FindFrom(json[k..], key).value, Lookup(v.members, key).value);
      }
    } else {
      NoMembers(v.space, key, rest);
    }
  }

  lemma NoMembers(space: Bytes, key: Bytes, rest: Bytes)
    requires AllSpace(space)
    ensures FindFrom(space + ([CLOSE_BRACE] + rest), key) == None
  {
    Trimmed(space, [CLOSE_BRACE] + rest);
  }

  // -------------------------------------------------------------- strings in and out

  /** The byte a two-byte escape stands for. */
  function Unescaped(e: byte): Option<byte> {
    match e
    case 34 => Some(34)
    case 92 => Some(92)
    case 47 => Some(47)
    case 110 => Some(10)
    case 116 => Some(9)
    case 114 => Some(13)
    case 98 => Some(8)
    case 102 => Some(12)
    case _ => None
  }

  /** The escapes of section 7 of RFC 8259, each with its character. */
  lemma EscapesMean(e: byte, c: byte)
    requires (e, c) in {('"' as int, 0x22), ('\\' as int, 0x5C), ('/' as int, 0x2F), ('b' as int, 0x08), ('f' as int, 0x0C),
                        ('n' as int, 0x0A), ('r' as int, 0x0D), ('t' as int, 0x09)}
    ensures Decode([0x5C, e]) == Some([c])
  {
    assert Unescaped(e) == Some(c) && e != LOWER_U;
    assert [BACKSLASH, e][2..] == [] && Decode([]) == Some([]) && [c] + [] == [c];
  }

  function Prepend(c: byte, r: Option<Bytes>): Option<Bytes> {
    match r
    case None => None
    case Some(b) => Some([c] + b)
  }

  /** What the inside of a string literal decodes to; a \u escape becomes a question mark. */
  function Decode(s: Bytes): Option<Bytes> {
    if s == [] then Some([])
    else if s[0] != BACKSLASH then Prepend(s[0], Decode(s[1..]))
    else if |s| < 2 then None
    else if s[1] == LOWER_U then
      if |s| < 6 then None else Prepend(QUESTION, Decode(s[6..]))
    else
      match Unescaped(s[1])
      case None => None
      case Some(c) => Prepend(c, Decode(s[2..]))
  }

  /** The pieces one byte is printed as: control characters other than newline are dropped. */
  function EscapeOf(c: byte): seq<Piece> {
    if c == QUOTE || c == BACKSLASH then [Pair(c)]
    else if c == NEWLINE then [Pair(LOWER_N)]
    else if c >= 0x20 then [Plain(c)]
    else []
  }

  function Escape(s: Bytes): seq<Piece> {
    if s == [] then [] else Escape(s[..|s| - 1]) + EscapeOf(s[|s| - 1])
  }

  predicate Dropped(c: byte) { c < 0x20 && c != NEWLINE }

  function Kept(s: Bytes): Bytes {
    if s == [] then [] else Kept(s[..|s| - 1]) + if Dropped(s[|s| - 1]) then [] else [s[|s| - 1]]
  }

  lemma {:induction false} EscapeIsGood(s: Bytes)
    ensures AllGood(Escape(s))
  {
    if s != [] {
      EscapeIsGood(s[..|s| - 1]);
    }
  }

  lemma {:induction false} RawConcat(ps: seq<Piece>, qs: seq<Piece>)
    ensures Raw(ps + qs) == Raw(ps) + Raw(qs)
  {
    if ps == [] {
      assert ps + qs == qs;
    } else {
      hide Raw, Piece.Text;
      RawConcat(ps[1..], qs);
      ConsConcat(ps, qs);
      RawCons(ps[0], ps[1..] + qs);
      RawCons(ps[0], ps[1..]);
      Join(ps[0].Text(), Raw(ps[1..]), Raw(qs));
    }
  }

  lemma ConsConcat(ps: seq<Piece>, qs: seq<Piece>)
    requires ps != []
    ensures ps + qs == [ps[0]] + (ps[1..] + qs) && ps == [ps[0]] + ps[1..]
  {
  }

  lemma RawCons(p: Piece, ps: seq<Piece>)
    ensures Raw([p] + ps) == p.Text() + Raw(ps)
  {
    assert ([p] + ps)[1..] == ps;
  }

  lemma DecodePiece(c: byte, u: Bytes)
    ensures Decode(Raw(EscapeOf(c)) + u) == if Dropped(c) then Decode(u) else Prepend(c, Decode(u))
  {
    var ps := EscapeOf(c);
    if Dropped(c) {
      assert Raw(ps) + u == u;
    } else {
      RawCons(ps[0], []);
      assert ps == [ps[0]] + [];
      assert Raw(ps) == ps[0].Text() + [] == ps[0].Text();
      assert (Raw(ps) + u)[|ps[0].Text()|..] == u;
    }
  }

  lemma {:induction false} DecodeOfEscape(s: Bytes, u: Bytes, r: Bytes)
    requires Decode(u) == Some(r)
    ensures Decode(Raw(Escape(s)) + u) == Some(Kept(s) + r)
    decreases |s|
  {
    if s == [] {
      assert Raw(Escape(s)) + u == u && Kept(s) + r == r;
    } else {
      var (front, c) := (s[..|s| - 1], s[|s| - 1]);
      hide Decode, Raw, Kept, Escape, EscapeOf, Dropped;
      DecodePiece(c, u);
      var r' := if Dropped(c) then r else [c] + r;
      DecodeOfEscape(front, Raw(EscapeOf(c)) + u, r');
      LastByte(s);
      RawConcat(Escape(front), EscapeOf(c));
      Join(Raw(Escape(front)), Raw(EscapeOf(c)), u);
      if !Dropped(c) { Join(Kept(front), [c], r); } else { assert Kept(front) + [] == Kept(front); }
    }
  }

  lemma LastByte(s: Bytes)
    requires s != []
    ensures var (front, c) := (s[..|s| - 1], s[|s| - 1]);
            Escape(s) == Escape(front) + EscapeOf(c) && Kept(s) == Kept(front) + if Dropped(c) then [] else [c]
  {
  }

  /** Decoding what was escaped gives the string without its dropped control characters. */
  lemma EscapeDecodes(s: Bytes)
    ensures Decode(Raw(Escape(s))) == Some(Kept(s))
  {
    DecodeOfEscape(s, [], []);
    assert Raw(Escape(s)) + [] == Raw(Escape(s)) && Kept(s) + [] == Kept(s);
  }

  predicate NoneDropped(s: Bytes) { forall i :: 0 <= i < |s| ==> !Dropped(s[i]) }

  /** So the round trip is faithful exactly for strings without them. */
  lemma RoundTripIff(s: Bytes)
    ensures Decode(Raw(Escape(s))) == Some(s) <==> NoneDropped(s)
  {
    EscapeDecodes(s);
    KeptLength(s);
  }

  lemma {:induction false} KeptLength(s: Bytes)
    ensures if NoneDropped(s) then Kept(s) == s else |Kept(s)| < |s|
  {
    if s != [] {
      var (front, c) := (s[..|s| - 1], s[|s| - 1]);
      KeptStep(s);
      LastDropped(s);
      hide *;
      KeptLength(front);
      assert s == front + [c];
    }
  }

  lemma KeptStep(s: Bytes)
    requires s != []
    ensures Kept(s) == Kept(s[..|s| - 1]) + if Dropped(s[|s| - 1]) then [] else [s[|s| - 1]]
  {
  }

  lemma LastDropped(s: Bytes)
    requires s != []
    ensures NoneDropped(s) <==> NoneDropped(s[..|s| - 1]) && !Dropped(s[|s| - 1])
  {
    hide Dropped;
    var front := s[..|s| - 1];
    if NoneDropped(front) && !Dropped(s[|s| - 1]) {
      forall i | 0 <= i < |s|
        ensures !Dropped(s[i])
      {
        if i < |front| { assert front[i] == s[i]; }
      }
    }
    if NoneDropped(s) {
      forall i | 0 <= i < |front|
        ensures !Dropped(front[i])
      {
        assert front[i] == s[i];
      }
    }
  }

  /** A string printed by the escaping rules is found again as a member and decodes to what was kept of it. */
  lemma PrintedStringReadsBack(space: Bytes, ms: Members, key: Bytes, s: Bytes, rest: Bytes)
    requires AllSpace(space) && GoodMembers(ms) && Lookup(ms, key) == Some(Str(Escape(s)))
    ensures var json := space + (Text(Obj(ms)) + rest);
            var r := ObjectFind(json, key);
            && r.Some? && r.value.isString && r.value.off + r.value.len <= |json|
            && Decode(json[r.value.off..r.value.off + r.value.len]) == Some(Kept(s))
  {
    hide Text, Raw, Escape, Kept, Lookup, ObjectFind, Decode, FindsExactly, AllSpace, GoodMembers;
    assert Good(Obj(ms));
    ObjectFindIsExact(space, Obj(ms), key, rest);
    EscapeDecodes(s);
    HoldsString(space + (Text(Obj(ms)) + rest), ObjectFind(space + (Text(Obj(ms)) + rest), key), Escape(s));
  }

  lemma HoldsString(json: Bytes, r: Option<Span>, ps: seq<Piece>)
    requires FindsExactly(json, r, Some(Str(ps)))
    ensures r.Some? && r.value.isString && r.value.off + r.value.len <= |json|
    ensures json[r.value.off..r.value.off + r.value.len] == Raw(ps)
  {
    hide Raw;
  }
}

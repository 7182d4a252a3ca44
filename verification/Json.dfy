/** JSON texts as trees with their layout, and what a scanner that counts only one kind of
    bracket makes of them. */
module Json {
  import opened Machine

  const QUOTE: byte := 34
  const BACKSLASH: byte := 92
  const OPEN_BRACE: byte := 123
  const CLOSE_BRACE: byte := 125
  const OPEN_BRACKET: byte := 91
  const CLOSE_BRACKET: byte := 93
  const COMMA: byte := 44
  const COLON: byte := 58
  const LOWER_U: byte := 117
  const LOWER_N: byte := 110
  const NEWLINE: byte := 10
  const MINUS: byte := 45
  const PLUS: byte := 43
  const DOT: byte := 46
  const LOWER_E: byte := 101
  const UPPER_E: byte := 69
  const QUESTION: byte := 63
  const TRUE_WORD: Bytes := [116, 114, 117, 101]
  const FALSE_WORD: Bytes := [102, 97, 108, 115, 101]
  const NULL_WORD: Bytes := [110, 117, 108, 108]

  // ---------------------------------------------------------------------- the texts

  /** A piece of a string literal: a plain byte, a two-byte escape, or a \u escape. */
  datatype Piece = Plain(c: byte) | Pair(e: byte) | Unicode(h0: byte, h1: byte, h2: byte, h3: byte) {
    predicate Good() {
      match this
      case Plain(c) => c != QUOTE && c != BACKSLASH
      case Pair(e) => e != LOWER_U
      case Unicode(_, _, _, _) => true
    }

    function Text(): Bytes {
      match this
      case Plain(c) => [c]
      case Pair(e) => [BACKSLASH, e]
      case Unicode(h0, h1, h2, h3) => [BACKSLASH, LOWER_U, h0, h1, h2, h3]
    }
  }

  datatype Fraction = NoFraction | Fraction(digits: Bytes)
  datatype Exponent = NoExponent | Exponent(mark: byte, sign: Bytes, digits: Bytes)

  datatype Value =
    | Str(pieces: seq<Piece>)
    | Num(minus: bool, whole: Bytes, fraction: Fraction, exponent: Exponent)
    | Word(word: Bytes)
    | EmptyArr(space: Bytes)
    | Arr(items: Items)
    | EmptyObj(space: Bytes)
    | Obj(members: Members)

  /** Array elements with the white space around them; commas in between. */
  datatype Items = Item(before: Bytes, value: Value, after: Bytes) | Items(before: Bytes, value: Value, after: Bytes, more: Items)

  datatype Members =
    | Member(before: Bytes, key: seq<Piece>, afterKey: Bytes, beforeValue: Bytes, value: Value, after: Bytes)
    | Members(before: Bytes, key: seq<Piece>, afterKey: Bytes, beforeValue: Bytes, value: Value, after: Bytes, more: Members)

  predicate IsSpace(c: byte) { c == 32 || c == 9 || c == 10 || c == 13 }
  predicate IsDigit(c: byte) { 48 <= c <= 57 }

  predicate AllSpace(s: Bytes) { forall i :: 0 <= i < |s| ==> IsSpace(s[i]) }
  predicate AllDigits(s: Bytes) { forall i :: 0 <= i < |s| ==> IsDigit(s[i]) }
  predicate AllGood(ps: seq<Piece>) { forall i :: 0 <= i < |ps| ==> ps[i].Good() }

  /** Every text of RFC 8259, sections 2 to 7, and a few more: digits after a dot or an exponent mark
      may be missing, numbers may start with zeros, and string bytes are not restricted further. */
  predicate Good(v: Value) {
    match v
    case Str(ps) => AllGood(ps)
    case Num(_, whole, fraction, exponent) =>
      && AllDigits(whole) && whole != []
      && (fraction.Fraction? ==> AllDigits(fraction.digits))
      && (exponent.Exponent? ==>
            && (exponent.mark == LOWER_E || exponent.mark == UPPER_E)
            && (exponent.sign == [] || exponent.sign == [PLUS] || exponent.sign == [MINUS]) && AllDigits(exponent.digits))
    case Word(w) => w == TRUE_WORD || w == FALSE_WORD || w == NULL_WORD
    case EmptyArr(space) => AllSpace(space)
    case Arr(items) => GoodItems(items)
    case EmptyObj(space) => AllSpace(space)
    case Obj(members) => GoodMembers(members)
  }

  predicate GoodItems(xs: Items) {
    AllSpace(xs.before) && Good(xs.value) && AllSpace(xs.after) && (xs.Items? ==> GoodItems(xs.more))
  }

  predicate GoodMembers(ms: Members) {
    && AllSpace(ms.before) && AllGood(ms.key) && AllSpace(ms.afterKey) && AllSpace(ms.beforeValue)
    && Good(ms.value) && AllSpace(ms.after) && (ms.Members? ==> GoodMembers(ms.more))
  }

  function Raw(ps: seq<Piece>): Bytes {
    if ps == [] then [] else ps[0].Text() + Raw(ps[1..])
  }

  function Quoted(ps: seq<Piece>): Bytes {
    [QUOTE] + (Raw(ps) + [QUOTE])
  }

  function FractionText(f: Fraction): Bytes {
    if f.NoFraction? then [] else [DOT] + f.digits
  }

  function ExponentText(e: Exponent): Bytes {
    if e.NoExponent? then [] else [e.mark] + (e.sign + e.digits)
  }

  function NumberText(v: Value): Bytes
    requires v.Num?
  {
    (if v.minus then [MINUS] else []) + (v.whole + (FractionText(v.fraction) + ExponentText(v.exponent)))
  }

  function Text(v: Value): Bytes {
    match v
    case Str(ps) => Quoted(ps)
    case Num(_, _, _, _) => NumberText(v)
    case Word(w) => w
    case EmptyArr(space) => [OPEN_BRACKET] + (space + [CLOSE_BRACKET])
    case Arr(items) => [OPEN_BRACKET] + (ItemsText(items) + [CLOSE_BRACKET])
    case EmptyObj(space) => [OPEN_BRACE] + (space + [CLOSE_BRACE])
    case Obj(members) => [OPEN_BRACE] + (MembersText(members) + [CLOSE_BRACE])
  }

  function ItemsText(xs: Items): Bytes {
    xs.before + (Text(xs.value) + (xs.after + if xs.Items? then [COMMA] + ItemsText(xs.more) else []))
  }

  function MembersText(ms: Members): Bytes {
    ms.before + (Quoted(ms.key) + (ms.afterKey + ([COLON] + (ms.beforeValue + (Text(ms.value)
    + (ms.after + if ms.Members? then [COMMA] + MembersText(ms.more) else []))))))
  }

  // -------------------------------------------------- what the scanner does, on suffixes

  function Plus(n: nat, r: Option<nat>): Option<nat> {
    match r
    case None => None
    case Some(m) => Some(n + m)
  }

  /** How much of `s` follows an opening quote, up to and including the closing one. */
  function Skip(s: Bytes): (r: Option<nat>)
    ensures r.Some? ==> 0 < r.value <= |s| && s[r.value - 1] == QUOTE
  {
    if s == [] then None
    else if s[0] == QUOTE then Some(1)
    else if s[0] == BACKSLASH then
      if |s| < 2 then None
      else if s[1] == LOWER_U then
        if |s| < 6 then None else Plus(6, Skip(s[6..]))
      else Plus(2, Skip(s[2..]))
    else Plus(1, Skip(s[1..]))
  }

  function Closing(open: byte): byte {
    if open == OPEN_BRACE then CLOSE_BRACE else CLOSE_BRACKET
  }

  /** How much of `s` brings `depth` open brackets of one kind back to none. */
  function Balance(s: Bytes, depth: nat, open: byte): (r: Option<nat>)
    ensures r.Some? ==> r.value <= |s|
  {
    if depth == 0 then Some(0)
    else if s == [] then None
    else if s[0] == QUOTE then
      match Skip(s[1..])
      case None => None
      case Some(n) => Plus(1 + n, Balance(s[1 + n..], depth, open))
    else if s[0] == open then Plus(1, Balance(s[1..], depth + 1, open))
    else if s[0] == Closing(open) then Plus(1, Balance(s[1..], depth - 1, open))
    else Plus(1, Balance(s[1..], depth, open))
  }

  function Spaces(s: Bytes): (n: nat)
    ensures n <= |s|
    ensures n < |s| ==> !IsSpace(s[n])
  {
    if s == [] || !IsSpace(s[0]) then 0 else 1 + Spaces(s[1..])
  }

  function Digits(s: Bytes): (n: nat)
    ensures n <= |s|
  {
    if s == [] || !IsDigit(s[0]) then 0 else 1 + Digits(s[1..])
  }

  function FractionLen(s: Bytes): (n: nat)
    ensures n <= |s|
  {
    if s != [] && s[0] == DOT then 1 + Digits(s[1..]) else 0
  }

  function SignLen(s: Bytes): (n: nat)
    ensures n <= |s|
  {
    if s != [] && (s[0] == PLUS || s[0] == MINUS) then 1 else 0
  }

  function ExponentLen(s: Bytes): (n: nat)
    ensures n <= |s|
  {
    if s != [] && (s[0] == LOWER_E || s[0] == UPPER_E) then
      var k := SignLen(s[1..]);
      1 + k + Digits(s[1 + k..])
    else 0
  }

  function NumberLen(s: Bytes): (n: nat)
    ensures n <= |s|
  {
    var m := if s != [] && s[0] == MINUS then 1 else 0;
    var w := m + Digits(s[m..]);
    var f := w + FractionLen(s[w..]);
    f + ExponentLen(s[f..])
  }

  /** The length of the value that starts `s`, whose first byte is not white space. */
  function ValueLen(s: Bytes): (r: Option<nat>)
    ensures r.Some? ==> 0 < |s| && r.value <= |s|
    ensures r.Some? && s[0] == QUOTE ==> r.value >= 2 && s[r.value - 1] == QUOTE
  {
    if s == [] then None
    else if s[0] == QUOTE then Plus(1, Skip(s[1..]))
    else if s[0] == OPEN_BRACE || s[0] == OPEN_BRACKET then Plus(1, Balance(s[1..], 1, s[0]))
    else if s[0] == TRUE_WORD[0] then if TRUE_WORD <= s then Some(4) else None
    else if s[0] == FALSE_WORD[0] then if FALSE_WORD <= s then Some(5) else None
    else if s[0] == NULL_WORD[0] then if NULL_WORD <= s then Some(4) else None
    else if s[0] == MINUS || IsDigit(s[0]) then Some(NumberLen(s))
    else None
  }

  // ------------------------------------------------------------------ strings and space

  lemma SkipPiece(p: Piece, u: Bytes)
    requires p.Good()
    ensures Skip(p.Text() + u) == Plus(|p.Text()|, Skip(u))
  {
    assert (p.Text() + u)[|p.Text()|..] == u;
  }

  lemma SkipStep(p: Piece, raw: Bytes, rest: Bytes)
    requires p.Good() && Skip(raw + ([QUOTE] + rest)) == Some(|raw| + 1)
    ensures Skip((p.Text() + raw) + ([QUOTE] + rest)) == Some(|p.Text() + raw| + 1)
  {
    hide Skip, Piece.Text;
    SkipPiece(p, raw + ([QUOTE] + rest));
    Join(p.Text(), raw, [QUOTE] + rest);
  }

  lemma QuoteSkips(rest: Bytes)
    ensures Skip([] + ([QUOTE] + rest)) == Some(1)
  {
  }

  lemma {:induction false} RawSkips(ps: seq<Piece>, rest: Bytes)
    requires AllGood(ps)
    ensures Skip(Raw(ps) + ([QUOTE] + rest)) == Some(|Raw(ps)| + 1)
  {
    hide Skip, Piece.Text, Piece.Good;
    if ps == [] {
      QuoteSkips(rest);
    } else {
      RawSkips(ps[1..], rest);
      SkipStep(ps[0], Raw(ps[1..]), rest);
    }
  }

  lemma Join(a: Bytes, b: Bytes, rest: Bytes)
    ensures (a + b) + rest == a + (b + rest)
  {
  }

  lemma {:induction false} SpacesStop(a: Bytes, rest: Bytes)
    requires AllSpace(a) && (rest == [] || !IsSpace(rest[0]))
    ensures Spaces(a + rest) == |a| && (a + rest)[|a|..] == rest
  {
    if a == [] {
      assert a + rest == rest;
    } else {
      SpacesStop(a[1..], rest);
      assert (a + rest)[1..] == a[1..] + rest;
    }
  }

  lemma {:induction false} DigitsStop(a: Bytes, rest: Bytes)
    requires AllDigits(a) && (rest == [] || !IsDigit(rest[0]))
    ensures Digits(a + rest) == |a|
  {
    if a == [] {
      assert a + rest == rest;
    } else {
      DigitsStop(a[1..], rest);
      assert (a + rest)[1..] == a[1..] + rest;
    }
  }

  // ------------------------------------------------------------------- the bracket count

  /** A byte the count takes no notice of. */
  predicate Quiet(c: byte, open: byte) {
    c != QUOTE && c != open && c != Closing(open)
  }

  lemma {:induction false} PassQuiet(a: Bytes, rest: Bytes, depth: nat, open: byte)
    requires depth > 0 && forall i :: 0 <= i < |a| ==> Quiet(a[i], open)
    ensures Balance(a + rest, depth, open) == Plus(|a|, Balance(rest, depth, open))
  {
    if a == [] {
      assert a + rest == rest;
    } else {
      PassQuiet(a[1..], rest, depth, open);
      assert (a + rest)[1..] == a[1..] + rest;
    }
  }

  lemma PassQuoted(ps: seq<Piece>, rest: Bytes, depth: nat, open: byte)
    requires depth > 0 && AllGood(ps)
    ensures Balance(Quoted(ps) + rest, depth, open) == Plus(|Quoted(ps)|, Balance(rest, depth, open))
  {
    hide Skip, Raw, AllGood;
    RawSkips(ps, rest);
    QuotedIs(ps, rest);
    var s := Quoted(ps) + rest;
    BalanceAtQuote(s, depth, open);
  }

  lemma QuotedIs(ps: seq<Piece>, rest: Bytes)
    ensures var s := Quoted(ps) + rest;
            && s != [] && s[0] == QUOTE && s[1..] == Raw(ps) + ([QUOTE] + rest)
            && |Quoted(ps)| == |Raw(ps)| + 2 && s[|Raw(ps)| + 2..] == rest
  {
  }

  lemma BalanceAtQuote(s: Bytes, depth: nat, open: byte)
    requires depth > 0 && s != [] && s[0] == QUOTE && Skip(s[1..]).Some?
    ensures var n := Skip(s[1..]).value; Balance(s, depth, open) == Plus(1 + n, Balance(s[1 + n..], depth, open))
  {
    hide Skip;
  }

  predicate IsBracket(open: byte) { open == OPEN_BRACE || open == OPEN_BRACKET }

  lemma PassNumber(v: Value, rest: Bytes, depth: nat, open: byte)
    requires depth > 0 && IsBracket(open) && v.Num? && Good(v)
    ensures Balance(NumberText(v) + rest, depth, open) == Plus(|NumberText(v)|, Balance(rest, depth, open))
  {
    NumberIsQuiet(v, open);
    PassQuiet(NumberText(v), rest, depth, open);
  }

  lemma NumberIsQuiet(v: Value, open: byte)
    requires IsBracket(open) && v.Num? && Good(v)
    ensures forall i :: 0 <= i < |NumberText(v)| ==> Quiet(NumberText(v)[i], open)
  {
    var (a, b, c) := (if v.minus then [MINUS] else [], FractionText(v.fraction), ExponentText(v.exponent));
    assert forall i :: 0 <= i < |a| ==> Quiet(a[i], open);
    assert forall i :: 0 <= i < |v.whole| ==> Quiet(v.whole[i], open);
    assert forall i :: 0 <= i < |b| ==> Quiet(b[i], open);
    if v.exponent.Exponent? {
      assert forall i :: 0 <= i < |v.exponent.sign| ==> Quiet(v.exponent.sign[i], open);
    }
    assert forall i :: 0 <= i < |c| ==> Quiet(c[i], open);
  }

  lemma PassSpace(a: Bytes, rest: Bytes, depth: nat, open: byte)
    requires depth > 0 && IsBracket(open) && AllSpace(a)
    ensures Balance(a + rest, depth, open) == Plus(|a|, Balance(rest, depth, open))
  {
    PassQuiet(a, rest, depth, open);
  }

  /** What is enclosed in brackets of one kind passes, whichever kind is counted. */
  lemma PassEnclosed(a: byte, inside: Bytes, rest: Bytes, depth: nat, open: byte)
    requires depth > 0 && IsBracket(open) && IsBracket(a)
    requires forall d: nat :: d > 0 ==> Balance(inside + ([Closing(a)] + rest), d, open) == Plus(|inside|, Balance([Closing(a)] + rest, d, open))
    ensures var t := [a] + (inside + [Closing(a)]);
            Balance(t + rest, depth, open) == Plus(|t|, Balance(rest, depth, open))
  {
    hide Balance;
    var d := if a == open then depth + 1 else depth;
    BracketStep(Closing(a), rest, d, open);
    assert Balance(inside + ([Closing(a)] + rest), d, open) == Plus(|inside|, Balance([Closing(a)] + rest, d, open));
    BracketStep(a, inside + ([Closing(a)] + rest), depth, open);
    Join(inside, [Closing(a)], rest);
    Join([a], inside + [Closing(a)], rest);
  }

  lemma BracketStep(c: byte, u: Bytes, depth: nat, open: byte)
    requires depth > 0 && c != QUOTE && IsBracket(open)
    ensures Balance([c] + u, depth, open)
            == Plus(1, Balance(u, if c == open then depth + 1 else if c == Closing(open) then depth - 1 else depth, open))
  {
    assert ([c] + u)[1..] == u;
  }

  /** Any value, whatever it nests, leaves the count where it was. */
  lemma {:induction false} PassValue(v: Value, rest: Bytes, depth: nat, open: byte)
    requires depth > 0 && IsBracket(open) && Good(v)
    ensures Balance(Text(v) + rest, depth, open) == Plus(|Text(v)|, Balance(rest, depth, open))
    decreases v, 0
  {
    hide Balance, Plus, Quoted, NumberText, ItemsText, MembersText;
    match v
    case Str(ps) => PassQuoted(ps, rest, depth, open);
    case Num(_, _, _, _) => PassNumber(v, rest, depth, open);
    case Word(w) => PassQuiet(w, rest, depth, open);
    case EmptyArr(space) =>
      forall d: nat | d > 0
        ensures Balance(space + ([CLOSE_BRACKET] + rest), d, open) == Plus(|space|, Balance([CLOSE_BRACKET] + rest, d, open))
      {
        PassSpace(space, [CLOSE_BRACKET] + rest, d, open);
      }
      PassEnclosed(OPEN_BRACKET, space, rest, depth, open);
    case Arr(items) =>
      forall d: nat | d > 0
        ensures Balance(ItemsText(items) + ([CLOSE_BRACKET] + rest), d, open)
                == Plus(|ItemsText(items)|, Balance([CLOSE_BRACKET] + rest, d, open))
      {
        PassItems(items, [CLOSE_BRACKET] + rest, d, open);
      }
      PassEnclosed(OPEN_BRACKET, ItemsText(items), rest, depth, open);
    case EmptyObj(space) =>
      forall d: nat | d > 0
        ensures Balance(space + ([CLOSE_BRACE] + rest), d, open) == Plus(|space|, Balance([CLOSE_BRACE] + rest, d, open))
      {
        PassSpace(space, [CLOSE_BRACE] + rest, d, open);
      }
      PassEnclosed(OPEN_BRACE, space, rest, depth, open);
    case Obj(members) =>
      forall d: nat | d > 0
        ensures Balance(MembersText(members) + ([CLOSE_BRACE] + rest), d, open)
                == Plus(|MembersText(members)|, Balance([CLOSE_BRACE] + rest, d, open))
      {
        PassMembers(members, [CLOSE_BRACE] + rest, d, open);
      }
      PassEnclosed(OPEN_BRACE, MembersText(members), rest, depth, open);
  }

  /** Parts that pass one after the other pass together. */
  lemma PassBoth(a: Bytes, b: Bytes, rest: Bytes, depth: nat, open: byte)
    requires Balance(a + (b + rest), depth, open) == Plus(|a|, Balance(b + rest, depth, open))
    requires Balance(b + rest, depth, open) == Plus(|b|, Balance(rest, depth, open))
    ensures Balance((a + b) + rest, depth, open) == Plus(|a + b|, Balance(rest, depth, open))
  {
    hide Balance;
    Join(a, b, rest);
  }

  lemma {:induction false} PassItems(xs: Items, rest: Bytes, depth: nat, open: byte)
    requires depth > 0 && IsBracket(open) && GoodItems(xs)
    ensures Balance(ItemsText(xs) + rest, depth, open) == Plus(|ItemsText(xs)|, Balance(rest, depth, open))
    decreases xs, 1
  {
    hide Balance, Plus, Text;
    var tail := if xs.Items? then [COMMA] + ItemsText(xs.more) else [];
    if xs.Items? {
      PassItems(xs.more, rest, depth, open);
      PassQuiet([COMMA], ItemsText(xs.more) + rest, depth, open);
      PassBoth([COMMA], ItemsText(xs.more), rest, depth, open);
    } else {
      PassQuiet([], rest, depth, open);
    }
    PassSpace(xs.after, tail + rest, depth, open);
    PassBoth(xs.after, tail, rest, depth, open);
    PassValue(xs.value, (xs.after + tail) + rest, depth, open);
    PassBoth(Text(xs.value), xs.after + tail, rest, depth, open);
    PassSpace(xs.before, (Text(xs.value) + (xs.after + tail)) + rest, depth, open);
    PassBoth(xs.before, Text(xs.value) + (xs.after + tail), rest, depth, open);
  }

  function MembersTail(ms: Members): Bytes {
    if ms.Members? then [COMMA] + MembersText(ms.more) else []
  }

  lemma {:induction false} PassMembers(ms: Members, rest: Bytes, depth: nat, open: byte)
    requires depth > 0 && IsBracket(open) && GoodMembers(ms)
    ensures Balance(MembersText(ms) + rest, depth, open) == Plus(|MembersText(ms)|, Balance(rest, depth, open))
    decreases ms, 1
  {
    hide Balance, Plus, Text, Quoted;
    var tail := MembersTail(ms);
    if ms.Members? {
      PassMembers(ms.more, rest, depth, open);
      PassQuiet([COMMA], MembersText(ms.more) + rest, depth, open);
      PassBoth([COMMA], MembersText(ms.more), rest, depth, open);
    } else {
      PassQuiet([], rest, depth, open);
    }
    hide MembersTail;
    PassSpace(ms.after, tail + rest, depth, open);
    PassBoth(ms.after, tail, rest, depth, open);
    PassValue(ms.value, (ms.after + tail) + rest, depth, open);
    PassBoth(Text(ms.value), ms.after + tail, rest, depth, open);
    var valued := Text(ms.value) + (ms.after + tail);
    PassKey(ms, valued, rest, depth, open);
  }

  lemma PassKey(ms: Members, valued: Bytes, rest: Bytes, depth: nat, open: byte)
    requires depth > 0 && IsBracket(open) && GoodMembers(ms)
    requires Balance(valued + rest, depth, open) == Plus(|valued|, Balance(rest, depth, open))
    ensures var t := ms.before + (Quoted(ms.key) + (ms.afterKey + ([COLON] + (ms.beforeValue + valued))));
            Balance(t + rest, depth, open) == Plus(|t|, Balance(rest, depth, open))
  {
    hide Balance, Plus, Text, Quoted, MembersText;
    PassSpace(ms.beforeValue, valued + rest, depth, open);
    PassBoth(ms.beforeValue, valued, rest, depth, open);
    var a := ms.beforeValue + valued;
    PassQuiet([COLON], a + rest, depth, open);
    PassBoth([COLON], a, rest, depth, open);
    var b := [COLON] + a;
    PassSpace(ms.afterKey, b + rest, depth, open);
    PassBoth(ms.afterKey, b, rest, depth, open);
    var c := ms.afterKey + b;
    PassQuoted(ms.key, c + rest, depth, open);
    PassBoth(Quoted(ms.key), c, rest, depth, open);
    var d := Quoted(ms.key) + c;
    PassSpace(ms.before, d + rest, depth, open);
    PassBoth(ms.before, d, rest, depth, open);
  }

  // ---------------------------------------------------------------- the scanner is exact

  /** What may follow a value: nothing, white space, a comma or a closing bracket. */
  predicate Delimits(rest: Bytes) {
    rest == [] || IsSpace(rest[0]) || rest[0] == COMMA || rest[0] == CLOSE_BRACE || rest[0] == CLOSE_BRACKET
  }

  lemma Slices(a: Bytes, b: Bytes, c: Bytes, rest: Bytes)
    ensures var s := a + (b + (c + rest));
            s[|a|..] == b + (c + rest) && s[|a| + |b|..] == c + rest && s[|a| + |b| + |c|..] == rest
  {
  }

  lemma NumberScanned(v: Value, rest: Bytes)
    requires v.Num? && Good(v) && Delimits(rest)
    ensures NumberLen(NumberText(v) + rest) == |NumberText(v)|
  {
    hide Digits, FractionLen, ExponentLen, FractionText, ExponentText, NumberLen;
    var (m, f, e) := (if v.minus then [MINUS] else [], FractionText(v.fraction), ExponentText(v.exponent));
    ExponentScanned(v.exponent, rest);
    ExponentStarts(v.exponent, rest);
    FractionScanned(v.fraction, e + rest);
    FractionStarts(v.fraction, e + rest);
    DigitsStop(v.whole, f + (e + rest));
    NumberParts(v.minus, v.whole, f, e, rest);
    Join(m, v.whole + (f + e), rest);
    Join(v.whole, f + e, rest);
    Join(f, e, rest);
  }

  lemma NumberParts(minus: bool, whole: Bytes, f: Bytes, e: Bytes, rest: Bytes)
    requires whole != [] && IsDigit(whole[0]) && Digits(whole + (f + (e + rest))) == |whole|
    requires FractionLen(f + (e + rest)) == |f| && ExponentLen(e + rest) == |e|
    ensures var m := if minus then [MINUS] else [];
            NumberLen(m + (whole + (f + (e + rest)))) == |m| + |whole| + |f| + |e|
  {
    hide Digits, FractionLen, ExponentLen;
    var m := if minus then [MINUS] else [];
    Slices(m, whole, f, e + rest);
  }

  lemma ExponentStarts(e: Exponent, rest: Bytes)
    requires Delimits(rest) && (e.Exponent? ==> e.mark == LOWER_E || e.mark == UPPER_E)
    ensures var s := ExponentText(e) + rest; s == [] || (!IsDigit(s[0]) && s[0] != DOT)
  {
  }

  lemma FractionStarts(f: Fraction, rest: Bytes)
    requires rest == [] || !IsDigit(rest[0])
    ensures var s := FractionText(f) + rest; s == [] || !IsDigit(s[0])
  {
  }

  lemma FractionScanned(f: Fraction, rest: Bytes)
    requires (f.Fraction? ==> AllDigits(f.digits)) && (rest == [] || (!IsDigit(rest[0]) && rest[0] != DOT))
    ensures FractionLen(FractionText(f) + rest) == |FractionText(f)|
  {
    hide Digits, AllDigits;
    if f.Fraction? {
      DigitsStop(f.digits, rest);
      assert (FractionText(f) + rest)[1..] == f.digits + rest;
    } else {
      assert FractionText(f) + rest == rest;
    }
  }

  lemma ExponentScanned(e: Exponent, rest: Bytes)
    requires Delimits(rest)
    requires e.Exponent? ==> (e.mark == LOWER_E || e.mark == UPPER_E) && (e.sign == [] || e.sign == [PLUS] || e.sign == [MINUS])
                             && AllDigits(e.digits)
    ensures ExponentLen(ExponentText(e) + rest) == |ExponentText(e)|
  {
    hide Digits, SignLen, ExponentLen;
    if e.Exponent? {
      DigitsStop(e.digits, rest);
      if e.digits != [] { assert (e.digits + rest)[0] == e.digits[0]; }
      SignScanned(e.sign, e.digits + rest);
      Join([e.mark], e.sign + e.digits, rest);
      Join(e.sign, e.digits, rest);
      ExponentParts(e.mark, e.sign, e.digits, rest);
    } else {
      assert ExponentText(e) + rest == rest;
      NoExponentHere(rest);
    }
  }

  lemma NoExponentHere(rest: Bytes)
    requires Delimits(rest)
    ensures ExponentLen(rest) == 0
  {
  }

  lemma ExponentParts(mark: byte, sign: Bytes, digits: Bytes, rest: Bytes)
    requires mark == LOWER_E || mark == UPPER_E
    requires SignLen(sign + (digits + rest)) == |sign| && Digits(digits + rest) == |digits|
    ensures ExponentLen([mark] + (sign + (digits + rest))) == 1 + |sign| + |digits|
  {
    hide SignLen, Digits;
    Slices([mark], sign, digits, rest);
  }

  lemma SignScanned(sign: Bytes, rest: Bytes)
    requires sign == [] || sign == [PLUS] || sign == [MINUS]
    requires sign == [] ==> rest == [] || (rest[0] != PLUS && rest[0] != MINUS)
    ensures SignLen(sign + rest) == |sign|
  {
    if sign == [] { assert sign + rest == rest; }
  }

  lemma ClosesAtEnd(rest: Bytes, open: byte)
    requires IsBracket(open)
    ensures Balance([Closing(open)] + rest, 1, open) == Some(1)
  {
    assert ([Closing(open)] + rest)[1..] == rest;
  }

  lemma EnclosedScanned(a: byte, inside: Bytes, rest: Bytes)
    requires IsBracket(a)
    requires Balance(inside + ([Closing(a)] + rest), 1, a) == Plus(|inside|, Balance([Closing(a)] + rest, 1, a))
    ensures var t := [a] + (inside + [Closing(a)]); ValueLen(t + rest) == Some(|t|)
  {
    hide Balance;
    ClosesAtEnd(rest, a);
    var s := ([a] + (inside + [Closing(a)])) + rest;
    assert s[1..] == inside + ([Closing(a)] + rest);
  }

  lemma QuotedScanned(ps: seq<Piece>, rest: Bytes)
    requires AllGood(ps)
    ensures ValueLen(Quoted(ps) + rest) == Some(|Quoted(ps)|)
  {
    hide Skip;
    RawSkips(ps, rest);
    assert (Quoted(ps) + rest)[1..] == Raw(ps) + ([QUOTE] + rest);
  }

  lemma NumberValue(v: Value, rest: Bytes)
    requires v.Num? && Good(v) && Delimits(rest)
    ensures ValueLen(NumberText(v) + rest) == Some(|NumberText(v)|)
  {
    hide NumberLen, FractionText, ExponentText;
    NumberScanned(v, rest);
    assert v.whole[0] == (v.whole + (FractionText(v.fraction) + ExponentText(v.exponent)))[0];
  }

  lemma WordScanned(w: Bytes, rest: Bytes)
    requires w == TRUE_WORD || w == FALSE_WORD || w == NULL_WORD
    ensures ValueLen(w + rest) == Some(|w|)
  {
    assert w <= w + rest;
  }

  /** The scanner stops exactly at the end of the value, at any nesting depth, although it
      counts only one kind of bracket. */
  lemma ScanIsExact(v: Value, rest: Bytes)
    requires Good(v) && Delimits(rest)
    ensures ValueLen(Text(v) + rest) == Some(|Text(v)|)
  {
    hide Balance, ValueLen, ItemsText, MembersText, NumberText, Quoted;
    match v
    case Str(ps) => QuotedScanned(ps, rest);
    case Num(_, _, _, _) => NumberValue(v, rest);
    case Word(w) => WordScanned(w, rest);
    case EmptyArr(space) =>
      PassSpace(space, [CLOSE_BRACKET] + rest, 1, OPEN_BRACKET);
      EnclosedScanned(OPEN_BRACKET, space, rest);
    case Arr(items) =>
      PassItems(items, [CLOSE_BRACKET] + rest, 1, OPEN_BRACKET);
      EnclosedScanned(OPEN_BRACKET, ItemsText(items), rest);
    case EmptyObj(space) =>
      PassSpace(space, [CLOSE_BRACE] + rest, 1, OPEN_BRACE);
      EnclosedScanned(OPEN_BRACE, space, rest);
    case Obj(members) =>
      PassMembers(members, [CLOSE_BRACE] + rest, 1, OPEN_BRACE);
      EnclosedScanned(OPEN_BRACE, MembersText(members), rest);
  }

  lemma TextStarts(v: Value)
    requires Good(v)
    ensures Text(v) != [] && !IsSpace(Text(v)[0]) && Text(v)[0] != CLOSE_BRACKET && Text(v)[0] != CLOSE_BRACE
    ensures Text(v)[0] == QUOTE <==> v.Str?
  {
  }
}

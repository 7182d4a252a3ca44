/** The JSON reader's loops over a buffer and a position, and the escaping printer. */
module JsonReader {
  import opened Machine
  import opened Json
  import opened JsonSpans

  lemma Drop(buf: Bytes, a: nat, b: nat)
    requires a + b <= |buf|
    ensures buf[a..][b..] == buf[a + b..]
  {
  }

  lemma DropSlice(buf: Bytes, a: nat, i: nat, j: nat)
    requires i <= j && a + j <= |buf|
    ensures buf[a..][i..j] == buf[a + i..a + j]
  {
  }

  // ----------------------------------------------------------------------- scanning

  lemma SkipAt(buf: Bytes, p: nat)
    requires p < |buf|
    ensures Skip(buf[p..]) ==
            if buf[p] == QUOTE then Some(1)
            else if buf[p] == BACKSLASH then
              if p + 1 >= |buf| then None
              else if buf[p + 1] == LOWER_U then if p + 6 > |buf| then None else Plus(6, Skip(buf[p + 6..]))
              else Plus(2, Skip(buf[p + 2..]))
            else Plus(1, Skip(buf[p + 1..]))
  {
    var s := buf[p..];
    if |s| >= 6 { Drop(buf, p, 6); }
    if |s| >= 2 { Drop(buf, p, 2); }
    Drop(buf, p, 1);
  }

  /** One past the closing quote of the literal at `start`, or -1. */
  method SkipString(buf: Bytes, start: nat) returns (r: int)
    ensures r == if start < |buf| && buf[start] == QUOTE && Skip(buf[start + 1..]).Some?
                 then start + 1 + Skip(buf[start + 1..]).value else -1
  {
    hide Skip;
    if start >= |buf| || buf[start] != QUOTE { return -1; }
    var pos := start + 1;
    while pos < |buf|
      invariant start < pos <= |buf|
      invariant Skip(buf[start + 1..]) == Plus(pos - start - 1, Skip(buf[pos..]))
    {
      SkipAt(buf, pos);
      if buf[pos] == QUOTE { return pos + 1; }
      if buf[pos] == BACKSLASH {
        if pos + 1 >= |buf| { return -1; }
        if buf[pos + 1] == LOWER_U {
          if pos + 6 > |buf| { return -1; }
          pos := pos + 6;
        } else {
          pos := pos + 2;
        }
        continue;
      }
      pos := pos + 1;
    }
    assert buf[pos..] == [];
    NothingToSkip();
    return -1;
  }

  lemma NothingToSkip()
    ensures Skip([]) == None
  {
  }

  method SkipSpace(buf: Bytes, start: nat) returns (pos: nat)
    requires start <= |buf|
    ensures start <= pos <= |buf| && buf[pos..] == Trim(buf[start..])
    ensures pos < |buf| ==> !IsSpace(buf[pos])
  {
    pos := start;
    while pos < |buf| && IsSpace(buf[pos])
      invariant start <= pos <= |buf|
      invariant Spaces(buf[start..]) == pos - start + Spaces(buf[pos..])
    {
      Drop(buf, pos, 1);
      pos := pos + 1;
    }
    assert Spaces(buf[pos..]) == 0;
    Drop(buf, start, pos - start);
  }

  method SkipDigits(buf: Bytes, start: nat) returns (pos: nat)
    requires start <= |buf|
    ensures pos == start + Digits(buf[start..])
  {
    pos := start;
    while pos < |buf| && IsDigit(buf[pos])
      invariant start <= pos <= |buf|
      invariant Digits(buf[start..]) == pos - start + Digits(buf[pos..])
    {
      Drop(buf, pos, 1);
      pos := pos + 1;
    }
    assert Digits(buf[pos..]) == 0;
  }

  method SkipFraction(buf: Bytes, start: nat) returns (pos: nat)
    requires start <= |buf|
    ensures pos == start + FractionLen(buf[start..])
  {
    hide Digits;
    pos := start;
    if pos < |buf| && buf[pos] == DOT {
      Drop(buf, start, 1);
      pos := SkipDigits(buf, pos + 1);
    }
  }

  method SkipExponent(buf: Bytes, start: nat) returns (pos: nat)
    requires start <= |buf|
    ensures pos == start + ExponentLen(buf[start..])
  {
    hide Digits;
    pos := start;
    if pos < |buf| && (buf[pos] == LOWER_E || buf[pos] == UPPER_E) {
      pos := pos + 1;
      Drop(buf, start, 1);
      if pos < |buf| && (buf[pos] == PLUS || buf[pos] == MINUS) { pos := pos + 1; }
      assert pos == start + 1 + SignLen(buf[start + 1..]);
      Drop(buf, start, pos - start);
      pos := SkipDigits(buf, pos);
    }
  }

  method SkipNumber(buf: Bytes, start: nat) returns (pos: nat)
    requires start < |buf|
    ensures pos == start + NumberLen(buf[start..])
  {
    hide Digits, FractionLen, ExponentLen;
    pos := start;
    if buf[pos] == MINUS { pos := pos + 1; }
    Drop(buf, start, pos - start);
    pos := SkipDigits(buf, pos);
    Drop(buf, start, pos - start);
    pos := SkipFraction(buf, pos);
    Drop(buf, start, pos - start);
    pos := SkipExponent(buf, pos);
  }

  lemma BalanceAt(buf: Bytes, p: nat, depth: nat, open: byte)
    requires p < |buf| && depth > 0
    ensures Balance(buf[p..], depth, open) ==
            if buf[p] == QUOTE then
              var r := Skip(buf[p + 1..]);
              if r.Some? then Plus(1 + r.value, Balance(buf[p + 1 + r.value..], depth, open)) else None
            else Plus(1, Balance(buf[p + 1..], if buf[p] == open then depth + 1 else if buf[p] == Closing(open) then depth - 1 else depth, open))
  {
    hide Skip;
    Drop(buf, p, 1);
    var r := Skip(buf[p + 1..]);
    if r.Some? { Drop(buf, p, 1 + r.value); }
  }

  /** The bracket loop: nested values are passed by counting only this kind of bracket. */
  method SkipBrackets(buf: Bytes, start: nat) returns (r: int)
    requires start < |buf| && IsBracket(buf[start])
    ensures var b := Balance(buf[start + 1..], 1, buf[start]); r == if b.Some? then start + 1 + b.value else -1
  {
    hide Balance, Skip;
    var open := buf[start];
    var close := if open == OPEN_BRACE then CLOSE_BRACE else CLOSE_BRACKET;
    var depth: nat := 1;
    var pos := start + 1;
    while pos < |buf| && depth > 0
      invariant start < pos <= |buf|
      invariant Balance(buf[start + 1..], 1, open) == Plus(pos - start - 1, Balance(buf[pos..], depth, open))
      decreases |buf| - pos
    {
      BalanceAt(buf, pos, depth, open);
      if buf[pos] == QUOTE {
        var s := SkipString(buf, pos);
        if s < 0 { return -1; }
        pos := s;
        continue;
      }
      if buf[pos] == open {
        depth := depth + 1;
      } else if buf[pos] == close {
        depth := depth - 1;
      }
      pos := pos + 1;
    }
    BalanceEnds(buf[pos..], depth, open);
    return if depth == 0 then pos else -1;
  }

  lemma BalanceEnds(s: Bytes, depth: nat, open: byte)
    requires s == [] || depth == 0
    ensures Balance(s, depth, open) == if depth == 0 then Some(0) else None
  {
  }

  /** One past the value that starts at or after `start`, or -1; and whether it is a string. */
  method ScanValue(buf: Bytes, start: nat) returns (r: int, isString: bool)
    requires start <= |buf|
    ensures var t := Trim(buf[start..]);
            && (r == if ValueLen(t).Some? then |buf| - |t| + ValueLen(t).value else -1)
            && (isString <==> Starts(t, QUOTE))
  {
    hide Skip, Balance, NumberLen, Trim;
    isString := false;
    var pos := SkipSpace(buf, start);
    if pos >= |buf| { return -1, false; }
    var ch := buf[pos];
    var t := buf[pos..];
    Drop(buf, pos, 1);
    if ch == QUOTE {
      r := SkipString(buf, pos);
      return r, true;
    }
    if ch == OPEN_BRACE || ch == OPEN_BRACKET {
      r := SkipBrackets(buf, pos);
      return r, false;
    }
    if ch == TRUE_WORD[0] {
      WordAt(buf, pos, TRUE_WORD);
      return if pos + 4 <= |buf| && buf[pos..pos + 4] == TRUE_WORD then pos + 4 else -1, false;
    }
    if ch == FALSE_WORD[0] {
      WordAt(buf, pos, FALSE_WORD);
      return if pos + 5 <= |buf| && buf[pos..pos + 5] == FALSE_WORD then pos + 5 else -1, false;
    }
    if ch == NULL_WORD[0] {
      WordAt(buf, pos, NULL_WORD);
      return if pos + 4 <= |buf| && buf[pos..pos + 4] == NULL_WORD then pos + 4 else -1, false;
    }
    if ch == MINUS || IsDigit(ch) {
      NumberNotEmpty(t);
      r := SkipNumber(buf, pos);
      return if r == pos then -1 else r, false;
    }
    return -1, false;
  }

  lemma WordAt(buf: Bytes, pos: nat, w: Bytes)
    requires pos <= |buf|
    ensures w <= buf[pos..] <==> pos + |w| <= |buf| && buf[pos..pos + |w|] == w
  {
    if pos + |w| <= |buf| {
      assert buf[pos..][..|w|] == buf[pos..pos + |w|];
    }
  }

  lemma NumberNotEmpty(s: Bytes)
    requires s != [] && (s[0] == MINUS || IsDigit(s[0]))
    ensures NumberLen(s) > 0
  {
  }

  // ------------------------------------------------------------- members and elements

  /** What follows a value, as a position. */
  method AfterValue(buf: Bytes, end: nat) returns (pos: nat, comma: bool, close: bool)
    requires end <= |buf|
    ensures end <= pos <= |buf| && buf[pos..] == Trim(buf[end..])
    ensures comma <==> Starts(buf[pos..], COMMA)
    ensures close <==> Starts(buf[pos..], CLOSE_BRACKET)
  {
    pos := SkipSpace(buf, end);
    comma := pos < |buf| && buf[pos] == COMMA;
    close := pos < |buf| && buf[pos] == CLOSE_BRACKET;
  }

  /** The key at the current position: its raw text, and where its value starts. */
  method ReadKey(buf: Bytes, start: nat) returns (ok: bool, raw: Bytes, value: nat)
    requires start <= |buf|
    ensures ok <==> KeyOf(buf[start..]).Some?
    ensures ok ==> start < value <= |buf| && KeyOf(buf[start..]) == Some(KeyPart(raw, buf[value..]))
  {
    hide Skip, Trim, KeyOf;
    raw, value := [], 0;
    var pos := SkipSpace(buf, start);
    NoKey(buf, start, pos);
    if pos >= |buf| || buf[pos] == CLOSE_BRACE { return false, raw, value; }
    if buf[pos] != QUOTE { return false, raw, value; }
    var keyEnd := SkipString(buf, pos);
    if keyEnd < 0 { return false, raw, value; }
    raw := buf[pos + 1..keyEnd - 1];
    var colon := SkipSpace(buf, keyEnd);
    KeyIs(buf, start, pos, keyEnd, colon);
    if colon >= |buf| || buf[colon] != COLON { return false, raw, value; }
    value := SkipSpace(buf, colon + 1);
    return true, raw, value;
  }

  /** Where the text begins with no complete string there is no key. */
  lemma NoKey(buf: Bytes, start: nat, pos: nat)
    requires start <= pos <= |buf| && buf[pos..] == Trim(buf[start..])
    ensures pos == |buf| || buf[pos] != QUOTE || Skip(buf[pos + 1..]).None? ==> KeyOf(buf[start..]).None?
  {
    hide Skip, Trim;
    if pos < |buf| { Drop(buf, pos, 1); }
  }

  /** A complete string is a key exactly when a colon follows. */
  lemma KeyIs(buf: Bytes, start: nat, pos: nat, keyEnd: nat, colon: nat)
    requires start <= pos < |buf| && buf[pos..] == Trim(buf[start..]) && buf[pos] == QUOTE
    requires Skip(buf[pos + 1..]) == Some(keyEnd - pos - 1) && pos < keyEnd <= colon <= |buf|
    requires buf[colon..] == Trim(buf[keyEnd..])
    ensures pos + 1 <= keyEnd - 1
    ensures KeyOf(buf[start..]) ==
            if colon < |buf| && buf[colon] == COLON then Some(KeyPart(buf[pos + 1..keyEnd - 1], Trim(buf[colon + 1..]))) else None
  {
    hide Skip, Trim;
    Drop(buf, pos, 1);
    Drop(buf, pos, keyEnd - pos);
    DropSlice(buf, pos, 1, keyEnd - 1 - pos);
    if colon < |buf| { Drop(buf, colon, 1); }
  }

  lemma TrimTwice(s: Bytes)
    ensures Trim(Trim(s)) == Trim(s)
  {
    var t := Trim(s);
    assert Spaces(t) == 0;
  }

  lemma KeyIsTrimmed(s: Bytes)
    requires KeyOf(s).Some?
    ensures Trim(KeyOf(s).value.rest) == KeyOf(s).value.rest
  {
    hide Skip, Trim;
    var t := Trim(s);
    var n := Skip(t[1..]).value;
    var u := Trim(t[1 + n..]);
    TrimTwice(u[1..]);
  }

  function ShiftBy(k: nat, r: Option<Span>): Option<Span> {
    match r
    case None => None
    case Some(sp) => Some(sp.Shift(k))
  }

  /** One unfolding of the member search. */
  lemma FindStep(s: Bytes, key: Bytes)
    ensures var r := FindFrom(s, key);
            match KeyOf(s)
            case None => r == None
            case Some(part) =>
              var l := ValueLen(part.rest);
              if l.None? then r == None
              else if part.raw == key then r == Some(SpanOf(|s| - |part.rest|, part.rest[0] == QUOTE, l.value))
              else
                var w := Trim(part.rest[l.value..]);
                r == if Starts(w, COMMA) then ShiftBy(|s| - |w| + 1, FindFrom(w[1..], key)) else None
  {
    hide KeyOf, ValueLen, Trim;
  }

  /** The span of the first member of the object whose raw key is `key`. */
  method Find(json: Bytes, key: Bytes) returns (r: Option<Span>)
    ensures r == ObjectFind(json, key)
  {
    hide FindFrom, Trim;
    var pos := SkipSpace(json, 0);
    ObjectAt(json, pos, key);
    if pos >= |json| || json[pos] != OPEN_BRACE { return None; }
    pos := pos + 1;
    ghost var whole := ObjectFind(json, key);
    while true
      invariant pos <= |json| && whole == ShiftBy(pos, FindFrom(json[pos..], key))
      decreases |json| - pos
    {
      var found, next;
      found, r, next := FindOne(json, pos, key);
      if found { return r; }
      pos := next;
    }
  }

  lemma ObjectAt(json: Bytes, pos: nat, key: Bytes)
    requires pos <= |json| && json[pos..] == Trim(json[0..])
    ensures ObjectFind(json, key) ==
            if pos < |json| && json[pos] == OPEN_BRACE then ShiftBy(pos + 1, FindFrom(json[pos + 1..], key)) else None
  {
    hide FindFrom;
    assert json[0..] == json;
    assert |json[pos..]| == |json| - Spaces(json);
  }

  /** One turn of the member loop: an answer, or where to go on. */
  method FindOne(json: Bytes, pos: nat, key: Bytes) returns (done: bool, r: Option<Span>, next: nat)
    requires pos <= |json|
    ensures done ==> r == ShiftBy(pos, FindFrom(json[pos..], key))
    ensures !done ==> pos < next <= |json| && ShiftBy(next, FindFrom(json[next..], key)) == ShiftBy(pos, FindFrom(json[pos..], key))
  {
    hide FindFrom, KeyOf, ValueLen, Trim;
    FindStep(json[pos..], key);
    r, next := None, 0;
    var ok, raw, value := ReadKey(json, pos);
    if !ok { return true, None, 0; }
    KeyIsTrimmed(json[pos..]);
    var end, isString := ScanValue(json, value);
    if end < 0 { return true, None, 0; }
    if raw == key {
      r := Some(if isString then Span(value + 1, end - 1 - (value + 1), true) else Span(value, end - value, false));
      return true, r, 0;
    }
    Drop(json, value, end - value);
    var at, comma, close := AfterValue(json, end);
    if !comma { return true, None, 0; }
    Drop(json, at, 1);
    return false, None, at + 1;
  }

  /** One unfolding of the listing. */
  lemma ElementsStep(s: Bytes)
    ensures Elements(s) ==
            match TurnOf(s)
            case Nothing => Listing([], false)
            case AtEnd => Listing([], true)
            case Element(sp, w) =>
              if Starts(w, COMMA) then
                Listing([sp] + Shifted(|s| - |w| + 1, Elements(w[1..]).spans), Elements(w[1..]).closed)
              else Listing([sp], Starts(w, CLOSE_BRACKET))
  {
    hide TurnOf;
  }

  /** One turn of the element loops. */
  method NextElement(json: Bytes, start: nat) returns (turn: Turn, end: nat)
    requires start <= |json|
    ensures turn == TurnOf(json[start..])
    ensures turn.Element? ==> start <= end <= |json| && turn.rest == Trim(json[end..])
  {
    hide ValueLen, Trim, TurnOf, SpanOf;
    end := 0;
    var pos := SkipSpace(json, start);
    NoElement(json, start, pos);
    if pos >= |json| { return Nothing, end; }
    if json[pos] == CLOSE_BRACKET { return AtEnd, end; }
    TrimTwice(json[start..]);
    var e, isString := ScanValue(json, pos);
    if e < 0 { return Nothing, end; }
    end := e;
    ElementIs(json, start, pos, end);
    var w := SkipSpace(json, end);
    turn := Element(SpanOf(pos - start, isString, end - pos), json[w..]);
  }

  /** Where the text ends, or a bracket closes, or no value begins, there is no element. */
  lemma NoElement(json: Bytes, start: nat, pos: nat)
    requires start <= pos <= |json| && json[pos..] == Trim(json[start..])
    ensures pos == |json| ==> TurnOf(json[start..]) == Nothing
    ensures pos < |json| && json[pos] == CLOSE_BRACKET ==> TurnOf(json[start..]) == AtEnd
    ensures pos < |json| && json[pos] != CLOSE_BRACKET && ValueLen(json[pos..]).None? ==> TurnOf(json[start..]) == Nothing
  {
    hide ValueLen, Trim;
  }

  lemma ElementIs(json: Bytes, start: nat, pos: nat, end: nat)
    requires start <= pos < |json| && json[pos..] == Trim(json[start..]) && json[pos] != CLOSE_BRACKET
    requires pos <= end <= |json| && ValueLen(json[pos..]) == Some(end - pos)
    ensures json[pos] == QUOTE ==> end - pos >= 2
    ensures TurnOf(json[start..]) == Element(SpanOf(pos - start, json[pos] == QUOTE, end - pos), Trim(json[end..]))
  {
    hide ValueLen, Trim, SpanOf;
    Drop(json, pos, end - pos);
    TurnIs(json[start..], json[pos..], Trim(json[end..]), end - pos);
  }

  /** The number of elements, or -1 unless the array is properly closed. */
  method ArrayCount(json: Bytes) returns (count: int)
    ensures count == if Listed(json).closed then |Listed(json).spans| else -1
  {
    hide Elements, TurnOf, Trim;
    var pos := SkipSpace(json, 0);
    ListedAt(json, pos);
    if pos >= |json| || json[pos] != OPEN_BRACKET { return -1; }
    pos := pos + 1;
    ghost var whole := Elements(json[pos..]);
    count := 0;
    while true
      invariant pos <= |json| && count >= 0
      invariant whole.closed == Elements(json[pos..]).closed && |whole.spans| == count + |Elements(json[pos..]).spans|
      decreases |json| - pos
    {
      ElementsStep(json[pos..]);
      var turn, end := NextElement(json, pos);
      if turn.Nothing? { return -1; }
      if turn.AtEnd? { return count; }
      count := count + 1;
      var at, comma, close := AfterValue(json, end);
      if comma {
        Drop(json, at, 1);
        pos := at + 1;
        continue;
      }
      return if close then count else -1;
    }
  }

  lemma ListedAt(json: Bytes, pos: nat)
    requires pos <= |json| && json[pos..] == Trim(json[0..])
    ensures Listed(json) == if pos < |json| && json[pos] == OPEN_BRACKET
                            then Listing(Shifted(pos + 1, Elements(json[pos + 1..]).spans), Elements(json[pos + 1..]).closed)
                            else Listing([], false)
  {
    hide Elements, Shifted;
    assert json[0..] == json;
    assert |json[pos..]| == |json| - Spaces(json);
  }

  /** The span of element `index`, if the scan gets that far. */
  method ArrayGet(json: Bytes, index: nat) returns (r: Option<Span>)
    ensures r == if index < |Listed(json).spans| then Some(Listed(json).spans[index]) else None
  {
    hide Elements, TurnOf, Trim, Shifted;
    var pos := SkipSpace(json, 0);
    ListedAt(json, pos);
    if pos >= |json| || json[pos] != OPEN_BRACKET { return None; }
    pos := pos + 1;
    ghost var whole := Shifted(pos, Elements(json[pos..]).spans);
    var i := 0;
    while true
      invariant pos <= |json| && i <= index
      invariant i <= |whole| && whole[i..] == Shifted(pos, Elements(json[pos..]).spans)
      decreases |json| - pos
    {
      ElementsStep(json[pos..]);
      var turn, end := NextElement(json, pos);
      if !turn.Element? {
        assert whole[i..] == [];
        return None;
      }
      ghost var (w, k) := (turn.rest, |json| - pos - |turn.rest| + 1);
      ghost var more := if Starts(w, COMMA) then Elements(w[1..]).spans else [];
      NothingShifted(k);
      SpansNext(whole, i, pos, k, turn.span, more);
      if i == index {
        return Some(turn.span.Shift(pos));
      }
      i := i + 1;
      var at, comma, close := AfterValue(json, end);
      if !comma { return None; }
      Drop(json, at, 1);
      pos := at + 1;
    }
  }

  lemma NothingShifted(k: nat)
    ensures Shifted(k, []) == []
  {
  }

  lemma SpansNext(whole: seq<Span>, i: nat, pos: nat, k: nat, sp: Span, more: seq<Span>)
    requires i <= |whole| && whole[i..] == Shifted(pos, [sp] + Shifted(k, more))
    ensures i < |whole| && whole[i] == sp.Shift(pos) && whole[i + 1..] == Shifted(pos + k, more)
  {
    assert whole[i..][0] == whole[i] && whole[i..][1..] == whole[i + 1..];
  }

  // -------------------------------------------------------------- strings in and out

  lemma DecodeAt(buf: Bytes, i: nat)
    requires i < |buf|
    ensures Decode(buf[i..]) ==
            if buf[i] != BACKSLASH then Prepend(buf[i], Decode(buf[i + 1..]))
            else if i + 1 >= |buf| then None
            else if buf[i + 1] == LOWER_U then if i + 6 > |buf| then None else Prepend(QUESTION, Decode(buf[i + 6..]))
            else if Unescaped(buf[i + 1]).None? then None
            else Prepend(Unescaped(buf[i + 1]).value, Decode(buf[i + 2..]))
  {
    var s := buf[i..];
    if |s| >= 6 { Drop(buf, i, 6); }
    if |s| >= 2 { Drop(buf, i, 2); }
    Drop(buf, i, 1);
  }

  function Append(a: Bytes, r: Option<Bytes>): Option<Bytes> {
    match r
    case None => None
    case Some(b) => Some(a + b)
  }

  lemma AppendOne(a: Bytes, c: byte, r: Option<Bytes>)
    ensures Append(a, Prepend(c, r)) == Append(a + [c], r)
  {
    if r.Some? { Join(a, [c], r.value); }
  }

  /** Decodes the inside of a literal into a buffer with a terminator, or answers -1 when it is
      malformed or does not fit. */
  method DecodeString(json: Bytes, out: array<byte>, cap: nat) returns (r: int)
    requires cap <= out.Length
    modifies out
    ensures r == if Decode(json).Some? && |Decode(json).value| < cap then |Decode(json).value| else -1
    ensures r >= 0 ==> out[..r] == Decode(json).value && out[r] == 0
  {
    hide Decode, Append, Prepend;
    var oi, i := 0, 0;
    assert json[0..] == json && out[..0] == [];
    AppendNothing(Decode(json));
    while i < |json|
      invariant i <= |json| && oi <= cap
      invariant Decode(json) == Append(out[..oi], Decode(json[i..]))
    {
      DecodeAt(json, i);
      AppendLength(out[..oi], Decode(json[i..]));
      var (c, step) := (json[i], 1);
      if json[i] == BACKSLASH {
        if i + 1 >= |json| { AppendNone(out[..oi]); return -1; }
        if json[i + 1] == LOWER_U {
          if i + 6 > |json| { AppendNone(out[..oi]); return -1; }
          c, step := QUESTION, 6;
        } else {
          if Unescaped(json[i + 1]).None? { AppendNone(out[..oi]); return -1; }
          c, step := Unescaped(json[i + 1]).value, 2;
        }
      }
      PrependLength(c, Decode(json[i + step..]));
      if oi >= cap { return -1; }
      AppendOne(out[..oi], c, Decode(json[i + step..]));
      ghost var was := out[..oi];
      out[oi] := c;
      assert out[..oi + 1] == was + [c];
      oi := oi + 1;
      i := i + step;
    }
    assert json[i..] == [];
    DecodedAll(out[..oi]);
    if oi >= cap { return -1; }
    ghost var was := out[..oi];
    out[oi] := 0;
    assert out[..oi] == was;
    return oi;
  }

  lemma AppendNothing(r: Option<Bytes>)
    ensures Append([], r) == r
  {
    if r.Some? { assert [] + r.value == r.value; }
  }

  lemma AppendNone(a: Bytes)
    ensures Append(a, None) == None
  {
  }

  lemma AppendLength(a: Bytes, r: Option<Bytes>)
    ensures Append(a, r).Some? ==> r.Some? && |Append(a, r).value| == |a| + |r.value|
  {
  }

  lemma PrependLength(c: byte, r: Option<Bytes>)
    ensures Prepend(c, r).Some? ==> |Prepend(c, r).value| > 0
  {
  }

  lemma DecodedAll(a: Bytes)
    ensures Append(a, Decode([])) == Some(a)
  {
    assert a + [] == a;
  }

  /** Prints the escaped form of a string without terminator into a buffer, stopping at a whole
      escape when the rest may not fit: the output is the escaped form of a prefix. */
  method EscapeInto(s: Bytes, out: array<byte>, cap: nat) returns (n: nat, ghost k: nat)
    requires 0 < cap <= out.Length
    modifies out
    ensures n < cap && k <= |s| && out[..n] == Raw(Escape(s[..k])) && out[n] == 0
    ensures k < |s| ==> n + 2 >= cap
    ensures |Raw(Escape(s))| + 2 < cap ==> k == |s|
  {
    hide Raw, Escape, EscapeOf;
    var oi, i := 0, 0;
    NoEscape(s);
    assert out[..0] == [];
    while i < |s| && oi + 2 < cap
      invariant i <= |s| && oi < cap && out[..oi] == Raw(Escape(s[..i]))
    {
      EscapeNext(s, i);
      ghost var was := out[..oi];
      if s[i] == QUOTE || s[i] == BACKSLASH {
        out[oi] := BACKSLASH;
        out[oi + 1] := s[i];
        oi := oi + 2;
        assert out[..oi] == was + [BACKSLASH, s[i]];
      } else if s[i] == NEWLINE {
        out[oi] := BACKSLASH;
        out[oi + 1] := LOWER_N;
        oi := oi + 2;
        assert out[..oi] == was + [BACKSLASH, LOWER_N];
      } else if s[i] >= 0x20 {
        out[oi] := s[i];
        oi := oi + 1;
        assert out[..oi] == was + [s[i]];
      }
      i := i + 1;
    }
    ghost var was := out[..oi];
    out[oi] := 0;
    assert out[..oi] == was;
    EscapeGrows(s, i);
    n, k := oi, i;
  }

  lemma NoEscape(s: Bytes)
    ensures Raw(Escape(s[..0])) == []
  {
  }

  lemma EscapeNext(s: Bytes, i: nat)
    requires i < |s|
    ensures var c := s[i];
            Raw(Escape(s[..i + 1])) == Raw(Escape(s[..i]))
            + (if c == QUOTE || c == BACKSLASH then [BACKSLASH, c]
               else if c == NEWLINE then [BACKSLASH, LOWER_N]
               else if c >= 0x20 then [c] else [])
  {
    assert s[..i + 1][..i] == s[..i];
    RawConcat(Escape(s[..i]), EscapeOf(s[i]));
    if EscapeOf(s[i]) != [] {
      var p := EscapeOf(s[i])[0];
      RawCons(p, []);
      assert [p] + [] == EscapeOf(s[i]);
      assert p.Text() + [] == p.Text();
    }
  }

  lemma {:induction false} EscapeGrows(s: Bytes, k: nat)
    requires k <= |s|
    ensures |Raw(Escape(s[..k]))| <= |Raw(Escape(s))|
    decreases |s| - k
  {
    hide Raw, Escape;
    if k < |s| {
      EscapeNext(s, k);
      EscapeGrows(s, k + 1);
    } else {
      assert s[..k] == s;
    }
  }
}

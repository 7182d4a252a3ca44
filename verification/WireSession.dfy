/** Senders that go on after a failed send, as the journal and the gate do: what their peer
    makes of it, and exactly when that is an initial part of what was sent. */
module WireSession {
  import opened Machine
  import opened Codec
  import opened WireFrame
  import Crc32

  // ---------------------------------------------------- messages read from bytes alone

  /** The message the bytes begin with, if they begin with a good frame. */
  ghost function FirstIn(x: Bytes): (r: Option<Message>)
    ensures r.Some? ==> HEADER_LEN + |r.value.payload| <= |x|
  {
    if |x| < HEADER_LEN || StatusOf(x[..HEADER_LEN]) != Ok then None
    else BodyIn(HeaderOf(x[..HEADER_LEN]).value, x[HEADER_LEN..])
  }

  ghost function BodyIn(h: Header, x: Bytes): (r: Option<Message>)
    ensures r.Some? ==> |r.value.payload| <= |x|
  {
    if h.payloadLen > |x| || Crc32.Crc(x[..h.payloadLen]) != h.crc then None
    else Some(Message(h.msgType, x[..h.payloadLen]))
  }

  ghost function FrameLength(m: Message): nat {
    HEADER_LEN + |m.payload|
  }

  /** Frame after frame, up to the first that is incomplete or bad. */
  ghost function Parsed(x: Bytes): seq<Message>
    decreases |x|
  {
    match FirstIn(x)
    case None => []
    case Some(m) => [m] + Parsed(x[FrameLength(m)..])
  }

  /** Whatever the network does, a receiver reads the bytes' first frame, or nothing and stays, or fails. */
  lemma DeliversFirst(c: Inbound, cap: nat)
    ensures var (r, d) := Delivered(c, cap);
            && (r.Frame? ==> FirstIn(c.rest) == Some(r.m) && d.rest == c.rest[FrameLength(r.m)..])
            && (r.NoneYet? ==> d.rest == c.rest)
  {
    hide HeaderOf, StatusOf, Receive, Crc32.Crc;
    Receives(c, HEADER_LEN, []);
    var (r, d) := Receive(c, HEADER_LEN, []);
    if r.Whole? {
      NoFront(c.rest[..HEADER_LEN]);
      if StatusOf(r.bytes) == Ok {
        GoodLength(r.bytes);
        var h := HeaderOf(r.bytes).value;
        Receives(d, h.payloadLen, []);
        var (b, e) := Receive(d, h.payloadLen, []);
        if b.Whole? {
          NoFront(d.rest[..h.payloadLen]);
          DropTwice(c.rest, HEADER_LEN, h.payloadLen);
        }
      }
    }
  }

  lemma NoFront(x: Bytes)
    ensures [] + x == x
  {
  }

  lemma DropTwice(x: Bytes, i: nat, j: nat)
    requires i + j <= |x|
    ensures x[i..][j..] == x[i + j..]
  {
  }

  /** So a session is an initial part of what the bytes say. */
  lemma {:induction false} SessionIsWithinParsed(c: Inbound, cap: nat)
    ensures Session(c, cap) <= Parsed(c.rest)
    decreases |c.net|
  {
    hide Delivered, FirstIn;
    DeliversFirst(c, cap);
    var (r, d) := Delivered(c, cap);
    if !r.Failed? { SessionIsWithinParsed(d, cap); }
  }

  lemma {:induction false} NeverIdle(c: Inbound, len: nat, got: Bytes)
    requires AllMove(c.net)
    ensures !Receive(c, len, got).0.Nothing?
    decreases |c.net|
  {
    if |got| < len && c.net != [] {
      var m := Least(c.net[0].n, Least(len - |got|, |c.rest|));
      if m > 0 { NeverIdle(Inbound(c.rest[m..], c.net[1..]), len, got + c.rest[..m]); }
    }
  }

  /** A receipt on a network that keeps moving bytes: whole if the bytes are there, lost if not. */
  lemma MovingReceipt(c: Inbound, len: nat)
    requires AllMove(c.net) && |c.net| >= |c.rest|
    ensures var (r, d) := Receive(c, len, []);
            if len <= |c.rest| then
              r == Whole(c.rest[..len]) && d.rest == c.rest[len..] && AllMove(d.net) && |d.net| >= |d.rest|
            else r == Lost
  {
    hide Receive, AllMove;
    Receives(c, len, []);
    NeverIdle(c, len, []);
    if len <= |c.rest| {
      ReceivesAll(c, len, []);
      NoFront(c.rest[..len]);
    }
  }

  lemma MovingDelivery(c: Inbound, cap: nat)
    requires AllMove(c.net) && |c.net| >= |c.rest| && cap >= MAX_PAYLOAD
    ensures var (r, d) := Delivered(c, cap);
            match FirstIn(c.rest)
            case None => r == Failed
            case Some(m) => r == Frame(m) && d.rest == c.rest[FrameLength(m)..] && AllMove(d.net) && |d.net| >= |d.rest|
  {
    hide HeaderOf, StatusOf, Receive, Crc32.Crc, AllMove;
    MovingReceipt(c, HEADER_LEN);
    var (r, d) := Receive(c, HEADER_LEN, []);
    if r.Whole? && StatusOf(r.bytes) == Ok {
      GoodLength(r.bytes);
      var h := HeaderOf(r.bytes).value;
      MovingReceipt(d, h.payloadLen);
      if h.payloadLen <= |d.rest| { DropTwice(c.rest, HEADER_LEN, h.payloadLen); }
    }
  }

  lemma GoodLength(b: Bytes)
    requires StatusOf(b) == Ok
    ensures HeaderOf(b).Some? && HeaderOf(b).value.payloadLen <= MAX_PAYLOAD
  {
    hide HeaderOf;
  }

  /** On a network that keeps moving bytes, with room for any payload, a session is all the bytes say. */
  lemma {:induction false} MovingSession(c: Inbound, cap: nat)
    requires AllMove(c.net) && |c.net| >= |c.rest| && cap >= MAX_PAYLOAD
    ensures Session(c, cap) == Parsed(c.rest)
    decreases |c.rest|
  {
    hide Delivered, FirstIn, AllMove;
    MovingDelivery(c, cap);
    var (r, d) := Delivered(c, cap);
    if r.Frame? { MovingSession(d, cap); }
  }

  function Moving(n: nat): (net: seq<Chance>)
    ensures |net| == n && AllMove(net)
  {
    seq(n, _ => Moves(1))
  }

  /** Bytes that some messages start read as an initial part of them. */
  lemma ParsedInOrder(x: Bytes, ms: seq<Message>)
    requires x <= StreamOf(ms)
    ensures Parsed(x) <= ms
  {
    hide Session, Parsed, StreamOf;
    var c := Inbound(x, Moving(|x|));
    MovingSession(c, MAX_PAYLOAD);
    ReceivedInOrder(c, MAX_PAYLOAD, ms);
  }

  lemma ParsedStream(ms: seq<Message>)
    requires forall i :: 0 <= i < |ms| ==> Sendable(ms[i])
    ensures Parsed(StreamOf(ms)) == ms
  {
    hide StreamOf, Parsed, Session;
    var c := Inbound(StreamOf(ms), Moving(|StreamOf(ms)|));
    MovingSession(c, MAX_PAYLOAD);
    EverythingArrives(c, MAX_PAYLOAD, ms);
  }

  // --------------------------------------------------- a sender that goes on regardless

  /** What the peer gets to see of a sender that ignores failed sends, and the waits left. */
  ghost function PostedOn(ms: seq<Message>, net: seq<Chance>): Bytes
    decreases |ms|
  {
    if ms == [] then []
    else if !Sendable(ms[0]) then PostedOn(ms[1..], net)
    else
      var (all, sent, left) := SendMessage(ms[0], net);
      sent + PostedOn(ms[1..], left)
  }

  /** The messages short enough to be sent at all. */
  function Sendables(ms: seq<Message>): (s: seq<Message>)
    ensures forall i :: 0 <= i < |s| ==> Sendable(s[i])
  {
    if ms == [] then [] else (if Sendable(ms[0]) then [ms[0]] else []) + Sendables(ms[1..])
  }

  /** Sends messages one after another on a connection, as a delivery thread does. */
  method SendOn(s: Socket, ms: seq<Message>)
    modifies s`outgoing, s`net
    ensures s.outgoing == old(s.outgoing) + PostedOn(ms, old(s.net))
  {
    hide SendMessage;
    ghost var (before, net) := (s.outgoing, s.net);
    assert ms[0..] == ms;
    for i := 0 to |ms|
      invariant before + PostedOn(ms, net) == s.outgoing + PostedOn(ms[i..], s.net)
    {
      assert ms[i..][1..] == ms[i + 1..] && ms[i..][0] == ms[i];
      ghost var (out, left) := (s.outgoing, s.net);
      var ok := s.SendFrame(ms[i].msgType, ms[i].payload);
      assert Message(ms[i].msgType, ms[i].payload) == ms[i];
      if Sendable(ms[i]) {
        Regroup(out, SendMessage(ms[i], left).1, PostedOn(ms[i + 1..], s.net));
      }
    }
    assert s.outgoing + [] == s.outgoing;
  }

  lemma Regroup(a: Bytes, b: Bytes, c: Bytes)
    ensures a + (b + c) == a + b + c
  {
  }

  // ------------------------------------------------- which bytes the peer can get to see

  /** Where each frame is cut off. */
  ghost predicate CutsOf(s: seq<Message>, ks: seq<nat>) {
    |s| == |ks| && forall i :: 0 <= i < |s| ==> Sendable(s[i]) && ks[i] <= |FrameOf(s[i])|
  }

  /** The frames of some messages, each cut off somewhere. */
  ghost function Torn(s: seq<Message>, ks: seq<nat>): Bytes
    requires CutsOf(s, ks)
  {
    if s == [] then [] else FrameOf(s[0])[..ks[0]] + Torn(s[1..], ks[1..])
  }

  lemma {:induction false} PostedOnIsTorn(ms: seq<Message>, net: seq<Chance>) returns (ks: seq<nat>)
    ensures CutsOf(Sendables(ms), ks) && PostedOn(ms, net) == Torn(Sendables(ms), ks)
    decreases |ms|
  {
    hide *;
    if ms == [] {
      ks := [];
      NothingPosted(net);
    } else {
      PostedStep(ms, net);
      if !Sendable(ms[0]) {
        ks := PostedOnIsTorn(ms[1..], net);
      } else {
        var (all, sent, left) := SendMessage(ms[0], net);
        SendsMessage(ms[0], net);
        var rest := PostedOnIsTorn(ms[1..], left);
        ks := [|sent|] + rest;
        TornCons(ms[0], |sent|, Sendables(ms[1..]), rest);
      }
    }
  }

  lemma NothingPosted(net: seq<Chance>)
    ensures PostedOn([], net) == [] && Sendables([]) == [] && CutsOf([], []) && Torn([], []) == []
  {
  }

  lemma PostedStep(ms: seq<Message>, net: seq<Chance>)
    requires ms != []
    ensures if !Sendable(ms[0]) then PostedOn(ms, net) == PostedOn(ms[1..], net) && Sendables(ms) == Sendables(ms[1..])
            else
              var (all, sent, left) := SendMessage(ms[0], net);
              PostedOn(ms, net) == sent + PostedOn(ms[1..], left) && Sendables(ms) == [ms[0]] + Sendables(ms[1..])
  {
    hide SendMessage;
    assert [] + Sendables(ms[1..]) == Sendables(ms[1..]);
  }

  lemma TornCons(m: Message, k: nat, s: seq<Message>, ks: seq<nat>)
    requires Sendable(m) && k <= |FrameOf(m)| && CutsOf(s, ks)
    ensures CutsOf([m] + s, [k] + ks) && Torn([m] + s, [k] + ks) == FrameOf(m)[..k] + Torn(s, ks)
  {
    hide FrameOf;
    assert ([m] + s)[1..] == s && ([k] + ks)[1..] == ks;
  }

  /** Waits that let exactly `k` bytes of a buffer out. */
  function To(buf: Bytes, k: nat): seq<Chance> {
    if k < |buf| then (if k == 0 then [Timeout] else [Moves(k), Timeout])
    else if buf == [] then [] else [Moves(|buf|)]
  }

  lemma SendTo(buf: Bytes, k: nat, net: seq<Chance>)
    requires k <= |buf|
    ensures Send(buf, To(buf, k) + net) == (k == |buf|, buf[..k], net)
  {
    var all := To(buf, k) + net;
    if k < |buf| {
      if k == 0 {
        assert all[1..] == net;
      } else {
        assert all[1..] == [Timeout] + net && ([Timeout] + net)[1..] == net;
        assert buf[..k] + [] == buf[..k];
      }
    } else if buf == [] {
      assert all == net;
    } else {
      assert all[1..] == net && buf[|buf|..] == [] && buf[..|buf|] + [] == buf[..|buf|];
    }
  }

  ghost function CutNet(m: Message, k: nat): seq<Chance>
    requires Sendable(m)
  {
    var head := HeaderImage(HeaderFor(m));
    if k < HEADER_LEN then To(head, k) else To(head, HEADER_LEN) + To(m.payload, k - HEADER_LEN)
  }

  lemma SendCut(m: Message, k: nat, net: seq<Chance>)
    requires Sendable(m) && k <= |FrameOf(m)|
    ensures SendMessage(m, CutNet(m, k) + net) == (k == |FrameOf(m)|, FrameOf(m)[..k], net)
  {
    hide Send, HeaderImage, To, Behind;
    SendBoth(HeaderImage(HeaderFor(m)), m.payload, k, net);
  }

  /** Sending one buffer and then another. */
  function Both(a: Bytes, b: Bytes, net: seq<Chance>): (bool, Bytes, seq<Chance>) {
    var (all, sent, left) := Send(a, net);
    if all then Behind(sent, Send(b, left)) else (false, sent, left)
  }

  lemma SendBoth(a: Bytes, b: Bytes, k: nat, net: seq<Chance>)
    requires k <= |a| + |b|
    ensures var waits := if k < |a| then To(a, k) else To(a, |a|) + To(b, k - |a|);
            Both(a, b, waits + net) == (k == |a| + |b|, (a + b)[..k], net)
  {
    hide Send, To;
    if k < |a| {
      SendTo(a, k, net);
      assert (a + b)[..k] == a[..k];
    } else {
      var rest := To(b, k - |a|) + net;
      SendTo(a, |a|, rest);
      SendTo(b, k - |a|, net);
      assert To(a, |a|) + To(b, k - |a|) + net == To(a, |a|) + rest;
      assert a[..|a|] == a && (a + b)[..k] == a + b[..k - |a|];
    }
  }

  /** A send that fails has moved nothing, all along. */
  ghost predicate Clean(ms: seq<Message>, net: seq<Chance>)
    decreases |ms|
  {
    if ms == [] then true
    else if !Sendable(ms[0]) then Clean(ms[1..], net)
    else
      var (all, sent, left) := SendMessage(ms[0], net);
      (all || sent == []) && Clean(ms[1..], left)
  }

  ghost predicate AllOrNone(s: seq<Message>, ks: seq<nat>)
    requires CutsOf(s, ks)
  {
    forall i :: 0 <= i < |s| ==> ks[i] == 0 || ks[i] == |FrameOf(s[i])|
  }

  /** Every way of cutting the frames happens on some network. */
  lemma {:induction false} TornIsPosted(ms: seq<Message>, ks: seq<nat>) returns (net: seq<Chance>)
    requires CutsOf(Sendables(ms), ks)
    ensures PostedOn(ms, net) == Torn(Sendables(ms), ks)
    ensures AllOrNone(Sendables(ms), ks) ==> Clean(ms, net)
    decreases |ms|
  {
    hide FrameOf, SendMessage, CutNet;
    if ms == [] {
      net := [];
    } else if !Sendable(ms[0]) {
      assert [] + Sendables(ms[1..]) == Sendables(ms[1..]);
      net := TornIsPosted(ms[1..], ks);
    } else {
      var (s, k) := (Sendables(ms[1..]), ks[0]);
      assert ([ms[0]] + s)[1..] == s && ks == [k] + ks[1..];
      assert CutsOf(s, ks[1..]);
      var rest := TornIsPosted(ms[1..], ks[1..]);
      net := CutNet(ms[0], k) + rest;
      SendCut(ms[0], k, rest);
    }
  }

  // ------------------------------------------------------------------- the conditions

  predicate AllAlike(s: seq<Message>) {
    forall i :: 0 <= i < |s| ==> s[i] == s[0]
  }

  /** However the frames are cut off, what is left never reads as a message that is not among them. */
  ghost predicate Unmistakable(s: seq<Message>)
    requires forall i :: 0 <= i < |s| ==> Sendable(s[i])
  {
    forall ks: seq<nat> | CutsOf(s, ks) :: Among(Parsed(Torn(s, ks)), s)
  }

  ghost predicate Among(ps: seq<Message>, s: seq<Message>) {
    forall p :: p in ps ==> p in s
  }

  /** Whatever both networks do and whatever the buffer holds, the peer receives an initial part of what could be sent. */
  ghost predicate InOrder(ms: seq<Message>) {
    forall sending, receiving, cap: nat :: Session(Inbound(PostedOn(ms, sending), receiving), cap) <= Sendables(ms)
  }

  /** The same over networks on which a send that fails moves nothing. */
  ghost predicate InOrderWhenClean(ms: seq<Message>) {
    forall sending, receiving, cap: nat :: Clean(ms, sending) ==>
      Session(Inbound(PostedOn(ms, sending), receiving), cap) <= Sendables(ms)
  }

  /** All that the bytes say is received in some session. */
  lemma SomeSession(x: Bytes) returns (receiving: seq<Chance>)
    ensures Session(Inbound(x, receiving), MAX_PAYLOAD) == Parsed(x)
  {
    hide Session, Parsed;
    receiving := Moving(|x|);
    MovingSession(Inbound(x, receiving), MAX_PAYLOAD);
  }

  // ------------------------------------------------------------------- different messages

  /** Everything cut away but one message. */
  function Only(s: seq<Message>, j: nat): (ks: seq<nat>)
    ensures |ks| == |s|
  {
    seq(|s|, i requires 0 <= i < |s| => if i == j then HEADER_LEN + |s[i].payload| else 0)
  }

  lemma {:induction false} NothingLeft(s: seq<Message>, ks: seq<nat>)
    requires CutsOf(s, ks) && forall i :: 0 <= i < |s| ==> ks[i] == 0
    ensures Torn(s, ks) == []
  {
    hide FrameOf;
    if s != [] { NothingLeft(s[1..], ks[1..]); }
  }

  lemma {:induction false} OnlyOneLeft(s: seq<Message>, j: nat, ks: seq<nat>)
    requires CutsOf(s, ks) && j < |s| && ks[j] == |FrameOf(s[j])|
    requires forall i :: 0 <= i < |s| && i != j ==> ks[i] == 0
    ensures Torn(s, ks) == FrameOf(s[j])
  {
    hide FrameOf;
    if j == 0 {
      NothingLeft(s[1..], ks[1..]);
      assert FrameOf(s[0])[..ks[0]] + [] == FrameOf(s[0]);
    } else {
      OnlyOneLeft(s[1..], j - 1, ks[1..]);
      assert FrameOf(s[0])[..0] + FrameOf(s[j]) == FrameOf(s[j]);
    }
  }

  lemma ParsedFrame(m: Message)
    requires Sendable(m)
    ensures Parsed(FrameOf(m)) == [m]
  {
    hide Parsed, FrameOf;
    ParsedStream([m]);
    assert StreamOf([m]) == FrameOf(m) + StreamOf([]) == FrameOf(m);
  }

  /** Two different messages: dropping all but the second is possible, on a network whose
      failures are clean. */
  lemma DifferentGetLost(ms: seq<Message>) returns (sending: seq<Chance>, receiving: seq<Chance>)
    requires !AllAlike(Sendables(ms))
    ensures Clean(ms, sending)
    ensures !(Session(Inbound(PostedOn(ms, sending), receiving), MAX_PAYLOAD) <= Sendables(ms))
  {
    var s := Sendables(ms);
    hide Session, Parsed, FrameOf, Clean, Torn, PostedOn;
    var j :| 0 <= j < |s| && s[j] != s[0];
    var ks := Only(s, j);
    OnlyOneLeft(s, j, ks);
    sending := TornIsPosted(ms, ks);
    receiving := SomeSession(Torn(s, ks));
    ParsedFrame(s[j]);
  }

  lemma DifferentNotInOrder(ms: seq<Message>)
    requires !AllAlike(Sendables(ms))
    ensures !InOrder(ms) && !InOrderWhenClean(ms)
  {
    hide Session, PostedOn, Clean;
    var sending, receiving := DifferentGetLost(ms);
    assert !(Session(Inbound(PostedOn(ms, sending), receiving), MAX_PAYLOAD) <= Sendables(ms));
  }

  // ------------------------------------------------------------------------ equal messages

  lemma {:induction false} TornLength(s: seq<Message>, ks: seq<nat>, n: nat)
    requires CutsOf(s, ks) && forall i :: 0 <= i < |s| ==> FrameLength(s[i]) == n
    ensures |Torn(s, ks)| <= |s| * n
  {
    hide FrameOf;
    if s != [] {
      TornLength(s[1..], ks[1..], n);
      assert |s| * n == n + |s[1..]| * n;
    }
  }

  lemma {:induction false} ParsedLength(x: Bytes, n: nat)
    requires forall p :: p in Parsed(x) ==> FrameLength(p) == n
    ensures |Parsed(x)| * n <= |x|
    decreases |x|
  {
    hide FirstIn;
    var r := FirstIn(x);
    if r.Some? {
      var rest := x[FrameLength(r.value)..];
      assert r.value in Parsed(x);
      forall p | p in Parsed(rest)
        ensures FrameLength(p) == n
      {
        assert p in Parsed(x);
      }
      ParsedLength(rest, n);
      assert |Parsed(x)| * n == n + |Parsed(rest)| * n;
    }
  }

  lemma Divides(a: nat, b: nat, n: nat)
    requires n > 0 && a * n <= b * n
    ensures a <= b
  {
  }

  /** Copies of one message whose frames are unmistakable: at most as many come out as went in. */
  lemma AlikeInOrder(s: seq<Message>, ks: seq<nat>)
    requires AllAlike(s) && CutsOf(s, ks) && Unmistakable(s)
    ensures Parsed(Torn(s, ks)) <= s
  {
    hide Parsed, Torn, FrameOf;
    var ps := Parsed(Torn(s, ks));
    assert Among(ps, s);
    if s == [] {
      NothingParsed(ks);
    } else {
      var n := FrameLength(s[0]);
      forall p | p in ps
        ensures p == s[0]
      {
        assert p in s;
      }
      TornLength(s, ks, n);
      ParsedLength(Torn(s, ks), n);
      Divides(|ps|, |s|, n);
      forall i | 0 <= i < |ps|
        ensures ps[i] == s[i]
      {
        assert ps[i] in ps;
      }
    }
  }

  lemma NothingParsed(ks: seq<nat>)
    requires CutsOf([], ks)
    ensures Parsed(Torn([], ks)) == []
  {
  }

  // -------------------------------------------------------------------- the theorems

  /** A sender that ignores failed sends delivers in order, on all networks, exactly when all it can
      send is one message over and over, whose frame cannot be cut into one of another message. */
  lemma InOrderIff(ms: seq<Message>)
    ensures InOrder(ms) <==> AllAlike(Sendables(ms)) && Unmistakable(Sendables(ms))
  {
    var s := Sendables(ms);
    hide Session, Parsed, Torn, PostedOn, CutsOf;
    if InOrder(ms) {
      if !AllAlike(s) { DifferentNotInOrder(ms); }
      forall ks: seq<nat> | CutsOf(s, ks)
        ensures Among(Parsed(Torn(s, ks)), s)
      {
        var sending := TornIsPosted(ms, ks);
        var receiving := SomeSession(Torn(s, ks));
        assert Session(Inbound(PostedOn(ms, sending), receiving), MAX_PAYLOAD) <= s;
      }
    }
    if AllAlike(s) && Unmistakable(s) {
      forall sending, receiving, cap: nat
        ensures Session(Inbound(PostedOn(ms, sending), receiving), cap) <= s
      {
        var ks := PostedOnIsTorn(ms, sending);
        SessionIsWithinParsed(Inbound(PostedOn(ms, sending), receiving), cap);
        AlikeInOrder(s, ks);
      }
    }
  }

  /** The messages whose sends succeed. */
  ghost function Gone(ms: seq<Message>, net: seq<Chance>): (s: seq<Message>)
    ensures forall i :: 0 <= i < |s| ==> Sendable(s[i]) && s[i] in Sendables(ms)
    ensures |s| <= |Sendables(ms)|
    decreases |ms|
  {
    if ms == [] then []
    else if !Sendable(ms[0]) then Gone(ms[1..], net)
    else
      var (all, sent, left) := SendMessage(ms[0], net);
      (if all then [ms[0]] else []) + Gone(ms[1..], left)
  }

  lemma {:induction false} CleanStream(ms: seq<Message>, net: seq<Chance>)
    requires Clean(ms, net)
    ensures PostedOn(ms, net) == StreamOf(Gone(ms, net))
    decreases |ms|
  {
    hide FrameOf, SendMessage;
    if ms != [] {
      if !Sendable(ms[0]) {
        CleanStream(ms[1..], net);
      } else {
        var (all, sent, left) := SendMessage(ms[0], net);
        SendsMessage(ms[0], net);
        CleanStream(ms[1..], left);
        var more := Gone(ms[1..], left);
        if all {
          assert ([ms[0]] + more)[1..] == more;
        } else {
          assert [] + more == more && [] + PostedOn(ms[1..], left) == PostedOn(ms[1..], left);
        }
      }
    }
  }

  /** On one network whose failures are clean, the peer receives an initial part whatever the receiving
      network does exactly when what went out is one. */
  lemma CleanRunInOrderIff(ms: seq<Message>, sending: seq<Chance>)
    requires Clean(ms, sending)
    ensures (forall receiving, cap: nat :: Session(Inbound(PostedOn(ms, sending), receiving), cap) <= Sendables(ms))
            <==> Gone(ms, sending) <= Sendables(ms)
  {
    hide Session, Parsed, PostedOn, Gone, Clean;
    var (s, gone) := (Sendables(ms), Gone(ms, sending));
    CleanStream(ms, sending);
    ParsedStream(gone);
    var x := PostedOn(ms, sending);
    var moving := SomeSession(x);
    if forall receiving, cap: nat :: Session(Inbound(x, receiving), cap) <= s {
      assert Session(Inbound(x, moving), MAX_PAYLOAD) <= s;
    }
    if gone <= s {
      forall receiving, cap: nat
        ensures Session(Inbound(x, receiving), cap) <= s
      {
        SessionIsWithinParsed(Inbound(x, receiving), cap);
      }
    }
  }

  /** Where failing sends move nothing, equality of all sendable messages is the whole condition. */
  lemma InOrderWhenCleanIff(ms: seq<Message>)
    ensures InOrderWhenClean(ms) <==> AllAlike(Sendables(ms))
  {
    var s := Sendables(ms);
    hide Session, Parsed, PostedOn, Clean, Gone;
    if !AllAlike(s) { DifferentNotInOrder(ms); }
    if AllAlike(s) {
      forall sending, receiving, cap: nat | Clean(ms, sending)
        ensures Session(Inbound(PostedOn(ms, sending), receiving), cap) <= s
      {
        var gone := Gone(ms, sending);
        forall i | 0 <= i < |gone|
          ensures gone[i] == s[i]
        {
          assert gone[i] in s;
        }
        CleanRunInOrderIff(ms, sending);
      }
    }
  }

  /** Once a send has failed, no later one moves a byte. */
  ghost predicate QuietOnceFailed(ms: seq<Message>, net: seq<Chance>)
    decreases |ms|
  {
    if ms == [] then true
    else if !Sendable(ms[0]) then QuietOnceFailed(ms[1..], net)
    else
      var (all, sent, left) := SendMessage(ms[0], net);
      if all then QuietOnceFailed(ms[1..], left) else PostedOn(ms[1..], left) == []
  }

  lemma {:induction false} QuietStream(ms: seq<Message>, net: seq<Chance>)
    requires QuietOnceFailed(ms, net)
    ensures PostedOn(ms, net) <= StreamOf(Sendables(ms))
    decreases |ms|
  {
    hide FrameOf, SendMessage, PostedOn, Sendables;
    if ms == [] {
      NothingPosted(net);
    } else {
      PostedStep(ms, net);
      if !Sendable(ms[0]) {
        QuietStream(ms[1..], net);
      } else {
        var (all, sent, left) := SendMessage(ms[0], net);
        SendsMessage(ms[0], net);
        var more := Sendables(ms[1..]);
        assert ([ms[0]] + more)[1..] == more;
        if all {
          QuietStream(ms[1..], left);
        } else {
          assert sent + [] == sent;
        }
      }
    }
  }

  /** For one run: if no failed send comes before one that moves bytes, the peer receives an initial part. */
  lemma QuietInOrder(ms: seq<Message>, sending: seq<Chance>, receiving: seq<Chance>, cap: nat)
    requires QuietOnceFailed(ms, sending)
    ensures Session(Inbound(PostedOn(ms, sending), receiving), cap) <= Sendables(ms)
  {
    QuietStream(ms, sending);
    ReceivedInOrder(Inbound(PostedOn(ms, sending), receiving), cap, Sendables(ms));
  }

  /** A single message is always fine. */
  lemma OneMessageInOrder(ms: seq<Message>)
    requires |Sendables(ms)| <= 1
    ensures InOrder(ms)
  {
    var s := Sendables(ms);
    hide Parsed, FrameOf, Torn, StreamOf;
    forall ks: seq<nat> | CutsOf(s, ks)
      ensures Among(Parsed(Torn(s, ks)), s)
    {
      TornOnce(s, ks);
      ParsedInOrder(Torn(s, ks), s);
    }
    InOrderIff(ms);
  }

  lemma TornOnce(s: seq<Message>, ks: seq<nat>)
    requires |s| <= 1 && CutsOf(s, ks)
    ensures Torn(s, ks) <= StreamOf(s)
  {
    hide FrameOf;
    if |s| == 1 {
      var f := FrameOf(s[0]);
      assert s[1..] == [] && ks[1..] == [] && StreamOf([]) == [] && Torn([], []) == [];
      assert f[..ks[0]] + [] == f[..ks[0]] && f + [] == f;
    }
  }

  // ---------------------------------------------------------------------- how it fails

  /** One time-out drops a message, and the peer does not notice. */
  lemma TimeoutDropsAMessage(m0: Message, m1: Message, sending: seq<Chance>, receiving: seq<Chance>, cap: nat)
    requires Sendable(m0) && Sendable(m1) && m0 != m1 && SendMessage(m1, sending).0
    requires AllMove(receiving) && |receiving| >= |FrameOf(m1)| && |m1.payload| <= cap
    ensures PostedOn([m0, m1], [Timeout] + sending) == FrameOf(m1)
    ensures Session(Inbound(PostedOn([m0, m1], [Timeout] + sending), receiving), cap) == [m1]
    ensures Sendables([m0, m1]) == [m0, m1] && !([m1] <= [m0, m1])
  {
    var net := [Timeout] + sending;
    TimedOut(m0, sending);
    TwoPosted(m0, m1, net, sending);
    hide *;
    OneStream(m1);
    EverythingArrives(Inbound(FrameOf(m1), receiving), cap, [m1]);
  }

  lemma TimedOut(m: Message, left: seq<Chance>)
    requires Sendable(m)
    ensures SendMessage(m, [Timeout] + left) == (false, [], left)
  {
    hide HeaderImage;
    assert ([Timeout] + left)[1..] == left;
  }

  lemma TwoPosted(m0: Message, m1: Message, net: seq<Chance>, left: seq<Chance>)
    requires Sendable(m0) && Sendable(m1) && SendMessage(m0, net) == (false, [], left) && SendMessage(m1, left).0
    ensures PostedOn([m0, m1], net) == FrameOf(m1)
    ensures Sendables([m0, m1]) == [m0, m1] && (m0 != m1 ==> !([m1] <= [m0, m1]))
    ensures AllFitInto([m1], |m1.payload|)
  {
    hide SendMessage, FrameOf;
    SendsMessage(m1, left);
    var (_, sent, more) := SendMessage(m1, left);
    assert [m0, m1][1..] == [m1] && [m1][1..] == [];
    assert PostedOn([], more) == [];
    assert PostedOn([m1], left) == FrameOf(m1) + [] == FrameOf(m1);
    assert [] + FrameOf(m1) == FrameOf(m1);
    assert Sendables([]) == [] && Sendables([m1]) == [m1];
    if m0 != m1 { assert [m1][0] != [m0, m1][0]; }
  }

  lemma OneStream(m: Message)
    requires Sendable(m)
    ensures StreamOf([m]) == FrameOf(m) && forall cap: nat :: |m.payload| <= cap ==> AllFitInto([m], cap)
  {
    hide FrameOf;
    assert StreamOf([]) == [] && FrameOf(m) + [] == FrameOf(m);
  }

  /** A message, and what a peer makes of its header followed by the start of its frame: the checksums agree. */
  function Sent(t: byte): Message {
    Message(t, [0x4E, 0xD4, 0x67, 0x41, 0x76])
  }

  function Misread(t: byte): Message {
    Message(t, [0x4F, 0x42, 0x57, 0x46, 0x01])
  }

  /** So equal messages are not enough: sent twice, with a time-out after the first header, the peer
      receives a message that was never sent. */
  lemma TornFrameIsMisread(t: byte) returns (sending: seq<Chance>, receiving: seq<Chance>)
    ensures AllAlike(Sendables([Sent(t), Sent(t)])) && !Unmistakable(Sendables([Sent(t), Sent(t)]))
    ensures Misread(t) != Sent(t)
    ensures Misread(t) in Session(Inbound(PostedOn([Sent(t), Sent(t)], sending), receiving), MAX_PAYLOAD)
    ensures !InOrder([Sent(t), Sent(t)])
  {
    var (m, x) := (Sent(t), Misread(t));
    var (ms, ks) := ([m, m], [HEADER_LEN, HEADER_LEN + 5]);
    assert ms[1..] == [m] && [m][1..] == [];
    assert Sendables([]) == [] && Sendables([m]) == [m] && Sendables(ms) == ms;
    assert m.payload[0] != x.payload[0];
    SplicedFrame(t, ks);
    hide *;
    sending := TornIsPosted(ms, ks);
    receiving := SomeSession(Torn(ms, ks));
    MisreadFails(ms, ks, x);
  }

  lemma MisreadFails(ms: seq<Message>, ks: seq<nat>, x: Message)
    requires Sendables(ms) == ms && AllAlike(ms) && |ms| == 2 && ms[0] != x && CutsOf(ms, ks)
    requires x in Parsed(Torn(ms, ks))
    ensures !Unmistakable(ms) && !InOrder(ms)
  {
    hide Parsed, Torn, InOrder;
    assert x !in ms;
    assert !Among(Parsed(Torn(ms, ks)), ms);
    InOrderIff(ms);
  }

  lemma SplicedFrame(t: byte, ks: seq<nat>)
    requires ks == [HEADER_LEN, HEADER_LEN + 5]
    ensures var ms := [Sent(t), Sent(t)]; CutsOf(ms, ks) && AllAlike(ms) && Misread(t) in Parsed(Torn(ms, ks))
  {
    SplicedFacts(t);
    hide *;
    TornTwice(Sent(t), ks);
    HeaderForIs(Sent(t));
    FirstIs(HeaderImage(HeaderFor(Sent(t))), HeaderFor(Sent(t)), FrameOf(Sent(t)));
  }

  lemma SplicedFacts(t: byte)
    ensures var (m, x) := (Sent(t), Misread(t));
            var (h, f) := (HeaderFor(m), FrameOf(m));
            && Sendable(m) && h.payloadLen == 5 && |f| == HEADER_LEN + 5 && h.crc == Crc32.Crc(f[..5])
            && x == Message(h.msgType, f[..5])
  {
    ImageStart(HeaderFor(Sent(t)));
    FrameStart(Sent(t));
    SameChecksum(t);
    hide Crc32.Crc, FrameOf, HeaderImage;
  }

  lemma SameChecksum(t: byte)
    ensures Crc32.Crc(Sent(t).payload) == Crc32.Crc(Misread(t).payload)
  {
    hide Crc32.Crc;
    Crc32.FiveByteChangeMissed([], []);
    NoneAround(Sent(t).payload);
    NoneAround(Misread(t).payload);
  }

  lemma NoneAround(x: Bytes)
    ensures [] + x + [] == x
  {
  }

  lemma FrameStart(m: Message)
    requires Sendable(m)
    ensures FrameOf(m)[..5] == HeaderImage(HeaderFor(m))[..5]
  {
    hide HeaderImage;
  }

  /** What bytes that begin with a good header begin with. */
  lemma FirstIs(head: Bytes, h: Header, f: Bytes)
    requires |head| == HEADER_LEN && StatusOf(head) == Ok && HeaderOf(head) == Some(h)
    requires h.payloadLen <= |f| && Crc32.Crc(f[..h.payloadLen]) == h.crc
    ensures Message(h.msgType, f[..h.payloadLen]) in Parsed(head + f)
  {
    hide HeaderOf, StatusOf, Crc32.Crc;
    HeadAndRest(head + f, head, f);
    assert FirstIn(head + f) == Some(Message(h.msgType, f[..h.payloadLen]));
  }

  lemma TornTwice(m: Message, ks: seq<nat>)
    requires Sendable(m) && ks == [HEADER_LEN, |FrameOf(m)|]
    ensures AllAlike([m, m]) && CutsOf([m, m], ks) && Torn([m, m], ks) == HeaderImage(HeaderFor(m)) + FrameOf(m)
  {
    hide HeaderImage;
    var (f, n) := (FrameOf(m), |FrameOf(m)|);
    assert [m, m][1..] == [m] && ks[1..] == [n] && [m][1..] == [] && [n][1..] == [];
    assert f[..HEADER_LEN] == HeaderImage(HeaderFor(m)) && f[..n] + [] == f;
    assert CutsOf([m], [n]) && Torn([m], [n]) == f;
  }
}

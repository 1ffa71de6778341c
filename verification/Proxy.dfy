/** The request/response loop of the proxy (src/cmon_proxy/cmon_proxy.c, c_proxy_handle_client)
    and what it does over a whole connection. */
module Proxy {
  import opened Search
  import opened Net
  import opened HttpHeader
  import opened HttpMessage
  import D = Decimal
  import L = HttpLength
  import R = Relay

  /** A message on the wire, its body delimited by Content-Length (section 6.3 of RFC 9112). */
  datatype Text = Text(header: string, body: string) {
    function Bytes(): string { header + body }
  }

  /** The header block is as the proxy can frame it: it ends at its first CRLFCRLF, has no
      bare LF LF, fits the buffer, and states the length of the body. */
  ghost predicate WellFormed(m: Text) {
    && |L.FIELD| <= |m.header| <= HEADER_MAX
    && FirstMatch(CRLFCRLF, m.header) == |m.header| - 4
    && FirstMatch(LFLF, m.header[..|m.header| - 4]) == -1
    && L.ContentLength(m.header, |m.header|) == L.Value(|m.body|)
  }

  /** One way of sending the message: any segments, the first of at least four bytes. */
  ghost predicate Fragments(a: seq<string>, m: Text) {
    Live(a) && a != [] && |a[0]| >= 4 && Flatten(a) == m.Bytes()
  }

  function Join(frags: seq<seq<string>>): seq<string> {
    if frags == [] then [] else Join(frags[..|frags| - 1]) + frags[|frags| - 1]
  }

  function Wire(msgs: seq<Text>): string {
    if msgs == [] then "" else Wire(msgs[..|msgs| - 1]) + msgs[|msgs| - 1].Bytes()
  }

  lemma BlockEnds(header: string)
    requires |header| >= 4 && FirstMatch(CRLFCRLF, header) == |header| - 4
    ensures L.IsBlock(header)
  {
  }

  /** The length read from a header block does not depend on what follows it in memory. */
  lemma LengthLocal(header: string, tail: string, n: nat)
    requires L.IsBlock(header) && |header| >= |L.FIELD| && |header| + |tail| + |L.FIELD| < SIZE_T
    requires L.ContentLength(header, |header|) == L.Value(n)
    ensures L.ContentLength(header + tail, |header|) == L.Value(n)
  {
    L.ContentLengthExact(header, tail);
    L.ContentLengthExact(header, "");
    assert header + "" == header;
  }

  lemma HeaderInStream(header: string, body: string, d: nat)
    requires FirstMatch(CRLFCRLF, header) == d
    ensures FirstMatch(CRLFCRLF, header + body) == d
    ensures d <= |header| && (header + body)[..d] == header[..d]
  {
    PrefixStable(CRLFCRLF, header, body);
  }

  /** The read loop is at the start of a message it will frame. */
  lemma ArrivesFramed(g: string, a: seq<string>, m: Text)
    requires |g| == HEADER_MAX && WellFormed(m) && Fragments(a, m)
    ensures Arriving(g, "", a, |m.header| - 4)
  {
    hide L.ContentLength, MatchesAt;
    HeaderInStream(m.header, m.body, |m.header| - 4);
    assert "" + Flatten(a) == m.header + m.body;
  }

  lemma SplitBytes(header: string, body: string, got: string, rest: string)
    requires got + rest == header + body && |header| <= |got|
    ensures got[..|header|] == header && got[|header|..] + rest == body
  {
    var h := |header|;
    assert got[..h] == (got + rest)[..h] == (header + body)[..h];
    assert got[h..] + rest == (got + rest)[h..] == (header + body)[h..];
  }

  /** The message started on a buffer that received `got`, of which the first part is a whole
      header block. */
  lemma LengthRead(got: string, tail: string, m: Text)
    requires WellFormed(m) && m.header <= got && |got| + |tail| == HEADER_MAX
    ensures L.ContentLength(got + tail, |m.header|) == L.Value(|m.body|)
    ensures (got + tail)[..|m.header|] == m.header
    ensures (got + tail)[|m.header|..|got|] == got[|m.header|..]
  {
    hide MatchesAt, L.ContentLength, L.IsBlock;
    var rest := got[|m.header|..] + tail;
    assert got + tail == m.header + rest;
    BlockEnds(m.header);
    LengthLocal(m.header, rest, |m.body|);
  }

  /** However a well-formed message is split, it is received as itself: its header block, its
      length, and a part of its body already held; only the rest of its segments, and what
      follows them, is unread. */
  lemma MessageArrives(g: string, a: seq<string>, b: seq<string>, fails: bool, m: Text)
    returns (left: seq<string>)
    requires |g| == HEADER_MAX && WellFormed(m) && Fragments(a, m) && Live(b) && Live(a + b)
    ensures Live(left) && Recv(g, "", a + b, fails).segs == left + b
    ensures Holds(StartMessage(g, a + b, fails), left, m)
  {
    hide MatchesAt, Recv, L.ContentLength;
    ArrivesFramed(g, a, m);
    left := HeaderExact(g, "", a, b, fails, |m.header| - 4);
    var r := Recv(g, "", a + b, fails);
    assert "" + Flatten(a) == m.Bytes();
    SplitBytes(m.header, m.body, r.got, Flatten(left));
    LengthRead(r.got, g[|r.got|..], m);
  }

  /** A message started as `m`: its header block, its length, and the part of its body in front
      of `left`. */
  ghost predicate Holds(s: Start, left: seq<string>, m: Text) {
    && s.Started? && s.size == |m.header| && s.length == |m.body|
    && s.size <= s.got <= |s.mem| && s.mem[..s.size] == m.header
    && s.mem[s.size..s.got] + Flatten(left) == m.body
  }

  /** One direction of the connection: what the sending peer still sends, what has been written
      to the receiving peer, and how much more it will take. */
  datatype Side = Side(segs: seq<string>, written: string, room: int)

  ghost function SideOf(sock: Socket, sink: Sink): Side
    reads sock, sink
  {
    Side(sock.segs, sink.written, sink.room)
  }

  /** What the forwarding of a message just started leaves of one direction. */
  function SideOn(d: Delivery): Side { Side(d.segs, d.written, d.room) }

  /** What one turn of a direction comes to, when it starts a message. */
  function Passes(g: string, side: Side, fails: bool): Delivery
    requires |g| == HEADER_MAX && Live(side.segs) && side.room >= 0 && StartMessage(g, side.segs, fails).Started?
  {
    Deliver(StartMessage(g, side.segs, fails), Recv(g, "", side.segs, fails).segs, fails, side.written, side.room)
  }

  /** One direction when `t` has been taken off the stream and written. */
  function SideBehind(side: Side, t: Text): Side
    requires Live(side.segs)
  {
    Side(Dropped(side.segs, |t.Bytes()|), side.written + t.Bytes(), side.room - |t.Bytes()|)
  }

  /** All of `t`, and nothing else, was taken and written, and its length returned. */
  ghost predicate Forwarded(reply: Reply, before: Side, after: Side, t: Text)
    requires Live(before.segs)
  {
    reply == Done(R.Sent(|t.Bytes()|)) && after == SideBehind(before, t)
  }

  /** The relay of a received message writes its body behind its header, once each and in order,
      and leaves what follows it. */
  lemma OpeningDelivers(s: Start, left: seq<string>, b: seq<string>, m: Text, fails: bool, before: Side)
    requires Holds(s, left, m) && s.got <= HEADER_MAX && |m.body| < 1_000_000_000
    requires Live(left) && Live(b) && Live(left + b) && |m.Bytes()| <= before.room
    ensures var run := R.Run(Opening(s, left + b, fails, before.written, before.room));
            && run.outcome == R.Sent(|m.Bytes()|) && run.s.segs == b
            && run.s.written == before.written + m.Bytes() && run.s.room == before.room - |m.Bytes()|
  {
    hide R.Run, Flatten;
    var o := Opening(s, left + b, fails, before.written, before.room);
    R.RelayAligned(o, left, b);
    assert o.written + o.pending + Flatten(left) == before.written + (m.header + (o.pending + Flatten(left)));
  }

  /** The stream starts with `t`, whatever follows it and however it is split; the receiver has
      room for it. */
  ghost predicate Starts(side: Side, t: Text) {
    && WellFormed(t) && |t.Bytes()| <= side.room
    && Live(side.segs) && side.segs != [] && t.Bytes() <= Flatten(side.segs)
  }

  /** Neither the header reads nor a later read crosses the end of `t`, said of the segments:
      the header reads end with the first segment that reaches the end of the header or with the
      buffer, and from there on reads stop at segment ends and at multiples of the body buffer. */
  ghost predicate StopsAtEnd(segs: seq<string>, t: Text)
    requires Live(segs)
  {
    var e := HeaderEnd(segs, |t.header|, HEADER_MAX);
    && |t.header| <= e <= |t.Bytes()|
    && R.ReadEnds(Dropped(segs, e), R.BODY_MAX - (e - |t.header|), |t.Bytes()| - e)
  }

  /** The first read brings four bytes, and the reads stop at the end of `t`. */
  ghost predicate SplitCleanly(segs: seq<string>, t: Text)
    requires Live(segs)
  {
    segs != [] && |segs[0]| >= 4 && StopsAtEnd(segs, t)
  }

  /** What one turn of a direction comes to, when the stream starts with `t`: the message is
      forwarded whole and what follows it is left, if and only if it is split cleanly. */
  lemma ForwardIff(g: string, fails: bool, before: Side, t: Text)
    requires |g| == HEADER_MAX && Starts(before, t)
    ensures StartMessage(g, before.segs, fails).Started? &&
            Forwarded(Passes(g, before, fails).reply, before, SideOn(Passes(g, before, fails)), t)
            <==> SplitCleanly(before.segs, t)
  {
    hide Recv, StartMessage, MatchesAt, L.ContentLength, Deliver, StopsAtEnd;
    assert |t.Bytes()| >= |L.FIELD|;
    if |before.segs[0]| < 4 {
      ShortStart(g, fails, before, t);
    } else {
      LongStart(g, fails, before, t);
    }
  }

  /** After a first read of fewer than four bytes a message that starts claims more header than
      it has, and everything after those bytes stays unread. */
  lemma ShortStart(g: string, fails: bool, before: Side, t: Text)
    requires |g| == HEADER_MAX && Starts(before, t) && |t.Bytes()| >= 4 && |before.segs[0]| < 4
    ensures StartMessage(g, before.segs, fails).Started? ==> SideOn(Passes(g, before, fails)) != SideBehind(before, t)
  {
    hide Recv, MatchesAt, L.ContentLength, R.Run;
    var segs, n := before.segs, |t.Bytes()|;
    ShortFirstRead(g, segs, fails);
    FlattenDropped(segs, n);
    assert |Flatten(segs)| == |segs[0]| + |Flatten(segs[1..])|;
  }

  lemma LongStart(g: string, fails: bool, before: Side, t: Text)
    requires |g| == HEADER_MAX && Starts(before, t) && before.segs != [] && |before.segs[0]| >= 4
    ensures HeaderOf(StartMessage(g, before.segs, fails), t)
    ensures Forwarded(Passes(g, before, fails).reply, before, SideOn(Passes(g, before, fails)), t)
            <==> StopsAtEnd(before.segs, t)
  {
    hide Recv, StartMessage, R.Run, R.Lands, R.ReadEnds, MatchesAt, L.ContentLength, Dropped, HeaderEnd, Forwarded;
    var segs, extra := before.segs, Flatten(before.segs)[|t.Bytes()|..];
    assert Flatten(segs) == t.Bytes() + extra;
    HeaderTaken(g, segs, extra, fails, t);
    L.ContentLengthRange(t.header, |t.header|);
    var s, unread := StartMessage(g, segs, fails), Recv(g, "", segs, fails).segs;
    OpeningIff(s, unread, extra, fails, before, t);
    if s.got <= |t.Bytes()| {
      R.LandsIffReadEnds(unread, R.BODY_MAX - (s.got - s.size), |t.Bytes()| - s.got);
    }
  }

  /** When no segment is longer than `m`, with room for one behind the header in either buffer,
      that is so exactly when the sender ends a segment at the end of `t`. */
  lemma ShortSegmentsStop(segs: seq<string>, t: Text, m: nat)
    requires Live(segs) && 0 < |t.header| && t.Bytes() <= Flatten(segs)
    requires |t.header| + m <= HEADER_MAX && 2 * m <= R.BODY_MAX
    requires forall i :: 0 <= i < |segs| ==> |segs[i]| <= m
    ensures StopsAtEnd(segs, t) <==> R.AtBoundary(segs, |t.Bytes()|)
  {
    hide R.AtBoundary, R.ReadEnds, R.Lands;
    CoveringBoundary(segs, |t.header|, |t.Bytes()|, m);
    var e := Covering(segs, |t.header|);
    if e <= |t.Bytes()| {
      var cap := R.BODY_MAX - (e - |t.header|);
      R.LandsIffReadEnds(Dropped(segs, e), cap, |t.Bytes()| - e);
      R.LandsIffBoundary(Dropped(segs, e), cap, |t.Bytes()| - e);
    }
  }

  /** The segments up to the one that completes the header, and those after it. */
  lemma {:induction false} CoveringBoundary(segs: seq<string>, h: nat, need: nat, m: nat)
    requires Live(segs) && 0 < h <= need <= |Flatten(segs)|
    requires forall i :: 0 <= i < |segs| ==> |segs[i]| <= m
    ensures h <= Covering(segs, h) < h + m
    ensures forall i :: 0 <= i < |Dropped(segs, Covering(segs, h))| ==> |Dropped(segs, Covering(segs, h))[i]| <= m
    ensures R.AtBoundary(segs, need) <==>
            Covering(segs, h) <= need && R.AtBoundary(Dropped(segs, Covering(segs, h)), need - Covering(segs, h))
  {
    var n := |segs[0]|;
    if n <= need {
      R.BoundaryStep(segs, need);
    }
    if n < h {
      CoveringBoundary(segs[1..], h - n, need - n, m);
    }
  }

  /** The header block and the length of `t` were received, and perhaps more. */
  ghost predicate HeaderOf(s: Start, t: Text) {
    && s.Started? && s.size == |t.header| && s.length == |t.body|
    && s.size <= s.got <= |s.mem| == HEADER_MAX && s.mem[..s.size] == t.header
  }

  lemma HeaderTaken(g: string, segs: seq<string>, extra: string, fails: bool, t: Text)
    requires |g| == HEADER_MAX && WellFormed(t) && Live(segs) && segs != [] && |segs[0]| >= 4
    requires Flatten(segs) == t.Bytes() + extra
    ensures var s, r := StartMessage(g, segs, fails), Recv(g, "", segs, fails);
            var e := HeaderEnd(segs, |t.header|, HEADER_MAX);
            HeaderOf(s, t) && s.got == e && r.segs == Dropped(segs, e) &&
            s.mem[s.size..s.got] + Flatten(r.segs) == t.body + extra
  {
    hide MatchesAt, Recv, L.ContentLength, HeaderEnd, Dropped;
    HeaderInStream(t.header, t.body + extra, |t.header| - 4);
    assert "" + Flatten(segs) == t.header + (t.body + extra);
    assert segs + [] == segs;
    var left := HeaderExact(g, "", segs, [], fails, |t.header| - 4);
    HeaderReads(g, "", segs, fails, |t.header| - 4);
    var r := Recv(g, "", segs, fails);
    assert left + [] == left;
    SplitBytes(t.header, t.body + extra, r.got, Flatten(left));
    LengthRead(r.got, g[|r.got|..], t);
  }

  lemma OpeningIff(s: Start, unread: seq<string>, extra: string, fails: bool, before: Side, t: Text)
    requires HeaderOf(s, t) && |t.Bytes()| <= before.room && |t.body| < 1_000_000_000
    requires Live(before.segs) && unread == Dropped(before.segs, s.got)
    requires s.mem[s.size..s.got] + Flatten(unread) == t.body + extra && Flatten(before.segs) == t.Bytes() + extra
    ensures var run := R.Run(Opening(s, unread, fails, before.written, before.room));
            Forwarded(Done(run.outcome), before, Side(run.s.segs, run.s.written, run.s.room), t)
            <==> s.got <= |t.Bytes()| && R.Lands(unread, R.BODY_MAX - (s.got - s.size), |t.Bytes()| - s.got)
  {
    hide R.Run, R.Lands, Flatten, Dropped;
    var o := Opening(s, unread, fails, before.written, before.room);
    assert |o.pending + Flatten(unread)| == |t.body + extra|;
    if s.got <= |t.Bytes()| {
      R.RunExact(o);
      if R.Run(o).outcome == R.Sent(o.total) {
        SentForwards(o, extra, before, t);
        R.RunDrops(o);
        DroppedTwice(before.segs, s.got, o.remaining);
      }
    } else {
      R.RunShrinks(o);
      FlattenDropped(before.segs, |t.Bytes()|);
    }
  }

  lemma SentForwards(o: R.State, extra: string, before: Side, t: Text)
    requires R.Framed(o) && R.Run(o).outcome == R.Sent(o.total) && o.total == |t.Bytes()|
    requires o.written == before.written + t.header && o.pending + Flatten(o.segs) == t.body + extra
    requires |o.pending| + o.remaining == |t.body| && o.room == before.room - |t.header|
    ensures R.Run(o).s.written == before.written + t.Bytes() && R.Run(o).s.room == before.room - |t.Bytes()|
  {
    hide R.Run, Flatten;
    R.SentDelivers(o);
    R.SentCounts(o);
    BodyDelivered(o.pending, Flatten(o.segs), t.body, extra, o.remaining);
    assert o.written + o.pending + Flatten(o.segs)[..o.remaining]
           == before.written + (t.header + (o.pending + Flatten(o.segs)[..o.remaining]));
  }

  lemma BodyDelivered(held: string, rest: string, body: string, extra: string, n: nat)
    requires held + rest == body + extra && |held| + n == |body| && n <= |rest|
    ensures held + rest[..n] == body
  {
    assert held + rest[..n] == (held + rest)[..|body|] == (body + extra)[..|body|];
  }

  /** A message sent as segments of its own, with others behind them, is split cleanly. */
  lemma FragmentsSplitCleanly(a: seq<string>, b: seq<string>, t: Text)
    requires WellFormed(t) && Fragments(a, t) && Live(b)
    ensures Live(a + b) && SplitCleanly(a + b, t)
  {
    hide MatchesAt, R.Run, Recv, L.ContentLength, Deliver, Flatten, StopsAtEnd;
    var g := seq(HEADER_MAX, i => 'x');
    var side := Side(a + b, "", |t.Bytes()|);
    FlattenConcat(a, b);
    DroppedConcat(a, b);
    var left := MessageArrives(g, a, b, false, t);
    L.ContentLengthRange(t.header, |t.header|);
    OpeningDelivers(StartMessage(g, a + b, false), left, b, t, false, side);
    DeliversReceived(StartMessage(g, a + b, false), left, b, t, side);
    ForwardIff(g, false, side, t);
  }

  lemma DeliversReceived(s: Start, left: seq<string>, b: seq<string>, m: Text, side: Side)
    requires Holds(s, left, m) && |s.mem| == HEADER_MAX && Live(left + b) && |m.Bytes()| <= side.room
    ensures var run := R.Run(Opening(s, left + b, false, side.written, side.room));
            Deliver(s, left + b, false, side.written, side.room)
            == Delivery(Done(run.outcome), run.s.segs, run.s.written, run.s.room)
  {
    hide R.Run;
  }

  /** A message is well formed when its header block is framed and either its first
      Content-Length field carries a space and the decimal of the body's length, or it has no
      such field and no body. */
  lemma StatedLengthWellFormed(m: Text, i: int)
    requires |L.FIELD| <= |m.header| <= HEADER_MAX && |m.body| < 1_000_000_000
    requires FirstMatch(CRLFCRLF, m.header) == |m.header| - 4
    requires FirstMatch(LFLF, m.header[..|m.header| - 4]) == -1
    requires FirstMatch(L.FIELD, m.header) == i
    requires if i == -1 then m.body == "" else ": " + D.Dec(|m.body|) + "\r\n" <= m.header[i + 14..]
    ensures WellFormed(m)
  {
    hide MatchesAt;
    BlockEnds(m.header);
    assert m.header + "" == m.header;
    if i == -1 {
      L.ContentLengthExact(m.header, "");
    } else {
      L.ContentLengthRoundTrip(m.header, i, |m.body|, "");
    }
  }

  /** What forwarding one message came to. */
  datatype Step = NoMessage | Fault | Relayed(reply: Reply)

  /** The message was relayed and its total returned. */
  predicate Succeeded(step: Step) { step.Relayed? && step.reply.Done? && step.reply.outcome.Sent? }

  /** `c_proxy_send_message` on a message just started. */
  method SendStarted(m: Message, sink: Sink, ghost s: Start) returns (reply: Reply)
    requires m.StartedAs(s)
    modifies m, m.body, m.sock, sink
    ensures Live(m.sock.segs) && |Flatten(m.sock.segs)| <= |Flatten(old(m.sock.segs))|
    ensures var d := Deliver(s, old(m.sock.segs), m.sock.fails, old(sink.written), old(sink.room));
            reply == d.reply && SideOf(m.sock, sink) == SideOn(d)
  {
    hide R.Run;
    ghost var whole := s.size <= s.got && s.size <= HEADER_MAX && s.size <= sink.room;
    assert whole ==> AfterHeader(m.View(0, sink), m.headers[..m.headersSize])
                     == Opening(s, m.sock.segs, m.sock.fails, sink.written, sink.room);
    reply := SendMessage(m, sink);
  }

  /** A turn of one direction: what it came to, and where it left the direction. */
  datatype Turn = Turn(step: Step, side: Side)

  /** The turn, with what the allocated header buffer happened to hold. */
  function OneTurn(g: string, before: Side, fails: bool): Turn
    requires |g| == HEADER_MAX && Live(before.segs) && before.room >= 0
  {
    var unread := Recv(g, "", before.segs, fails).segs;
    match StartMessage(g, before.segs, fails)
    case Null => Turn(NoMessage, before.(segs := unread))
    case Fault => Turn(Step.Fault, before.(segs := unread))
    case Started(_, _, _, _) =>
      var d := Passes(g, before, fails);
      Turn(Relayed(d.reply), SideOn(d))
  }

  /** When the stream starts with `t`, a turn takes exactly `t` and writes exactly `t`, if and only
      if `t` is split cleanly. */
  lemma TurnIff(g: string, before: Side, fails: bool, t: Text)
    requires |g| == HEADER_MAX && Starts(before, t)
    ensures Succeeded(OneTurn(g, before, fails).step) && OneTurn(g, before, fails).side == SideBehind(before, t)
            <==> SplitCleanly(before.segs, t)
  {
    hide Recv, StartMessage, SplitCleanly, WellFormed, Deliver, Flatten;
    ForwardIff(g, fails, before, t);
    var s, unread := StartMessage(g, before.segs, fails), Recv(g, "", before.segs, fails).segs;
    if s.Started? {
      StartedBounds(g, before.segs, fails);
      SuccessCounts(s, unread, fails, before.written, before.room);
    }
  }

  lemma StartedBounds(g: string, segs: seq<string>, fails: bool)
    requires |g| == HEADER_MAX && Live(segs)
    ensures var s := StartMessage(g, segs, fails); s.Started? ==> s.size + s.length < SIZE_T
  {
    hide Recv, StartMessage;
    TotalFitsInt(g, segs, fails);
  }

  /** c_http_get_message, then c_proxy_send_message.  On a stream whose first segment has four
      bytes there is no message exactly when the stream is refused, and an access outside an array
      exactly when its length is overlong, save for a header shorter than the field's name. */
  method ForwardNext(sock: Socket, sink: Sink) returns (step: Step, ghost g: string)
    requires Live(sock.segs)
    modifies sock, sink
    ensures Live(sock.segs) && |g| == HEADER_MAX
    ensures Turn(step, SideOf(sock, sink)) == OneTurn(g, old(SideOf(sock, sink)), sock.fails)
    ensures step.Relayed? ==> |Flatten(sock.segs)| < |Flatten(old(sock.segs))|
    ensures var segs, n := old(sock.segs), HeaderLength(old(sock.segs), HEADER_MAX);
            (segs == [] || |segs[0]| >= 4) && (n == -1 || n >= 15) ==>
              (step == NoMessage <==> Refused(segs)) && (step == Step.Fault <==> Overlong(segs))
    ensures forall t :: Starts(old(SideOf(sock, sink)), t) ==>
              (Succeeded(step) && SideOf(sock, sink) == SideBehind(old(SideOf(sock, sink)), t)
               <==> SplitCleanly(old(sock.segs), t))
  {
    hide Recv, StartMessage, SplitCleanly, WellFormed, Deliver, HeaderLength, Refused, Overlong, Starts;
    ghost var before := SideOf(sock, sink);
    var m, fault, g0 := GetMessage(sock);
    g := g0;
    ghost var s := StartMessage(g, before.segs, sock.fails);
    forall t | Starts(before, t)
      ensures var turn := OneTurn(g, before, sock.fails);
              Succeeded(turn.step) && turn.side == SideBehind(before, t) <==> SplitCleanly(before.segs, t)
    {
      TurnIff(g, before, sock.fails, t);
    }
    if before.segs == [] || |before.segs[0]| >= 4 { StartExact(g, before.segs, sock.fails); }
    if fault { return Step.Fault, g; }
    if m == null { return NoMessage, g; }
    ReceivedShrinks(g, before.segs, sock.fails);
    var reply := SendStarted(m, sink, s);
    step := Relayed(reply);
  }

  lemma EndOfStream(g: string, fails: bool)
    requires |g| == HEADER_MAX
    ensures StartMessage(g, [], fails) == Null && Recv(g, "", [], fails).segs == []
  {
  }

  lemma ReceivedShrinks(g: string, segs: seq<string>, fails: bool)
    requires |g| == HEADER_MAX && Live(segs)
    ensures StartMessage(g, segs, fails).Started? ==> |Flatten(Recv(g, "", segs, fails).segs)| < |Flatten(segs)|
  {
  }

  /** One direction after `i` messages: they have been taken off the stream and written. */
  ghost function SideAt(i: nat, msgs: seq<Text>, first: Side): Side
    requires i <= |msgs| && Live(first.segs)
  {
    var done := Wire(msgs[..i]);
    Side(Dropped(first.segs, |done|), first.written + done, first.room - |done|)
  }

  ghost predicate AllWellFormed(msgs: seq<Text>) { forall i :: 0 <= i < |msgs| ==> WellFormed(msgs[i]) }

  /** The peer sends these messages one behind the other, in any segments, and then closes; the
      receiver has room for them. */
  ghost predicate Sends(side: Side, msgs: seq<Text>) {
    Live(side.segs) && Flatten(side.segs) == Wire(msgs) && |Wire(msgs)| <= side.room && AllWellFormed(msgs)
  }

  /** Message `i` of the stream is split cleanly. */
  ghost predicate CleanAt(segs: seq<string>, msgs: seq<Text>, i: nat)
    requires Live(segs) && i < |msgs|
  {
    SplitCleanly(Dropped(segs, |Wire(msgs[..i])|), msgs[i])
  }

  /** The first `n` messages are. */
  ghost predicate Clean(segs: seq<string>, msgs: seq<Text>, n: nat)
    requires Live(segs) && n <= |msgs|
  {
    forall i :: 0 <= i < n ==> CleanAt(segs, msgs, i)
  }

  lemma WireNext(msgs: seq<Text>, i: nat)
    requires i < |msgs|
    ensures Wire(msgs[..i + 1]) == Wire(msgs[..i]) + msgs[i].Bytes()
  {
    assert msgs[..i + 1][..i] == msgs[..i];
  }

  lemma {:induction false} WirePrefix(msgs: seq<Text>, i: nat)
    requires i <= |msgs|
    ensures Wire(msgs[..i]) <= Wire(msgs)
    decreases |msgs| - i
  {
    if i < |msgs| {
      WireNext(msgs, i);
      WirePrefix(msgs, i + 1);
    } else {
      assert msgs[..i] == msgs;
    }
  }

  /** Each of these messages, and one way of sending it. */
  ghost predicate AllFragments(frags: seq<seq<string>>, msgs: seq<Text>) {
    |frags| == |msgs| && AllWellFormed(msgs) && forall i :: 0 <= i < |msgs| ==> Fragments(frags[i], msgs[i])
  }

  lemma {:induction false} JoinWire(frags: seq<seq<string>>, msgs: seq<Text>)
    requires AllFragments(frags, msgs)
    ensures Live(Join(frags)) && Flatten(Join(frags)) == Wire(msgs)
  {
    hide WellFormed, Flatten;
    if frags != [] {
      var n := |frags| - 1;
      JoinWire(frags[..n], msgs[..n]);
      assert Fragments(frags[n], msgs[n]);
      FlattenConcat(Join(frags[..n]), frags[n]);
    } else {
      assert Flatten(Join(frags)) == "" by { EmptyStream(); }
    }
  }

  lemma EmptyStream()
    ensures Flatten([]) == ""
  {
  }

  lemma {:induction false} JoinSplit(frags: seq<seq<string>>, i: nat) returns (rest: seq<string>)
    requires i < |frags|
    ensures Join(frags) == Join(frags[..i]) + (frags[i] + rest)
    decreases |frags|
  {
    var n := |frags| - 1;
    if i == n {
      rest := [];
      assert frags[i] + rest == frags[i];
    } else {
      assert frags[..n][..i] == frags[..i];
      var r := JoinSplit(frags[..n], i);
      rest := r + frags[n];
      assert Join(frags[..i]) + (frags[i] + r) + frags[n] == Join(frags[..i]) + (frags[i] + rest);
    }
  }

  /** A peer that pipelines nothing sends cleanly, whatever the split of each message. */
  lemma UnpipelinedClean(frags: seq<seq<string>>, msgs: seq<Text>)
    requires AllFragments(frags, msgs)
    ensures Live(Join(frags)) && Flatten(Join(frags)) == Wire(msgs) && Clean(Join(frags), msgs, |msgs|)
  {
    hide WellFormed, Flatten, Join, Fragments, SplitCleanly, Dropped;
    JoinWire(frags, msgs);
    forall i | 0 <= i < |msgs| ensures CleanAt(Join(frags), msgs, i) {
      var rest := JoinSplit(frags, i);
      var before := Join(frags[..i]);
      JoinWire(frags[..i], msgs[..i]);
      TailLive(before, frags[i] + rest);
      TailLive(frags[i], rest);
      DroppedConcat(before, frags[i] + rest);
      FragmentsSplitCleanly(frags[i], rest, msgs[i]);
    }
  }

  lemma TailLive(a: seq<string>, b: seq<string>)
    requires Live(a + b)
    ensures Live(b)
  {
    forall i | 0 <= i < |b| ensures b[i] != "" { assert (a + b)[|a| + i] == b[i]; }
  }

  /** A text in a header line: no CR, no LF and no colon. */
  predicate PlainLine(line: string) {
    |line| <= 8000 && forall i :: 0 <= i < |line| ==> line[i] != '\r' && line[i] != '\n' && line[i] != ':'
  }

  /** A first line and the length of the body. */
  function PlainHeader(line: string, n: nat): string {
    line + "\r\nContent-Length" + (": " + D.Dec(n) + "\r\n") + "\r\n"
  }

  /** The characters of such a header, up to its last line end at `e`. */
  lemma PlainChars(line: string, d: string, h: string, e: nat)
    requires PlainLine(line) && D.AllDigits(d) && e == |line| + 18 + |d|
    requires h == line + "\r\nContent-Length" + (": " + d + "\r\n") + "\r\n"
    ensures |h| == e + 4 && h[|line| + 2] == 'C'
    ensures forall q :: 0 <= q < e ==> (h[q] == '\r' <==> q == |line|) && (h[q] == '\n' <==> q == |line| + 1)
    ensures forall q :: 0 <= q < |line| + 16 ==> h[q] != ':'
  {
    assert forall q :: 0 <= q < |d| ==> D.IsDigit(d[q]);
  }

  lemma PlainParts(line: string, d: string, h: string, e: nat)
    requires e == |line| + 18 + |d|
    requires h == line + "\r\nContent-Length" + (": " + d + "\r\n") + "\r\n"
    ensures |h| == e + 4
    ensures h[|line| + 2..|line| + 17] == L.FIELD && h[|line| + 16..] == ": " + d + "\r\n" + "\r\n"
    ensures h[e..] == CRLFCRLF
  {
    assert h == line + ("\r\n" + ("Content-Length" + (": " + (d + CRLFCRLF))));
  }

  /** Its delimiter and its length field come first where they are. */
  lemma PlainMatches(line: string, d: string, h: string, e: nat)
    requires PlainLine(line) && D.AllDigits(d) && e == |line| + 18 + |d|
    requires h == line + "\r\nContent-Length" + (": " + d + "\r\n") + "\r\n"
    ensures |h| == e + 4 && FirstMatch(CRLFCRLF, h) == e && FirstMatch(LFLF, h[..e]) == -1
    ensures FirstMatch(L.FIELD, h) == |line| + 2 && ": " + d + "\r\n" <= h[|line| + 16..]
  {
    PlainChars(line, d, h, e);
    PlainParts(line, d, h, e);
    forall q: nat | q < e ensures !MatchesAt(CRLFCRLF, h, q) {
      Mismatch(CRLFCRLF, h, q, if q == |line| then 2 else 0);
    }
    FirstMatchUnique(CRLFCRLF, h, e);
    forall q: nat ensures !MatchesAt(LFLF, h[..e], q) {
      if q + 2 <= e { TwoChars(LFLF, h[..e], q); }
    }
    forall q: nat | q < |line| + 2 ensures !MatchesAt(L.FIELD, h, q) {
      Mismatch(L.FIELD, h, q, 14);
    }
    FirstMatchUnique(L.FIELD, h, |line| + 2);
  }

  /** Every body can be sent: behind any such line and its length, it is a well-formed message. */
  lemma PlainWellFormed(line: string, body: string)
    requires PlainLine(line) && |body| < 1_000_000_000
    ensures WellFormed(Text(PlainHeader(line, |body|), body))
  {
    hide MatchesAt, FirstMatch, D.Dec;
    var h, d := PlainHeader(line, |body|), D.Dec(|body|);
    D.DecShort(|body|);
    PlainMatches(line, d, h, |line| + 18 + |d|);
    StatedLengthWellFormed(Text(h, body), |line| + 2);
  }

  /** At its turn, the stream starts with the message whose turn it is; after the last it is at
      its end. */
  lemma TurnDue(i: nat, msgs: seq<Text>, first: Side)
    requires i <= |msgs| && Sends(first, msgs)
    ensures Live(first.segs) && Live(SideAt(i, msgs, first).segs)
    ensures i == |msgs| ==> SideAt(i, msgs, first).segs == []
    ensures i < |msgs| ==>
              var side := SideAt(i, msgs, first);
              && Starts(side, msgs[i]) && (SplitCleanly(side.segs, msgs[i]) <==> CleanAt(first.segs, msgs, i))
              && SideBehind(side, msgs[i]) == SideAt(i + 1, msgs, first)
  {
    hide WellFormed, Wire, Flatten, SplitCleanly, Dropped;
    var n := |Wire(msgs[..i])|;
    WirePrefix(msgs, i);
    FlattenDropped(first.segs, n);
    if i < |msgs| {
      WireNext(msgs, i);
      WirePrefix(msgs, i + 1);
      DroppedTwice(first.segs, n, |msgs[i].Bytes()|);
      assert Wire(msgs)[n..][..|msgs[i].Bytes()|] == Wire(msgs[..i + 1])[n..] == msgs[i].Bytes();
      assert first.written + Wire(msgs[..i]) + msgs[i].Bytes() == first.written + (Wire(msgs[..i]) + msgs[i].Bytes());
      NotEmpty(msgs[i]);
      EmptyStream();
    } else {
      assert msgs[..i] == msgs;
      NothingLeft(SideAt(i, msgs, first).segs);
    }
  }

  lemma NotEmpty(t: Text)
    requires WellFormed(t)
    ensures t.Bytes() != ""
  {
  }

  lemma NothingLeft(segs: seq<string>)
    requires Live(segs) && Flatten(segs) == ""
    ensures segs == []
  {
  }

  lemma SideAtStart(msgs: seq<Text>, first: Side)
    requires Live(first.segs)
    ensures SideAt(0, msgs, first) == first
  {
    assert msgs[..0] == [] && first.written + "" == first.written;
  }

  /** One direction's turn at its place in the stream: it takes and writes the message whose turn it
      is if and only if that is split cleanly, and finds none after the last. */
  lemma TurnTaken(g: string, i: nat, msgs: seq<Text>, first: Side, fails: bool)
    requires |g| == HEADER_MAX && i <= |msgs| && Sends(first, msgs)
    ensures Live(first.segs) && Live(SideAt(i, msgs, first).segs) && SideAt(i, msgs, first).room >= 0
    ensures var t := OneTurn(g, SideAt(i, msgs, first), fails);
            if i == |msgs| then t == Turn(NoMessage, SideAt(i, msgs, first))
            else Succeeded(t.step) && t.side == SideAt(i + 1, msgs, first) <==> CleanAt(first.segs, msgs, i)
  {
    TurnDue(i, msgs, first);
    RoomLeft(i, msgs, first);
    hide SideAt, CleanAt, Sends, Starts, SplitCleanly, OneTurn;
    if i < |msgs| {
      TurnIff(g, SideAt(i, msgs, first), fails, msgs[i]);
    } else {
      NoTurn(g, SideAt(i, msgs, first), fails);
    }
  }

  lemma RoomLeft(i: nat, msgs: seq<Text>, first: Side)
    requires i <= |msgs| && Sends(first, msgs)
    ensures SideAt(i, msgs, first).room >= 0
  {
    WirePrefix(msgs, i);
  }

  lemma NoTurn(g: string, side: Side, fails: bool)
    requires |g| == HEADER_MAX && side.segs == [] && side.room >= 0
    ensures OneTurn(g, side, fails) == Turn(NoMessage, side)
  {
    EndOfStream(g, fails);
  }

  /** How the connection ends: both sockets closed, an access outside an array or through NULL,
      or a relay that never returns. */
  datatype End = Finished | Crashed | Hung

  /** Turns go in pairs: even ones bring a request to the server, odd ones a response to the
      client. */
  function OnTurn<T>(i: nat, client: T, server: T): T { if i % 2 == 0 then client else server }

  /** The two directions as the connection starts, and whether reads fail at the end of them. */
  datatype Peers = Peers(client: Side, server: Side, clientFails: bool, serverFails: bool) {
    predicate Live() { Net.Live(client.segs) && Net.Live(server.segs) }

    /** Where the direction of turn `i` starts. */
    function First(i: nat): Side { OnTurn(i, client, server) }

    function Fails(i: nat): bool { OnTurn(i, clientFails, serverFails) }

    ghost predicate Send(reqs: seq<Text>, ress: seq<Text>) { Sends(client, reqs) && Sends(server, ress) }
  }

  /** Where the direction of turn `i` is before it. */
  function Place(turns: seq<Turn>, i: nat, x: Peers): Side
    requires i < |turns| + 2
  {
    if i < 2 then x.First(i) else turns[i - 2].side
  }

  /** Turn `i` is a turn of its direction from the place where that was. */
  ghost predicate TurnAt(turns: seq<Turn>, gs: seq<string>, i: nat, x: Peers)
    requires i < |turns| == |gs|
  {
    var before := Place(turns, i, x);
    && |gs[i]| == HEADER_MAX && Live(before.segs) && before.room >= 0
    && turns[i] == OneTurn(gs[i], before, x.Fails(i))
  }

  /** All turns of a connection: each but the last returned a total. */
  ghost predicate Conversation(turns: seq<Turn>, gs: seq<string>, x: Peers) {
    && |turns| == |gs| > 0 && (forall i :: 0 <= i < |turns| ==> TurnAt(turns, gs, i, x))
    && (forall i :: 0 <= i < |turns| - 1 ==> Succeeded(turns[i].step))
    && !Succeeded(turns[|turns| - 1].step)
  }

  /** How the last turn ends the connection: it hangs with it; it crashes on an access outside an
      array, and on a response that is missing; otherwise both sockets are closed. */
  ghost predicate EndsAs(end: End, last: Step, server: bool) {
    && (end == Hung <==> last == Relayed(Done(R.Hangs)))
    && (end == Crashed <==> last == Step.Fault || last == Relayed(Crash) || (server && last == NoMessage))
  }

  /** Where the two directions are at the end. */
  ghost predicate EndsAt(c: Side, s: Side, turns: seq<Turn>, x: Peers) {
    var n := |turns|;
    c == Place(turns, n + OnTurn(n, 0, 1), x) && s == Place(turns, n + OnTurn(n, 1, 0), x)
  }

  /** The exchanges of a connection: as many as have a response, and the requests forwarded by
      then, one more when that one has no response. */
  function Responses(reqs: seq<Text>, ress: seq<Text>): nat { if |reqs| <= |ress| then |reqs| else |ress| }
  function Requests(reqs: seq<Text>, ress: seq<Text>): nat { if |reqs| <= |ress| then |reqs| else |ress| + 1 }

  /** The message of turn `i` is there and is split cleanly. */
  ghost predicate CleanTurn(i: nat, x: Peers,
                 reqs: seq<Text>, ress: seq<Text>)
    requires x.Live()
  {
    i / 2 < |OnTurn(i, reqs, ress)| && CleanAt(x.First(i).segs, OnTurn(i, reqs, ress), i / 2)
  }

  /** Turn `i` moved its direction by exactly its message. */
  ghost predicate Moved(turns: seq<Turn>, i: nat, x: Peers,
                 reqs: seq<Text>, ress: seq<Text>)
    requires i < |turns| && x.Live()
  {
    i / 2 < |OnTurn(i, reqs, ress)| && turns[i].side == SideAt(i / 2 + 1, OnTurn(i, reqs, ress), x.First(i))
  }

  /** The connection as it should be: every request and its response is moved, and then there is no
      message; when a request has no response it is that response which is missing. */
  ghost predicate Served(turns: seq<Turn>, x: Peers, reqs: seq<Text>, ress: seq<Text>)
    requires x.Live()
  {
    var n := Requests(reqs, ress) + Responses(reqs, ress);
    && |turns| == n + 1 && turns[n].step == NoMessage
    && forall i :: 0 <= i < n ==> Moved(turns, i, x, reqs, ress)
  }

  ghost predicate Planned(turns: seq<Turn>, gs: seq<string>, x: Peers, reqs: seq<Text>, ress: seq<Text>) {
    Conversation(turns, gs, x) && x.Send(reqs, ress)
  }

  /** Turn `i`, from its place in the streams. */
  lemma TurnFrom(turns: seq<Turn>, gs: seq<string>, i: nat, x: Peers,
                 reqs: seq<Text>, ress: seq<Text>)
    requires Planned(turns, gs, x, reqs, ress) && i < |turns| == |gs| && i / 2 <= |OnTurn(i, reqs, ress)|
    requires x.Live() && (i >= 2 ==> Moved(turns, i - 2, x, reqs, ress))
    ensures Place(turns, i, x) == SideAt(i / 2, OnTurn(i, reqs, ress), x.First(i))
    ensures i / 2 == |OnTurn(i, reqs, ress)| ==> turns[i].step == NoMessage
    ensures i / 2 < |OnTurn(i, reqs, ress)| ==>
              (Succeeded(turns[i].step) && Moved(turns, i, x, reqs, ress) <==> CleanTurn(i, x, reqs, ress))
  {
    hide SideAt, CleanAt, Sends, OneTurn;
    if i < 2 { SideAtStart(OnTurn(i, reqs, ress), x.First(i)); }
    assert TurnAt(turns, gs, i, x);
    TurnTaken(gs[i], i / 2, OnTurn(i, reqs, ress), x.First(i), x.Fails(i));
  }

  /** There are turns; those with a total returned are just those with one behind them. */
  lemma NextTurn(turns: seq<Turn>, gs: seq<string>, i: nat, x: Peers)
    requires Conversation(turns, gs, x)
    ensures 0 < |turns| == |gs|
    ensures i < |turns| ==> (i + 1 < |turns| <==> Succeeded(turns[i].step)) && TurnAt(turns, gs, i, x)
  {
    hide TurnAt;
  }

  /** While the messages are split cleanly, every turn moves its direction by exactly its message,
      and there is a next turn. */
  lemma {:induction false} CleanTurns(turns: seq<Turn>, gs: seq<string>, k: nat, x: Peers,
                                      reqs: seq<Text>, ress: seq<Text>)
    requires Planned(turns, gs, x, reqs, ress) && x.Live()
    requires forall i: nat :: i < k ==> CleanTurn(i, x, reqs, ress)
    ensures k < |turns| && forall i: nat :: i < k ==> Moved(turns, i, x, reqs, ress)
  {
    hide CleanTurn, Moved, Conversation, Place, SideAt, OnTurn, TurnAt, Sends;
    if k > 0 {
      CleanTurns(turns, gs, k - 1, x, reqs, ress);
      CleanBound(k - 1, x, reqs, ress);
      NextTurn(turns, gs, k - 1, x);
      TurnFrom(turns, gs, k - 1, x, reqs, ress);
    } else {
      NextTurn(turns, gs, 0, x);
    }
  }

  lemma CleanBound(i: nat, x: Peers,
                 reqs: seq<Text>, ress: seq<Text>)
    requires x.Live() && CleanTurn(i, x, reqs, ress)
    ensures i / 2 < |OnTurn(i, reqs, ress)|
  {
  }

  /** Turn `k` is the first, in order, whose message is not split cleanly. */
  ghost predicate FirstUncleanAt(k: nat, x: Peers, reqs: seq<Text>, ress: seq<Text>)
    requires x.Live()
  {
    && k / 2 < |OnTurn(k, reqs, ress)| && !CleanTurn(k, x, reqs, ress)
    && forall i: nat :: i < k ==> CleanTurn(i, x, reqs, ress)
  }

  /** That turn.  Every message before it was moved; it is a turn from its place in the stream and
      does not move its message; and when it returns no total it is the last, so the other direction
      stays where it was. */
  lemma FirstUnclean(turns: seq<Turn>, gs: seq<string>, k: nat, x: Peers, reqs: seq<Text>, ress: seq<Text>)
    requires x.Live()
    ensures Planned(turns, gs, x, reqs, ress) && FirstUncleanAt(k, x, reqs, ress) ==>
              var before := SideAt(k / 2, OnTurn(k, reqs, ress), x.First(k));
              && k < |turns| == |gs| && |gs[k]| == HEADER_MAX
              && (forall i: nat :: i < k ==> Moved(turns, i, x, reqs, ress))
              && Live(before.segs) && before.room >= 0 && turns[k] == OneTurn(gs[k], before, x.Fails(k))
              && !(Succeeded(turns[k].step) && Moved(turns, k, x, reqs, ress))
              && (!Succeeded(turns[k].step) ==> |turns| == k + 1)
  {
    hide CleanTurn, Moved, SideAt, OneTurn, Conversation, Place, Sends;
    if Planned(turns, gs, x, reqs, ress) && FirstUncleanAt(k, x, reqs, ress) {
      CleanTurns(turns, gs, k, x, reqs, ress);
      NextTurn(turns, gs, k, x);
      TurnFrom(turns, gs, k, x, reqs, ress);
    }
  }

  /** Over any requests and responses, in any segments, the connection is served if and only if each
      message that it comes to is split cleanly. */
  lemma ServedIff(turns: seq<Turn>, gs: seq<string>, x: Peers, reqs: seq<Text>, ress: seq<Text>)
    requires Planned(turns, gs, x, reqs, ress) && x.Live()
    ensures Served(turns, x, reqs, ress) <==>
            Clean(x.client.segs, reqs, Requests(reqs, ress)) && Clean(x.server.segs, ress, Responses(reqs, ress))
  {
    hide CleanTurn, Moved, CleanAt, Conversation, Place, SideAt, Clean, TurnAt, Sends;
    var n := Requests(reqs, ress) + Responses(reqs, ress);
    CleanBoth(x, reqs, ress);
    if forall i: nat :: i < n ==> CleanTurn(i, x, reqs, ress) {
      CleanTurns(turns, gs, n, x, reqs, ress);
      NextTurn(turns, gs, n, x);
      TurnFrom(turns, gs, n, x, reqs, ress);
    }
    if Served(turns, x, reqs, ress) {
      forall i: nat | i < n ensures CleanTurn(i, x, reqs, ress) {
        NextTurn(turns, gs, i, x);
        TurnFrom(turns, gs, i, x, reqs, ress);
      }
    }
  }

  lemma CleanBoth(x: Peers, reqs: seq<Text>, ress: seq<Text>)
    requires x.Live()
    ensures Clean(x.client.segs, reqs, Requests(reqs, ress)) && Clean(x.server.segs, ress, Responses(reqs, ress))
            <==> forall i: nat :: i < Requests(reqs, ress) + Responses(reqs, ress) ==> CleanTurn(i, x, reqs, ress)
  {
    hide CleanAt;
    if forall i: nat :: i < Requests(reqs, ress) + Responses(reqs, ress) ==> CleanTurn(i, x, reqs, ress) {
      forall m | 0 <= m < Requests(reqs, ress) ensures CleanAt(x.client.segs, reqs, m) {
        assert CleanTurn(2 * m, x, reqs, ress);
      }
      forall m | 0 <= m < Responses(reqs, ress) ensures CleanAt(x.server.segs, ress, m) {
        assert CleanTurn(2 * m + 1, x, reqs, ress);
      }
    }
  }

  lemma NoTurns(x: Peers)
    ensures Place([], 0, x) == x.client && Place([], 1, x) == x.server
  {
  }

  /** One more turn behind the others. */
  lemma TurnsGrow(turns: seq<Turn>, gs: seq<string>, t: Turn, g: string, x: Peers)
    requires |turns| == |gs| && forall i :: 0 <= i < |turns| ==> TurnAt(turns, gs, i, x)
    requires var before := Place(turns, |turns|, x);
             && |g| == HEADER_MAX && Live(before.segs) && before.room >= 0
             && t == OneTurn(g, before, x.Fails(|turns|))
    ensures forall i :: 0 <= i <= |turns| ==> TurnAt(turns + [t], gs + [g], i, x)
    ensures Place(turns + [t], |turns| + 2, x) == t.side
    ensures Place(turns + [t], |turns| + 1, x) == Place(turns, |turns| + 1, x)
  {
    hide OneTurn;
    forall i | 0 <= i < |turns| ensures TurnAt(turns + [t], gs + [g], i, x) {
      assert TurnAt(turns, gs, i, x);
    }
  }

  /** `c_proxy_handle_client`.  Whatever the two peers send, `turns` lists the turns made, with what
      each header buffer held in `gs`: each from where the one before left its direction, all but
      the last with a total returned; the last decides the end, and nothing more is read or
      written.  Over any number of requests and responses, in any segments, every request and then
      its response is taken off the stream and forwarded, once each and nothing else, if and only if
      each of them is split cleanly. */
  method HandleClient(client: Socket, server: Socket, toServer: Sink, toClient: Sink,
                      ghost reqs: seq<Text>, ghost ress: seq<Text>)
    returns (end: End, ghost turns: seq<Turn>, ghost gs: seq<string>)
    requires Live(client.segs) && Live(server.segs) && client != server && toServer != toClient
    modifies client, server, toServer, toClient
    ensures var x := Peers(old(SideOf(client, toServer)), old(SideOf(server, toClient)),
                           client.fails, server.fails);
            && Conversation(turns, gs, x)
            && EndsAt(SideOf(client, toServer), SideOf(server, toClient), turns, x)
            && EndsAs(end, turns[|turns| - 1].step, |turns| % 2 == 0)
            && (x.Send(reqs, ress) ==>
                  (Served(turns, x, reqs, ress) <==>
                   Clean(x.client.segs, reqs, Requests(reqs, ress)) &&
                     Clean(x.server.segs, ress, Responses(reqs, ress))))
  {
    hide OneTurn, Sends, Served, Clean, TurnAt, Place, Starts, SplitCleanly, Refused, Overlong, HeaderLength, Flatten,
         Requests, Responses, SideBehind;
    turns, gs := [], [];
    ghost var x := Peers(SideOf(client, toServer), SideOf(server, toClient), client.fails, server.fails);
    NoTurns(x);
    while true
      invariant Live(client.segs) && Live(server.segs) && |turns| == |gs| && |turns| % 2 == 0
      invariant SideOf(client, toServer) == Place(turns, |turns|, x)
      invariant SideOf(server, toClient) == Place(turns, |turns| + 1, x)
      invariant forall i :: 0 <= i < |turns| ==> TurnAt(turns, gs, i, x)
      invariant forall i :: 0 <= i < |turns| ==> Succeeded(turns[i].step)
      decreases |Flatten(client.segs)|
    {
      // client
      var step, g := ForwardNext(client, toServer);
      TurnsGrow(turns, gs, Turn(step, SideOf(client, toServer)), g, x);
      turns, gs := turns + [Turn(step, SideOf(client, toServer))], gs + [g];
      if !Succeeded(step) && x.Send(reqs, ress) {
        ServedIff(turns, gs, x, reqs, ress);
      }
      if step.Fault? { return Crashed, turns, gs; }
      if step.NoMessage? { return Finished, turns, gs; }
      if step.reply.Crash? { return Crashed, turns, gs; }
      if step.reply.outcome.Hangs? { return Hung, turns, gs; }
      if step.reply.outcome.Failed? { return Finished, turns, gs; }

      // server
      step, g := ForwardNext(server, toClient);
      TurnsGrow(turns, gs, Turn(step, SideOf(server, toClient)), g, x);
      turns, gs := turns + [Turn(step, SideOf(server, toClient))], gs + [g];
      if !Succeeded(step) && x.Send(reqs, ress) {
        ServedIff(turns, gs, x, reqs, ress);
      }
      if !step.Relayed? { return Crashed, turns, gs; }  // the response is used without a NULL test
      if step.reply.Crash? { return Crashed, turns, gs; }
      if step.reply.outcome.Hangs? { return Hung, turns, gs; }
      if step.reply.outcome.Failed? { return Finished, turns, gs; }
    }
  }
}

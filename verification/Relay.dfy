/** The account kept while a body is relayed, as a state machine over the turns of the relay
    loop (src/cmon_proxy/cmon_http.c, c_http_recv_body_chunk and c_http_send_body_chunk;
    src/cmon_proxy/cmon_proxy.c, the loop of c_proxy_send_message). */
module Relay {
  import opened Search
  import opened Net

  const BODY_MAX: nat := 8192

  /** `pending` is body_chunk[..cur_body_size], `remaining` the size_t counter, `sent` and
      `total` the two sides of the loop test; the rest is what the peers hold. */
  datatype State = State(pending: string, remaining: nat, sent: nat, total: nat,
                         segs: seq<string>, fails: bool, written: string, room: nat)

  datatype Turn = Next(s: State) | Error(s: State)

  /** How a relay ends: the returned total, the C value -1, or never. */
  datatype Outcome = Sent(n: nat) | Failed | Hangs

  datatype Result = Result(outcome: Outcome, s: State)

  predicate Ready(s: State) { Live(s.segs) && |s.pending| <= BODY_MAX }

  /** c_http_recv_body_chunk: buffer full, fully received, closed, failed, or one read. */
  function Receive(s: State): (t: Turn)
    requires Ready(s)
    ensures Ready(t.s)
  {
    if |s.pending| >= BODY_MAX || s.remaining == 0 then Next(s)
    else if s.segs == [] then if s.fails then Error(s) else Next(s)
    else
      var t := TakeRead(s.segs, BODY_MAX - |s.pending|);
      Next(s.(pending := s.pending + t.data, segs := t.rest, remaining := (s.remaining - |t.data|) % SIZE_T))
  }

  /** c_http_send_body_chunk with the flush option; a short write is an error. */
  function Send(s: State): Turn {
    if |s.pending| > s.room then Error(s.(written := s.written + s.pending[..s.room], room := 0))
    else Next(s.(written := s.written + s.pending, room := s.room - |s.pending|,
                 sent := s.sent + |s.pending|, pending := ""))
  }

  /** One turn of the loop. */
  function Iterate(s: State): (t: Turn)
    requires Ready(s)
    ensures Ready(t.s)
  {
    match Receive(s)
    case Error(e) => Error(e)
    case Next(r) => Send(r)
  }

  function Measure(s: State): nat { 2 * |Flatten(s.segs)| + if s.pending == "" then 0 else 1 }

  /** A turn makes progress, or changes nothing at all. */
  lemma IterateProgress(s: State)
    requires Ready(s) && Iterate(s).Next?
    ensures Iterate(s).s == s || Measure(Iterate(s).s) < Measure(s)
  {
  }

  /** The loop.  A turn that changes nothing would be repeated forever. */
  function Run(s: State): (r: Result)
    requires Ready(s)
    decreases Measure(s)
  {
    if s.sent >= s.total then Result(if s.sent == s.total then Sent(s.total) else Failed, s)
    else
      match Iterate(s)
      case Error(e) => Result(Failed, e)
      case Next(n) =>
        if n == s then Result(Hangs, s)
        else
          IterateProgress(s);
          Run(n)
  }

  /** One turn of the run.  It changes nothing just when nothing was held and nothing was read. */
  lemma RunTurn(s: State)
    requires Ready(s) && s.sent < s.total
    ensures match Receive(s)
            case Error(e) => Run(s) == Result(Failed, e)
            case Next(r) =>
              match Send(r)
              case Error(e) => Run(s) == Result(Failed, e)
              case Next(n) =>
                if s.pending == "" == r.pending then n == s && Run(s) == Result(Hangs, s)
                else Ready(n) && Run(s) == Run(n) && Measure(n) < Measure(s)
  {
    hide Flatten;
    if Iterate(s).Next? { IterateProgress(s); }
  }

  /** The state after `n` turns, had the loop no exit but an error. */
  function After(s: State, n: nat): (t: Turn)
    requires Ready(s)
    ensures Ready(t.s)
    decreases n
  {
    if n == 0 then Next(s)
    else
      match Iterate(s)
      case Error(e) => Error(e)
      case Next(t) => After(t, n - 1)
  }

  /** `Hangs` means what it says: no number of turns ever ends the loop. */
  lemma {:induction false} HangsForever(s: State, n: nat)
    requires Ready(s) && Run(s).outcome == Hangs
    ensures After(s, n).Next? && After(s, n).s.sent < After(s, n).s.total
    ensures Run(After(s, n).s).outcome == Hangs
    decreases n
  {
    if n > 0 {
      HangsForever(Iterate(s).s, n - 1);
    }
  }

  /** The framing account: what is still expected is the total less what was sent and what is
      held, in size_t arithmetic. */
  predicate Balanced(s: State) {
    s.remaining == (s.total - s.sent - |s.pending|) % SIZE_T
  }

  /** Nothing past the end of the message has been read, so no counter has wrapped. */
  predicate Framed(s: State) {
    Ready(s) && s.total < SIZE_T && s.sent + |s.pending| + s.remaining == s.total
  }

  /** Every byte written, held or still to be read, in stream order. */
  function InFlight(s: State): string { s.written + s.pending + Flatten(s.segs) }

  /** Every turn keeps the account, conserves the bytes in flight and writes them in order; a
      failing one has written a prefix of them. */
  lemma IterateConserves(s: State)
    requires Ready(s) && Balanced(s)
    ensures Iterate(s).Next? ==> Balanced(Iterate(s).s) && InFlight(Iterate(s).s) == InFlight(s)
    ensures Iterate(s).Error? ==> Iterate(s).s.written <= InFlight(s)
    ensures s.written <= Iterate(s).s.written
  {
    ReceiveConserves(s);
    if Receive(s).Next? {
      SendConserves(Receive(s).s);
    }
  }

  lemma SendConserves(s: State)
    requires Balanced(s)
    ensures Send(s).Next? ==> Balanced(Send(s).s) && InFlight(Send(s).s) == InFlight(s)
    ensures Send(s).Error? ==> Send(s).s.written <= InFlight(s)
    ensures s.written <= Send(s).s.written
  {
  }

  lemma ReceiveConserves(s: State)
    requires Ready(s) && Balanced(s)
    ensures var t := Receive(s).s;
            Balanced(t) && t.written == s.written && t.room == s.room && InFlight(t) == InFlight(s)
    ensures Receive(s).Error? ==> Receive(s).s == s
  {
    if |s.pending| < BODY_MAX && s.remaining != 0 && s.segs != [] {
      var t := TakeRead(s.segs, BODY_MAX - |s.pending|);
      assert s.written + s.pending + (t.data + Flatten(t.rest)) == s.written + (s.pending + t.data) + Flatten(t.rest);
      ModShift(s.total - s.sent - |s.pending|, |t.data|);
    }
  }

  lemma ModShift(x: int, k: nat)
    ensures (x % SIZE_T - k) % SIZE_T == (x - k) % SIZE_T
  {
  }

  /** In every run, however it ends, the bytes written are a prefix of what was held and still
      to be read, in order and once each; only a failed run loses any. */
  lemma {:induction false} RunConserves(s: State)
    requires Ready(s) && Balanced(s)
    ensures s.written <= Run(s).s.written <= InFlight(s)
    ensures !Run(s).outcome.Failed? ==> InFlight(Run(s).s) == InFlight(s)
    decreases Measure(s)
  {
    assert s.written <= s.written + (s.pending + Flatten(s.segs)) == InFlight(s);
    if s.sent < s.total {
      IterateConserves(s);
      var t := Iterate(s);
      if t.Next? && t.s != s {
        IterateProgress(s);
        RunConserves(t.s);
      }
    }
  }

  /** What a failed relay has written.  Either the receiver took all it could of what was held and
      then read, in order, and no more; or nothing was lost: the bytes written passed the end of
      the message, or a read failed, at once or after all that came before it was written. */
  lemma {:induction false} FailedWrites(s: State)
    requires Ready(s) && Balanced(s) && Run(s).outcome == Failed
    ensures var r := Run(s).s;
            || (r.room == 0 && |r.written| == |s.written| + s.room && r.written <= InFlight(s))
            || (InFlight(r) == InFlight(s) && r.sent > r.total)
            || (InFlight(r) == InFlight(s) && r.segs == [] && s.fails && (r == s || r.pending == ""))
    decreases Measure(s)
  {
    RunConserves(s);
    if s.sent < s.total {
      IterateConserves(s);
      IterateKeeps(s);
      var t := Iterate(s);
      if t.Next? && t.s != s {
        IterateProgress(s);
        FailedWrites(t.s);
      }
    }
  }

  /** What one turn keeps, and how it fails. */
  lemma IterateKeeps(s: State)
    requires Ready(s)
    ensures Iterate(s).Next? ==>
              && Iterate(s).s.fails == s.fails && Iterate(s).s.pending == ""
              && |Iterate(s).s.written| + Iterate(s).s.room == |s.written| + s.room
    ensures Iterate(s).Error? ==>
              || (Iterate(s).s == s && s.segs == [] && s.fails)
              || (Iterate(s).s.room == 0 && |Iterate(s).s.written| == |s.written| + s.room)
  {
  }

  /** A call made on the message: receive a chunk, or send what is held and flush. */
  datatype Call = ReceiveChunk | SendChunk

  /** Any interleaving of calls, up to the first that fails. */
  function Calls(s: State, calls: seq<Call>): (t: Turn)
    requires Ready(s)
    ensures Ready(t.s)
    decreases |calls|
  {
    if calls == [] then Next(s)
    else
      match (if calls[0].ReceiveChunk? then Receive(s) else Send(s))
      case Error(e) => Error(e)
      case Next(n) => Calls(n, calls[1..])
  }

  /** The framing account under any interleaving of calls.  The size_t identity always holds;
      the bytes held are the part of the stream between what was written and what is unread;
      and when the peer sends nothing past the message no counter ever wraps. */
  lemma {:induction false} CallsKeepAccount(s: State, calls: seq<Call>)
    requires Ready(s) && Balanced(s)
    ensures var t := Calls(s, calls);
            t.Next? ==>
              && Balanced(t.s) && |t.s.pending| <= BODY_MAX && InFlight(t.s) == InFlight(s)
              && (Framed(s) && |Flatten(s.segs)| <= s.remaining ==>
                    Framed(t.s) && |Flatten(t.s.segs)| <= t.s.remaining)
    decreases |calls|
  {
    if calls != [] {
      var t := if calls[0].ReceiveChunk? then Receive(s) else Send(s);
      if calls[0].ReceiveChunk? {
        ReceiveConserves(s);
        if Framed(s) && |Flatten(s.segs)| <= s.remaining { ReceiveFramed(s); }
      } else { SendConserves(s); }
      if t.Next? { CallsKeepAccount(t.s, calls[1..]); }
    }
  }

  lemma ReceiveFramed(s: State)
    requires Framed(s) && |Flatten(s.segs)| <= s.remaining
    ensures Framed(Receive(s).s) && |Flatten(Receive(s).s.segs)| <= Receive(s).s.remaining
  {
  }

  lemma {:induction false} RunShrinks(s: State)
    requires Ready(s)
    ensures |Flatten(Run(s).s.segs)| <= |Flatten(s.segs)|
    decreases Measure(s)
  {
    if s.sent < s.total {
      if s.segs != [] && |s.pending| < BODY_MAX {
        var t := TakeRead(s.segs, BODY_MAX - |s.pending|);
        assert |Flatten(s.segs)| == |t.data| + |Flatten(t.rest)|;
      }
      var t := Iterate(s);
      if t.Next? && t.s != s {
        IterateProgress(s);
        RunShrinks(t.s);
      }
    }
  }

  /** Successive reads, the first of at most `cap` bytes and the others of at most a full
      buffer, stop exactly after `need` bytes. */
  predicate Lands(segs: seq<string>, cap: nat, need: nat)
    requires Live(segs)
    decreases |Flatten(segs)|, cap == 0
  {
    if need == 0 then true
    else if segs == [] then false
    else if cap == 0 then Lands(segs, BODY_MAX, need)
    else
      var t := TakeRead(segs, cap);
      |t.data| <= need && Lands(t.rest, BODY_MAX, need - |t.data|)
  }

  /** The reads will stop at the end of the message, and the receiver has room for it. */
  predicate WillLand(s: State)
    requires Framed(s)
  {
    Lands(s.segs, BODY_MAX - |s.pending|, s.remaining) && |s.pending| + s.remaining <= s.room
  }

  /** The peer closes before the end of the message, and the receiver takes all there is. */
  predicate WillStarve(s: State) {
    |Flatten(s.segs)| < s.remaining && !s.fails && |s.pending| + |Flatten(s.segs)| <= s.room
  }

  /** What a turn does to both forecasts: it keeps them, or it crosses the end of the message
      or fails, and then neither held. */
  lemma TurnForecast(s: State)
    requires Framed(s) && s.sent < s.total
    ensures match Iterate(s)
            case Error(_) => !WillLand(s) && !WillStarve(s)
            case Next(n) =>
              if n.sent > n.total then !WillLand(s) && !WillStarve(s)
              else Framed(n) && WillLand(n) == WillLand(s) && WillStarve(n) == WillStarve(s)
  {
    if Iterate(s).Next? {
      IterateFramed(s);
    }
    if |s.pending| < BODY_MAX && s.remaining != 0 && s.segs != [] {
      var t := TakeRead(s.segs, BODY_MAX - |s.pending|);
      assert |Flatten(s.segs)| == |t.data| + |Flatten(t.rest)|;
    }
  }

  /** When the relay succeeds and when it never ends, exactly.  It returns the total just when
      the reads stop at the end of the message and the receiver takes it all; it loops forever
      just when the peer closes early and the receiver takes all there is; else it fails. */
  lemma {:induction false} RunExact(s: State)
    requires Framed(s)
    ensures Run(s).outcome == Sent(s.total) <==> WillLand(s)
    ensures Run(s).outcome == Hangs <==> WillStarve(s)
    ensures Run(s).outcome in {Sent(s.total), Hangs, Failed}
    decreases Measure(s)
  {
    if s.sent < s.total {
      TurnForecast(s);
      var t := Iterate(s);
      if t.Next? {
        IterateFramed(s);
        if t.s == s {
          StuckTurn(s);
        } else if t.s.sent <= t.s.total {
          IterateProgress(s);
          RunExact(t.s);
        }
      }
    }
  }

  /** The other start: more is held than the message has left.  The relay fails, except that a
      message already complete is not looked at again, and what is held stays behind. */
  lemma RunOverread(s: State)
    requires Ready(s) && s.sent <= s.total && s.sent + |s.pending| > s.total
    ensures Run(s).outcome == if s.sent == s.total then Sent(s.total) else Failed
    ensures s.sent == s.total ==> Run(s).s == s
  {
    if s.sent < s.total && Iterate(s).Next? {
      assert Iterate(s).s.sent > s.total && Iterate(s).s.pending == "" != s.pending;
    }
  }

  /** What is held after one more receive into the buffer, and what is unread. */
  function HeldNext(s: State): Taken
    requires Ready(s)
  {
    var cap := BODY_MAX - |s.pending|;
    if cap == 0 || s.segs == [] then Taken(s.pending, s.segs)
    else Taken(s.pending + TakeRead(s.segs, cap).data, TakeRead(s.segs, cap).rest)
  }

  lemma OverreadReceive(s: State)
    requires Ready(s) && Balanced(s) && s.sent < s.total < SIZE_T && s.sent + |s.pending| > s.total
    ensures if |s.pending| < BODY_MAX && s.segs == [] && s.fails then Receive(s) == Error(s)
            else
              && Receive(s).Next?
              && Receive(s).s == s.(pending := HeldNext(s).data, segs := HeldNext(s).rest,
                                    remaining := Receive(s).s.remaining)
  {
    hide Flatten;
    assert s.remaining != 0;
  }

  lemma RunOver(s: State)
    requires Ready(s) && s.sent > s.total
    ensures Run(s) == Result(Failed, s)
  {
  }

  /** What it has then written: what it held and one read behind it, as far as the receiver takes
      them; nothing when that read fails. */
  lemma OverreadWrites(s: State)
    requires Ready(s) && Balanced(s) && s.sent < s.total < SIZE_T && s.sent + |s.pending| > s.total
    ensures var r, held := Run(s).s, HeldNext(s);
            if |s.pending| < BODY_MAX && s.segs == [] && s.fails then r == s
            else
              && r.segs == held.rest
              && r.written == s.written + (if |held.data| <= s.room then held.data else held.data[..s.room])
              && r.room == if |held.data| <= s.room then s.room - |held.data| else 0
  {
    hide Flatten, TakeRead, Run, Receive, Balanced, HeldNext;
    OverreadReceive(s);
    RunTurn(s);
    HeldGrows(s);
    if Receive(s).Next? && Send(Receive(s).s).Next? {
      RunOver(Send(Receive(s).s).s);
    }
  }

  lemma HeldGrows(s: State)
    requires Ready(s)
    ensures |HeldNext(s).data| >= |s.pending|
  {
  }

  /** A relay that returns the total has written the message and no more: what was held, then
      what remained of it in the stream. */
  lemma {:induction false} SentDelivers(s: State)
    requires Framed(s) && Run(s).outcome == Sent(s.total)
    ensures s.remaining <= |Flatten(s.segs)|
    ensures Run(s).s.written == s.written + s.pending + Flatten(s.segs)[..s.remaining]
    ensures Flatten(Run(s).s.segs) == Flatten(s.segs)[s.remaining..]
  {
    hide Run, Flatten;
    RunConserves(s);
    SentCounts(s);
    var r := Run(s).s;
    var w := s.written + s.pending;
    assert r.written + "" == r.written;
    assert InFlight(s)[..|r.written|] == r.written && InFlight(s)[|r.written|..] == Flatten(r.segs);
    assert InFlight(s) == w + Flatten(s.segs);
  }

  lemma {:induction false} SentCounts(s: State)
    requires Framed(s) && Run(s).outcome == Sent(s.total)
    ensures Run(s).s.pending == ""
    ensures |Run(s).s.written| == |s.written| + |s.pending| + s.remaining
    ensures Run(s).s.room == s.room - |s.pending| - s.remaining
    decreases Measure(s)
  {
    if s.sent < s.total {
      IterateFramed(s);
      IterateProgress(s);
      SentCounts(Iterate(s).s);
    }
  }

  /** A turn stays inside the message unless its read crosses the end of it. */
  lemma IterateFramed(s: State)
    requires Framed(s) && s.sent < s.total && Iterate(s).Next?
    ensures var n := Iterate(s).s;
            n.pending == "" && n.total == s.total && n.fails == s.fails &&
            if |s.pending| == BODY_MAX || s.remaining == 0 || s.segs == [] then
              n.sent == s.sent + |s.pending| && n.remaining == s.remaining && n.segs == s.segs
            else
              var t := TakeRead(s.segs, BODY_MAX - |s.pending|);
              n.sent == s.sent + |s.pending| + |t.data| && n.segs == t.rest &&
              (|t.data| <= s.remaining ==> n.remaining == s.remaining - |t.data|)
    ensures Iterate(s).s.sent <= s.total ==> Framed(Iterate(s).s)
    ensures Iterate(s).s.room == s.room - (Iterate(s).s.sent - s.sent)
    ensures |Iterate(s).s.written| == |s.written| + (Iterate(s).s.sent - s.sent)
  {
  }

  /** The only turn that changes nothing is a read at the end of a stream that stops early. */
  lemma StuckTurn(s: State)
    requires Framed(s) && s.sent < s.total && Iterate(s) == Next(s)
    ensures s.pending == "" && s.segs == [] && !s.fails && s.remaining > 0
  {
  }

  /** Reads that come to the end of the segments `a` stop there, whatever the caps. */
  lemma {:induction false} LandsAligned(a: seq<string>, b: seq<string>, cap: nat)
    requires Live(a) && Live(b) && Live(a + b)
    ensures Lands(a + b, cap, |Flatten(a)|)
    decreases |Flatten(a)|, cap == 0
  {
    if a != [] {
      if cap == 0 {
        LandsAligned(a, b, BODY_MAX);
      } else {
        TakeReadFrame(a, b, cap);
        var t := TakeRead(a, cap);
        assert |Flatten(a)| == |t.data| + |Flatten(t.rest)|;
        LandsAligned(t.rest, b, BODY_MAX);
      }
    }
  }

  /** The end of the message, `need` bytes ahead, is the end of one of the segments. */
  ghost predicate AtBoundary(segs: seq<string>, need: nat) {
    exists k: nat :: k <= |segs| && |Flatten(segs[..k])| == need
  }

  /** A read of at most `cap` bytes starts `start` bytes ahead, in a segment of which `len` bytes
      are unread; it or one that follows it in the segment ends `need` bytes ahead. */
  predicate ReadEndsIn(start: nat, len: nat, cap: nat, need: nat) {
    && start < need <= start + len
    && (need == start + len || (start + cap <= need && (need - start - cap) % BODY_MAX == 0))
  }

  ghost predicate EndsInSegment(segs: seq<string>, cap: nat, need: nat, k: nat) {
    k < |segs| && ReadEndsIn(|Flatten(segs[..k])|, |segs[k]|, if k == 0 then cap else BODY_MAX, need)
  }

  /** Where reads stop, said of the segments: at the end of one, or inside one at a multiple of
      the buffer size; in the first segment that is counted from the first read's cap. */
  ghost predicate ReadEnds(segs: seq<string>, cap: nat, need: nat) {
    need == 0 || exists k: nat :: EndsInSegment(segs, cap, need, k)
  }

  /** The reads stop at the end of the message exactly when it is such a point. */
  lemma {:induction false} LandsIffReadEnds(segs: seq<string>, cap: nat, need: nat)
    requires Live(segs)
    ensures Lands(segs, cap, need) <==> ReadEnds(segs, if cap == 0 then BODY_MAX else cap, need)
    decreases |Flatten(segs)|, cap == 0
  {
    hide EndsInSegment;
    if need != 0 && cap == 0 {
      LandsIffReadEnds(segs, BODY_MAX, need);
    } else if need != 0 && segs != [] {
      var t := TakeRead(segs, cap);
      assert |Flatten(segs)| == |t.data| + |Flatten(t.rest)|;
      if |t.data| <= need { LandsIffReadEnds(t.rest, BODY_MAX, need - |t.data|); }
      ReadEndsStep(segs, cap, need);
    } else if need != 0 {
      assert forall k: nat :: !EndsInSegment([], cap, need, k) by { NoSegment(cap, need); }
    }
  }

  lemma NoSegment(cap: nat, need: nat)
    ensures forall k: nat :: !EndsInSegment([], cap, need, k)
  {
  }

  /** The points where reads stop, after one read. */
  lemma ReadEndsStep(segs: seq<string>, cap: nat, need: nat)
    requires Live(segs) && segs != [] && 0 < cap && 0 < need
    ensures var t := TakeRead(segs, cap);
            ReadEnds(segs, cap, need) <==> |t.data| <= need && ReadEnds(t.rest, BODY_MAX, need - |t.data|)
  {
    hide EndsInSegment, TakeRead;
    var t := TakeRead(segs, cap);
    var shift := if |segs[0]| <= cap then 1 else 0;
    TakeReadLengths(segs, cap);
    HeadEnds(segs, cap, need);
    forall k: nat | k >= shift
      ensures EndsInSegment(segs, cap, need, k) && need != |t.data| <==>
              |t.data| < need && EndsInSegment(t.rest, BODY_MAX, need - |t.data|, k - shift)
    {
      LaterEnds(segs, cap, need, k);
    }
    if |t.data| < need && ReadEnds(t.rest, BODY_MAX, need - |t.data|) {
      var j: nat :| EndsInSegment(t.rest, BODY_MAX, need - |t.data|, j);
      assert EndsInSegment(segs, cap, need, j + shift);
    }
    if ReadEnds(segs, cap, need) && need != |t.data| {
      var k: nat :| EndsInSegment(segs, cap, need, k);
      assert k >= shift;
      assert EndsInSegment(t.rest, BODY_MAX, need - |t.data|, k - shift);
    }
  }

  /** In the first segment, the first read stops. */
  lemma HeadEnds(segs: seq<string>, cap: nat, need: nat)
    requires Live(segs) && segs != [] && 0 < cap && 0 < need
    ensures need == |TakeRead(segs, cap).data| ==> EndsInSegment(segs, cap, need, 0)
    ensures |segs[0]| <= cap && EndsInSegment(segs, cap, need, 0) ==> need == |segs[0]|
  {
    assert segs[..0] == [];
  }

  lemma LaterEnds(segs: seq<string>, cap: nat, need: nat, k: nat)
    requires Live(segs) && segs != [] && 0 < cap && 0 < need && (|segs[0]| <= cap ==> k > 0)
    ensures var t := TakeRead(segs, cap);
            EndsInSegment(segs, cap, need, k) && need != |t.data| <==>
            |t.data| < need && EndsInSegment(t.rest, BODY_MAX, need - |t.data|, if |segs[0]| <= cap then k - 1 else k)
  {
    var t := TakeRead(segs, cap);
    if k < |segs| {
      if |segs[0]| <= cap {
        PrefixLength(segs, k);
      } else if k > 0 {
        PrefixLength(segs, k);
        PrefixLength(t.rest, k);
        assert t.rest[1..] == segs[1..];
      } else {
        assert segs[..0] == [] && t.rest[..0] == [];
      }
    }
  }

  lemma PrefixLength(segs: seq<string>, k: nat)
    requires 0 < k <= |segs|
    ensures |Flatten(segs[..k])| == |segs[0]| + |Flatten(segs[1..][..k - 1])|
  {
    assert segs[..k][1..] == segs[1..][..k - 1];
  }

  /** When no segment is longer than a read can take, reads stop at the end of the message
      exactly when the sender started no segment before it and finished it after. */
  lemma {:induction false} LandsIffBoundary(segs: seq<string>, cap: nat, need: nat)
    requires Live(segs) && 0 < cap <= BODY_MAX
    requires forall i :: 0 <= i < |segs| ==> |segs[i]| <= cap
    ensures Lands(segs, cap, need) <==> AtBoundary(segs, need)
    decreases |segs|
  {
    if need == 0 {
      assert |Flatten(segs[..0])| == 0;
    } else if segs != [] {
      var rest := segs[1..];
      if |segs[0]| <= need {
        LandsIffBoundary(rest, cap, need - |segs[0]|);
        LandsCap(rest, cap, BODY_MAX, need - |segs[0]|);
        BoundaryStep(segs, need);
      } else {
        forall k: nat | k <= |segs| ensures |Flatten(segs[..k])| != need {
          if k > 0 { assert segs[..k][0] == segs[0]; }
        }
      }
    }
  }

  lemma BoundaryStep(segs: seq<string>, need: nat)
    requires Live(segs) && segs != [] && 0 < need && |segs[0]| <= need
    ensures AtBoundary(segs, need) <==> AtBoundary(segs[1..], need - |segs[0]|)
  {
    forall k: nat | 0 < k <= |segs|
      ensures |Flatten(segs[..k])| == |segs[0]| + |Flatten(segs[1..][..k - 1])|
    {
      PrefixLength(segs, k);
    }
    if k: nat :| k <= |segs| && |Flatten(segs[..k])| == need {
      assert k > 0;
      assert |Flatten(segs[1..][..k - 1])| == need - |segs[0]|;
    }
    if AtBoundary(segs[1..], need - |segs[0]|) {
      var j: nat :| j <= |segs[1..]| && |Flatten(segs[1..][..j])| == need - |segs[0]|;
      assert segs[..j + 1][1..] == segs[1..][..j];
      assert |Flatten(segs[..j + 1])| == need;
    }
  }

  /** Caps that never cut a segment do not matter. */
  lemma LandsCap(segs: seq<string>, c: nat, d: nat, need: nat)
    requires Live(segs) && 0 < c && 0 < d
    requires forall i :: 0 <= i < |segs| ==> |segs[i]| <= c && |segs[i]| <= d
    ensures Lands(segs, c, need) == Lands(segs, d, need)
  {
  }

  /** A relay that returns the total leaves the segments behind the message. */
  lemma {:induction false} RunDrops(s: State)
    requires Framed(s) && Run(s).outcome == Sent(s.total)
    ensures Run(s).s.segs == Dropped(s.segs, s.remaining)
    decreases Measure(s)
  {
    hide Dropped, TakeRead, Flatten;
    if s.sent < s.total {
      IterateFramed(s);
      IterateProgress(s);
      RunDrops(Iterate(s).s);
      if |s.pending| < BODY_MAX && s.remaining != 0 && s.segs != [] {
        TakeReadDrops(s.segs, BODY_MAX - |s.pending|);
        DroppedTwice(s.segs, |TakeRead(s.segs, BODY_MAX - |s.pending|).data|, Iterate(s).s.remaining);
      }
    } else {
      NothingDropped(s.segs);
    }
  }

  lemma NothingDropped(segs: seq<string>)
    requires Live(segs)
    ensures Dropped(segs, 0) == segs
  {
  }

  /** The relay of a message whose remaining bytes are the segments `a`, with anything after
      them: it returns the total, writes exactly what it held and `a`, and leaves the rest. */
  lemma RelayAligned(s: State, a: seq<string>, b: seq<string>)
    requires Framed(s) && Live(a) && Live(b) && s.segs == a + b && |Flatten(a)| == s.remaining
    requires |s.pending| + s.remaining <= s.room
    ensures Run(s).outcome == Sent(s.total)
    ensures Run(s).s.segs == b && Run(s).s.written == s.written + s.pending + Flatten(a)
    ensures Run(s).s.room == s.room - |s.pending| - s.remaining
  {
    hide Run, Lands, Flatten, WillStarve;
    LandsAligned(a, b, BODY_MAX - |s.pending|);
    RunExact(s);
    SentDelivers(s);
    SentCounts(s);
    RunDrops(s);
    DroppedConcat(a, b);
    FlattenConcat(a, b);
    assert (Flatten(a) + Flatten(b))[..|Flatten(a)|] == Flatten(a);
  }
}

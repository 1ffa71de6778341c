/** One HTTP message on its way through the proxy (src/cmon_proxy/cmon_http.c,
    c_http_get_message, c_http_recv_body_chunk, c_http_send_headers, c_http_send_body_chunk;
    src/cmon_proxy/cmon_proxy.c, c_proxy_send_message without the search for the tag and the injection). */
module HttpMessage {
  import opened Search
  import opened Net
  import opened HttpHeader
  import opened Wrappers
  import D = Decimal
  import L = HttpLength
  import R = Relay

  const BUFFER_FULL: int := -3
  const FULLY_RECEIVED: int := -4

  /** What c_http_get_message makes of a connection: NULL, an access outside an array, or a
      message whose header block is the first `size` of the `got` bytes received in `mem`. */
  datatype Start = Null | Fault | Started(size: nat, length: nat, mem: string, got: nat)

  /** The message started on a header buffer that held `g`. */
  function StartMessage(g: string, segs: seq<string>, fails: bool): (s: Start)
    requires |g| == HEADER_MAX && Live(segs)
    ensures s.Started? ==> 4 <= s.size <= HEADER_MAX + 2 && s.got <= |s.mem| == HEADER_MAX
  {
    var r := Recv(g, "", segs, fails);
    match r.status
    case Overrun => Fault
    case Closed => Null
    case Failed => Null
    case Header(size) =>
      var mem := r.got + g[|r.got|..];
      match L.ContentLength(mem, size)
      case Bad => Null
      case Overrun => Fault
      case Value(n) => Started(size, n, mem, |r.got|)
  }

  /** The total that c_proxy_send_message returns as an int fits one. */
  lemma TotalFitsInt(g: string, segs: seq<string>, fails: bool)
    requires |g| == HEADER_MAX && Live(segs)
    ensures var s := StartMessage(g, segs, fails); s.Started? ==> s.size + s.length <= 0x7fff_ffff
  {
    var r := Recv(g, "", segs, fails);
    if r.status.Header? {
      L.ContentLengthRange(r.got + g[|r.got|..], r.status.length);
    }
  }

  /** The line of the first length field in front of the last line end of a header of `n` bytes,
      if there is one. */
  function LengthLine(stream: string, n: nat): Option<string>
    requires 4 <= n <= |stream| + 4
  {
    var i := FirstMatch(L.FIELD, stream[..n - 4]);
    if i == -1 then None else Some(L.UpToEol(stream[i + 14..]))
  }

  /** No header comes, or its length line is refused. */
  ghost predicate Refused(segs: seq<string>) {
    var n := HeaderLength(segs, HEADER_MAX);
    n == -1 || (n >= 15 && var line := LengthLine(Flatten(segs), n);
                           line.Some? && !L.Readable(line.value) && !L.TenthDigit(line.value, 0))
  }

  /** A header comes, and reading its length line leaves the digit buffer. */
  ghost predicate Overlong(segs: seq<string>) {
    var n := HeaderLength(segs, HEADER_MAX);
    n >= 15 && var line := LengthLine(Flatten(segs), n);
               line.Some? && !L.Readable(line.value) && L.TenthDigit(line.value, 0)
  }

  lemma SharedPart(a: string, b: string, got: nat, from: nat, k: nat)
    requires got <= |a| && got <= |b| && a[..got] == b[..got] && from <= k < got
    ensures a[k] == b[k] && a[..k] == b[..k] && a[from..][..k - from + 1] == b[from..][..k - from + 1]
  {
    forall i | 0 <= i < got ensures a[i] == b[i] {
      assert a[i] == a[..got][i] && b[i] == b[..got][i];
    }
  }

  /** The length of a header in memory is that of its line in the stream. */
  lemma LengthInMemory(mem: string, stream: string, got: nat, n: nat)
    requires |mem| == HEADER_MAX && got <= |mem| && got <= |stream| && mem[..got] == stream[..got]
    requires 15 <= n <= HEADER_MAX + 2 && n - 4 < got && L.IsEol(stream[n - 4])
    ensures var line := LengthLine(stream, n);
            L.ContentLength(mem, n) == if line.None? then L.Value(0) else L.LineLength(line.value)
  {
    hide MatchesAt, L.ContentLength, L.LineLength, L.UpToEol;
    var k := n - 4;
    SharedPart(mem, stream, got, 0, k);
    L.HeaderLengthExact(mem, n);
    var i := FirstMatch(L.FIELD, mem[..k]);
    if i != -1 {
      var a, b := stream[i + 14..], mem[i + 14..];
      SharedPart(mem, stream, got, i + 14, k);
      L.UpToEolSame(a, b, k - (i + 14));
    }
  }

  /** What the length of a header shorter than the field's name is taken from: all that the buffer
      holds. */
  function ShortLength(g: string, segs: seq<string>): L.Length
    requires |g| == HEADER_MAX
  {
    var mem := Buffered(g, segs);
    var i := FirstMatch(L.FIELD, mem);
    if i == -1 then L.Overrun else L.ScanLine(mem[i + 14..], 0)
  }

  lemma Shares(got: string, rest: string, tail: string, stream: string)
    requires got + rest == "" + stream
    ensures |got| <= |stream| && (got + tail)[..|got|] == got == stream[..|got|]
  {
    assert "" + stream == stream;
  }

  /** The buffer after the header reads. */
  function Buffered(g: string, segs: seq<string>): (mem: string)
    requires |g| == HEADER_MAX
    ensures |mem| == HEADER_MAX && mem[..ReadLength(segs, HEADER_MAX)] == Flatten(segs)[..ReadLength(segs, HEADER_MAX)]
  {
    var n := ReadLength(segs, HEADER_MAX);
    Flatten(segs)[..n] + g[n..]
  }

  /** The start, from the length of the header and the length field. */
  lemma StartReceived(g: string, segs: seq<string>, fails: bool)
    requires |g| == HEADER_MAX && Live(segs) && (segs != [] ==> |segs[0]| >= 4)
    ensures var s, n := StartMessage(g, segs, fails), HeaderLength(segs, HEADER_MAX);
            if n == -1 then s == Null
            else
              match L.ContentLength(Buffered(g, segs), n)
              case Bad => s == Null
              case Overrun => s == Fault
              case Value(v) => s == Started(n, v, Buffered(g, segs), ReadLength(segs, HEADER_MAX))
  {
    hide MatchesAt, Recv, HeaderLength, ReadLength, L.ContentLength, FirstMatch, Flatten;
    RecvExact(g, segs, fails);
    var r := Recv(g, "", segs, fails);
    Shares(r.got, Flatten(r.segs), g[|r.got|..], Flatten(segs));
  }

  /** What c_http_get_message makes of any stream whose first segment has four bytes: NULL and
      the access outside an array each exactly when the stream says so, and otherwise the message
      with the length of its line, or without a body.  Only a header shorter than the field's name
      is judged by what the buffer held before. */
  lemma StartExact(g: string, segs: seq<string>, fails: bool)
    requires |g| == HEADER_MAX && Live(segs) && (segs != [] ==> |segs[0]| >= 4)
    ensures var s, n, stream := StartMessage(g, segs, fails), HeaderLength(segs, HEADER_MAX), Flatten(segs);
            && (n == -1 || n >= 15 ==> (s == Null <==> Refused(segs)) && (s == Fault <==> Overlong(segs)))
            && (4 <= n < 15 ==>
                  var length := ShortLength(g, segs);
                  (s == Null <==> length == L.Bad) && (s == Fault <==> length == L.Overrun))
            && (s.Started? ==> s.size == n && s.got == ReadLength(segs, HEADER_MAX) && s.mem[..s.got] <= stream)
            && (s.Started? && n >= 15 ==>
                  s.length == match LengthLine(stream, n) case None => 0 case Some(line) => D.Val(L.Digits(line)))
  {
    hide MatchesAt, HeaderLength, ReadLength, L.ContentLength, L.Readable, L.TenthDigit, FirstMatch, LengthLine,
         Flatten, Buffered, StartMessage;
    StartReceived(g, segs, fails);
    var n := HeaderLength(segs, HEADER_MAX);
    if n != -1 {
      HeaderEndsLine(segs, HEADER_MAX);
      if n >= 15 {
        LengthInMemory(Buffered(g, segs), Flatten(segs), ReadLength(segs, HEADER_MAX), n);
      } else {
        L.ShortHeader(Buffered(g, segs), n);
      }
    }
  }

  /** The length of a header that ends with the first CRLFCRLF of the memory. */
  ghost function MemoryLength(mem: string): L.Length
    requires FirstMatch(CRLFCRLF, mem) != -1
  {
    var n := FirstMatch(CRLFCRLF, mem) + 4;
    var i := FirstMatch(L.FIELD, if n >= 15 then mem[..n - 4] else mem);
    if n >= 15 then if i == -1 then L.Value(0) else L.LineLength(L.UpToEol(mem[i + 14..]))
    else if i == -1 then L.Overrun else L.ScanLine(mem[i + 14..], 0)
  }

  lemma MemoryLengthIs(mem: string)
    requires |mem| == HEADER_MAX && FirstMatch(CRLFCRLF, mem) != -1
    ensures L.ContentLength(mem, FirstMatch(CRLFCRLF, mem) + 4) == MemoryLength(mem)
  {
    hide MatchesAt, L.ContentLength, L.LineLength, L.ScanLine, L.UpToEol, FirstMatch;
    var n := FirstMatch(CRLFCRLF, mem) + 4;
    DelimiterLineEnd(mem, n - 4);
    if n >= 15 { L.HeaderLengthExact(mem, n); } else { L.ShortHeader(mem, n); }
  }

  /** After a first read of fewer than four bytes: an access outside an array when no CRLFCRLF
      comes with what the buffer held before; otherwise a header up to that one, with the length
      that is read from the same memory. */
  lemma ShortStartExact(g: string, segs: seq<string>, fails: bool)
    requires |g| == HEADER_MAX && Live(segs) && segs != [] && |segs[0]| < 4
    ensures var s, mem := StartMessage(g, segs, fails), segs[0] + g[|segs[0]|..];
            if FirstMatch(CRLFCRLF, mem) == -1 then s == Fault
            else
              match MemoryLength(mem)
              case Bad => s == Null
              case Overrun => s == Fault
              case Value(length) => s == Started(FirstMatch(CRLFCRLF, mem) + 4, length, mem, |segs[0]|)
  {
    hide MatchesAt, Recv, L.ContentLength, MemoryLength, FirstMatch, TakeRead, Flatten;
    ShortFirstRead(g, segs, fails);
    var mem := segs[0] + g[|segs[0]|..];
    if FirstMatch(CRLFCRLF, mem) != -1 { MemoryLengthIs(mem); }
  }

  class Message {
    const headers: array<char>
    const body: array<char>
    const sock: Socket
    var headersSize: nat
    var curBodySize: int
    var contentLength: nat
    var totalMsgSize: nat
    var remainingData: nat

    ghost predicate Valid()
      reads this, sock
    {
      && headers.Length == HEADER_MAX && body.Length == R.BODY_MAX && headers != body
      && curBodySize <= R.BODY_MAX && remainingData < SIZE_T
      && Live(sock.segs)
    }

    /** The relay account of this message when `sent` bytes of it have gone to `sink`. */
    ghost function View(sent: nat, sink: Sink): R.State
      reads this, body, sock, sink
      requires Valid() && 0 <= curBodySize
    {
      R.State(body[..curBodySize], remainingData, sent, totalMsgSize, sock.segs, sock.fails, sink.written, sink.room)
    }

    constructor (sock: Socket)
      requires Live(sock.segs)
      ensures this.sock == sock && fresh(headers) && fresh(body)
      ensures Valid() && headersSize == 0 && curBodySize == 0 && remainingData == 0
    {
      this.sock := sock;
      headers := new char[HEADER_MAX];
      body := new char[R.BODY_MAX];
      headersSize, curBodySize, contentLength, totalMsgSize, remainingData := 0, 0, 0, 0, 0;
    }

    /** The fields as c_http_get_message leaves them. */
    ghost predicate StartedAs(s: Start)
      reads this, headers, body, sock
    {
      && Valid() && s.Started? && s.size + s.length < SIZE_T && s.got <= |s.mem|
      && headers[..] == s.mem && headersSize == s.size
      && contentLength == s.length && totalMsgSize == s.size + s.length
      && curBodySize == s.got - s.size
      && remainingData == (s.size + s.length - s.got) % SIZE_T
      && (s.size <= s.got ==> body[..s.got - s.size] == s.mem[s.size..s.got])
    }

    /** The loop that carries bytes read past the header block over to the body buffer. */
    method CopyExcess(size: nat, total: nat)
      requires headers.Length == HEADER_MAX && body.Length == R.BODY_MAX && headers != body
      requires 4 <= size && total <= HEADER_MAX
      modifies body
      ensures size <= total ==> body[..total - size] == headers[size..total]
    {
      var i := 0;
      while i < total - size
        invariant 0 <= i && (size <= total ==> i <= total - size && body[..i] == headers[size..size + i])
      {
        body[i] := headers[size + i];
        i := i + 1;
      }
    }

    /** The second half of c_http_get_message: `total` bytes are in the header buffer, the
        first `size` of them the header block. */
    method Frame(size: nat, total: nat) returns (length: L.Length)
      requires Valid() && 4 <= size <= HEADER_MAX + 2 && total <= HEADER_MAX
      modifies this, body
      ensures Valid() && length == L.ContentLength(headers[..], size)
      ensures length.Value? ==> StartedAs(Started(size, length.n, headers[..], total))
    {
      hide L.ContentLength;
      headersSize := size;
      CopyExcess(size, total);
      length := L.GetContentLength(headers, size);
      if length.Value? {
        L.ContentLengthRange(headers[..], size);
        totalMsgSize := size + length.n;
        contentLength := length.n;
        curBodySize := total - size;
        remainingData := (totalMsgSize - total) % SIZE_T;
      }
    }

    /** `c_http_recv_body_chunk(msg)`: the bytes read, 0 when the peer has closed, or a code. */
    method RecvBodyChunk(ghost sent: nat, ghost sink: Sink) returns (rc: int)
      requires Valid() && 0 <= curBodySize
      modifies this`curBodySize, this`remainingData, body, sock`segs
      ensures Valid() && 0 <= curBodySize
      ensures R.Receive(old(View(sent, sink))).s == View(sent, sink)
      ensures rc == -1 <==> R.Receive(old(View(sent, sink))).Error?
      ensures rc == BUFFER_FULL <==> old(curBodySize) == R.BODY_MAX
      ensures rc == FULLY_RECEIVED <==> old(curBodySize) < R.BODY_MAX && old(remainingData) == 0
      ensures rc >= 0 ==> rc == curBodySize - old(curBodySize)
      ensures rc in {-1, BUFFER_FULL, FULLY_RECEIVED} || rc >= 0
    {
      if curBodySize >= R.BODY_MAX { return BUFFER_FULL; }
      if remainingData <= 0 { return FULLY_RECEIVED; }
      ghost var before := body[..curBodySize];
      rc := sock.Read(body, curBodySize, R.BODY_MAX - curBodySize);
      if rc < 0 {
        assert body[..curBodySize] == before;
        return;
      }
      remainingData := (remainingData - rc) % SIZE_T;
      curBodySize := curBodySize + rc;
      assert rc > 0 ==> body[..curBodySize] == before + body[curBodySize - rc..curBodySize];
    }

    /** `c_http_send_body_chunk(msg, receiver, op)`: the bytes written, or -1. */
    method SendBodyChunk(sink: Sink, flush: bool, ghost sent: nat) returns (rc: int)
      requires Valid() && 0 <= curBodySize
      modifies this`curBodySize, sink
      ensures Valid() && 0 <= curBodySize
      ensures rc == (if R.Send(old(View(sent, sink))).Error? then -1 else old(curBodySize))
      ensures rc == -1 ==> View(sent, sink) == R.Send(old(View(sent, sink))).s
      ensures rc != -1 && flush ==> View(sent + rc, sink) == R.Send(old(View(sent, sink))).s
      ensures rc != -1 && !flush ==>
                View(sent + rc, sink) == R.Send(old(View(sent, sink))).s.(pending := old(body[..curBodySize]))
    {
      ghost var pending := body[..curBodySize];
      var n := sink.Write(body[..curBodySize]);
      assert pending[..|pending|] == pending;
      if n != curBodySize { return -1; }
      if flush { curBodySize := 0; }
      rc := n;
    }
  }

  /** `c_http_get_message(fd)`; `g` is what the allocated header buffer happened to hold. */
  method GetMessage(sock: Socket) returns (m: Message?, fault: bool, ghost g: string)
    requires Live(sock.segs)
    modifies sock`segs
    ensures Live(sock.segs) && |g| == HEADER_MAX
    ensures sock.segs == Recv(g, "", old(sock.segs), sock.fails).segs
    ensures var s := StartMessage(g, old(sock.segs), sock.fails);
            && fault == s.Fault? && (m != null <==> s.Started?)
            && (m != null ==> fresh(m) && fresh(m.headers) && fresh(m.body) && m.sock == sock && m.StartedAs(s))
  {
    var msg := new Message(sock);
    g := msg.headers[..];
    var status, total, _ := RecvHeader(sock, msg.headers);
    if status == Status.Overrun { return null, true, g; }
    if !status.Header? { return null, false, g; }
    var length := msg.Frame(status.length, total);
    if length == L.Bad { return null, false, g; }
    if length == L.Overrun { return null, true, g; }
    return msg, false, g;
  }

  /** How c_proxy_send_message ends: as the relay does, or with an access outside an array. */
  datatype Reply = Done(outcome: R.Outcome) | Crash

  /** The relay account right after the header bytes `hdr` have been written. */
  function AfterHeader(s: R.State, hdr: string): R.State
    requires |hdr| <= s.room
  {
    s.(written := s.written + hdr, room := s.room - |hdr|, sent := |hdr|)
  }

  /** The relay account of a message just started, its header block sent. */
  function Opening(s: Start, segs: seq<string>, fails: bool, written: string, room: nat): R.State
    requires s.Started? && s.size <= s.got <= |s.mem| && s.size <= room
  {
    R.State(s.mem[s.size..s.got], (s.size + s.length - s.got) % SIZE_T, s.size, s.size + s.length,
            segs, fails, written + s.mem[..s.size], room - s.size)
  }

  /** A message whose header block was received whole starts with its account in balance, and
      framed as long as nothing past it has been read. */
  lemma StartBalanced(s: Start, segs: seq<string>, fails: bool, written: string, room: nat)
    requires s.Started? && s.size <= s.got <= |s.mem| == HEADER_MAX && s.size <= room
    requires s.size + s.length < SIZE_T && Live(segs)
    ensures var o := Opening(s, segs, fails, written, room);
            R.Ready(o) && R.Balanced(o) && (R.Framed(o) <==> s.got <= o.total)
  {
  }

  /** What c_proxy_send_message comes to: its reply, what is unread, what was written, and how
      much more the receiver takes. */
  datatype Delivery = Delivery(reply: Reply, segs: seq<string>, written: string, room: nat)

  /** The same for a message just started.  A header longer than all that was received makes the
      count of body bytes held negative. */
  function Deliver(s: Start, segs: seq<string>, fails: bool, written: string, room: nat): Delivery
    requires s.Started? && s.got <= |s.mem| == HEADER_MAX && Live(segs)
  {
    if s.size > HEADER_MAX then Delivery(Crash, segs, written, room)
    else if s.size > room then Delivery(Done(R.Failed), segs, written + s.mem[..room], 0)
    else if s.size > s.got then
      Delivery(if s.length == 0 then Done(R.Sent(s.size)) else Crash, segs, written + s.mem[..s.size], room - s.size)
    else
      var run := R.Run(Opening(s, segs, fails, written, room));
      Delivery(Done(run.outcome), run.s.segs, run.s.written, run.s.room)
  }

  /** How the forwarding of any message just started ends, exactly.  It succeeds when the header
      block was received whole, nothing past the message was read with it, and the relay lands;
      but also, for a message without a body, whatever the header read did. */
  lemma StartedOutcome(s: Start, segs: seq<string>, fails: bool, written: string, room: nat)
    requires s.Started? && s.got <= |s.mem| == HEADER_MAX && s.size + s.length < SIZE_T && Live(segs)
    ensures var d, total := Deliver(s, segs, fails, written, room), s.size + s.length;
            var begun, framed := s.size <= HEADER_MAX && s.size <= room, s.size <= s.got <= total;
            && d.reply in {Crash, Done(R.Sent(total)), Done(R.Hangs), Done(R.Failed)}
            && (d.reply == Crash <==> s.size > HEADER_MAX || (begun && s.size > s.got && s.length > 0))
            && (d.reply == Done(R.Sent(total)) <==>
                begun && if framed then R.WillLand(Opening(s, segs, fails, written, room)) else s.length == 0)
            && (d.reply == Done(R.Hangs) <==>
                begun && framed && R.WillStarve(Opening(s, segs, fails, written, room)))
  {
    hide R.Run, R.Lands, R.WillStarve;
    if s.size <= s.got && s.size <= room {
      var o := Opening(s, segs, fails, written, room);
      StartBalanced(s, segs, fails, written, room);
      if R.Framed(o) { R.RunExact(o); } else { R.RunOverread(o); }
    }
  }

  /** A total returned is the number of bytes written. */
  lemma SuccessCounts(s: Start, segs: seq<string>, fails: bool, written: string, room: nat)
    requires s.Started? && s.got <= |s.mem| == HEADER_MAX && s.size + s.length < SIZE_T && Live(segs)
    ensures var d := Deliver(s, segs, fails, written, room);
            d.reply.Done? && d.reply.outcome.Sent? ==> |d.written| == |written| + d.reply.outcome.n
  {
    hide R.Run, R.Lands;
    if s.size <= s.got && s.size <= room {
      var o := Opening(s, segs, fails, written, room);
      StartBalanced(s, segs, fails, written, room);
      if R.Framed(o) {
        R.RunExact(o);
        if R.Run(o).outcome == R.Sent(o.total) { R.SentCounts(o); }
      } else {
        R.RunOverread(o);
      }
    }
  }

  /** What a success is worth: the bytes written and left are exactly those received and left
      before, if and only if the header was received whole and nothing past the message with it.
      Otherwise the bytes held are dropped, or bytes that were never received are sent. */
  lemma SuccessConserves(s: Start, segs: seq<string>, fails: bool, written: string, room: nat)
    requires s.Started? && s.got <= |s.mem| == HEADER_MAX && s.size + s.length < SIZE_T && Live(segs)
    requires Deliver(s, segs, fails, written, room).reply == Done(R.Sent(s.size + s.length))
    ensures var d := Deliver(s, segs, fails, written, room);
            && (d.written + Flatten(d.segs) == written + s.mem[..s.got] + Flatten(segs)
                <==> s.size <= s.got <= s.size + s.length)
            && (!(s.size <= s.got <= s.size + s.length) ==> d.segs == segs && d.written == written + s.mem[..s.size])
  {
    hide R.Run, R.Lands, R.WillStarve, Flatten;
    if s.size <= s.got {
      var o := Opening(s, segs, fails, written, room);
      StartBalanced(s, segs, fails, written, room);
      assert s.mem[..s.got] == s.mem[..s.size] + s.mem[s.size..s.got];
      if R.Framed(o) {
        R.RunConserves(o);
        R.SentCounts(o);
        assert R.Run(o).s.written + "" == R.Run(o).s.written;
        assert R.InFlight(o) == written + s.mem[..s.got] + Flatten(segs);
      } else {
        R.RunOverread(o);
      }
    }
  }

  /** `c_proxy_send_message(msg, receiver, &size)` without the search for the tag and the injection. */
  method SendMessage(m: Message?, sink: Sink) returns (r: Reply)
    requires m != null ==> m.Valid()
    modifies m, if m == null then {} else {m.body}, if m == null then {} else {m.sock}, sink
    ensures m != null ==> Live(m.sock.segs)
    ensures m != null ==> |Flatten(m.sock.segs)| <= |Flatten(old(m.sock.segs))|
    ensures m == null ==> r == Done(R.Failed) && sink.written == old(sink.written) && sink.room == old(sink.room)
    ensures m != null && (old(m.curBodySize) < 0 || old(m.headersSize) > HEADER_MAX) ==> m.sock.segs == old(m.sock.segs)
    ensures m != null && old(m.headersSize) > HEADER_MAX ==>
              r == Crash && sink.written == old(sink.written) && sink.room == old(sink.room)
    ensures m != null && old(m.headersSize) <= HEADER_MAX && old(m.headersSize) > old(sink.room) ==>
              && r == Done(R.Failed) && sink.written == old(sink.written) + m.headers[..old(sink.room)]
              && sink.room == 0 && m.sock.segs == old(m.sock.segs)
    ensures m != null && old(m.headersSize) <= HEADER_MAX && old(m.headersSize) <= old(sink.room) ==>
              var hdr := m.headers[..old(m.headersSize)];
              if old(m.curBodySize) < 0 then
                && sink.written == old(sink.written) + hdr && sink.room == old(sink.room) - |hdr|
                && r == if |hdr| < old(m.totalMsgSize) then Crash
                        else Done(if |hdr| == old(m.totalMsgSize) then R.Sent(|hdr|) else R.Failed)
              else
                var run := R.Run(AfterHeader(old(m.View(0, sink)), hdr));
                r == Done(run.outcome) && sink.written == run.s.written && sink.room == run.s.room &&
                m.sock.segs == run.s.segs
  {
    hide R.Run;
    if m == null { return Done(R.Failed); }
    if m.headersSize > m.headers.Length { return Crash; }
    ghost var hdr := m.headers[..m.headersSize];
    ghost var room := sink.room;
    var n := sink.Write(m.headers[..m.headersSize]);
    if n != m.headersSize {
      assert hdr[..n] == m.headers[..n];
      return Done(R.Failed);
    }
    assert hdr[..n] == hdr;
    var sent := n;
    if m.curBodySize < 0 {
      // body_chunk + cur_body_size lies before the array, for the read and for the write
      return if sent < m.totalMsgSize then Crash else Done(if sent == m.totalMsgSize then R.Sent(sent) else R.Failed);
    }
    ghost var s := m.View(sent, sink);
    r := RelayBody(m, sink, sent);
    R.RunShrinks(s);
  }

  /** The relay loop of c_proxy_send_message. */
  method RelayBody(m: Message, sink: Sink, start: nat) returns (r: Reply)
    requires m.Valid() && 0 <= m.curBodySize
    modifies m, m.body, m.sock, sink
    ensures Live(m.sock.segs)
    ensures var run := R.Run(old(m.View(start, sink)));
            r == Done(run.outcome) && sink.written == run.s.written && sink.room == run.s.room &&
            m.sock.segs == run.s.segs
  {
    hide R.Run, R.Receive, R.Send, R.Measure, Flatten;
    ghost var first := m.View(start, sink);
    var sent: nat := start;
    while sent < m.totalMsgSize
      invariant m.Valid() && 0 <= m.curBodySize
      invariant R.Run(m.View(sent, sink)) == R.Run(first)
      decreases R.Measure(m.View(sent, sink))
    {
      ghost var s := m.View(sent, sink);
      R.RunTurn(s);
      var held := m.curBodySize;
      var rc := m.RecvBodyChunk(sent, sink);
      if rc == -1 { return Done(R.Failed); }
      var idle := m.curBodySize == held && held == 0;
      var n := m.SendBodyChunk(sink, true, sent);
      if n == -1 { return Done(R.Failed); }
      sent := sent + n;
      if idle {
        // nothing was read and nothing was held: the C loop repeats this turn for ever
        return Done(R.Hangs);
      }
    }
    RunEnds(m.View(sent, sink));
    r := Done(if sent == m.totalMsgSize then R.Sent(sent) else R.Failed);
  }

  lemma RunEnds(s: R.State)
    requires R.Ready(s) && s.sent >= s.total
    ensures R.Run(s) == R.Result(if s.sent == s.total then R.Sent(s.total) else R.Failed, s)
  {
  }
}

/** Receiving exactly the header block into a buffer, by looking before reading
    (src/cmon_proxy/cmon_http.c, c_http_c_buf_recv_header). */
module HeaderPeek {
  import opened Search
  import opened Net
  import opened Buffer
  import opened HttpHeader
  import C = HeaderLookup

  /** What has arrived: the bytes that a look of the size of the header buffer shows. */
  function Visible(segs: seq<string>): string
    requires Live(segs)
  {
    if segs == [] then "" else TakeRead(segs, HEADER_MAX).data
  }

  /** The delimiter search on the zeroed look-ahead buffer. */
  lemma SearchVisible(seen: string)
    requires |seen| <= HEADER_MAX
    ensures Scan(CRLFCRLF, seen + Zeros(HEADER_MAX - |seen|), |seen|) ==
            if |seen| < 4 then Found.Overrun else Documented(CRLFCRLF, seen)
  {
    var mem := seen + Zeros(HEADER_MAX - |seen|);
    ScanExact(CRLFCRLF, mem, |seen|);
    assert mem[..|seen|] == seen;
    forall s: nat | MatchesAt(CRLFCRLF, mem, s) ensures mem[s + 3] == '\n' {
      assert mem[s..s + 4][3] == mem[s + 3];
    }
  }

  /** `c_http_c_buf_recv_header(fd, buf)`.  With at least four bytes to look at, success moves
      exactly the header block from the stream to the buffer, and a missing delimiter takes
      nothing.  With fewer the search leaves the look-ahead buffer. */
  method BufRecvHeader(sock: Socket, buf: CmonBuffer?) returns (a: C.Answer)
    requires Live(sock.segs) && (buf != null ==> buf.Valid())
    modifies sock`segs, buf, if buf == null then {} else {buf.buf}
    ensures Live(sock.segs) && (buf != null ==> buf.Valid())
    ensures buf == null || old(buf.cap) == 0 || old(buf.len) != 0 ==> a == C.Code(C.BUFFER_ERR)
    ensures a != C.Code(C.SUCCESS) ==> sock.segs == old(sock.segs) && (buf != null ==> buf.Mem() == old(buf.Mem()))
    ensures buf != null && old(buf.cap) != 0 && old(buf.len) == 0 ==>
              var seen := Visible(old(sock.segs));
              if seen == "" then a == C.Code(if sock.fails then C.RECV_ERR else C.SOCKET_CLOSE)
              else if |seen| < 4 then a == C.Answer.Overrun
              else if FirstMatch(CRLFCRLF, seen) == -1 then a == C.Code(C.HEADER_PARSING_ERR)
              else
                && a == C.Code(C.SUCCESS)
                && buf.Bytes() == seen[..FirstMatch(CRLFCRLF, seen) + 4]
                && buf.Bytes() + Flatten(sock.segs) == Flatten(old(sock.segs))
  {
    hide Scan, MatchesAt;
    if buf == null || buf.cap == 0 || buf.len != 0 { return C.Code(C.BUFFER_ERR); }
    var peekBuf := new char[HEADER_MAX](_ => NUL);
    var peekSize := sock.Peek(peekBuf, HEADER_MAX);
    if peekSize == -1 { return C.Code(C.RECV_ERR); }
    if peekSize == 0 { return C.Code(C.SOCKET_CLOSE); }
    ghost var seen := Visible(sock.segs);
    assert peekBuf[..] == seen + Zeros(HEADER_MAX - |seen|);
    SearchVisible(seen);
    assert peekBuf[0..] == peekBuf[..];
    var p := FindPattern(CRLFCRLF, peekBuf, 0, peekSize);
    match p {
      case Overrun => return C.Answer.Overrun;
      case Absent => return C.Code(C.HEADER_PARSING_ERR);
      case At(end) =>
        a := ReceiveExactly(sock, buf, end + 4);
    }
  }

  /** The second half: make room, receive, and record the length. */
  method ReceiveExactly(sock: Socket, buf: CmonBuffer, expected: nat) returns (a: C.Answer)
    requires Live(sock.segs) && buf.Valid() && buf.len == 0
    requires 0 < expected <= |Visible(sock.segs)|
    modifies sock`segs, buf, buf.buf
    ensures Live(sock.segs) && buf.Valid()
    ensures a == C.Code(C.SUCCESS)
    ensures buf.Bytes() == Visible(old(sock.segs))[..expected]
    ensures buf.Bytes() + Flatten(sock.segs) == Flatten(old(sock.segs))
  {
    if buf.cap < expected {
      var rc := buf.SetCapacity(expected);
      if rc != 0 { return C.Code(C.BUFFER_ERR); }
    }
    ghost var segs := sock.segs;
    var n := sock.Read(buf.buf, 0, expected);
    assert n == expected && TakeRead(segs, expected).data == segs[0][..expected] == Visible(segs)[..expected];
    if n == -1 || n != expected { return C.Code(C.RECV_ERR); }
    if n == 0 { return C.Code(C.SOCKET_CLOSE); }
    var r := buf.SetLength(n);
    if r == -1 { return C.Code(C.BUFFER_ERR); }
    assert buf.Bytes() == TakeRead(segs, expected).data;
    a := C.Code(C.SUCCESS);
  }

  /** The two receive functions agree: where this one finds a delimiter, c_http_recv_header on
      the same stream returns the same length, whatever its buffer held. */
  lemma PeekAgreesWithRecv(g: string, segs: seq<string>, fails: bool)
    requires |g| == HEADER_MAX && Live(segs)
    requires |Visible(segs)| >= 4 && FirstMatch(CRLFCRLF, Visible(segs)) != -1
    ensures Recv(g, "", segs, fails).status == Header(FirstMatch(CRLFCRLF, Visible(segs)) + 4)
  {
    hide MatchesAt, Scan;
    var seen := Visible(segs);
    assert "" + seen == seen;
    JudgeFront(seen, g[|seen|..]);
  }
}

/** Receiving the header block (src/cmon_proxy/cmon_http.c, c_http_recv_header). */
module HttpHeader {
  import opened Search
  import opened Net

  const HEADER_MAX: nat := 8192
  const CRLFCRLF: string := "\r\n\r\n"
  const LFLF: string := "\n\n"

  /** What c_http_recv_header returns: a header length, 0, or -1. */
  datatype Status = Header(length: nat) | Closed | Failed | Overrun

  /** Outcome of the read loop: the status, the bytes received before the last read, all the
      bytes received, and the segments still unread. */
  datatype Received = Received(status: Status, earlier: string, got: string, segs: seq<string>)

  datatype Verdict = Stop(status: Status) | ReadMore

  /** The two searches made after each read, over a buffer whose first `n` bytes were read. */
  function Judge(mem: string, n: nat): (v: Verdict)
    requires n < SIZE_T
    ensures v.Stop? && v.status.Header? ==> 4 <= v.status.length <= |mem| + 2
  {
    match Scan(CRLFCRLF, mem, n)
    case At(s) => Stop(Header(s + 4))
    case Overrun => Stop(Status.Overrun)
    case Absent =>
      match Scan(LFLF, mem, n)
      case At(s) => Stop(Header(s + 4))
      case Overrun => Stop(Status.Overrun)
      case Absent => ReadMore
  }

  /** The read loop over a buffer that held `g` before and now holds `got` in front. */
  function Recv(g: string, got: string, segs: seq<string>, fails: bool): (r: Received)
    requires |got| <= |g| && |g| + 4 < SIZE_T && Live(segs)
    ensures Live(r.segs) && got <= r.got && |r.got| <= |g|
    ensures r.got + Flatten(r.segs) == got + Flatten(segs)
    ensures r.status.Header? ==> 4 <= r.status.length <= |g| + 2 && got < r.got
    decreases |g| - |got|
  {
    if |got| == |g| then Received(Failed, got, got, segs)
    else if segs == [] then Received(if fails then Failed else Closed, got, got, segs)
    else
      var t := TakeRead(segs, |g| - |got|);
      var now := got + t.data;
      assert now + Flatten(t.rest) == got + (t.data + Flatten(t.rest));
      match Judge(now + g[|now|..], |now|)
      case Stop(status) => Received(status, got, now, t.rest)
      case ReadMore => Recv(g, now, t.rest, fails)
  }

  /** The first turn of the read loop. */
  lemma RecvUnfold(g: string, got: string, segs: seq<string>, fails: bool)
    requires |got| <= |g| && |g| + 4 < SIZE_T && Live(segs)
    ensures Recv(g, got, segs, fails) ==
            if |got| == |g| then Received(Failed, got, got, segs)
            else if segs == [] then Received(if fails then Failed else Closed, got, got, segs)
            else
              var t := TakeRead(segs, |g| - |got|);
              var now := got + t.data;
              match Judge(now + g[|now|..], |now|)
              case Stop(status) => Received(status, got, now, t.rest)
              case ReadMore => Recv(g, now, t.rest, fails)
  {
  }

  /** The two searches, made on the buffer. */
  method JudgeBuffer(buff: array<char>, n: nat) returns (v: Verdict)
    requires n < SIZE_T && buff.Length + 4 < SIZE_T
    ensures v == Judge(buff[..], n)
  {
    assert buff[0..] == buff[..];
    var p := FindPattern(CRLFCRLF, buff, 0, n);
    if p == Found.Absent {
      p := FindPattern(LFLF, buff, 0, n);
    }
    match p
    case At(s) => v := Stop(Header(s + 4));
    case Overrun => v := Stop(Status.Overrun);
    case Absent => v := ReadMore;
  }

  /** A read behind the bytes received so far. */
  lemma ReadBehind(was: string, got: string, data: string, g: string)
    requires |got| + |data| <= |g| && was == got + g[|got|..]
    ensures was[..|got|] + data + was[|got| + |data|..] == got + data + g[|got + data|..]
  {
  }

  /** `c_http_recv_header(fd, buff, buff_len, &read_len)`; `earlier` is what had been read
      before the last read. */
  method RecvHeader(sock: Socket, buff: array<char>)
    returns (status: Status, readLen: nat, ghost earlier: nat)
    requires Live(sock.segs) && buff.Length + 4 < SIZE_T
    modifies sock`segs, buff
    ensures var r := Recv(old(buff[..]), "", old(sock.segs), sock.fails);
            status == r.status && readLen == |r.got| && earlier == |r.earlier| && sock.segs == r.segs &&
            buff[..] == r.got + old(buff[|r.got|..])
  {
    hide Judge, Recv, Flatten, TakeRead, Live;
    ghost var g := buff[..];
    ghost var got := "";
    earlier := 0;
    readLen := 0;
    var buffLen := buff.Length;
    assert g[0..] == g;
    while true
      invariant Live(sock.segs)
      invariant readLen == |got| <= |g| == buff.Length && buffLen == |g| - readLen
      invariant buff[..] == got + g[readLen..]
      invariant Recv(g, got, sock.segs, sock.fails) == Recv(g, "", old(sock.segs), sock.fails)
      decreases buffLen
    {
      earlier := readLen;
      RecvUnfold(g, got, sock.segs, sock.fails);
      if buffLen <= 0 {
        return Failed, readLen, earlier;
      }
      ghost var before := sock.segs;
      var n := sock.Read(buff, readLen, buffLen);
      if n < 0 {
        return Failed, readLen, earlier;
      }
      if n == 0 {
        return Closed, readLen, earlier;
      }
      ghost var now := got + TakeRead(before, buffLen).data;
      readLen := readLen + n;
      ReadBehind(got + g[|got|..], got, TakeRead(before, buffLen).data, g);
      var v := JudgeBuffer(buff, readLen);
      if v.Stop? {
        return v.status, readLen, earlier;
      }
      got := now;
      buffLen := buffLen - n;
    }
  }

  /** What the two searches decide when at least four bytes were read: the rest of the buffer
      has no say. */
  lemma JudgeFront(now: string, tail: string)
    requires |now| >= 4 && |now| + |tail| + 4 < SIZE_T
    ensures Judge(now + tail, |now|) ==
            if FirstMatch(CRLFCRLF, now) != -1 then Stop(Header(FirstMatch(CRLFCRLF, now) + 4))
            else if FirstMatch(LFLF, now) != -1 then Stop(Header(FirstMatch(LFLF, now) + 4))
            else ReadMore
  {
    ScanExact(CRLFCRLF, now + tail, |now|);
    ScanExact(LFLF, now + tail, |now|);
    assert (now + tail)[..|now|] == now;
  }

  lemma TwoChars(p: string, t: string, q: nat)
    requires |p| == 2 && q + 2 <= |t|
    ensures MatchesAt(p, t, q) <==> t[q] == p[0] && t[q + 1] == p[1]
  {
  }

  /** No bare LF LF ahead of the delimiter at `d`, so none in any text that stops before the
      delimiter is complete. */
  lemma NoBareLfBefore(stream: string, d: nat, k: nat)
    requires FirstMatch(CRLFCRLF, stream) == d && FirstMatch(LFLF, stream[..d]) == -1
    requires k < d + 4 && k <= |stream|
    ensures FirstMatch(LFLF, stream[..k]) == -1
  {
    var q := FirstMatch(LFLF, stream[..k]);
    if q != -1 {
      TwoChars(LFLF, stream[..k], q);
      assert stream[q] == '\n' && stream[q + 1] == '\n';
      assert stream[d] == '\r' && stream[d + 2] == '\r' by {
        assert stream[d..d + 4] == CRLFCRLF;
        assert stream[d] == stream[d..d + 4][0] && stream[d + 2] == stream[d..d + 4][2];
      }
      assert q + 2 <= d;
      TwoChars(LFLF, stream[..d], q);
    }
  }

  /** What the searches decide on a prefix `now` of the stream: the delimiter once it is
      complete, and until then to read more. */
  lemma JudgePrefix(stream: string, d: nat, now: string, rest: string, tail: string)
    requires stream == now + rest && FirstMatch(CRLFCRLF, stream) == d && FirstMatch(LFLF, stream[..d]) == -1
    requires |now| >= 4 && |now| + |tail| + 4 < SIZE_T
    ensures Judge(now + tail, |now|) == if |now| >= d + 4 then Stop(Header(d + 4)) else ReadMore
  {
    assert stream[..|now|] == now;
    FirstMatchInPrefix(CRLFCRLF, stream, |now|);
    if |now| < d + 4 { NoBareLfBefore(stream, d, |now|); }
    JudgeFront(now, tail);
  }

  /** One turn of the read loop, seen from the part `a` of the segments. */
  lemma RecvStep(g: string, got: string, a: seq<string>, b: seq<string>, fails: bool)
    requires Live(a) && Live(b) && Live(a + b) && |g| + 4 < SIZE_T
    requires a != [] && |got| < |g|
    ensures var t := TakeRead(a, |g| - |got|);
            var now := got + t.data;
            Live(t.rest + b) &&
            Recv(g, got, a + b, fails) ==
            match Judge(now + g[|now|..], |now|)
            case Stop(status) => Received(status, got, now, t.rest + b)
            case ReadMore => Recv(g, now, t.rest + b, fails)
  {
    TakeReadFrame(a, b, |g| - |got|);
  }

  /** `got` has been read and `a` carries on the same stream; its first CRLFCRLF, at `d`, is
      not yet complete, fits the buffer, and has no bare LF LF ahead of it. */
  ghost predicate Arriving(g: string, got: string, a: seq<string>, d: nat) {
    && Live(a) && |g| + 4 < SIZE_T
    && FirstMatch(CRLFCRLF, got + Flatten(a)) == d
    && FirstMatch(LFLF, (got + Flatten(a))[..d]) == -1
    && |got| < d + 4 <= |g|
    && (|got| >= 4 || (got == "" && a != [] && |a[0]| >= 4))
  }

  /** The loop found the delimiter at `d`, its last read was the one that completed it, what it
      received is a prefix of the stream, and only `left + b` is unread. */
  ghost predicate Complete(r: Received, stream: string, d: nat, left: seq<string>, b: seq<string>) {
    && r.status == Header(d + 4)
    && |r.earlier| < d + 4 <= |r.got|
    && r.got + Flatten(left) == stream
    && Live(left) && r.segs == left + b
  }

  /** One turn of the loop keeps `Arriving`, or ends it. */
  lemma ArrivingStep(g: string, got: string, a: seq<string>, d: nat)
    requires Arriving(g, got, a, d)
    ensures a != [] && |got| < |g|
    ensures var t := TakeRead(a, |g| - |got|);
            var now := got + t.data;
            now + Flatten(t.rest) == got + Flatten(a) &&
            if |now| >= d + 4 then Judge(now + g[|now|..], |now|) == Stop(Header(d + 4))
            else Judge(now + g[|now|..], |now|) == ReadMore && Arriving(g, now, t.rest, d)
  {
    var stream := got + Flatten(a);
    assert d + 4 <= |stream|;
    var t := TakeRead(a, |g| - |got|);
    var now := got + t.data;
    assert stream == now + Flatten(t.rest);
    JudgePrefix(stream, d, now, Flatten(t.rest), g[|now|..]);
  }

  /** Fragmentation independence.  `a` splits the rest of the stream in any way and `b` is
      whatever follows it.  Once the reads so far make at least four bytes, or the first one
      will, the length is that of the first CRLFCRLF in the whole stream. */
  lemma {:induction false} HeaderExact(g: string, got: string, a: seq<string>, b: seq<string>, fails: bool, d: nat)
    returns (left: seq<string>)
    requires Arriving(g, got, a, d) && Live(b) && Live(a + b)
    ensures Complete(Recv(g, got, a + b, fails), got + Flatten(a), d, left, b)
    decreases |g| - |got|
  {
    ArrivingStep(g, got, a, d);
    RecvStep(g, got, a, b, fails);
    var t := TakeRead(a, |g| - |got|);
    var now := got + t.data;
    if |now| >= d + 4 {
      left := t.rest;
    } else {
      left := HeaderExact(g, now, t.rest, b, fails, d);
    }
  }

  /** Where the header reads stop: at the end of the first segment that reaches the end of the
      header, or at the end of the buffer when that comes first. */
  function HeaderEnd(segs: seq<string>, length: nat, room: nat): nat {
    if Covering(segs, length) <= room then Covering(segs, length) else room
  }

  lemma HeaderEndStep(segs: seq<string>, length: nat, room: nat)
    requires Live(segs) && segs != [] && 0 < length <= room
    ensures var t, n := TakeRead(segs, room), HeaderEnd(segs, length, room);
            if |t.data| >= length then n == |t.data| && Dropped(segs, n) == t.rest
            else
              var m := HeaderEnd(t.rest, length - |t.data|, room - |t.data|);
              n == |t.data| + m && Dropped(segs, n) == Dropped(t.rest, m)
  {
    hide Dropped, Covering, Flatten;
    CoveringStep(segs, length);
    TakeReadDrops(segs, room);
    var t := TakeRead(segs, room);
    if |t.data| < length {
      DroppedTwice(segs, |t.data|, HeaderEnd(t.rest, length - |t.data|, room - |t.data|));
    }
  }

  /** The reads of an arriving header stop there, and leave the rest of the segments. */
  lemma {:induction false} HeaderReads(g: string, got: string, segs: seq<string>, fails: bool, d: nat)
    requires Arriving(g, got, segs, d)
    ensures var r, n := Recv(g, got, segs, fails), HeaderEnd(segs, d + 4 - |got|, |g| - |got|);
            |r.got| == |got| + n && r.segs == Dropped(segs, n)
    decreases |g| - |got|
  {
    hide Judge, Recv, HeaderEnd, Dropped, MatchesAt, FirstMatch, Flatten;
    ArrivingStep(g, got, segs, d);
    RecvUnfold(g, got, segs, fails);
    HeaderEndStep(segs, d + 4 - |got|, |g| - |got|);
    var t := TakeRead(segs, |g| - |got|);
    var now := got + t.data;
    if |now| < d + 4 { HeaderReads(g, now, t.rest, fails, d); }
  }

  /** The part of the stream that can come into the buffer. */
  function Front(stream: string, room: nat): string {
    if |stream| <= room then stream else stream[..room]
  }

  /** No delimiter of either kind ends inside the buffer: the result does not depend on the split
      either.  It is 0 when the peer closes before the buffer is full, and -1 when the buffer
      fills or a read fails. */
  lemma {:induction false} HeaderAbsent(g: string, got: string, segs: seq<string>, fails: bool)
    requires |got| <= |g| && |g| + 4 < SIZE_T && Live(segs)
    requires |got| >= 4 || (got == "" && (segs != [] ==> |segs[0]| >= 4) && |g| >= 4)
    requires FirstMatch(CRLFCRLF, Front(got + Flatten(segs), |g|)) == -1
    requires FirstMatch(LFLF, Front(got + Flatten(segs), |g|)) == -1
    ensures var r := Recv(g, got, segs, fails);
            && r.status == (if |got + Flatten(segs)| < |g| && !fails then Closed else Failed)
            && r.got == Front(got + Flatten(segs), |g|)
    decreases |g| - |got|
  {
    hide MatchesAt, Judge, Recv;
    RecvUnfold(g, got, segs, fails);
    if |got| < |g| && segs != [] {
      var t := TakeRead(segs, |g| - |got|);
      var now, stream := got + t.data, got + Flatten(segs);
      assert now + Flatten(t.rest) == stream;
      assert Front(stream, |g|)[..|now|] == now;
      FirstMatchInPrefix(CRLFCRLF, Front(stream, |g|), |now|);
      FirstMatchInPrefix(LFLF, Front(stream, |g|), |now|);
      JudgeFront(now, g[|now|..]);
      HeaderAbsent(g, now, t.rest, fails);
    }
  }

  /** So it is for a delimiter that ends past the buffer, with no bare LF LF ahead of it. */
  lemma HeaderTooLong(g: string, segs: seq<string>, fails: bool, d: nat)
    requires 4 <= |g| && |g| + 4 < SIZE_T && Live(segs) && segs != [] && |segs[0]| >= 4
    requires FirstMatch(CRLFCRLF, Flatten(segs)) == d && FirstMatch(LFLF, Flatten(segs)[..d]) == -1
    requires d + 4 > |g|
    ensures Recv(g, "", segs, fails).status == Failed
  {
    var stream := Flatten(segs);
    assert "" + stream == stream;
    NoBareLfBefore(stream, d, |g|);
    FirstMatchInPrefix(CRLFCRLF, stream, |g|);
    HeaderAbsent(g, "", segs, fails);
  }

  /** What the searches decide on a prefix `now` of a stream with a bare LF LF at `q` ahead of the
      delimiter at `d`, or without one (`d == -1`). */
  lemma JudgeBare(stream: string, q: nat, d: int, now: string, rest: string, tail: string)
    requires stream == now + rest && FirstMatch(LFLF, stream) == q && FirstMatch(CRLFCRLF, stream) == d
    requires (d == -1 || q + 2 <= d) && |now| >= 4 && |now| + |tail| + 4 < SIZE_T
    ensures Judge(now + tail, |now|) ==
            if |now| < q + 2 then ReadMore else Stop(Header(if d != -1 && d + 4 <= |now| then d + 4 else q + 4))
  {
    hide MatchesAt, Judge;
    assert stream[..|now|] == now;
    FirstMatchInPrefix(CRLFCRLF, stream, |now|);
    FirstMatchInPrefix(LFLF, stream, |now|);
    JudgeFront(now, tail);
  }

  /** With such a LF LF, the length is the delimiter's exactly when the read that brings the LF LF
      brings that too. */
  lemma {:induction false} BareLfExact(g: string, got: string, segs: seq<string>, fails: bool, q: nat, d: int)
    requires |got| < q + 2 <= |g| && 4 <= |g| && |g| + 4 < SIZE_T && Live(segs)
    requires |got| >= 4 || (got == "" && segs != [] && |segs[0]| >= 4)
    requires FirstMatch(LFLF, got + Flatten(segs)) == q && FirstMatch(CRLFCRLF, got + Flatten(segs)) == d
    requires d == -1 || q + 2 <= d
    ensures var e := |got| + HeaderEnd(segs, q + 2 - |got|, |g| - |got|);
            var r := Recv(g, got, segs, fails);
            && r.status == Header(if d != -1 && d + 4 <= e then d + 4 else q + 4)
            && |r.got| == e && r.segs == Dropped(segs, e - |got|)
    decreases |g| - |got|
  {
    hide MatchesAt, Judge, Recv, HeaderEnd, Dropped;
    RecvUnfold(g, got, segs, fails);
    var t := TakeRead(segs, |g| - |got|);
    var now, stream := got + t.data, got + Flatten(segs);
    assert now + Flatten(t.rest) == stream;
    JudgeBare(stream, q, d, now, Flatten(t.rest), g[|now|..]);
    HeaderEndStep(segs, q + 2 - |got|, |g| - |got|);
    if |now| < q + 2 { BareLfExact(g, now, t.rest, fails, q, d); }
  }

  /** The least number of bytes that hold a delimiter of either kind, or -1. */
  function FirstEnd(text: string): (k: int)
    ensures k == -1 || 2 <= k <= |text|
  {
    var d, q := FirstMatch(CRLFCRLF, text), FirstMatch(LFLF, text);
    if d == -1 && q == -1 then -1 else if d == -1 || (q != -1 && q + 2 < d + 4) then q + 2 else d + 4
  }

  /** The header's length, said of the segments: the reads stop with the first segment that
      reaches the first delimiter of either kind; a CRLFCRLF that they hold then counts, else the
      LF LF, which counts as four. */
  function HeaderLength(segs: seq<string>, room: nat): (n: int)
    ensures n == -1 || 4 <= n <= |Front(Flatten(segs), room)| + 2 <= |Flatten(segs)| + 2
  {
    var text := Front(Flatten(segs), room);
    var k := FirstEnd(text);
    if k == -1 then -1
    else
      var d, q := FirstMatch(CRLFCRLF, text), FirstMatch(LFLF, text);
      if q == -1 || (d != -1 && d + 4 <= HeaderEnd(segs, k, room)) then d + 4 else q + 4
  }

  /** What the read loop reads, when no less than the first read has four bytes. */
  function ReadLength(segs: seq<string>, room: nat): (n: nat)
    ensures n <= room && n <= |Flatten(segs)|
  {
    var text := Front(Flatten(segs), room);
    if FirstEnd(text) == -1 then |text| else HeaderEnd(segs, FirstEnd(text), room)
  }

  /** LF LF and CRLFCRLF do not overlap unless the first begins in the last LF of the second. */
  lemma DelimitersApart(text: string, d: nat, q: nat)
    requires MatchesAt(CRLFCRLF, text, d) && MatchesAt(LFLF, text, q)
    ensures q + 2 <= d || d + 3 <= q
  {
    assert text[d..d + 4] == CRLFCRLF && text[q..q + 2] == LFLF;
    assert text[d] == text[d..d + 4][0] && text[d + 1] == text[d..d + 4][1] && text[d + 2] == text[d..d + 4][2];
    assert text[q] == text[q..q + 2][0] && text[q + 1] == text[q..q + 2][1];
  }

  lemma FirstEndReached(segs: seq<string>, room: nat)
    requires FirstEnd(Front(Flatten(segs), room)) != -1
    ensures FirstEnd(Front(Flatten(segs), room)) <= HeaderEnd(segs, FirstEnd(Front(Flatten(segs), room)), room) <= room
  {
    hide FirstEnd, Covering;
    CoveringReaches(segs, FirstEnd(Front(Flatten(segs), room)));
  }

  lemma DelimiterLineEnd(text: string, n: nat)
    requires FirstMatch(CRLFCRLF, text) == n || FirstMatch(LFLF, text) == n
    ensures n < |text| && text[n] in "\r\n"
  {
    hide FirstMatch;
    if FirstMatch(CRLFCRLF, text) == n {
      assert text[n] == text[n..n + 4][0];
    } else {
      assert text[n] == text[n..n + 2][0];
    }
  }

  /** Four bytes before its end, within what was read, the header has a line end. */
  lemma HeaderEndsLine(segs: seq<string>, room: nat)
    requires HeaderLength(segs, room) != -1
    ensures var n := HeaderLength(segs, room);
            && n - 4 < ReadLength(segs, room) <= room && n - 4 < |Flatten(segs)|
            && Flatten(segs)[n - 4] in "\r\n"
  {
    hide MatchesAt, HeaderEnd, Flatten;
    FirstEndReached(segs, room);
    DelimiterLineEnd(Front(Flatten(segs), room), HeaderLength(segs, room) - 4);
  }

  /** `text` is the part of the stream that can come into the buffer; the first read has four
      bytes. */
  ghost predicate Arrives(g: string, segs: seq<string>, text: string) {
    && 4 <= |g| && |g| + 4 < SIZE_T && Live(segs) && (segs != [] ==> |segs[0]| >= 4)
    && text == Front(Flatten(segs), |g|)
  }

  lemma CrlfFirst(g: string, segs: seq<string>, fails: bool, text: string, d: nat)
    requires Arrives(g, segs, text) && FirstMatch(CRLFCRLF, text) == d && FirstMatch(LFLF, text[..d]) == -1
    ensures var r := Recv(g, "", segs, fails);
            r.status == Header(d + 4) && d + 4 <= |r.got| == HeaderEnd(segs, d + 4, |g|)
  {
    hide MatchesAt, Recv, HeaderEnd, Dropped;
    var stream := Flatten(segs);
    assert "" + stream == stream && stream[..|text|] == text && segs + [] == segs && text[..d] == stream[..d];
    FirstMatchInPrefix(CRLFCRLF, stream, |text|);
    var left := HeaderExact(g, "", segs, [], fails, d);
    HeaderReads(g, "", segs, fails, d);
  }

  lemma BareLfFirst(g: string, segs: seq<string>, fails: bool, text: string, q: nat)
    requires Arrives(g, segs, text) && FirstMatch(LFLF, text) == q
    requires FirstMatch(CRLFCRLF, text) != -1 ==> q < FirstMatch(CRLFCRLF, text) + 2
    ensures var r, d := Recv(g, "", segs, fails), FirstMatch(CRLFCRLF, text);
            var e := HeaderEnd(segs, q + 2, |g|);
            r.status == Header(if d != -1 && d + 4 <= e then d + 4 else q + 4) && |r.got| == e
  {
    hide MatchesAt, Recv, HeaderEnd, Dropped;
    var stream := Flatten(segs);
    assert "" + stream == stream && stream[..|text|] == text;
    FirstMatchInPrefix(CRLFCRLF, stream, |text|);
    FirstMatchInPrefix(LFLF, stream, |text|);
    var d := FirstMatch(CRLFCRLF, stream);
    if d != -1 { DelimitersApart(stream, d, q); }
    BareLfExact(g, "", segs, fails, q, d);
    HeaderEndBound(segs, q + 2, |g|);
  }

  lemma HeaderEndBound(segs: seq<string>, length: nat, room: nat)
    ensures HeaderEnd(segs, length, room) <= room
  {
  }

  lemma {:induction false} NoneArrives(g: string, segs: seq<string>, fails: bool, text: string)
    requires Arrives(g, segs, text) && FirstMatch(LFLF, text) == -1 && FirstMatch(CRLFCRLF, text) == -1
    ensures var r := Recv(g, "", segs, fails);
            r.status == (if |Flatten(segs)| < |g| && !fails then Closed else Failed) && r.got == text
  {
    hide FirstMatch, MatchesAt, Recv;
    assert "" + Flatten(segs) == Flatten(segs);
    HeaderAbsent(g, "", segs, fails);
  }

  /** The result of the read loop on any stream whose first read has four bytes, in any
      segments. */
  lemma RecvExact(g: string, segs: seq<string>, fails: bool)
    requires 4 <= |g| && |g| + 4 < SIZE_T && Live(segs) && (segs != [] ==> |segs[0]| >= 4)
    ensures var r, n := Recv(g, "", segs, fails), HeaderLength(segs, |g|);
            && r.status == (if n != -1 then Header(n) else if |Flatten(segs)| < |g| && !fails then Closed else Failed)
            && |r.got| == ReadLength(segs, |g|)
  {
    hide MatchesAt, Recv, HeaderEnd, Front;
    var text := Front(Flatten(segs), |g|);
    var d, q := FirstMatch(CRLFCRLF, text), FirstMatch(LFLF, text);
    if d == -1 && q == -1 {
      NoneArrives(g, segs, fails, text);
    } else if d != -1 && (q == -1 || d + 4 <= q + 2) {
      FirstMatchInPrefix(LFLF, text, d);
      CrlfFirst(g, segs, fails, text, d);
    } else {
      BareLfFirst(g, segs, fails, text, q);
    }
  }

  /** A whole stream, in any segments whose first has at least four bytes. */
  ghost predicate Splits(segs: seq<string>, stream: string) {
    Live(segs) && Flatten(segs) == stream && segs != [] && |segs[0]| >= 4
  }

  /** The length that the read loop finds, from a buffer that held `g`. */
  function LengthFound(g: string, segs: seq<string>): Status
    requires |g| == HEADER_MAX && Live(segs)
  {
    Recv(g, "", segs, false).status
  }

  /** Split by split: with a bare LF LF at `q` ahead of the delimiter, the length found is right
      exactly when no read ends between them, said of the segments. */
  lemma SplitRightIff(g: string, segs: seq<string>, stream: string, d: nat)
    requires |g| == HEADER_MAX && Splits(segs, stream) && FirstMatch(CRLFCRLF, stream) == d && d + 4 <= HEADER_MAX
    ensures var q := FirstMatch(LFLF, stream[..d]);
            LengthFound(g, segs) == Header(d + 4) <==> q == -1 || HeaderEnd(segs, q + 2, HEADER_MAX) >= d + 4
  {
    hide MatchesAt, Recv, HeaderEnd;
    var q := FirstMatch(LFLF, stream[..d]);
    assert "" + stream == stream;
    if q == -1 {
      SplitFound(g, segs, stream, d);
    } else {
      assert stream[..d] + stream[d..] == stream;
      PrefixStable(LFLF, stream[..d], stream[d..]);
      BareLfExact(g, "", segs, false, q, d);
    }
  }

  lemma SplitFound(g: string, segs: seq<string>, stream: string, d: nat)
    requires FirstMatch(CRLFCRLF, stream) == d && d + 4 <= HEADER_MAX && FirstMatch(LFLF, stream[..d]) == -1
    requires |g| == HEADER_MAX && Splits(segs, stream)
    ensures LengthFound(g, segs) == Header(d + 4)
  {
    assert "" + stream == stream && segs + [] == segs;
    var _ := HeaderExact(g, "", segs, [], false, d);
  }

  /** With a bare LF LF ahead of the delimiter, a read that stops right after it is taken for the
      whole header. */
  lemma BareLfSplit(g: string, stream: string, d: nat) returns (segs: seq<string>)
    requires |g| == HEADER_MAX
    requires FirstMatch(CRLFCRLF, stream) == d && d + 4 <= HEADER_MAX && FirstMatch(LFLF, stream[..d]) != -1
    ensures Splits(segs, stream) && LengthFound(g, segs) != Header(d + 4)
  {
    var q := FirstMatch(LFLF, stream[..d]);
    assert q + 2 <= d && d + 4 <= |stream|;
    segs := TwoSegments(stream, if q + 2 < 4 then 4 else q + 2);
    SplitRightIff(g, segs, stream, d);
  }

  lemma TwoSegments(stream: string, n: nat) returns (segs: seq<string>)
    requires 0 < n < |stream|
    ensures segs == [stream[..n], stream[n..]] && Live(segs) && Flatten(segs) == stream
  {
    segs := [stream[..n], stream[n..]];
    assert segs[1..] == [stream[n..]];
    assert Flatten([stream[n..]]) == stream[n..];
    assert stream[..n] + stream[n..] == stream;
  }

  /** The length found is right for every split of the stream whose first read brings at least
      four bytes, exactly when no bare LF LF precedes the delimiter. */
  lemma FragmentationIndependentIff(stream: string, d: nat)
    requires FirstMatch(CRLFCRLF, stream) == d && d + 4 <= HEADER_MAX
    ensures (forall g: string, segs: seq<string> :: |g| == HEADER_MAX && Splits(segs, stream) ==>
               LengthFound(g, segs) == Header(d + 4))
            <==> FirstMatch(LFLF, stream[..d]) == -1
  {
    if FirstMatch(LFLF, stream[..d]) == -1 {
      forall g: string, segs: seq<string> | |g| == HEADER_MAX && Splits(segs, stream)
        ensures LengthFound(g, segs) == Header(d + 4)
      {
        SplitFound(g, segs, stream, d);
      }
    } else {
      var g := seq(HEADER_MAX, i => 'x');
      var segs := BareLfSplit(g, stream, d);
      assert LengthFound(g, segs) != Header(d + 4);
    }
  }

  /** A first read of fewer than four bytes makes the search run past what was read: the loop
      leaves the buffer, or claims a header longer than everything received. */
  lemma ShortFirstRead(g: string, segs: seq<string>, fails: bool)
    requires Live(segs) && segs != [] && |segs[0]| < 4 <= |g| && |g| + 4 < SIZE_T
    ensures var r := Recv(g, "", segs, fails);
            var s := FirstMatch(CRLFCRLF, segs[0] + g[|segs[0]|..]);
            && r.status == (if s == -1 then Status.Overrun else Header(s + 4))
            && (r.status.Header? ==> r.status.length > |r.got|)
            && r.got == segs[0] && r.segs == segs[1..]
  {
    var t := TakeRead(segs, |g|);
    assert "" + t.data == t.data;
    ScanExact(CRLFCRLF, t.data + g[|t.data|..], |t.data|);
  }
}

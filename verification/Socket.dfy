/** Byte streams as the program sees them through read, recv and write.

    What a peer sends is a list of non-empty segments.  A read returns bytes of the first
    segment only, at most as many as asked for, so the list ranges over every way the
    network may split the stream. */
module Net {

  predicate Live(segs: seq<string>) { forall i :: 0 <= i < |segs| ==> segs[i] != "" }

  /** The stream that the segments carry. */
  function Flatten(segs: seq<string>): string {
    if segs == [] then "" else segs[0] + Flatten(segs[1..])
  }

  lemma {:induction false} FlattenConcat(a: seq<string>, b: seq<string>)
    ensures Flatten(a + b) == Flatten(a) + Flatten(b)
  {
    if a == [] {
      assert a + b == b;
    } else {
      assert (a + b)[1..] == a[1..] + b;
      FlattenConcat(a[1..], b);
    }
  }

  datatype Taken = Taken(data: string, rest: seq<string>)

  /** One read of at most `n` bytes. */
  function TakeRead(segs: seq<string>, n: nat): (t: Taken)
    requires Live(segs) && segs != [] && n > 0
    ensures 0 < |t.data| <= n && t.data <= segs[0]
    ensures t.data + Flatten(t.rest) == Flatten(segs)
    ensures Live(t.rest)
  {
    if |segs[0]| <= n then Taken(segs[0], segs[1..])
    else
      var rest := [segs[0][n..]] + segs[1..];
      assert rest[1..] == segs[1..];
      assert segs[0] == segs[0][..n] + segs[0][n..];
      Taken(segs[0][..n], rest)
  }

  /** A read that starts in `a` does not see what follows it. */
  lemma TakeReadFrame(a: seq<string>, b: seq<string>, n: nat)
    requires Live(a) && Live(b) && a != [] && n > 0
    ensures Live(a + b)
    ensures TakeRead(a + b, n) == Taken(TakeRead(a, n).data, TakeRead(a, n).rest + b)
  {
  }

  /** What is unread after the first `n` bytes. */
  function Dropped(segs: seq<string>, n: nat): (rest: seq<string>)
    requires Live(segs)
    ensures Live(rest)
  {
    if n == 0 || segs == [] then segs
    else if |segs[0]| <= n then Dropped(segs[1..], n - |segs[0]|)
    else [segs[0][n..]] + segs[1..]
  }

  lemma {:induction false} DroppedTwice(segs: seq<string>, m: nat, n: nat)
    requires Live(segs)
    ensures Dropped(Dropped(segs, m), n) == Dropped(segs, m + n)
    decreases |segs|
  {
    if segs != [] && m > 0 && |segs[0]| <= m {
      DroppedTwice(segs[1..], m - |segs[0]|, n);
    } else if segs != [] && m > 0 {
      var rest := [segs[0][m..]] + segs[1..];
      assert rest[0] == segs[0][m..] && rest[1..] == segs[1..];
      if n > 0 && n < |rest[0]| { assert segs[0][m..][n..] == segs[0][m + n..]; }
    }
  }

  /** Segments taken whole leave those behind them. */
  lemma {:induction false} DroppedConcat(a: seq<string>, b: seq<string>)
    requires Live(a + b)
    ensures Dropped(a + b, |Flatten(a)|) == b
  {
    if a == [] {
      assert a + b == b;
    } else {
      assert (a + b)[0] == a[0] && (a + b)[1..] == a[1..] + b;
      DroppedConcat(a[1..], b);
    }
  }

  lemma {:induction false} FlattenDropped(segs: seq<string>, n: nat)
    requires Live(segs) && n <= |Flatten(segs)|
    ensures Flatten(Dropped(segs, n)) == Flatten(segs)[n..]
  {
    if n > 0 {
      var rest := Flatten(segs[1..]);
      assert Flatten(segs) == segs[0] + rest;
      if |segs[0]| <= n {
        FlattenDropped(segs[1..], n - |segs[0]|);
      } else {
        assert ([segs[0][n..]] + segs[1..])[1..] == segs[1..];
      }
    }
  }

  lemma TakeReadLengths(segs: seq<string>, n: nat)
    requires Live(segs) && segs != [] && 0 < n
    ensures |TakeRead(segs, n).data| == if |segs[0]| <= n then |segs[0]| else n
  {
  }

  /** A read leaves what it did not take. */
  lemma TakeReadDrops(segs: seq<string>, n: nat)
    requires Live(segs) && segs != [] && n > 0
    ensures TakeRead(segs, n).rest == Dropped(segs, |TakeRead(segs, n).data|)
  {
  }

  /** The length of the segments up to the first that brings them to `n` bytes. */
  function Covering(segs: seq<string>, n: nat): (k: nat)
    ensures k <= |Flatten(segs)|
  {
    if n == 0 || segs == [] then 0
    else if |segs[0]| >= n then |segs[0]|
    else |segs[0]| + Covering(segs[1..], n - |segs[0]|)
  }

  lemma {:induction false} CoveringReaches(segs: seq<string>, n: nat)
    requires n <= |Flatten(segs)|
    ensures n <= Covering(segs, n)
  {
    if n > 0 && |segs[0]| < n { CoveringReaches(segs[1..], n - |segs[0]|); }
  }

  lemma CoveringStep(segs: seq<string>, n: nat)
    requires segs != [] && n > 0
    ensures Covering(segs, n) ==
            if |segs[0]| >= n then |segs[0]| else |segs[0]| + Covering(segs[1..], n - |segs[0]|)
  {
  }

  /** The reading end.  After the last segment a read returns 0 (closed by the peer), or -1
      when `fails` is set. */
  class Socket {
    var segs: seq<string>
    const fails: bool

    constructor (segs: seq<string>, fails: bool)
      ensures this.segs == segs && this.fails == fails
    {
      this.segs := segs;
      this.fails := fails;
    }

    /** `read(fd, buf + at, n)` */
    method Read(buf: array<char>, at: nat, n: nat) returns (k: int)
      requires Live(segs) && n > 0 && at + n <= buf.Length
      modifies this`segs, buf
      ensures Live(segs)
      ensures old(segs) == [] ==> k == (if fails then -1 else 0) && segs == [] && buf[..] == old(buf[..])
      ensures old(segs) != [] ==>
                var t := TakeRead(old(segs), n);
                k == |t.data| && segs == t.rest &&
                buf[..] == old(buf[..at]) + t.data + old(buf[at + k..])
    {
      if segs == [] {
        return if fails then -1 else 0;
      }
      var t := TakeRead(segs, n);
      k := |t.data|;
      forall i | 0 <= i < k {
        buf[at + i] := t.data[i];
      }
      segs := t.rest;
      assert buf[..at] == old(buf[..at]) && buf[at..at + k] == t.data && buf[at + k..] == old(buf[at + k..]);
      assert buf[..] == buf[..at] + buf[at..at + k] + buf[at + k..];
    }

    /** `recv(fd, buf, n, MSG_PEEK)`: the bytes that have arrived, left in place. */
    method Peek(buf: array<char>, n: nat) returns (k: int)
      requires Live(segs) && 0 < n <= buf.Length
      modifies buf
      ensures segs == [] ==> k == (if fails then -1 else 0) && buf[..] == old(buf[..])
      ensures segs != [] ==>
                var d := TakeRead(segs, n).data;
                k == |d| && buf[..] == d + old(buf[k..])
    {
      if segs == [] {
        return if fails then -1 else 0;
      }
      var d := TakeRead(segs, n).data;
      k := |d|;
      forall i | 0 <= i < k {
        buf[i] := d[i];
      }
      assert buf[..k] == d && buf[k..] == old(buf[k..]);
      assert buf[..] == buf[..k] + buf[k..];
    }
  }

  /** The writing end: it takes `room` more bytes, so a write may be short. */
  class Sink {
    var written: string
    var room: nat

    constructor (room: nat)
      ensures written == "" && this.room == room
    {
      written := "";
      this.room := room;
    }

    /** `write(fd, data, |data|)` */
    method Write(data: string) returns (k: nat)
      modifies this
      ensures k == (if |data| <= old(room) then |data| else old(room))
      ensures written == old(written) + data[..k] && room == old(room) - k
    {
      k := if |data| <= room then |data| else room;
      written := written + data[..k];
      room := room - k;
    }
  }
}

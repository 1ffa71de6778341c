/** The growable byte buffer (src/utils/c_utils_buffer.c). */
module Buffer {
  import opened Search

  const EXTRA_SPACE: nat := 20
  const NUL: char := '\0'

  function Zeros(n: nat): (r: string)
    ensures |r| == n
  {
    seq(n, _ => NUL)
  }

  /** The memory of a buffer: all its cells, of which the first `len` are live. */
  datatype Raw = Raw(cells: string, len: nat) {
    predicate Valid() { len <= |cells| }
    function Live(): string requires Valid() { cells[..len] }
    function Slack(): int { |cells| - len }
  }

  datatype Op = Insert(src: string, at: nat) | Shift(at: nat, n: nat) | SetLen(n: nat) | Grow(n: nat)

  /** The operation rebuilds the buffer in fresh memory. */
  predicate Rebuilds(op: Op, b: Raw) {
    match op
    case Insert(src, at) => at <= b.len && b.len + |src| > |b.cells|
    case Shift(at, n) => at < b.len && n > b.Slack()
    case SetLen(_) => false
    case Grow(_) => false
  }

  /** What each operation does to the memory; cells it leaves to the allocator are free. */
  predicate Does(op: Op, b: Raw, b': Raw)
    requires b.Valid()
  {
    b'.Valid() &&
    match op
    case Insert(src, at) =>
      if at > b.len then b' == b
      else
        && b'.Live() == b.Live()[..at] + src + b.Live()[at..]
        && if Rebuilds(op, b) then |b'.cells| == b.len + |src| + EXTRA_SPACE
           else |b'.cells| == |b.cells| && b'.cells[b'.len..] == b.cells[b'.len..]
    case Shift(at, n) =>
      if at >= b.len then b' == b
      else
        && b'.len == b.len + n
        && if Rebuilds(op, b) then b'.cells == b.Live()[..at] + Zeros(n) + b.Live()[at..] + Zeros(EXTRA_SPACE)
           else b'.cells == b.cells[..at + n] + b.cells[at..b.len] + b.cells[b.len + n..]
    case SetLen(n) => b' == if n > |b.cells| then b else b.(len := n)
    case Grow(n) =>
      if n <= |b.cells| then b' == b
      else b'.len == b.len && |b'.cells| == n && b'.cells[..|b.cells|] == b.cells
  }

  /** What strncpy(dst, s, |s|) leaves in dst: everything from the first NUL on is NUL. */
  function StrNCopied(s: string): (r: string)
    ensures |r| == |s|
  {
    if s == "" then "" else if s[0] == NUL then Zeros(|s|) else [s[0]] + StrNCopied(s[1..])
  }

  lemma StrNNext(s: string, i: nat)
    requires i <= |s|
    ensures StrNCopied(s[i..]) ==
            if i == |s| then "" else if s[i] == NUL then Zeros(|s| - i) else [s[i]] + StrNCopied(s[i + 1..])
  {
    if i < |s| { assert s[i..][0] == s[i] && s[i..][1..] == s[i + 1..]; }
  }

  lemma {:induction false} StrNCopiedAt(s: string, i: nat)
    requires i < |s|
    ensures StrNCopied(s)[i] == if exists j :: 0 <= j <= i && s[j] == '\0' then '\0' else s[i]
  {
    if s[0] != NUL && i > 0 {
      StrNCopiedAt(s[1..], i - 1);
      assert forall j :: 0 < j <= i ==> s[j] == s[1..][j - 1];
      assert forall j :: 0 <= j < i ==> s[1..][j] == s[j + 1];
    }
  }

  /** Nothing but NULs after the first NUL. */
  predicate NulPadded(s: string) { forall i, j :: 0 <= i < j < |s| && s[i] == NUL ==> s[j] == NUL }

  /** A new buffer holds the bytes it was given exactly when no other byte follows a NUL. */
  lemma {:induction false} StrNCopiedExact(s: string)
    ensures StrNCopied(s) == s <==> NulPadded(s)
  {
    if s != "" {
      NulPaddedTail(s);
      if s[0] != NUL {
        StrNCopiedExact(s[1..]);
        assert s == [s[0]] + s[1..] && StrNCopied(s)[1..] == StrNCopied(s[1..]);
      }
    }
  }

  lemma NulPaddedTail(s: string)
    requires s != ""
    ensures s[0] != NUL ==> (NulPadded(s) <==> NulPadded(s[1..]))
    ensures s[0] == NUL ==> (NulPadded(s) <==> s == Zeros(|s|))
  {
  }

  lemma MovedUp(was: string, now: string, index: nat, len: nat, n: nat)
    requires index <= len && len + n <= |was| == |now|
    requires forall k :: index + n <= k < len + n ==> now[k] == was[k - n]
    requires forall k :: 0 <= k < index + n || len + n <= k < |was| ==> now[k] == was[k]
    ensures now == was[..index + n] + was[index..len] + was[len + n..]
  {
  }

  lemma TakeFirst(x: string, y: string, k: nat)
    requires k <= |x|
    ensures (x + y)[..k] == x[..k]
  {
  }

  lemma DropFirst(x: string, y: string)
    ensures (x + y)[|x|..] == y
  {
  }

  /** Bytes moved up by the length of `src`, then `src` written over the gap. */
  lemma SpliceCells(was: string, moved: string, now: string, at: nat, len: nat, src: string, n: nat)
    requires at <= len && len + n <= |was| && |src| == n
    requires moved == was[..at + n] + was[at..len] + was[len + n..]
    requires now == moved[..at] + src + moved[at + n..]
    ensures now == was[..at] + src + was[at..len] + was[len + n..]
  {
    var x, y := was[..at + n], was[at..len] + was[len + n..];
    assert moved == x + y;
    TakeFirst(x, y, at);
    DropFirst(x, y);
    assert x[..at] == was[..at];
  }

  lemma SpliceDoes(b: Raw, src: string, at: nat, b': Raw)
    requires b.Valid() && at <= b.len && b.len + |src| <= |b.cells| && b'.len == b.len + |src|
    requires b'.cells == b.cells[..at] + src + b.cells[at..b.len] + b.cells[b'.len..]
    ensures Does(Insert(src, at), b, b')
  {
  }

  /** The zeroed memory of a rebuilding shift after `i` of its two parts have been copied. */
  function ShiftCells(i: nat, live: string, index: nat, n: nat): (cells: string)
    requires index <= |live|
    ensures |cells| == |live| + n + EXTRA_SPACE
  {
    var rest := |live| - index;
    if i == 0 then Zeros(|live| + n + EXTRA_SPACE)
    else if i == 1 then live[..index] + Zeros(rest + n + EXTRA_SPACE)
    else live[..index] + Zeros(n) + live[index..] + Zeros(EXTRA_SPACE)
  }

  /** Its part `i`, and where that goes. */
  function ShiftPart(i: nat, live: string, index: nat): string
    requires index <= |live|
  {
    if i == 0 then live[..index] else live[index..]
  }

  function ShiftTo(i: nat, len: nat, index: nat, n: nat): nat {
    if i == 0 then 0 else if i == 1 then index + n else len + n
  }

  lemma ZerosFrom(m: nat, k: nat)
    requires k <= m
    ensures Zeros(m)[..k] == Zeros(k) && Zeros(m)[k..] == Zeros(m - k)
  {
  }

  lemma Behind(x: string, y: string, k: nat)
    requires k <= |y|
    ensures (x + y)[..|x| + k] == x + y[..k] && (x + y)[|x| + k..] == y[k..]
  {
  }

  lemma ShiftFirst(a: string, m: nat)
    requires |a| <= m
    ensures Zeros(m)[..0] + a + Zeros(m)[0 + |a|..] == a + Zeros(m - |a|)
  {
    hide Zeros;
    ZerosFrom(m, |a|);
    assert Zeros(m)[..0] + a == a;
  }

  lemma ShiftSecond(a: string, b: string, n: nat, extra: nat)
    ensures var was := a + Zeros(|b| + n + extra);
            was[..|a| + n] + b + was[|a| + n + |b|..] == a + Zeros(n) + b + Zeros(extra)
  {
    hide Zeros;
    var y := Zeros(|b| + n + extra);
    ZerosFrom(|y|, n);
    ZerosFrom(|y|, n + |b|);
    Behind(a, y, n);
    Behind(a, y, n + |b|);
  }

  lemma ShiftStep(i: nat, live: string, index: nat, n: nat)
    requires index <= |live| && i < 2
    ensures var was, part, to := ShiftCells(i, live, index, n), ShiftPart(i, live, index), ShiftTo(i, |live|, index, n);
            && to + |part| <= |was|
            && was[..to] + part + was[to + |part|..] == ShiftCells(i + 1, live, index, n)
  {
    hide Zeros;
    if i == 0 {
      ShiftFirst(live[..index], |live| + n + EXTRA_SPACE);
    } else {
      ShiftSecond(live[..index], live[index..], n, EXTRA_SPACE);
    }
  }

  lemma ShiftDone(live: string, index: nat, n: nat)
    requires index <= |live|
    ensures ShiftCells(0, live, index, n) == Zeros(|live| + n + EXTRA_SPACE)
    ensures ShiftCells(2, live, index, n) == live[..index] + Zeros(n) + live[index..] + Zeros(EXTRA_SPACE)
  {
  }

  /** A part of some memory, as the rebuild loops list them. */
  datatype View = View(buf: array<char>, from: nat, len: nat)

  class CmonBuffer {
    var buf: array<char>
    var cap: nat
    var len: nat
    var avl: int

    predicate Valid()
      reads this
    {
      buf.Length == cap && len <= cap
    }

    /** The buffer's memory. */
    function Mem(): (m: Raw)
      reads this, buf
      requires Valid()
      ensures m.Valid()
    {
      Raw(buf[..], len)
    }

    /** The live bytes. */
    function Bytes(): string
      reads this, buf
      requires Valid()
    {
      buf[..len]
    }

    /** `c_u_buffer_empty(cap)` */
    constructor (cap: nat)
      ensures Valid() && fresh(buf) && this.cap == cap && len == 0 && avl == cap
    {
      buf := new char[cap];
      this.cap := cap;
      len := 0;
      avl := cap;
    }

    /** `c_u_buffer_new(src, n)` */
    static method New(src: array?<char>, n: nat) returns (b: CmonBuffer?)
      requires src != null ==> n <= src.Length
      ensures b == null <==> src == null
      ensures b != null ==> fresh(b) && fresh(b.buf) && b.Valid()
      ensures b != null ==> b.Bytes() == StrNCopied(src[..n]) && b.cap == n + EXTRA_SPACE && b.avl == b.cap - b.len
    {
      if src == null { return null; }
      b := new CmonBuffer(n + EXTRA_SPACE);
      StrNCpy(b.buf, src, n);
      b.len := n;
      b.avl := b.avl - n;
    }

    /** `strncpy(dst, src, n)` */
    static method StrNCpy(dst: array<char>, src: array<char>, n: nat)
      requires n <= src.Length && n <= dst.Length && dst != src
      modifies dst
      ensures dst[..n] == StrNCopied(src[..n])
    {
      hide StrNCopied;
      var i := 0;
      ghost var s := src[..n];
      assert s[0..] == s;
      while i < n && src[i] != NUL
        invariant i <= n
        invariant dst[..i] + StrNCopied(s[i..]) == StrNCopied(s)
      {
        dst[i] := src[i];
        StrNNext(s, i);
        i := i + 1;
      }
      Pad(dst, i, n);
      StrNNext(s, i);
    }

    /** The rest of strncpy: NULs up to `n`. */
    static method Pad(dst: array<char>, from: nat, n: nat)
      requires from <= n <= dst.Length
      modifies dst
      ensures dst[..n] == old(dst[..from]) + Zeros(n - from)
    {
      for i := from to n
        invariant dst[..i] == old(dst[..from]) + Zeros(i - from)
      {
        dst[i] := NUL;
      }
    }

    /** The descending loop that moves the bytes from `index` on up by `n`. */
    method MoveUp(index: nat, n: nat)
      requires Valid() && index <= len && len + n <= cap
      modifies buf
      ensures var was := old(buf[..]); buf[..] == was[..index + n] + was[index..len] + was[len + n..]
    {
      ghost var was := buf[..];
      for i := 1 to len - index + 1
        invariant forall k :: len - i + 1 + n <= k < len + n ==> buf[k] == was[k - n]
        invariant forall k :: 0 <= k <= len - i + n || len + n <= k < cap ==> buf[k] == was[k]
      {
        buf[len - i + n] := buf[len - i];
      }
      MovedUp(was, buf[..], index, len, n);
    }

    /** `c_u_buffer_shift_from(buf, index, n)` */
    method ShiftFrom(index: nat, n: nat) returns (rc: int)
      requires Valid()
      modifies this, buf
      ensures Valid() && (buf == old(buf) || fresh(buf))
      ensures fresh(buf) <==> Rebuilds(Shift(index, n), old(Mem()))
      ensures rc == if index >= old(len) then -2 else 0
      ensures Does(Shift(index, n), old(Mem()), Mem())
      ensures rc == 0 ==> avl == cap - len
    {
      if index >= len { return -2; }
      if cap - len < n {
        RebuildShifted(index, n);
      } else {
        MoveUp(index, n);
        len := len + n;
        avl := cap - len;
      }
      rc := 0;
    }

    /** One part of a rebuilding shift, copied to its place. */
    static method PlacePart(part: View, dst: array<char>, to: nat, room: nat,
                            ghost i: nat, ghost live: string, ghost index: nat, ghost n: nat)
      requires part.from + part.len <= part.buf.Length && part.buf != dst && part.len <= room
      requires i < 2 && index <= |live| && to == ShiftTo(i, |live|, index, n)
      requires dst[..] == ShiftCells(i, live, index, n)
      requires part.buf[part.from..part.from + part.len] == ShiftPart(i, live, index)
      modifies dst
      ensures dst[..] == ShiftCells(i + 1, live, index, n)
    {
      hide ShiftCells, ShiftPart;
      ShiftStep(i, live, index, n);
      var _ := CopyN(part.buf, part.from, part.len, dst, to, room);
    }

    /** The rebuild branch of the shift: two parts copied into zeroed memory, `n` apart. */
    method RebuildShifted(index: nat, n: nat)
      requires Valid() && index < len
      modifies this
      ensures Valid() && fresh(buf) && len == old(len) + n && avl == cap - len
      ensures buf[..] == old(Bytes())[..index] + Zeros(n) + old(Bytes())[index..] + Zeros(EXTRA_SPACE)
    {
      hide ShiftCells;
      ghost var live := Bytes();
      ShiftDone(live, index, n);
      var parts := [View(buf, 0, index), View(buf, index, len - index)];
      var newCap := len + n + EXTRA_SPACE;
      var newBuf := new char[newCap](_ => NUL);
      ghost var old0 := buf;
      cap := newCap;
      len := 0;
      var p := 0;
      for i := 0 to |parts|
        invariant p == len && cap == newCap && buf == old0 && buf[..|live|] == live
        invariant p == (if i == 0 then 0 else if i == 1 then index else |live| + n) && (i > 0 ==> avl == cap - len)
        invariant newBuf[..] == ShiftCells(i, live, index, n)
      {
        var gap := if i == 0 then 0 else n;  // n * i
        PlacePart(parts[i], newBuf, p + gap, cap - len, i, live, index, n);
        len := len + parts[i].len + gap;
        p := p + parts[i].len + gap;
        avl := cap - len;
      }
      buf := newBuf;
    }

    /** `c_u_buffer_insert_at(buf, src + from, n, index)`; the appending macro passes `len`. */
    method InsertAt(src: array?<char>, from: nat, n: nat, index: nat) returns (rc: int)
      requires Valid() && (src != null ==> from + n <= src.Length && src != buf)
      modifies this, buf
      ensures Valid() && (buf == old(buf) || fresh(buf))
      ensures src != null ==> (fresh(buf) <==> Rebuilds(Insert(old(src[from..from + n]), index), old(Mem())))
      ensures rc == if src == null then -1 else if index > old(len) then -2 else 0
      ensures src == null ==> buf == old(buf) && Mem() == old(Mem())
      ensures src != null ==> Does(Insert(old(src[from..from + n]), index), old(Mem()), Mem())
      ensures avl == old(avl)
    {
      if src == null { return -1; }
      if index > len { return -2; }
      if len + n > cap {
        RebuildInserted(src, from, n, index);
      } else {
        InsertInPlace(src, from, n, index);
        SpliceDoes(old(Mem()), old(src[from..from + n]), index, Mem());
      }
      rc := 0;
    }

    /** The branch of the insertion that fits: the splice, and the cells behind it kept. */
    method InsertInPlace(src: array<char>, from: nat, n: nat, index: nat)
      requires Valid() && from + n <= src.Length && src != buf && index <= len && len + n <= cap
      modifies this`len, buf
      ensures Valid() && len == old(len) + n
      ensures var was := old(buf[..]);
              buf[..] == was[..index] + old(src[from..from + n]) + was[index..old(len)] + was[len..]
    {
      ghost var was, bytes, live := buf[..], src[from..from + n], len;
      MoveUp(index, n);
      ghost var moved := buf[..];
      assert src[..] == old(src[..]) && src[from..from + n] == bytes;
      len := len + n;
      var _ := CopyN(src, from, n, buf, index, len);
      SpliceCells(was, moved, buf[..], index, live, bytes, n);
    }

    /** The rebuild branch of the insertion: three parts copied one behind the other. */
    method RebuildInserted(src: array<char>, from: nat, n: nat, index: nat)
      requires Valid() && from + n <= src.Length && src != buf && index <= len
      modifies this
      ensures Valid() && fresh(buf) && len == old(len) + n && cap == len + EXTRA_SPACE && avl == old(avl)
      ensures Bytes() == old(Bytes())[..index] + src[from..from + n] + old(Bytes())[index..]
    {
      ghost var live, added := Bytes(), src[from..from + n];
      var parts := [View(buf, 0, index), View(src, from, n), View(buf, index, len - index)];
      var newCap := len + n + EXTRA_SPACE;
      var newBuf := new char[newCap];
      ghost var old0 := buf;
      cap := newCap;
      len := 0;
      var p := 0;
      for i := 0 to |parts|
        invariant p == len && cap == newCap && buf == old0 && avl == old(avl)
        invariant buf[0..0 + index] == live[..index] && buf[index..index + (|live| - index)] == live[index..]
        invariant src[from..from + n] == added
        invariant i == 0 ==> p == 0
        invariant i == 1 ==> p == index && newBuf[..p] == live[..index]
        invariant i == 2 ==> p == index + n && newBuf[..p] == live[..index] + added
        invariant i == 3 ==> p == |live| + n && newBuf[..p] == live[..index] + added + live[index..]
      {
        var _ := CopyN(parts[i].buf, parts[i].from, parts[i].len, newBuf, p, cap - len);
        len := len + parts[i].len;
        p := p + parts[i].len;
      }
      buf := newBuf;
    }

    /** `c_u_buffer_set_len(buf, new_len)` */
    method SetLength(newLen: nat) returns (r: int)
      requires Valid()
      modifies this`len
      ensures Valid() && r == (if newLen > cap then -1 else old(len))
      ensures Does(SetLen(newLen), old(Mem()), Mem())
    {
      if cap < newLen { return -1; }
      r := len;
      len := newLen;
    }

    /** `c_u_buffer_set_capacity(buf, min_cap)`, with the moved block released once. */
    method SetCapacity(minCap: nat) returns (rc: int)
      requires Valid()
      modifies this
      ensures Valid() && rc == 0 && (buf == old(buf) || fresh(buf)) && (fresh(buf) <==> minCap > old(cap))
      ensures Does(Grow(minCap), old(Mem()), Mem()) && cap >= minCap && avl == old(avl)
    {
      if minCap <= cap { return 0; }
      var newBuf := new char[minCap];
      forall i | 0 <= i < cap {
        newBuf[i] := buf[i];
      }
      buf := newBuf;
      cap := minCap;
      rc := 0;
    }
  }

  /** A run: each operation takes the memory from one state to the next. */
  ghost predicate Run(ops: seq<Op>, states: seq<Raw>) {
    && |states| == |ops| + 1
    && forall i :: 0 <= i < |ops| ==> states[i].Valid() && Does(ops[i], states[i], states[i + 1])
  }

  /** The same operation on a plain sequence of bytes: the gap of a shift and the bytes that a
      longer length exposes are unconstrained, and a length past the capacity is refused. */
  predicate Follows(op: Op, s: string, s': string) {
    match op
    case Insert(src, at) => s' == if at <= |s| then s[..at] + src + s[at..] else s
    case Shift(at, n) =>
      if at >= |s| then s' == s
      else |s'| == |s| + n && s'[..at] == s[..at] && s'[at + n..] == s[at..]
    case SetLen(n) => if n <= |s| then s' == s[..n] else s' == s || (|s'| == n && s <= s')
    case Grow(_) => s' == s
  }

  /** Whichever branch runs, the live bytes follow the plain sequence. */
  lemma LiveFollows(op: Op, b: Raw, b': Raw)
    requires b.Valid() && Does(op, b, b')
    ensures Follows(op, b.Live(), b'.Live())
  {
  }

  /** Every run of operations refines the run on plain sequences, and keeps `len <= cap`. */
  lemma RunRefines(ops: seq<Op>, states: seq<Raw>)
    requires Run(ops, states) && states[0].Valid()
    ensures forall i :: 0 <= i < |states| ==> states[i].Valid()
    ensures forall i :: 0 <= i < |ops| ==> Follows(ops[i], states[i].Live(), states[i + 1].Live())
  {
    if ops != [] { assert Does(ops[|ops| - 1], states[|ops| - 1], states[|ops|]); }
    forall i | 0 <= i < |ops| ensures Follows(ops[i], states[i].Live(), states[i + 1].Live()) {
      LiveFollows(ops[i], states[i], states[i + 1]);
    }
  }

  /** The bytes after a list of operations on a plain sequence, when each settles them. */
  function Text(ops: seq<Op>, s: string): string {
    if ops == [] then s
    else
      var t := Text(ops[..|ops| - 1], s);
      match ops[|ops| - 1]
      case Insert(src, at) => if at <= |t| then t[..at] + src + t[at..] else t
      case SetLen(n) => if n <= |t| then t[..n] else t
      case Shift(_, _) => t
      case Grow(_) => t
  }

  /** No operation leaves bytes open: none shifts inside the text or asks for a longer one. */
  ghost predicate Settled(ops: seq<Op>, s: string) {
    forall i :: 0 <= i < |ops| ==> Settles(ops[i], Text(ops[..i], s))
  }

  predicate Settles(op: Op, t: string) {
    match op
    case Insert(_, _) => true
    case Shift(at, _) => at >= |t|
    case SetLen(n) => n <= |t|
    case Grow(_) => true
  }

  /** Then the live bytes are those of the plain sequence, whichever operations rebuild. */
  lemma {:induction false} RunIsText(ops: seq<Op>, states: seq<Raw>)
    requires Run(ops, states) && states[0].Valid() && Settled(ops, states[0].Live())
    ensures states[|ops|].Valid() && states[|ops|].Live() == Text(ops, states[0].Live())
  {
    if ops != [] {
      var n := |ops| - 1;
      var init := ops[..n];
      assert Does(ops[n], states[n], states[n + 1]) && Settles(ops[n], Text(init, states[0].Live()));
      assert forall i :: 0 <= i < n ==> init[..i] == ops[..i];
      RunIsText(init, states[..n + 1]);
      assert init == ops[..|ops| - 1];
    }
  }

  /** Bytes by which an operation may lengthen the live part. */
  function Added(op: Op, b: Raw): nat {
    match op
    case Insert(src, _) => |src|
    case Shift(_, n) => n
    case SetLen(n) => if n > b.len then n - b.len else 0
    case Grow(_) => 0
  }

  ghost function TotalAdded(ops: seq<Op>, states: seq<Raw>, k: nat): nat
    requires k <= |ops| && k <= |states|
  {
    if k == 0 then 0 else TotalAdded(ops, states, k - 1) + Added(ops[k - 1], states[k - 1])
  }

  /** The number of reallocations made by insertions and shifts. */
  ghost function Rebuilt(ops: seq<Op>, states: seq<Raw>, k: nat): nat
    requires k <= |ops| && k <= |states|
  {
    if k == 0 then 0 else Rebuilt(ops, states, k - 1) + if Rebuilds(ops[k - 1], states[k - 1]) then 1 else 0
  }

  /** The old bytes that those reallocations copy. */
  ghost function Copied(ops: seq<Op>, states: seq<Raw>, k: nat): nat
    requires k <= |ops| && k <= |states|
  {
    if k == 0 then 0
    else Copied(ops, states, k - 1) + if Rebuilds(ops[k - 1], states[k - 1]) then states[k - 1].len else 0
  }

  /** The potential that the growth by a constant keeps. */
  lemma {:induction false} Potential(ops: seq<Op>, states: seq<Raw>, k: nat)
    requires Run(ops, states) && states[0].Valid() && states[0].Slack() == EXTRA_SPACE && k <= |ops|
    ensures states[k].Valid() && states[k].len <= states[0].len + TotalAdded(ops, states, k)
    ensures 21 * Rebuilt(ops, states, k) <= TotalAdded(ops, states, k)
    ensures 21 * Rebuilt(ops, states, k) + EXTRA_SPACE - states[k].Slack() <= TotalAdded(ops, states, k)
    ensures Copied(ops, states, k) <= Rebuilt(ops, states, k) * (states[0].len + TotalAdded(ops, states, k))
  {
    hide Does, Rebuilds, Added;
    if k > 0 {
      Potential(ops, states, k - 1);
      RunStep(ops, states, k - 1);
      CopiedStep(Copied(ops, states, k - 1), Rebuilt(ops, states, k - 1),
                 states[0].len + TotalAdded(ops, states, k - 1), Added(ops[k - 1], states[k - 1]), states[k - 1].len);
    }
  }

  /** One operation of a run: a rebuild leaves exactly the extra space, so it takes at least 21
      more bytes to force the next one. */
  lemma RunStep(ops: seq<Op>, states: seq<Raw>, k: nat)
    requires Run(ops, states) && k < |ops|
    ensures states[k].Valid() && states[k + 1].Valid()
    ensures states[k + 1].len <= states[k].len + Added(ops[k], states[k])
    ensures if Rebuilds(ops[k], states[k]) then
              states[k + 1].Slack() == EXTRA_SPACE && Added(ops[k], states[k]) >= states[k].Slack() + 1
            else states[k + 1].Slack() >= states[k].Slack() - Added(ops[k], states[k])
  {
  }

  lemma CopiedStep(copied: nat, r: nat, bound: nat, added: nat, len: nat)
    requires copied <= r * bound && len <= bound
    ensures copied <= r * (bound + added)
    ensures copied + len <= (r + 1) * (bound + added)
  {
  }

  /** Growth bound.  Over any run that starts from a new buffer and adds `t` bytes, at most one
      reallocation is made for every 21 bytes, and the old bytes copied by them all are at most
      (initial length + t) * t / 21. */
  lemma GrowthBound(ops: seq<Op>, states: seq<Raw>)
    requires Run(ops, states) && states[0].Valid() && states[0].Slack() == EXTRA_SPACE
    ensures var t := TotalAdded(ops, states, |ops|);
            && 21 * Rebuilt(ops, states, |ops|) <= t
            && 21 * Copied(ops, states, |ops|) <= (states[0].len + t) * t
  {
    hide Does, Rebuilds, Added;
    var k := |ops|;
    Potential(ops, states, k);
    CopyBound(Copied(ops, states, k), Rebuilt(ops, states, k), TotalAdded(ops, states, k),
              states[0].len + TotalAdded(ops, states, k));
  }

  lemma CopyBound(copied: nat, r: nat, t: nat, m: nat)
    requires copied <= r * m && 21 * r <= t
    ensures 21 * copied <= m * t
  {
  }

  /** One operation on the class, and whether an insertion or a shift moved the buffer. */
  method Perform(b: CmonBuffer, op: Op) returns (moved: bool)
    requires b.Valid()
    modifies b, b.buf
    ensures b.Valid() && (b.buf == old(b.buf) || fresh(b.buf))
    ensures Does(op, old(b.Mem()), b.Mem()) && moved == Rebuilds(op, old(b.Mem()))
  {
    hide Does;
    var before := b.buf;
    moved := false;
    match op {
      case Insert(src, at) =>
        var a := new char[|src|](i requires 0 <= i < |src| => src[i]);
        assert a[0..|src|] == src;
        var _ := b.InsertAt(a, 0, |src|, at);
        moved := b.buf != before;
      case Shift(at, n) =>
        var _ := b.ShiftFrom(at, n);
        moved := b.buf != before;
      case SetLen(n) => var _ := b.SetLength(n);
      case Grow(n) => var _ := b.SetCapacity(n);
    }
  }

  lemma RebuiltMore(ops: seq<Op>, states: seq<Raw>, next: Raw, k: nat)
    requires k <= |ops| && k <= |states|
    ensures Rebuilt(ops, states + [next], k) == Rebuilt(ops, states, k)
  {
  }

  /** Any calls on a buffer are a run, and the buffer moved as often as the run rebuilds it; so
      both theorems about runs hold of the class. */
  method PerformAll(b: CmonBuffer, ops: seq<Op>) returns (moves: nat, ghost states: seq<Raw>)
    requires b.Valid()
    modifies b, b.buf
    ensures b.Valid() && (b.buf == old(b.buf) || fresh(b.buf))
    ensures Run(ops, states) && states[0] == old(b.Mem()) && states[|ops|] == b.Mem()
    ensures moves == Rebuilt(ops, states, |ops|)
    ensures Settled(ops, old(b.Bytes())) ==> b.Bytes() == Text(ops, old(b.Bytes()))
    ensures old(b.cap - b.len) == EXTRA_SPACE ==> 21 * moves <= TotalAdded(ops, states, |ops|)
  {
    hide Does, Rebuilds;
    moves, states := 0, [b.Mem()];
    for i := 0 to |ops|
      invariant b.Valid() && (b.buf == old(b.buf) || fresh(b.buf))
      invariant |states| == i + 1 && states[0] == old(b.Mem()) && states[i] == b.Mem()
      invariant forall j :: 0 <= j < i ==> states[j].Valid() && Does(ops[j], states[j], states[j + 1])
      invariant moves == Rebuilt(ops, states, i)
    {
      var moved := Perform(b, ops[i]);
      RebuiltMore(ops, states, b.Mem(), i);
      RebuiltMore(ops, states, b.Mem(), i + 1);
      moves := moves + if moved then 1 else 0;
      states := states + [b.Mem()];
    }
    if Settled(ops, states[0].Live()) { RunIsText(ops, states); }
    if states[0].Slack() == EXTRA_SPACE { GrowthBound(ops, states); }
  }

  /** For an index inside the buffer, inserting is shifting and then writing over the gap. */
  lemma InsertIsShiftThenCopy(b: Raw, src: string, at: nat, i: Raw, s: Raw)
    requires b.Valid() && at < b.len
    requires Does(Insert(src, at), b, i) && Does(Shift(at, |src|), b, s)
    ensures i.len == s.len && i.Live() == s.Live()[..at] + src + s.Live()[at + |src|..]
  {
    LiveFollows(Shift(at, |src|), b, s);
  }

  /** Two insertions may be made in either order, the later index moved accordingly. */
  lemma InsertsCommute(b: Raw, x: string, i: nat, y: string, j: nat, b1: Raw, b2: Raw, c1: Raw, c2: Raw)
    requires b.Valid() && i <= j <= b.len
    requires Does(Insert(x, i), b, b1) && Does(Insert(y, j + |x|), b1, b2)
    requires Does(Insert(y, j), b, c1) && Does(Insert(x, i), c1, c2)
    ensures b2.Live() == c2.Live() == b.Live()[..i] + x + b.Live()[i..j] + y + b.Live()[j..]
  {
    LaterThenEarlier(b.Live(), x, i, y, j, b1.Live(), b2.Live());
    EarlierAfter(b.Live(), x, i, y, j, c1.Live(), c2.Live());
  }

  lemma LaterThenEarlier(s: string, x: string, i: nat, y: string, j: nat, s1: string, s2: string)
    requires i <= j <= |s| && s1 == s[..i] + x + s[i..] && s2 == s1[..j + |x|] + y + s1[j + |x|..]
    ensures s2 == s[..i] + x + s[i..j] + y + s[j..]
  {
  }

  lemma EarlierAfter(s: string, x: string, i: nat, y: string, j: nat, s1: string, s2: string)
    requires i <= j <= |s| && s1 == s[..j] + y + s[j..] && s2 == s1[..i] + x + s1[i..]
    ensures s2 == s[..i] + x + s[i..j] + y + s[j..]
  {
  }
}

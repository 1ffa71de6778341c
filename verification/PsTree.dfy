/** From the text of `pstree -p` to the pids, and from the pids to the signals
    (src/lib/ps_tree/ps_tree.c, _ps_tree_get_pids_from_pipe; src/lib/process/process.c,
    process_kill_subtree). */
module PsTree {
  import opened Net
  import opened Decimal
  import opened IntArray

  const PID_BUFFER: nat := 10
  const READ_SIZE: nat := 1023

  /** The digits collected so far, after one more character. */
  function NextRun(run: string, c: char): string { if IsDigit(c) then run + [c] else "" }

  /** The pid that a character completes. */
  function EmitPid(run: string, c: char): seq<int>
    requires AllDigits(run)
  {
    if !IsDigit(c) && run != "" then [Val(run)] else []
  }

  /** The character writes a cell of the pid buffer, itself or a terminator. */
  predicate Writes(run: string, c: char) { IsDigit(c) || run != "" }

  function RunAfter(run: string, text: string): (r: string)
    requires AllDigits(run)
    ensures AllDigits(r)
    decreases |text|
  {
    if text == "" then run else RunAfter(NextRun(run, text[0]), text[1..])
  }

  /** The pids in a text: its maximal digit runs that are followed by another character. */
  function Pids(run: string, text: string): seq<int>
    requires AllDigits(run)
    decreases |text|
  {
    if text == "" then [] else EmitPid(run, text[0]) + Pids(NextRun(run, text[0]), text[1..])
  }

  /** No write leaves the pid buffer. */
  predicate Fits(run: string, text: string)
    requires AllDigits(run)
    decreases |text|
  {
    text == "" ||
    ((Writes(run, text[0]) ==> |run| < PID_BUFFER) && Fits(NextRun(run, text[0]), text[1..]))
  }

  lemma {:induction false} Concat(run: string, a: string, b: string)
    requires AllDigits(run)
    ensures RunAfter(run, a + b) == RunAfter(RunAfter(run, a), b)
    ensures Pids(run, a + b) == Pids(run, a) + Pids(RunAfter(run, a), b)
    ensures Fits(run, a + b) <==> Fits(run, a) && Fits(RunAfter(run, a), b)
    decreases |a|
  {
    hide EmitPid, Writes;
    if a == "" {
      assert a + b == b;
    } else {
      assert (a + b)[0] == a[0] && (a + b)[1..] == a[1..] + b;
      Concat(NextRun(run, a[0]), a[1..], b);
    }
  }

  lemma Step(run: string, done: string, c: char)
    requires AllDigits(run)
    ensures RunAfter(run, done + [c]) == NextRun(RunAfter(run, done), c)
    ensures Pids(run, done + [c]) == Pids(run, done) + EmitPid(RunAfter(run, done), c)
    ensures Fits(run, done + [c]) <==>
            Fits(run, done) && (Writes(RunAfter(run, done), c) ==> |RunAfter(run, done)| < PID_BUFFER)
  {
    hide EmitPid, Writes;
    Concat(run, done, [c]);
    var m := RunAfter(run, done);
    assert Pids(NextRun(m, c), "") == [] && EmitPid(m, c) + [] == EmitPid(m, c);
    assert RunAfter(m, [c]) == RunAfter(NextRun(m, c), "") && [c][1..] == "";
  }

  predicate NoneOf(s: string) { forall i :: 0 <= i < |s| ==> s[i] !in DIGITS }

  /** A text cut at its digits: other text, digit runs each with other text behind it, and perhaps
      digits at the very end. */
  datatype Layout = Layout(lead: string, runs: seq<(string, string)>, tail: string) {
    predicate Valid() {
      && NoneOf(lead) && AllDigits(tail)
      && forall i :: 0 <= i < |runs| ==>
           runs[i].0 != "" && AllDigits(runs[i].0) && runs[i].1 != "" && NoneOf(runs[i].1)
    }

    function Text(): string { lead + RunText(runs) + tail }

    /** The numbers of its runs, in order. */
    function Numbers(): seq<int>
      requires Valid()
    {
      seq(|runs|, i requires 0 <= i < |runs| => Val(runs[i].0))
    }

    /** The runs, with a terminator behind each, and the digits at the end fit ten cells. */
    predicate Short() { |tail| <= 10 && forall i :: 0 <= i < |runs| ==> |runs[i].0| <= 9 }
  }

  function RunText(runs: seq<(string, string)>): string {
    if runs == [] then "" else RunText(runs[..|runs| - 1]) + runs[|runs| - 1].0 + runs[|runs| - 1].1
  }

  /** Text without digits ends a pending run. */
  lemma {:induction false} GapRead(run: string, gap: string)
    requires AllDigits(run) && NoneOf(gap)
    ensures RunAfter(run, gap) == if gap == "" then run else ""
    ensures Pids(run, gap) == if gap == "" || run == "" then [] else [Val(run)]
    ensures Fits(run, gap) <==> gap == "" || |run| < 10
    decreases |gap|
  {
    if gap != "" {
      IsDigitIff(gap[0]);
      GapRead("", gap[1..]);
    }
  }

  lemma DigitRead(run: string, d: string)
    requires AllDigits(run) && d != "" && AllDigits(d)
    ensures var next := run + [d[0]];
            && RunAfter(run, d) == RunAfter(next, d[1..]) && Pids(run, d) == Pids(next, d[1..])
            && (Fits(run, d) <==> |run| < 10 && Fits(next, d[1..]))
  {
    hide Val;
    assert EmitPid(run, d[0]) == [];
  }

  lemma NothingRead(run: string)
    requires AllDigits(run)
    ensures RunAfter(run, "") == run && Pids(run, "") == [] && Fits(run, "")
  {
  }

  lemma {:induction false} DigitsRead(run: string, d: string)
    requires AllDigits(run) && AllDigits(d)
    ensures RunAfter(run, d) == run + d && Pids(run, d) == [] && (Fits(run, d) <==> d == "" || |run| + |d| <= 10)
    decreases |d|
  {
    hide RunAfter, Pids, Fits;
    if d == "" {
      assert run + "" == run;
      NothingRead(run);
    } else {
      DigitRead(run, d);
      DigitsRead(run + [d[0]], d[1..]);
      assert run + [d[0]] + d[1..] == run + d;
      NothingRead(run + [d[0]]);
    }
  }

  /** The pids of any text are the numbers of its digit runs, in order; digits at the very end
      give none; and the pid buffer is long enough exactly when the runs are short. */
  lemma PidsOfLayout(l: Layout)
    requires l.Valid()
    ensures Pids("", l.Text()) == l.Numbers() && RunAfter("", l.Text()) == l.tail
    ensures Fits("", l.Text()) <==> l.Short()
  {
    hide RunAfter, Pids, Fits, Val;
    GapRead("", l.lead);
    RunsRead(l.lead, l.runs);
    Concat("", l.lead + RunText(l.runs), l.tail);
    DigitsRead("", l.tail);
    assert "" + l.tail == l.tail && l.Numbers() + [] == l.Numbers();
  }

  lemma {:induction false} RunsRead(lead: string, runs: seq<(string, string)>)
    requires Layout(lead, runs, "").Valid()
    ensures RunAfter("", lead + RunText(runs)) == ""
    ensures Pids("", lead + RunText(runs)) == Layout(lead, runs, "").Numbers()
    ensures Fits("", lead + RunText(runs)) <==> Layout(lead, runs, "").Short()
  {
    hide RunAfter, Pids, Fits, Val;
    GapRead("", lead);
    if runs == [] {
      assert lead + "" == lead;
    } else {
      var n := |runs| - 1;
      var text, d, gap := lead + RunText(runs[..n]), runs[n].0, runs[n].1;
      RunsRead(lead, runs[..n]);
      assert lead + RunText(runs) == text + d + gap && "" + d == d;
      Concat("", text + d, gap);
      Concat("", text, d);
      DigitsRead("", d);
      GapRead(d, gap);
      NumbersStep(lead, runs);
    }
  }

  lemma NumbersStep(lead: string, runs: seq<(string, string)>)
    requires runs != [] && Layout(lead, runs, "").Valid()
    ensures var n := |runs| - 1;
            && Layout(lead, runs[..n], "").Valid()
            && Layout(lead, runs, "").Numbers() == Layout(lead, runs[..n], "").Numbers() + ([] + [Val(runs[n].0)])
            && (Layout(lead, runs, "").Short() <==> Layout(lead, runs[..n], "").Short() && |runs[n].0| <= 9)
  {
    hide Val;
  }

  /** One character more. */
  lemma LayoutDigit(k: Layout, c: char) returns (l: Layout)
    requires k.Valid() && IsDigit(c)
    ensures l.Valid() && l.Text() == k.Text() + [c]
  {
    l := k.(tail := k.tail + [c]);
    assert l.Text() == k.lead + RunText(k.runs) + (k.tail + [c]);
  }

  lemma LayoutEnds(k: Layout, c: char) returns (l: Layout)
    requires k.Valid() && k.tail != "" && c !in DIGITS
    ensures l.Valid() && l.Text() == k.Text() + [c]
  {
    l := Layout(k.lead, k.runs + [(k.tail, [c])], "");
    assert l.runs[..|l.runs| - 1] == k.runs;
    assert l.Text() == k.lead + (RunText(k.runs) + k.tail + [c]) + "";
  }

  lemma LayoutMore(k: Layout, c: char) returns (l: Layout)
    requires k.Valid() && k.tail == "" && c !in DIGITS
    ensures l.Valid() && l.Text() == k.Text() + [c]
  {
    if k.runs == [] {
      l := k.(lead := k.lead + [c]);
      assert l.Text() == k.lead + [c] + "" + "";
    } else {
      var n := |k.runs| - 1;
      l := k.(runs := k.runs[..n] + [(k.runs[n].0, k.runs[n].1 + [c])]);
      assert l.runs[..n] == k.runs[..n];
      assert RunText(l.runs) == RunText(k.runs) + [c];
    }
  }

  /** Every text has such a layout. */
  lemma {:induction false} LayoutOf(text: string) returns (l: Layout)
    ensures l.Valid() && l.Text() == text
  {
    if text == "" {
      l := Layout("", [], "");
    } else {
      hide RunText, IsDigit, AllDigits;
      var n := |text| - 1;
      var c := text[n];
      var k := LayoutOf(text[..n]);
      IsDigitIff(c);
      assert text == text[..n] + [c];
      if IsDigit(c) {
        l := LayoutDigit(k, c);
      } else if k.tail != "" {
        l := LayoutEnds(k, c);
      } else {
        l := LayoutMore(k, c);
      }
    }
  }

  /** The digit buffer and its write position. */
  class PidBuffer {
    const cells: array<char>
    var len: nat

    predicate Valid()
      reads this
    {
      cells.Length == PID_BUFFER && len <= PID_BUFFER
    }

    function Run(): string
      reads this, cells
      requires Valid()
    {
      cells[..len]
    }

    constructor ()
      ensures Valid() && fresh(cells) && Run() == ""
    {
      cells := new char[PID_BUFFER];
      len := 0;
    }

    /** One turn of the character loop: false when a write leaves the buffer. */
    method Feed(c: char, pids: CmonIntArray?) returns (r: CmonIntArray?, ok: bool)
      requires Valid() && AllDigits(Run()) && (pids != null ==> pids.Valid() && pids.arr as object != cells)
      modifies this`len, cells, pids, if pids == null then {} else {pids.arr}
      ensures Valid() && ok == (Writes(old(Run()), c) ==> old(len) < PID_BUFFER)
      ensures ok ==> Run() == NextRun(old(Run()), c)
      ensures r != null ==> r.Valid() && (r == pids || (fresh(r) && fresh(r.arr)))
      ensures ok ==> Behind(r) == AddAll(old(Behind(pids)), EmitPid(old(Run()), c))
    {
      r, ok := pids, true;
      assert pids != null ==> pids.Items() + [] == pids.Items();
      if IsDigit(c) {
        if len >= cells.Length { return r, false; }
        cells[len] := c;
        len := len + 1;
      } else if len > 0 {
        if len >= cells.Length { return r, false; }
        ghost var run := Run();
        cells[len] := '\0';
        assert cells[..len] == run;
        r := CmonIntArray.Add(pids, Val(cells[..len]));
        len := 0;
      }
    }
  }

  ghost predicate Tracks(run: string, found: Numbers, first: Numbers, done: string) {
    Fits("", done) && run == RunAfter("", done) && found == AddAll(first, Pids("", done))
  }

  lemma TrackStep(run: string, found: Numbers, first: Numbers, done: string, c: char, rest: string)
    requires Tracks(run, found, first, done)
    ensures AllDigits(run)
    ensures if Writes(run, c) ==> |run| < PID_BUFFER then
              Tracks(NextRun(run, c), AddAll(found, EmitPid(run, c)), first, done + [c])
            else !Fits("", done + [c] + rest)
  {
    hide EmitPid, Writes, AddAll;
    Step("", done, c);
    Concat("", done + [c], rest);
    AddAllConcat(first, Pids("", done), EmitPid(run, c));
  }

  /** `_ps_tree_get_pids_from_pipe(fd, pids)`: false when a write leaves a buffer, which is also
      what a failed read causes. */
  method GetPidsFromPipe(sock: Socket, pids: CmonIntArray?, ghost l: Layout) returns (r: CmonIntArray?, ok: bool)
    requires Live(sock.segs) && (pids != null ==> pids.Valid())
    modifies sock`segs, pids, if pids == null then {} else {pids.arr}
    ensures Live(sock.segs) && (r != null ==> r.Valid())
    ensures r != null && r != pids ==> fresh(r) && fresh(r.arr)
    ensures ok == (Fits("", Flatten(old(sock.segs))) && !sock.fails)
    ensures ok ==> Behind(r) == AddAll(old(Behind(pids)), Pids("", Flatten(old(sock.segs))))
    ensures l.Valid() && Flatten(old(sock.segs)) == l.Text() ==>
              && ok == (l.Short() && !sock.fails)
              && (ok ==> Behind(r) == AddAll(old(Behind(pids)), l.Numbers()))
  {
    hide Fits, Pids, AddAll, RunAfter, Tracks, Flatten;
    if l.Valid() { PidsOfLayout(l); }
    var buff := new char[READ_SIZE + 1];
    var digits := new PidBuffer();
    r := pids;
    ghost var stream := Flatten(sock.segs);
    ghost var first := Behind(pids);
    ghost var done := "";
    TrackStart(first);
    while true
      invariant Live(sock.segs) && digits.Valid() && (r != null ==> r.Valid())
      invariant r == pids || r == null || (fresh(r) && fresh(r.arr))
      invariant buff != digits.cells && fresh(digits) && fresh(digits.cells) && fresh(buff)
      invariant r != null ==> r.arr as object != digits.cells && r.arr as object != buff
      invariant done + Flatten(sock.segs) == stream
      invariant Tracks(digits.Run(), Behind(r), first, done)
      decreases |Flatten(sock.segs)|
    {
      var n := ReadChunk(sock, buff);
      if n < 0 { return r, false; }
      if n == 0 { break; }
      ghost var chunk := buff[..n];
      assert done + chunk + Flatten(sock.segs) == done + (chunk + Flatten(sock.segs));
      r, ok := FeedChunk(buff, n, digits, r, first, done, Flatten(sock.segs));
      if !ok { return; }
      done := done + chunk;
    }
    assert done + "" == done;
    TrackEnd(digits.Run(), Behind(r), first, done);
    ok := true;
  }

  /** One read of the pipe, terminated in the buffer. */
  method ReadChunk(sock: Socket, buff: array<char>) returns (n: int)
    requires Live(sock.segs) && buff.Length == READ_SIZE + 1
    modifies sock`segs, buff
    ensures Live(sock.segs) && n <= READ_SIZE
    ensures n < 0 <==> old(sock.segs) == [] && sock.fails
    ensures n <= 0 ==> old(sock.segs) == [] && Flatten(old(sock.segs)) == ""
    ensures n > 0 ==> buff[..n] + Flatten(sock.segs) == Flatten(old(sock.segs))
  {
    n := sock.Read(buff, 0, READ_SIZE);
    if n > 0 {
      ghost var chunk := buff[..n];
      buff[n] := '\0';
      assert buff[..n] == chunk;
    }
  }

  lemma TrackStart(first: Numbers)
    ensures Tracks("", first, first, "")
  {
  }

  lemma TrackEnd(run: string, found: Numbers, first: Numbers, done: string)
    requires Tracks(run, found, first, done)
    ensures Fits("", done) && found == AddAll(first, Pids("", done))
  {
  }

  /** The character loop over the `n` bytes of one read. */
  method FeedChunk(buff: array<char>, n: nat, digits: PidBuffer, pids: CmonIntArray?,
                   ghost first: Numbers, ghost before: string, ghost after: string)
    returns (r: CmonIntArray?, ok: bool)
    requires n <= buff.Length && digits.Valid() && buff != digits.cells
    requires pids != null ==> pids.Valid() && pids.arr as object != digits.cells && pids.arr as object != buff
    requires Tracks(digits.Run(), Behind(pids), first, before)
    modifies digits`len, digits.cells, pids, if pids == null then {} else {pids.arr}
    ensures digits.Valid() && (r != null ==> r.Valid() && (r == pids || (fresh(r) && fresh(r.arr))))
    ensures buff[..n] == old(buff[..n])
    ensures if ok then Tracks(digits.Run(), Behind(r), first, before + buff[..n])
            else !Fits("", before + buff[..n] + after)
  {
    hide EmitPid, Writes, AddAll, Tracks, Fits, Pids, RunAfter;
    r, ok := pids, true;
    assert before + buff[..0] == before;
    for i := 0 to n
      invariant ok && digits.Valid() && buff[..n] == old(buff[..n])
      invariant r != null ==> r.Valid() && (r == pids || (fresh(r) && fresh(r.arr)))
      invariant r != null ==> r.arr as object != digits.cells && r.arr as object != buff
      invariant Tracks(digits.Run(), Behind(r), first, before + buff[..i])
    {
      var c := buff[i];
      ghost var done := before + buff[..i];
      TrackStep(digits.Run(), Behind(r), first, done, c, buff[i + 1..n] + after);
      assert done + [c] == before + buff[..i + 1];
      assert done + [c] + (buff[i + 1..n] + after) == before + buff[..n] + after;
      r, ok := digits.Feed(c, r);
      if !ok { return; }
    }
  }

  /** The signals that the kernel is asked to send. */
  class Kernel {
    var signalled: seq<int>

    constructor ()
      ensures signalled == []
    {
      signalled := [];
    }

    /** `kill(pid, SIGTERM)`; its failure is only logged. */
    method Kill(pid: int)
      modifies this
      ensures signalled == old(signalled) + [pid]
    {
      signalled := signalled + [pid];
    }
  }

  function Reverse(s: seq<int>): (r: seq<int>)
    ensures |r| == |s| && forall i :: 0 <= i < |s| ==> r[i] == s[|s| - 1 - i]
  {
    if s == [] then [] else Reverse(s[1..]) + [s[0]]
  }

  /** `process_kill_subtree(pids)` */
  method KillSubtree(pids: CmonIntArray?, kernel: Kernel) returns (rc: int)
    requires pids != null ==> pids.Valid()
    modifies kernel
    ensures pids == null || pids.Items() == [] ==> rc == 1 && kernel.signalled == old(kernel.signalled)
    ensures pids != null && pids.Items() != [] ==>
              rc == 0 && kernel.signalled == old(kernel.signalled) + Reverse(pids.Items())
  {
    if pids == null { return 1; }
    if pids.len == 0 { return 1; }
    ghost var items := pids.Items();
    var i := pids.len - 1;
    while i >= 0
      invariant -1 <= i < pids.len && pids.Items() == items
      invariant kernel.signalled == old(kernel.signalled) + Reverse(items)[..|items| - 1 - i]
    {
      assert Reverse(items)[|items| - 1 - i] == items[i];
      kernel.Kill(pids.arr[i]);
      i := i - 1;
    }
    assert Reverse(items)[..|items|] == Reverse(items);
    rc := 0;
  }
}

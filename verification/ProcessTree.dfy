/** Process trees: which ones pstree's text carries to the signals, and in what order the
    signals go (src/lib/ps_tree/ps_tree.c, src/lib/process/process.c). */
module ProcessTree {
  import opened Net
  import opened Decimal
  import opened IntArray
  import opened PsTree

  /** A process as pstree prints it: some text, the pid in parentheses, its children, some text. */
  datatype Tree = Node(before: string, pid: nat, kids: seq<Tree>, after: string)

  function Render(t: Tree): string
    decreases t, 1
  {
    t.before + ("(" + Dec(t.pid) + ")") + RenderAll(t.kids) + t.after
  }

  function RenderAll(ts: seq<Tree>): string
    decreases ts, 0
  {
    if ts == [] then "" else Render(ts[0]) + RenderAll(ts[1..])
  }

  /** The whole output ends with a newline. */
  function Output(t: Tree): string { Render(t) + "\n" }

  function Preorder(t: Tree): seq<int>
    decreases t, 1
  {
    [t.pid] + PreorderAll(t.kids)
  }

  function PreorderAll(ts: seq<Tree>): seq<int>
    decreases ts, 0
  {
    if ts == [] then [] else Preorder(ts[0]) + PreorderAll(ts[1..])
  }

  /** Every pid takes at most nine digits. */
  predicate SmallPids(t: Tree)
    decreases t, 1
  {
    t.pid < 1_000_000_000 && SmallPidsAll(t.kids)
  }

  predicate SmallPidsAll(ts: seq<Tree>)
    decreases ts, 0
  {
    ts == [] || (SmallPids(ts[0]) && SmallPidsAll(ts[1..]))
  }

  predicate NoDigit(s: string) { forall i :: 0 <= i < |s| ==> !IsDigit(s[i]) }

  /** No process name, and no other text around the pids, has a digit. */
  predicate DigitFree(t: Tree)
    decreases t, 1
  {
    NoDigit(t.before) && NoDigit(t.after) && DigitFreeAll(t.kids)
  }

  predicate DigitFreeAll(ts: seq<Tree>)
    decreases ts, 0
  {
    ts == [] || (DigitFree(ts[0]) && DigitFreeAll(ts[1..]))
  }

  /** The text leaves the extractor with no pending digits and has given these pids. */
  ghost predicate Gives(text: string, pids: seq<int>) {
    Fits("", text) && RunAfter("", text) == "" && Pids("", text) == pids
  }

  lemma GivesConcat(a: string, pa: seq<int>, b: string, pb: seq<int>)
    requires Gives(a, pa) && Gives(b, pb)
    ensures Gives(a + b, pa + pb)
  {
    hide Fits, RunAfter, Pids;
    Concat("", a, b);
  }

  lemma {:induction false} GivesNothing(s: string)
    requires NoDigit(s)
    ensures Gives(s, [])
  {
    if s != "" {
      assert s[1..] == s[1..];
      GivesNothing(s[1..]);
      assert EmitPid("", s[0]) + Pids("", s[1..]) == Pids("", s);
    }
  }

  /** A pid in parentheses is extracted as itself. */
  lemma GivesPid(pid: nat)
    requires pid < 1_000_000_000
    ensures Gives("(" + Dec(pid) + ")", [pid])
  {
    var d := Dec(pid);
    DecShort(pid);
    GivesNothing("(");
    assert "" + d == d;
    DigitsRead("", d);
    Concat("", "(", d);
    Step("", "(" + d, ')');
    assert [] + [pid] == [pid];
  }

  lemma {:induction false} RenderGives(t: Tree)
    requires SmallPids(t) && DigitFree(t)
    ensures Gives(Render(t), Preorder(t))
    decreases t, 1
  {
    hide Gives, RenderAll, PreorderAll, Dec;
    GivesNothing(t.before);
    GivesPid(t.pid);
    RenderAllGives(t.kids);
    GivesNothing(t.after);
    var pid := "(" + Dec(t.pid) + ")";
    GivesConcat(t.before, [], pid, [t.pid as int]);
    GivesConcat(t.before + pid, [] + [t.pid as int], RenderAll(t.kids), PreorderAll(t.kids));
    GivesConcat(t.before + pid + RenderAll(t.kids), [] + [t.pid as int] + PreorderAll(t.kids), t.after, []);
    assert [] + [t.pid as int] + PreorderAll(t.kids) + [] == Preorder(t);
  }

  lemma {:induction false} RenderAllGives(ts: seq<Tree>)
    requires SmallPidsAll(ts) && DigitFreeAll(ts)
    ensures Gives(RenderAll(ts), PreorderAll(ts))
    decreases ts, 0
  {
    if ts != [] {
      RenderGives(ts[0]);
      RenderAllGives(ts[1..]);
      GivesConcat(Render(ts[0]), Preorder(ts[0]), RenderAll(ts[1..]), PreorderAll(ts[1..]));
    }
  }

  /** Digit runs met so far: those extracted, and the pending one. */
  function Runs(run: string, text: string): nat
    requires AllDigits(run)
  {
    |Pids(run, text)| + if RunAfter(run, text) != "" then 1 else 0
  }

  /** From pending digits `run`, the text holds at least `n` runs of its own, one more when it is
      `dirty` and nothing was pending; a text that is not dirty leaves nothing pending. */
  ghost predicate MeetsFrom(run: string, text: string, n: nat, dirty: bool)
    requires AllDigits(run)
  {
    && Runs(run, text) >= (if run != "" then 1 else 0) + n + (if run == "" && dirty then 1 else 0)
    && (!dirty && run == "" ==> RunAfter(run, text) == "")
  }

  ghost predicate Meets(text: string, n: nat, dirty: bool) {
    forall run: string {:trigger MeetsFrom(run, text, n, dirty)} :: AllDigits(run) ==> MeetsFrom(run, text, n, dirty)
  }

  lemma MeetsConcat(a: string, na: nat, da: bool, b: string, nb: nat, db: bool)
    requires Meets(a, na, da) && Meets(b, nb, db)
    ensures Meets(a + b, na + nb, da || db)
  {
    forall run: string | AllDigits(run) ensures MeetsFrom(run, a + b, na + nb, da || db) {
      assert MeetsFrom(run, a, na, da) && MeetsFrom(RunAfter(run, a), b, nb, db);
      MeetsFromConcat(run, a, na, da, b, nb, db);
    }
  }

  lemma MeetsFromConcat(run: string, a: string, na: nat, da: bool, b: string, nb: nat, db: bool)
    requires AllDigits(run) && MeetsFrom(run, a, na, da) && MeetsFrom(RunAfter(run, a), b, nb, db)
    ensures MeetsFrom(run, a + b, na + nb, da || db)
  {
    hide Pids, RunAfter;
    Concat(run, a, b);
    assert |Pids(run, a + b)| == |Pids(run, a)| + |Pids(RunAfter(run, a), b)|;
  }

  lemma {:induction false} MeetsText(run: string, s: string)
    requires AllDigits(run)
    ensures Runs(run, s) >= (if run != "" then 1 else 0) + (if run == "" && !NoDigit(s) then 1 else 0)
    ensures NoDigit(s) && run == "" ==> RunAfter(run, s) == ""
    decreases |s|
  {
    if s != "" {
      var c, rest := s[0], s[1..];
      MeetsText(NextRun(run, c), rest);
      assert |Pids(run, s)| == |EmitPid(run, c)| + |Pids(NextRun(run, c), rest)|;
      assert !IsDigit(c) && NoDigit(rest) ==> NoDigit(s) by {
        assert forall i :: 0 < i < |s| ==> s[i] == rest[i - 1];
      }
    }
  }

  lemma MeetsDecoration(s: string)
    ensures Meets(s, 0, !NoDigit(s))
  {
    forall run: string | AllDigits(run) ensures MeetsFrom(run, s, 0, !NoDigit(s)) {
      MeetsText(run, s);
    }
  }

  /** A pid in parentheses is a run of its own, whatever came before it. */
  lemma MeetsPid(pid: nat)
    ensures Meets("(" + Dec(pid) + ")", 1, false)
  {
    var d := Dec(pid);
    forall run: string | AllDigits(run) ensures MeetsFrom(run, "(" + d + ")", 1, false) {
      Step(run, "", '(');
      assert "" + "(" == "(" && RunAfter(run, "") == run && Pids(run, "") == [];
      Concat(run, "(", d);
      DigitsRead("", d);
      Step(run, "(" + d, ')');
    }
  }

  lemma {:induction false} RenderMeets(t: Tree)
    ensures Meets(Render(t), |Preorder(t)|, !DigitFree(t))
    decreases t, 1
  {
    hide Meets, RenderAll, PreorderAll, NoDigit, DigitFreeAll, Dec;
    MeetsDecoration(t.before);
    MeetsPid(t.pid);
    RenderAllMeets(t.kids);
    MeetsDecoration(t.after);
    var pid := "(" + Dec(t.pid) + ")";
    MeetsConcat(t.before, 0, !NoDigit(t.before), pid, 1, false);
    MeetsConcat(t.before + pid, 1, !NoDigit(t.before), RenderAll(t.kids), |PreorderAll(t.kids)|, !DigitFreeAll(t.kids));
    MeetsConcat(t.before + pid + RenderAll(t.kids), 1 + |PreorderAll(t.kids)|,
                !NoDigit(t.before) || !DigitFreeAll(t.kids), t.after, 0, !NoDigit(t.after));
  }

  lemma {:induction false} RenderAllMeets(ts: seq<Tree>)
    ensures Meets(RenderAll(ts), |PreorderAll(ts)|, !DigitFreeAll(ts))
    decreases ts, 0
  {
    hide Meets, Render, Preorder, DigitFree;
    if ts == [] {
      MeetsDecoration("");
      assert NoDigit("");
    } else {
      RenderMeets(ts[0]);
      RenderAllMeets(ts[1..]);
      MeetsConcat(Render(ts[0]), |Preorder(ts[0])|, !DigitFree(ts[0]), RenderAll(ts[1..]), |PreorderAll(ts[1..])|,
                  !DigitFreeAll(ts[1..]));
    }
  }

  /** A text whose pids all fit the extractor's buffer. */
  lemma {:induction false} RenderFits(run: string, t: Tree)
    requires AllDigits(run) && Fits(run, Render(t))
    ensures SmallPids(t)
    decreases t, 1
  {
    hide Fits, RunAfter, Pids, RenderAll, Dec;
    var pid, kids := "(" + Dec(t.pid) + ")", RenderAll(t.kids);
    Concat(run, t.before + pid + kids, t.after);
    Concat(run, t.before + pid, kids);
    Concat(run, t.before, pid);
    PidFits(RunAfter(run, t.before), t.pid);
    RenderAllFits(RunAfter(run, t.before + pid), t.kids);
  }

  lemma {:induction false} RenderAllFits(run: string, ts: seq<Tree>)
    requires AllDigits(run) && Fits(run, RenderAll(ts))
    ensures SmallPidsAll(ts)
    decreases ts, 0
  {
    hide Fits, RunAfter, Pids;
    if ts != [] {
      Concat(run, Render(ts[0]), RenderAll(ts[1..]));
      RenderFits(run, ts[0]);
      RenderAllFits(RunAfter(run, Render(ts[0])), ts[1..]);
    }
  }

  lemma PidFits(run: string, pid: nat)
    requires AllDigits(run) && Fits(run, "(" + Dec(pid) + ")")
    ensures pid < 1_000_000_000
  {
    var d := Dec(pid);
    Step(run, "", '(');
    assert "" + "(" == "(" && RunAfter(run, "") == run;
    Concat(run, "(", d);
    DigitsRead("", d);
    Step(run, "(" + d, ')');
    ValShort(d);
  }

  /** Extraction, exactly.  From the printed tree the extractor gets the pids of the tree, in
      preorder and within its buffer, if and only if no process name or other text has a digit
      and no pid has more than nine; a name such as `python3` is itself taken for a pid. */
  lemma ExtractionIff(t: Tree)
    ensures Fits("", Output(t)) && Pids("", Output(t)) == Preorder(t) <==> DigitFree(t) && SmallPids(t)
  {
    hide Render, Preorder, DigitFree, SmallPids;
    if DigitFree(t) && SmallPids(t) {
      RenderGives(t);
      GivesNothing("\n");
      GivesConcat(Render(t), Preorder(t), "\n", []);
      assert Preorder(t) + [] == Preorder(t);
    }
    Step("", Render(t), '\n');
    if Fits("", Output(t)) {
      RenderFits("", t);
    }
    if !DigitFree(t) {
      RenderMeets(t);
      assert MeetsFrom("", Render(t), |Preorder(t)|, true);
      assert |Pids("", Output(t))| >= |Preorder(t)| + 1;
    }
  }

  /** `s` is a node of `t`, with all that is below it. */
  ghost predicate Subtree(s: Tree, t: Tree)
    decreases t
  {
    s == t || exists i :: 0 <= i < |t.kids| && Subtree(s, t.kids[i])
  }

  /** `part` lies in `whole` at position `at`. */
  predicate BlockAt(part: seq<int>, whole: seq<int>, at: nat) {
    at + |part| <= |whole| && whole[at..at + |part|] == part
  }

  lemma {:induction false} KidBlock(ts: seq<Tree>, i: nat) returns (at: nat)
    requires i < |ts|
    ensures BlockAt(Preorder(ts[i]), PreorderAll(ts), at)
  {
    if i == 0 {
      at := 0;
      assert PreorderAll(ts)[0..|Preorder(ts[0])|] == Preorder(ts[0]);
    } else {
      var a := KidBlock(ts[1..], i - 1);
      at := |Preorder(ts[0])| + a;
      assert PreorderAll(ts)[at..at + |Preorder(ts[i])|] == PreorderAll(ts[1..])[a..a + |Preorder(ts[i])|];
    }
  }

  lemma BlockTrans(a: seq<int>, b: seq<int>, i: nat, c: seq<int>, j: nat)
    requires BlockAt(a, b, i) && BlockAt(b, c, j)
    ensures BlockAt(a, c, j + i)
  {
    forall k | 0 <= k < |a| ensures c[j + i + k] == a[k] {
      BlockElement(a, b, i, k);
      BlockElement(b, c, j, i + k);
    }
    assert c[j + i..j + i + |a|] == a;
  }

  /** The pids of a subtree are one block of the preorder, its root first. */
  lemma {:induction false} SubtreeBlock(s: Tree, t: Tree) returns (at: nat)
    requires Subtree(s, t)
    ensures BlockAt(Preorder(s), Preorder(t), at)
    decreases t
  {
    if s == t {
      at := 0;
      assert Preorder(t)[0..|Preorder(t)|] == Preorder(t);
    } else {
      var i :| 0 <= i < |t.kids| && Subtree(s, t.kids[i]);
      var a := SubtreeBlock(s, t.kids[i]);
      var k := KidBlock(t.kids, i);
      BlockTrans(Preorder(s), Preorder(t.kids[i]), a, PreorderAll(t.kids), k);
      assert Preorder(t)[1..] == PreorderAll(t.kids);
      at := 1 + (k + a);
      assert Preorder(t)[at..at + |Preorder(s)|] == PreorderAll(t.kids)[k + a..k + a + |Preorder(s)|];
    }
  }

  predicate Distinct(s: seq<int>) { forall i, j :: 0 <= i < j < |s| ==> s[i] != s[j] }

  /** The order of the sweep, for a tree of distinct pids: every process of the tree is
      signalled exactly once, each after all the processes below it, and the root last. */
  lemma KillOrder(t: Tree)
    requires Distinct(Preorder(t))
    ensures Distinct(Reverse(Preorder(t)))
    ensures forall p :: p in Preorder(t) <==> p in Reverse(Preorder(t))
    ensures Reverse(Preorder(t))[|Preorder(t)| - 1] == t.pid
    ensures forall s: Tree, i: nat, j: nat ::
              Subtree(s, t) && i < |Preorder(t)| && j < |Preorder(t)| &&
              Reverse(Preorder(t))[i] in Preorder(s)[1..] && Reverse(Preorder(t))[j] == s.pid
              ==> i < j
  {
    var order := Preorder(t);
    var sweep := Reverse(order);
    ReverseMembers(order);
    forall s: Tree, i: nat, j: nat |
      Subtree(s, t) && i < |order| && j < |order| && sweep[i] in Preorder(s)[1..] && sweep[j] == s.pid
      ensures i < j
    {
      BelowFirst(t, s, i, j);
    }
  }

  lemma ReverseMembers(s: seq<int>)
    ensures forall p :: p in s <==> p in Reverse(s)
    ensures Distinct(s) ==> Distinct(Reverse(s))
  {
  }

  lemma BelowFirst(t: Tree, s: Tree, i: nat, j: nat)
    requires Distinct(Preorder(t)) && Subtree(s, t) && i < |Preorder(t)| && j < |Preorder(t)|
    requires Reverse(Preorder(t))[i] in Preorder(s)[1..] && Reverse(Preorder(t))[j] == s.pid
    ensures i < j
  {
    hide BlockAt, Subtree, Preorder, Reverse;
    var order, part := Preorder(t), Preorder(s);
    RootFirst(s);
    var at := SubtreeBlock(s, t);
    var k :| 0 <= k < |part[1..]| && part[1..][k] == Reverse(order)[i];
    BlockElement(part, order, at, 1 + k);
    BlockElement(part, order, at, 0);
    assert order[at + 1 + k] == order[|order| - 1 - i] && order[at] == order[|order| - 1 - j];
  }

  lemma RootFirst(t: Tree)
    ensures Preorder(t) != [] && Preorder(t)[0] == t.pid
  {
  }

  lemma BlockElement(part: seq<int>, whole: seq<int>, at: nat, k: nat)
    requires BlockAt(part, whole, at) && k < |part|
    ensures at + k < |whole| && whole[at + k] == part[k]
  {
  }

  /** The restart path: an array for 50 pids, the pids from the pipe, the sweep.  However the
      text of a tree of at most 5000 processes is split into reads, it signals exactly the sweep
      of that tree if and only if the text around the pids has no digit and no pid more than nine. */
  method StopSubtree(sock: Socket, kernel: Kernel, ghost t: Tree, ghost l: Layout) returns (ok: bool)
    requires Live(sock.segs)
    modifies sock`segs, kernel
    ensures ok == (Fits("", Flatten(old(sock.segs))) && !sock.fails)
    ensures ok ==> var pids := Pids("", Flatten(old(sock.segs)));
                   kernel.signalled == old(kernel.signalled) + if |pids| > 5000 then [] else Reverse(pids)
    ensures l.Valid() && Flatten(old(sock.segs)) == l.Text() ==>
              && ok == (l.Short() && !sock.fails)
              && (ok ==> kernel.signalled ==
                         old(kernel.signalled) + if |l.runs| > 5000 then [] else Reverse(l.Numbers()))
    ensures Flatten(old(sock.segs)) == Output(t) && !sock.fails && |Preorder(t)| <= 5000 ==>
              (ok && kernel.signalled == old(kernel.signalled) + Reverse(Preorder(t))
               <==> DigitFree(t) && SmallPids(t))
  {
    hide Fits, Pids, Preorder, DigitFree, SmallPids, Render, RunText, IsDigit, Reverse, Val;
    var arr := CmonIntArray.New(50);
    ghost var pids := Pids("", Flatten(sock.segs));
    assert [] + pids == pids;
    if l.Valid() { PidsOfLayout(l); }
    arr, ok := GetPidsFromPipe(sock, arr, l);
    if ok {
      var _ := KillSubtree(arr, kernel);
    }
    if Flatten(old(sock.segs)) == Output(t) {
      ExtractionIff(t);
      RootFirst(t);
      SameSweep(old(kernel.signalled), pids, Preorder(t));
    }
  }

  lemma SameSweep(first: seq<int>, a: seq<int>, b: seq<int>)
    ensures first + Reverse(a) == first + Reverse(b) <==> a == b
    ensures b != [] ==> first + [] != first + Reverse(b)
  {
    assert (first + Reverse(a))[|first|..] == Reverse(a) && (first + Reverse(b))[|first|..] == Reverse(b);
    assert |first + Reverse(b)| == |first| + |b|;
    if Reverse(a) == Reverse(b) {
      forall i | 0 <= i < |a| ensures a[i] == b[i] {
        assert Reverse(a)[|a| - 1 - i] == a[i] && Reverse(b)[|b| - 1 - i] == b[i];
      }
      assert a == b;
    }
  }
}

/** What config_parser computes, said without its state machine: each list gets exactly the
    strings written in a block under its key (src/lib/config/config.c, config_parser). */
module ConfigProjection {
  import opened Tokenizer
  import opened Config
  import opened Wrappers

  /** Token `j` is a recognised key followed by a colon. */
  predicate Heading(ts: seq<Token>, j: nat) {
    j + 1 < |ts| && ts[j].Text? && ts[j + 1] == DoubleColon && KeyOf(ts[j].word).Some?
  }

  ghost predicate NoneClosed(ts: seq<Token>, j: nat, i: nat) {
    i <= |ts| && forall m :: j < m < i ==> ts[m] != CloseCurly
  }

  /** Token `i` comes after a `{` with no `}` since. */
  ghost predicate InBlockAt(ts: seq<Token>, i: nat) {
    exists j: nat :: j < i <= |ts| && ts[j] == OpenCurly && NoneClosed(ts, j, i)
  }

  /** The latest recognised key before token `i`, with no `}` since it, is `key`. */
  ghost predicate Names(ts: seq<Token>, i: nat, key: Key) {
    exists j: nat ::
      && j < i <= |ts| && Heading(ts, j) && KeyOf(ts[j].word) == Some(key)
      && NoneClosed(ts, j, i) && forall m: nat :: j < m < i ==> !Heading(ts, m)
  }

  /** Token `i` is a string written in a block under `key`. */
  ghost predicate Under(ts: seq<Token>, i: nat, key: Key) {
    i < |ts| && IsString(ts[i]) && InBlockAt(ts, i) && Names(ts, i, key)
  }

  /** The strings that the first `n` tokens give to the list of `key`, in order. */
  ghost function Selected(ts: seq<Token>, n: nat, key: Key, cwd: string): seq<string>
    requires n <= |ts|
  {
    if n == 0 then []
    else
      Selected(ts, n - 1, key, cwd) +
      if Under(ts, n - 1, key) && ts[n - 1].Str? && !(key == WatchExtensions && ts[n - 1].word == "")
      then [if key == WatchExtensions then ts[n - 1].word else cwd + ts[n - 1].word] else []
  }

  /** Token `i` makes the parser fault: a word with no token after it, or, under a key, a string
      whose value was never set or whose parts are too long to be counted. */
  ghost predicate Bad(ts: seq<Token>, i: nat, cwd: string) {
    i < |ts| &&
    ((ts[i].Text? && i + 1 == |ts|) ||
     exists key :: Under(ts, i, key) &&
                   (ts[i].UnsetStr? || |ts[i].word| > 257 || (key != WatchExtensions && |cwd| > 257)))
  }

  lemma InBlockStep(ts: seq<Token>, n: nat)
    requires n < |ts|
    ensures InBlockAt(ts, n + 1) <==> ts[n] == OpenCurly || (ts[n] != CloseCurly && InBlockAt(ts, n))
  {
  }

  lemma NamesStep(ts: seq<Token>, n: nat, key: Key)
    requires n < |ts|
    ensures Names(ts, n + 1, key) <==>
            if Heading(ts, n) then KeyOf(ts[n].word) == Some(key)
            else ts[n] != CloseCurly && Names(ts, n, key)
  {
  }

  lemma AppendedCut(list: seq<string>, s: string)
    ensures Appended(Cut(list), s) == Cut(list + [s])
  {
  }

  /** The parser's variables, exactly: it is in a block just when a `{` is open, its target is
      the latest recognised key since the last `}`, and `conf_id` agrees with the target. */
  ghost predicate Tracked(ts: seq<Token>, n: nat, s: State) {
    && (s.inBlock <==> InBlockAt(ts, n))
    && (forall key :: s.target == Some(key) <==> Names(ts, n, key))
    && (s.target.Some? ==> s.id == s.target)
  }

  lemma TrackedStep(ts: seq<Token>, n: nat, s: State, cwd: string)
    requires n < |ts| && Tracked(ts, n, s) && ParseToken(ts, n, s, cwd).Fine?
    ensures Tracked(ts, n + 1, ParseToken(ts, n, s, cwd).s)
  {
    InBlockStep(ts, n);
    forall key ensures ParseToken(ts, n, s, cwd).s.target == Some(key) <==> Names(ts, n + 1, key) {
      NamesStep(ts, n, key);
    }
  }

  lemma {:induction false} AlwaysTracked(ts: seq<Token>, n: nat, lists: Lists, cwd: string)
    requires n <= |ts| && ParseUpTo(ts, n, lists, cwd).Fine?
    ensures Tracked(ts, n, ParseUpTo(ts, n, lists, cwd).s)
  {
    if n == 0 {
      assert !InBlockAt(ts, 0) && forall key :: !Names(ts, 0, key);
    } else {
      hide Tracked, ParseToken;
      AlwaysTracked(ts, n - 1, lists, cwd);
      TrackedStep(ts, n - 1, ParseUpTo(ts, n - 1, lists, cwd).s, cwd);
    }
  }

  lemma UnderIs(ts: seq<Token>, n: nat, s: State, key: Key)
    requires n < |ts| && Tracked(ts, n, s)
    ensures Under(ts, n, key) <==> IsString(ts[n]) && s.inBlock && s.target == Some(key)
    ensures s.target.Some? ==> s.id == s.target
  {
  }

  /** One token faults the parser just when it is bad. */
  lemma FaultStep(ts: seq<Token>, n: nat, s: State, cwd: string)
    requires n < |ts| && Tracked(ts, n, s)
    ensures ParseToken(ts, n, s, cwd) == Fault <==> Bad(ts, n, cwd)
  {
    forall key ensures Under(ts, n, key) <==> IsString(ts[n]) && s.inBlock && s.target == Some(key) {
      UnderIs(ts, n, s, key);
    }
    UnderIs(ts, n, s, WatchExtensions);
    hide Under, Tracked;
    if s.inBlock && s.target.Some? && IsString(ts[n]) {
      assert Under(ts, n, s.target.value);
    }
  }

  lemma SelectedNext(ts: seq<Token>, n: nat, key: Key, cwd: string)
    requires n < |ts|
    ensures Selected(ts, n + 1, key, cwd) ==
            Selected(ts, n, key, cwd) +
            if Under(ts, n, key) && ts[n].Str? && !(key == WatchExtensions && ts[n].word == "")
            then [if key == WatchExtensions then ts[n].word else cwd + ts[n].word] else []
  {
    hide Under;
  }

  /** One token's contribution to a list. */
  lemma ListStep(ts: seq<Token>, n: nat, s: State, cwd: string, key: Key, start: seq<string>)
    requires n < |ts| && Tracked(ts, n, s) && ParseToken(ts, n, s, cwd).Fine?
    requires s.lists.Of(key) == Cut(start + Selected(ts, n, key, cwd))
    ensures ParseToken(ts, n, s, cwd).s.lists.Of(key) == Cut(start + Selected(ts, n + 1, key, cwd))
  {
    UnderIs(ts, n, s, key);
    SelectedNext(ts, n, key, cwd);
    hide Under, Tracked, Selected;
    var sel := Selected(ts, n, key, cwd);
    if Under(ts, n, key) && ts[n].Str? {
      var e := Entry(key, cwd, ts[n].word);
      AppendedCut(start + sel, e);
      assert start + (sel + [e]) == start + sel + [e];
    }
    assert sel + [] == sel;
  }

  /** The parser faults, on any token list, exactly when some token is bad. */
  lemma {:induction false} FaultsExactly(ts: seq<Token>, n: nat, lists: Lists, cwd: string)
    requires n <= |ts|
    ensures ParseUpTo(ts, n, lists, cwd) == Fault <==> exists i: nat :: i < n && Bad(ts, i, cwd)
  {
    if n > 0 {
      hide Bad, ParseToken;
      FaultsExactly(ts, n - 1, lists, cwd);
      if ParseUpTo(ts, n - 1, lists, cwd).Fine? {
        AlwaysTracked(ts, n - 1, lists, cwd);
        FaultStep(ts, n - 1, ParseUpTo(ts, n - 1, lists, cwd).s, cwd);
      }
    }
  }

  /** The projection.  On every token list that does not fault, each list ends as its old
      content, then the strings selected for its key, in order, cut at fifty. */
  lemma {:induction false} ParseIsProjection(ts: seq<Token>, n: nat, lists: Lists, cwd: string, key: Key)
    requires n <= |ts| && |lists.Of(key)| <= ARRAY_SIZE && ParseUpTo(ts, n, lists, cwd).Fine?
    ensures ParseUpTo(ts, n, lists, cwd).s.lists.Of(key) == Cut(lists.Of(key) + Selected(ts, n, key, cwd))
  {
    hide ParseToken;
    if n == 0 {
      assert lists.Of(key) + [] == lists.Of(key);
    } else {
      ParseIsProjection(ts, n - 1, lists, cwd, key);
      AlwaysTracked(ts, n - 1, lists, cwd);
      ListStep(ts, n - 1, ParseUpTo(ts, n - 1, lists, cwd).s, cwd, key, lists.Of(key));
    }
  }
}

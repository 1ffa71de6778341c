/** When the configuration round trip holds, exactly (src/lib/parser/tokenizer.c,
    config_tokenizer; src/lib/config/config.c, config_parser). */
module ConfigRoundTripIff {
  import opened Tokenizer
  import opened Config
  import opened ConfigProjection
  import opened ConfigRoundTrip

  /** Whatever the text, the string tokens of a run that stays in the lexeme buffer hold valid
      names only. */
  lemma {:induction false} StringsAreValid(k: Ctl, text: string, i: nat)
    requires AllLexeme(k.lexeme) && |k.lexeme| <= MAX_LEXEME && Fits(k, text)
    requires i < |Out(k, text)| && Out(k, text)[i].Str?
    ensures ValidName(Out(k, text)[i].word)
    decreases |text|
  {
    var c, n := text[0], Next(k, text[0]);
    if i >= |Emit(k, c)| {
      StringsAreValid(n, text[1..], i - |Emit(k, c)|);
    }
  }

  /** Every string in a list comes from a string token under its key. */
  lemma {:induction false} SelectedFrom(ts: seq<Token>, n: nat, key: Key, cwd: string, j: nat) returns (i: nat)
    requires n <= |ts| && j < |Selected(ts, n, key, cwd)|
    ensures i < n && Under(ts, i, key) && ts[i].Str? && Selected(ts, n, key, cwd)[j] == Entry(key, cwd, ts[i].word)
  {
    hide Under;
    if j < |Selected(ts, n - 1, key, cwd)| {
      i := SelectedFrom(ts, n - 1, key, cwd, j);
    } else {
      i := n - 1;
    }
  }

  /** A name read from any text is valid, and the working directory is short enough if it is
      put in front. */
  lemma NameCameBack(text: string, l: Lists, cwd: string, key: Key, j: nat)
    requires ReadsAs(text, l, cwd) && j < |l.Of(key)|
    ensures ValidName(l.Of(key)[j]) && (key != WatchExtensions ==> |cwd| <= MAX_COUNTED)
  {
    hide Fits, Out, Under, Bad, ValidName, Selected, Parse;
    var ts := Capped(Out(START, text));
    ListCameBack(text, l, cwd, key);
    EntryAt(key, cwd, l.Of(key), j);
    var i := SelectedFrom(ts, |ts|, key, cwd, j);
    assert Entry(key, cwd, l.Of(key)[j]) == Entry(key, cwd, ts[i].word);
    EntryInjective(key, cwd, l.Of(key)[j], ts[i].word);
    StringsAreValid(START, text, i);
    NotBad(ts, i, key, cwd);
  }

  lemma EntryInjective(key: Key, cwd: string, a: string, b: string)
    requires Entry(key, cwd, a) == Entry(key, cwd, b)
    ensures a == b
  {
    assert (cwd + a)[|cwd|..] == a && (cwd + b)[|cwd|..] == b;
  }

  lemma NotBad(ts: seq<Token>, i: nat, key: Key, cwd: string)
    requires Under(ts, i, key) && ts[i].Str? && !Bad(ts, i, cwd)
    ensures Countable(key, cwd, ts[i].word)
  {
  }

  lemma ListCameBack(text: string, l: Lists, cwd: string, key: Key)
    requires ReadsAs(text, l, cwd)
    ensures var ts := Capped(Out(START, text));
            && Entries(key, cwd, l.Of(key)) == Cut(Selected(ts, |ts|, key, cwd))
            && |l.Of(key)| <= ARRAY_SIZE && |l.Of(key)| <= |Selected(ts, |ts|, key, cwd)|
            && forall i: nat :: i < |ts| ==> !Bad(ts, i, cwd)
  {
    hide Fits, Out, Bad, Selected, Loaded;
    var ts := Capped(Out(START, text));
    LoadedIff(Parse(ts, EMPTY, cwd).s.lists, l, cwd);
    ParseIsProjection(ts, |ts|, EMPTY, cwd, key);
    FaultsExactly(ts, |ts|, EMPTY, cwd);
    assert [] + Selected(ts, |ts|, key, cwd) == Selected(ts, |ts|, key, cwd);
  }

  /** What one token may add to a list. */
  lemma SelectedStep(ts: seq<Token>, n: nat, key: Key, cwd: string)
    requires n < |ts|
    ensures |Selected(ts, n + 1, key, cwd)| <=
            |Selected(ts, n, key, cwd)| + if ts[n].Str? then Bit(Under(ts, n, key)) else 0
  {
    hide Under;
  }

  lemma NoneSelected(ts: seq<Token>, cwd: string)
    ensures forall key :: Selected(ts, 0, key, cwd) == []
  {
  }

  function Bit(b: bool): nat { if b then 1 else 0 }

  /** A token is under at most one key. */
  lemma UnderOne(ts: seq<Token>, n: nat, cwd: string)
    requires n < |ts| && ParseUpTo(ts, n, EMPTY, cwd).Fine?
    ensures Bit(Under(ts, n, WatchExtensions)) + Bit(Under(ts, n, IgnoreFiles)) + Bit(Under(ts, n, IgnoreDirs)) <= 1
  {
    hide Under, ParseUpTo, Tracked;
    AlwaysTracked(ts, n, EMPTY, cwd);
    UnderIs(ts, n, ParseUpTo(ts, n, EMPTY, cwd).s, WatchExtensions);
    UnderIs(ts, n, ParseUpTo(ts, n, EMPTY, cwd).s, IgnoreFiles);
    UnderIs(ts, n, ParseUpTo(ts, n, EMPTY, cwd).s, IgnoreDirs);
  }

  lemma StrCountStep(ts: seq<Token>, n: nat)
    requires n < |ts|
    ensures Count(ts[..n + 1], (t: Token) => t.Str?) == Count(ts[..n], (t: Token) => t.Str?) +
            if ts[n].Str? then 1 else 0
  {
    assert ts[..n + 1] == ts[..n] + [ts[n]];
    CountConcat(ts[..n], [ts[n]], (t: Token) => t.Str?);
    CountOne(ts[n]);
  }

  /** The three lists together get at most the string tokens. */
  lemma {:induction false} SelectedCount(ts: seq<Token>, n: nat, cwd: string)
    requires n <= |ts| && ParseUpTo(ts, n, EMPTY, cwd).Fine?
    ensures |Selected(ts, n, WatchExtensions, cwd)| + |Selected(ts, n, IgnoreFiles, cwd)| +
            |Selected(ts, n, IgnoreDirs, cwd)|
            <= Count(ts[..n], (t: Token) => t.Str?)
  {
    hide Under, ParseToken, Count, Selected, Bit;
    if n == 0 {
      NoneSelected(ts, cwd);
    } else {
      SelectedCount(ts, n - 1, cwd);
      UnderOne(ts, n - 1, cwd);
      SelectedStep(ts, n - 1, WatchExtensions, cwd);
      SelectedStep(ts, n - 1, IgnoreFiles, cwd);
      SelectedStep(ts, n - 1, IgnoreDirs, cwd);
      StrCountStep(ts, n - 1);
    }
  }

  lemma CountOne(t: Token)
    ensures Count([t], (t: Token) => t.Str?) == if t.Str? then 1 else 0
  {
  }

  lemma {:induction false} NameTokensCount(names: seq<string>)
    ensures Count(NameTokens(names), (t: Token) => t.Str?) == |names|
  {
    if names != [] {
      NameTokensCount(names[1..]);
      CountConcat([Str(names[0])], NameTokens(names[1..]), (t: Token) => t.Str?);
      CountOne(Str(names[0]));
    }
  }

  lemma SectionCount(key: Key, names: seq<string>)
    ensures Count(SectionTokens(key, names), (t: Token) => t.Str?) == |names|
  {
    hide KeyName;
    var k := Text(KeyName(key));
    NameTokensCount(names);
    CountOne(k);
    CountOne(DoubleColon);
    CountOne(OpenCurly);
    CountOne(CloseCurly);
    CountConcat([k], [DoubleColon], (t: Token) => t.Str?);
    CountConcat([k] + [DoubleColon], [OpenCurly], (t: Token) => t.Str?);
    assert [k] + [DoubleColon] + [OpenCurly] == [k, DoubleColon, OpenCurly];
    CountConcat([k, DoubleColon, OpenCurly], NameTokens(names), (t: Token) => t.Str?);
    CountConcat([k, DoubleColon, OpenCurly] + NameTokens(names), [CloseCurly], (t: Token) => t.Str?);
  }

  lemma AllCount(l: Lists)
    ensures Count(AllTokens(l), (t: Token) => t.Str?) == |l.exts| + |l.files| + |l.dirs|
  {
    hide SectionTokens;
    var a, b, c := SectionTokens(WatchExtensions, l.exts), SectionTokens(IgnoreFiles, l.files),
                   SectionTokens(IgnoreDirs, l.dirs);
    SectionCount(WatchExtensions, l.exts);
    SectionCount(IgnoreFiles, l.files);
    SectionCount(IgnoreDirs, l.dirs);
    CountConcat(a, b, (t: Token) => t.Str?);
    CountConcat(a + b, c, (t: Token) => t.Str?);
  }

  lemma {:induction false} CountPositive(ts: seq<Token>, i: nat)
    requires i < |ts| && ts[i].Str?
    ensures Count(ts, (t: Token) => t.Str?) > 0
  {
    if i > 0 { CountPositive(ts[1..], i - 1); }
  }

  /** When a name is not among the first hundred tokens, it is lost. */
  lemma NameCut(l: Lists, i: nat)
    requires MAX_TOKENS <= i < |AllTokens(l)| && AllTokens(l)[i].Str?
    ensures Count(Capped(AllTokens(l)), (t: Token) => t.Str?) < |l.exts| + |l.files| + |l.dirs|
  {
    hide AllTokens;
    var ts := AllTokens(l);
    AllCount(l);
    assert ts == ts[..MAX_TOKENS] + ts[MAX_TOKENS..];
    CountConcat(ts[..MAX_TOKENS], ts[MAX_TOKENS..], (t: Token) => t.Str?);
    CountPositive(ts[MAX_TOKENS..], i - MAX_TOKENS);
  }

  /** Too many tokens: a name is cut off, or the last key is left without its colon. */
  lemma NotKept(l: Lists) returns (i: nat)
    requires !TokensKept(l) && |l.exts| <= ARRAY_SIZE
    ensures i < |AllTokens(l)|
    ensures (i >= MAX_TOKENS && AllTokens(l)[i].Str?) || (i == MAX_TOKENS - 1 && AllTokens(l)[i].Text?)
  {
    AllLaid(l);
    hide AllTokens, KeyName;
    var n := |AllTokens(l)|;
    i := if l.dirs != [] then n - 2 else if n == MAX_TOKENS + 3 then n - 4 else n - 6;
    LastTokens(AllTokens(l), l, i);
  }

  lemma LastTokens(ts: seq<Token>, l: Lists, i: nat)
    requires Laid(ts, l) && |ts| == |l.exts| + |l.files| + |l.dirs| + 12 && i < |ts|
    ensures l.dirs != [] && i == |ts| - 2 ==> ts[i].Str?
    ensures l.dirs == [] && i == |ts| - 4 ==> ts[i].Text?
    ensures l.dirs == [] && l.files != [] && i == |ts| - 6 ==> ts[i].Str?
  {
    hide KeyName;
    if l.dirs != [] {
      assert ts[|l.exts| + |l.files| + 11 + (|l.dirs| - 1)] == Str(l.dirs[|l.dirs| - 1]);
    } else if l.files != [] {
      assert ts[|l.exts| + 7 + (|l.files| - 1)] == Str(l.files[|l.files| - 1]);
    }
  }

  /** The round trip, exactly: a configuration comes back if and only if every name is
      non-empty, shorter than the lexeme buffer and made of letters, digits, dots, underscores
      and slashes; no list has more than fifty names; the working directory has at most 257
      characters when some name is ignored; and the first hundred tokens have the last name and
      do not end with a word. */
  lemma RoundTripIff(l: Lists, cwd: string)
    ensures RoundTrips(l, cwd) <==> Carried(l, cwd)
  {
    hide RoundTrips, Carried;
    if Carried(l, cwd) {
      RoundTrip(l, cwd);
    }
    if RoundTrips(l, cwd) {
      Necessary(l, cwd);
    }
  }

  lemma Necessary(l: Lists, cwd: string)
    requires RoundTrips(l, cwd)
    ensures Carried(l, cwd)
  {
    hide ReadsAs, Loadable, AllTokens, TokensKept;
    forall key ensures Loadable(key, l.Of(key), cwd) {
      NamesNecessary(Print(l), l, cwd, key);
    }
    TokensNecessary(l, cwd);
  }

  /** Whatever text a configuration is read from, its names and its sizes are within the limits. */
  lemma NamesNecessary(text: string, l: Lists, cwd: string, key: Key)
    requires ReadsAs(text, l, cwd)
    ensures Loadable(key, l.Of(key), cwd)
  {
    hide ReadsAs, ValidName, Selected, Bad;
    ListCameBack(text, l, cwd, key);
    forall j | 0 <= j < |l.Of(key)|
      ensures ValidName(l.Of(key)[j]) && (key != WatchExtensions ==> |cwd| <= MAX_COUNTED)
    {
      NameCameBack(text, l, cwd, key, j);
    }
  }

  lemma TokensNecessary(l: Lists, cwd: string)
    requires RoundTrips(l, cwd) && forall key :: Loadable(key, l.Of(key), cwd)
    ensures TokensKept(l)
  {
    hide ReadsAs, Fits, Print, Out, Bad, Selected, AllTokens, TokensKept, Parse;
    forall key ensures ValidNames(l.Of(key)) { assert Loadable(key, l.Of(key), cwd); }
    YieldsAll(l);
    var ts := Capped(AllTokens(l));
    ListCameBack(Print(l), l, cwd, WatchExtensions);
    ListCameBack(Print(l), l, cwd, IgnoreFiles);
    ListCameBack(Print(l), l, cwd, IgnoreDirs);
    ParsesFine(l, cwd);
    CountAll(ts, cwd);
    if !TokensKept(l) {
      var i := NotKept(l);
      if i >= MAX_TOKENS {
        NameCut(l, i);
      } else {
        LoneWord(ts, i, cwd);
      }
    }
  }

  lemma ParsesFine(l: Lists, cwd: string)
    requires RoundTrips(l, cwd)
    ensures Parse(Capped(Out(START, Print(l))), EMPTY, cwd).Fine?
  {
  }

  lemma LoneWord(ts: seq<Token>, i: nat, cwd: string)
    requires i + 1 == |ts| && ts[i].Text?
    ensures Bad(ts, i, cwd)
  {
  }

  lemma CountAll(ts: seq<Token>, cwd: string)
    requires Parse(ts, EMPTY, cwd).Fine?
    ensures |Selected(ts, |ts|, WatchExtensions, cwd)| + |Selected(ts, |ts|, IgnoreFiles, cwd)| +
            |Selected(ts, |ts|, IgnoreDirs, cwd)|
            <= Count(ts, (t: Token) => t.Str?)
  {
    SelectedCount(ts, |ts|, cwd);
    assert ts[..|ts|] == ts;
  }
}

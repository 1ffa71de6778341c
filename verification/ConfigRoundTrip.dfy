/** Printing a configuration, tokenizing it and parsing it gives it back.  The format is that
    of the default configuration file (src/lib/config/config.h). */
module ConfigRoundTrip {
  import opened Tokenizer
  import opened Config
  import opened Wrappers

  const NONE: seq<Token> := []

  function Quoted(name: string): string { "\"" + name + "\"" }

  function PrintNames(names: seq<string>): string {
    if names == [] then ""
    else "  " + Quoted(names[0]) + (if |names| == 1 then "\n" else ",\n") + PrintNames(names[1..])
  }

  function PrintSection(key: Key, names: seq<string>): string {
    KeyName(key) + ": {\n" + PrintNames(names) + "}"
  }

  /** The file for three lists of names. */
  function Print(l: Lists): string {
    PrintSection(WatchExtensions, l.exts) + "\n\n" +
    PrintSection(IgnoreFiles, l.files) + "\n\n" +
    PrintSection(IgnoreDirs, l.dirs)
  }

  /** A name that the format can carry. */
  predicate ValidName(name: string) {
    name != "" && |name| < 100 && AllLexeme(name)
  }

  predicate AllLexeme(w: string) { forall i :: 0 <= i < |w| ==> IsLexeme(w[i]) }

  predicate ValidNames(names: seq<string>) { forall i :: 0 <= i < |names| ==> ValidName(names[i]) }

  function NameTokens(names: seq<string>): (ts: seq<Token>)
    ensures |ts| == |names| && forall i :: 0 <= i < |ts| ==> ts[i] == Str(names[i])
  {
    if names == [] then [] else [Str(names[0])] + NameTokens(names[1..])
  }

  function SectionTokens(key: Key, names: seq<string>): (ts: seq<Token>)
    ensures |ts| == |names| + 4
  {
    [Text(KeyName(key)), DoubleColon, OpenCurly] + NameTokens(names) + [CloseCurly]
  }

  function AllTokens(l: Lists): (ts: seq<Token>)
    ensures |ts| == 12 + |l.exts| + |l.files| + |l.dirs|
  {
    SectionTokens(WatchExtensions, l.exts) + SectionTokens(IgnoreFiles, l.files) + SectionTokens(IgnoreDirs, l.dirs)
  }

  /** The text takes the tokenizer from its start back to its start, and yields these tokens. */
  ghost predicate Yields(text: string, ts: seq<Token>) {
    Moves(START, text, START, ts)
  }

  ghost predicate Moves(k: Ctl, text: string, k': Ctl, ts: seq<Token>) {
    Fits(k, text) && After(k, text) == k' && Out(k, text) == ts
  }

  lemma MovesConcat(k: Ctl, a: string, m: Ctl, ta: seq<Token>, b: string, k': Ctl, tb: seq<Token>)
    requires Moves(k, a, m, ta) && Moves(m, b, k', tb)
    ensures Moves(k, a + b, k', ta + tb)
  {
    hide Fits, After, Out;
    Concat(k, a, b);
  }

  lemma MovesChar(k: Ctl, c: char)
    requires Writes(k, c) ==> |k.lexeme| < MAX_LEXEME
    ensures Moves(k, [c], Next(k, c), Emit(k, c))
  {
  }

  lemma MovesNothing(k: Ctl)
    ensures Moves(k, "", k, [])
  {
  }

  /** A word of lexeme characters is kept, and yields nothing yet. */
  lemma {:induction false} MovesWord(k: Ctl, w: string)
    requires AllLexeme(w) && |k.lexeme| + |w| <= MAX_LEXEME
    ensures Moves(k, w, Ctl(k.lexeme + w, k.quoted), [])
    decreases |w|
  {
    hide Moves;
    if w == "" {
      assert k.lexeme + "" == k.lexeme;
      MovesNothing(k);
    } else {
      var k' := Ctl(k.lexeme + [w[0]], k.quoted);
      MovesChar(k, w[0]);
      assert Next(k, w[0]) == k' && Emit(k, w[0]) == [];
      MovesWord(k', w[1..]);
      assert w == [w[0]] + w[1..] && k.lexeme + [w[0]] + w[1..] == k.lexeme + w;
      assert NONE + NONE == NONE;
      MovesConcat(k, [w[0]], k', [], w[1..], Ctl(k.lexeme + w, k.quoted), []);
    }
  }

  lemma YieldsConcat(a: string, ta: seq<Token>, b: string, tb: seq<Token>)
    requires Yields(a, ta) && Yields(b, tb)
    ensures Yields(a + b, ta + tb)
  {
    MovesConcat(START, a, START, ta, b, START, tb);
  }

  lemma YieldsBlank(a: string, ta: seq<Token>, blank: string)
    requires Yields(a, ta) && Yields(blank, NONE)
    ensures Yields(a + blank, ta) && Yields(blank + a, ta)
  {
    assert ta + NONE == ta && NONE + ta == ta;
    YieldsConcat(a, ta, blank, NONE);
    YieldsConcat(blank, NONE, a, ta);
  }

  lemma YieldsChar(c: char)
    requires !Writes(START, c) && Next(START, c) == START
    ensures Yields([c], Emit(START, c))
  {
    MovesChar(START, c);
  }

  lemma YieldsSpace()
    ensures Yields(" ", []) && Yields("\n", []) && Yields(",", []) && Yields("{", [OpenCurly]) &&
            Yields("}", [CloseCurly])
    ensures Yields("  ", []) && Yields("\n\n", []) && Yields(",\n", [])
  {
    hide Yields;
    YieldsChar(' ');
    YieldsChar('\n');
    YieldsChar(',');
    YieldsChar('{');
    YieldsChar('}');
    YieldsBlank(" ", [], " ");
    YieldsBlank("\n", [], "\n");
    YieldsBlank(",", [], "\n");
    assert " " + " " == "  " && "\n" + "\n" == "\n\n" && "," + "\n" == ",\n";
  }

  /** A name in quotes is one string token. */
  lemma YieldsName(name: string)
    requires ValidName(name)
    ensures Yields(Quoted(name), [Str(name)])
  {
    var open, full := Ctl("", true), Ctl(name, true);
    MovesChar(START, '"');
    assert "" + name == name;
    MovesWord(open, name);
    MovesConcat(START, "\"", open, [], name, full, []);
    MovesChar(full, '"');
    assert NONE + NONE == NONE && [] + [Str(name)] == [Str(name)];
    MovesConcat(START, "\"" + name, full, [], "\"", START, [Str(name)]);
  }

  /** A line of a section. */
  lemma YieldsLine(quoted: string, ts: seq<Token>, sep: string)
    requires Yields(quoted, ts) && sep in {"\n", ",\n"}
    ensures Yields("  " + quoted + sep, ts)
  {
    YieldsSpace();
    hide Yields;
    YieldsBlank(quoted, ts, "  ");
    YieldsBlank("  " + quoted, ts, sep);
  }

  lemma NamesUnfold(names: seq<string>)
    ensures names == [] ==> Yields(PrintNames(names), NameTokens(names))
    ensures names != [] ==>
              var sep := if |names| == 1 then "\n" else ",\n";
              && PrintNames(names) == "  " + Quoted(names[0]) + sep + PrintNames(names[1..])
              && NameTokens(names) == [Str(names[0])] + NameTokens(names[1..])
  {
  }

  lemma {:induction false} YieldsNames(names: seq<string>)
    requires ValidNames(names)
    ensures Yields(PrintNames(names), NameTokens(names))
  {
    hide Yields, PrintNames, NameTokens, ValidName, Quoted;
    NamesUnfold(names);
    if names != [] {
      var quoted := Quoted(names[0]);
      var sep := if |names| == 1 then "\n" else ",\n";
      YieldsName(names[0]);
      YieldsNames(names[1..]);
      YieldsLine(quoted, [Str(names[0])], sep);
      YieldsConcat("  " + quoted + sep, [Str(names[0])], PrintNames(names[1..]), NameTokens(names[1..]));
    }
  }

  lemma KeyNames(key: Key)
    ensures AllLexeme(KeyName(key)) && |KeyName(key)| < MAX_LEXEME
    ensures KeyName(key) != "" && WordToken(KeyName(key)) == Text(KeyName(key))
  {
    match key
    case WatchExtensions => assert IsAlpha(KeyName(key)[0]);
    case IgnoreFiles => assert IsAlpha(KeyName(key)[0]);
    case IgnoreDirs => assert IsAlpha(KeyName(key)[0]);
  }

  lemma YieldsKey(key: Key)
    ensures Yields(KeyName(key) + ":", [Text(KeyName(key)), DoubleColon])
  {
    var w := KeyName(key);
    KeyNames(key);
    hide KeyName, AllLexeme;
    var k := Ctl(w, false);
    assert "" + w == w;
    MovesWord(START, w);
    MovesChar(k, ':');
    assert Emit(k, ':') == [Text(w), DoubleColon] && [] + [Text(w), DoubleColon] == [Text(w), DoubleColon];
    MovesConcat(START, w, k, [], ":", START, [Text(w), DoubleColon]);
  }

  lemma YieldsSection(key: Key, names: seq<string>)
    requires ValidNames(names)
    ensures Yields(PrintSection(key, names), SectionTokens(key, names))
  {
    YieldsKey(key);
    YieldsNames(names);
    hide Yields, KeyName, PrintNames, NameTokens, ValidNames;
    YieldsBlock(KeyName(key), [Text(KeyName(key)), DoubleColon], PrintNames(names), NameTokens(names));
    assert [Text(KeyName(key)), DoubleColon] + [OpenCurly] == [Text(KeyName(key)), DoubleColon, OpenCurly];
  }

  lemma YieldsBlock(word: string, head: seq<Token>, body: string, inner: seq<Token>)
    requires Yields(word + ":", head) && Yields(body, inner)
    ensures Yields(word + ": {\n" + body + "}", head + [OpenCurly] + inner + [CloseCurly])
  {
    YieldsSpace();
    hide Yields;
    YieldsBlank(word + ":", head, " ");
    YieldsConcat(word + ":" + " ", head, "{", [OpenCurly]);
    YieldsBlank(word + ":" + " " + "{", head + [OpenCurly], "\n");
    assert word + ":" + " " + "{" + "\n" == word + ": {\n";
    YieldsConcat(word + ": {\n", head + [OpenCurly], body, inner);
    YieldsConcat(word + ": {\n" + body, head + [OpenCurly] + inner, "}", [CloseCurly]);
  }

  lemma YieldsThree(a: string, ta: seq<Token>, b: string, tb: seq<Token>, c: string, tc: seq<Token>)
    requires Yields(a, ta) && Yields(b, tb) && Yields(c, tc)
    ensures Yields(a + "\n\n" + b + "\n\n" + c, ta + tb + tc)
  {
    YieldsSpace();
    hide Yields;
    YieldsBlank(a, ta, "\n\n");
    YieldsConcat(a + "\n\n", ta, b, tb);
    YieldsBlank(a + "\n\n" + b, ta + tb, "\n\n");
    YieldsConcat(a + "\n\n" + b + "\n\n", ta + tb, c, tc);
  }

  /** Valid names print to exactly the expected tokens, however many. */
  lemma YieldsAll(l: Lists)
    requires forall key :: ValidNames(l.Of(key))
    ensures Yields(Print(l), AllTokens(l))
  {
    assert ValidNames(l.Of(WatchExtensions)) && ValidNames(l.Of(IgnoreFiles)) && ValidNames(l.Of(IgnoreDirs));
    YieldsSection(WatchExtensions, l.exts);
    YieldsSection(IgnoreFiles, l.files);
    YieldsSection(IgnoreDirs, l.dirs);
    hide Yields, PrintSection, SectionTokens;
    YieldsThree(PrintSection(WatchExtensions, l.exts), SectionTokens(WatchExtensions, l.exts),
                PrintSection(IgnoreFiles, l.files), SectionTokens(IgnoreFiles, l.files),
                PrintSection(IgnoreDirs, l.dirs), SectionTokens(IgnoreDirs, l.dirs));
  }

  /** What the parser puts in a list for these names. */
  function Entries(key: Key, cwd: string, names: seq<string>): (es: seq<string>)
    ensures |es| == |names|
  {
    if names == [] then []
    else Entries(key, cwd, names[..|names| - 1]) + [Entry(key, cwd, names[|names| - 1])]
  }

  function Expected(l: Lists, cwd: string): Lists {
    Lists(Entries(WatchExtensions, cwd, l.exts), Entries(IgnoreFiles, cwd, l.files), Entries(IgnoreDirs, cwd, l.dirs))
  }

  lemma {:induction false} EntryAt(key: Key, cwd: string, names: seq<string>, i: nat)
    requires i < |names|
    ensures Entries(key, cwd, names)[i] == Entry(key, cwd, names[i])
  {
    if i < |names| - 1 { EntryAt(key, cwd, names[..|names| - 1], i); }
  }

  /** The entries are the names with the prefix in front, in order. */
  ghost predicate Prefixed(entries: seq<string>, prefix: string, names: seq<string>) {
    |entries| == |names| && forall i :: 0 <= i < |names| ==> entries[i] == prefix + names[i]
  }

  /** The lists are those of `l`, the ignored names behind the working directory. */
  ghost predicate Loaded(lists: Lists, l: Lists, cwd: string) {
    lists.exts == l.exts && Prefixed(lists.files, cwd, l.files) && Prefixed(lists.dirs, cwd, l.dirs)
  }

  lemma LoadedIff(lists: Lists, l: Lists, cwd: string)
    ensures Loaded(lists, l, cwd) <==> lists == Expected(l, cwd)
  {
    forall key, i | 0 <= i < |l.Of(key)| ensures Expected(l, cwd).Of(key)[i] == Entry(key, cwd, l.Of(key)[i]) {
      EntryAt(key, cwd, l.Of(key), i);
    }
    assert forall i :: 0 <= i < |l.exts| ==> Expected(l, cwd).Of(WatchExtensions)[i] == l.exts[i];
    assert forall i :: 0 <= i < |l.files| ==> Expected(l, cwd).Of(IgnoreFiles)[i] == cwd + l.files[i];
    assert forall i :: 0 <= i < |l.dirs| ==> Expected(l, cwd).Of(IgnoreDirs)[i] == cwd + l.dirs[i];
  }

  const EMPTY: Lists := Lists([], [], [])

  ghost predicate Reaches(ts: seq<Token>, n: nat, cwd: string, s: State) {
    n <= |ts| && ParseUpTo(ts, n, EMPTY, cwd) == Fine(s)
  }

  lemma KeyParsed(ts: seq<Token>, at: nat, key: Key, s: State, cwd: string)
    requires Reaches(ts, at, cwd, s) && at + 2 <= |ts|
    requires ts[at] == Text(KeyName(key)) && ts[at + 1] == DoubleColon
    ensures Reaches(ts, at + 2, cwd, s.(target := Some(key), id := Some(key)))
  {
    hide KeyName, KeyOf;
    var s1 := s.(target := Some(key), id := Some(key));
    assert ParseToken(ts, at, s, cwd) == Fine(s1);
    assert Reaches(ts, at + 1, cwd, s1);
  }

  lemma HeadingParsed(ts: seq<Token>, at: nat, key: Key, s: State, cwd: string)
    requires Reaches(ts, at, cwd, s) && at + 3 <= |ts|
    requires ts[at] == Text(KeyName(key)) && ts[at + 1] == DoubleColon && ts[at + 2] == OpenCurly
    ensures Reaches(ts, at + 3, cwd, State(Some(key), Some(key), true, s.lists))
  {
    hide KeyName;
    KeyParsed(ts, at, key, s, cwd);
  }

  lemma NameParsed(ts: seq<Token>, at: nat, key: Key, name: string, s: State, cwd: string)
    requires Reaches(ts, at, cwd, s) && at < |ts| && ts[at] == Str(name)
    requires s.inBlock && s.target == Some(key) && s.id == Some(key) && ValidName(name)
    requires |s.lists.Of(key)| < ARRAY_SIZE && (key != WatchExtensions ==> |cwd| <= MAX_COUNTED)
    ensures Reaches(ts, at + 1, cwd, s.(lists := s.lists.With(key, s.lists.Of(key) + [Entry(key, cwd, name)])))
  {
  }

  /** The names can be printed, and their list and the working directory in front of them are
      within the limits. */
  predicate Loadable(key: Key, names: seq<string>, cwd: string) {
    ValidNames(names) && |names| <= 50 && (names != [] && key != WatchExtensions ==> |cwd| <= 257)
  }

  lemma {:induction false} NamesParsed(ts: seq<Token>, at: nat, key: Key, names: seq<string>, j: nat, l: Lists,
                                       cwd: string)
    requires Reaches(ts, at, cwd, State(Some(key), Some(key), true, l)) && l.Of(key) == []
    requires j <= |names| && at + |names| <= |ts| && Loadable(key, names, cwd)
    requires forall i :: 0 <= i < |names| ==> ts[at + i] == Str(names[i])
    ensures Reaches(ts, at + j, cwd, State(Some(key), Some(key), true, l.With(key, Entries(key, cwd, names[..j]))))
  {
    hide Reaches, ValidName, Entries, Entry;
    EntriesNext(key, cwd, names, j);
    if j == 0 {
      assert l.With(key, []) == l;
    } else {
      NamesParsed(ts, at, key, names, j - 1, l, cwd);
      var es := Entries(key, cwd, names[..j - 1]);
      assert ts[at + (j - 1)] == Str(names[j - 1]);
      NameParsed(ts, at + j - 1, key, names[j - 1], State(Some(key), Some(key), true, l.With(key, es)), cwd);
      WithTwice(l, key, es, es + [Entry(key, cwd, names[j - 1])]);
    }
  }

  lemma EntriesNext(key: Key, cwd: string, names: seq<string>, j: nat)
    requires j <= |names|
    ensures Entries(key, cwd, names[..j]) ==
            if j == 0 then [] else Entries(key, cwd, names[..j - 1]) + [Entry(key, cwd, names[j - 1])]
  {
    if j > 0 { assert names[..j][..j - 1] == names[..j - 1]; }
  }

  lemma WithTwice(l: Lists, key: Key, a: seq<string>, b: seq<string>)
    ensures l.With(key, a).With(key, b) == l.With(key, b) && l.With(key, a).Of(key) == a
  {
  }

  /** From `at` on, the token list has the section of these names, up to its closing brace. */
  predicate SectionAt(ts: seq<Token>, at: nat, key: Key, names: seq<string>) {
    && at + 3 + |names| <= |ts|
    && ts[at] == Text(KeyName(key)) && ts[at + 1] == DoubleColon && ts[at + 2] == OpenCurly
    && forall i :: 0 <= i < |names| ==> ts[at + 3 + i] == Str(names[i])
  }

  predicate ClosedAt(ts: seq<Token>, n: nat) { n < |ts| && ts[n] == CloseCurly }

  /** Inside the block of a key, and after it. */
  function Inside(key: Key, lists: Lists): State { State(Some(key), Some(key), true, lists) }
  function Outside(id: Option<Key>, lists: Lists): State { State(None, id, false, lists) }

  /** A section fills its list. */
  lemma SectionParsed(ts: seq<Token>, at: nat, key: Key, names: seq<string>, id: Option<Key>, lists: Lists, cwd: string)
    requires Reaches(ts, at, cwd, Outside(id, lists)) && lists.Of(key) == [] && SectionAt(ts, at, key, names)
    requires Loadable(key, names, cwd)
    ensures Reaches(ts, at + 3 + |names|, cwd, Inside(key, lists.With(key, Entries(key, cwd, names))))
  {
    hide KeyName, Reaches, Entries, ValidNames, KeyOf;
    HeadingParsed(ts, at, key, Outside(id, lists), cwd);
    NamesParsed(ts, at + 3, key, names, |names|, lists, cwd);
    assert names[..|names|] == names;
  }

  /** A section and its closing brace. */
  lemma BlockParsed(ts: seq<Token>, at: nat, key: Key, names: seq<string>, id: Option<Key>, lists: Lists, cwd: string)
    requires Reaches(ts, at, cwd, Outside(id, lists)) && lists.Of(key) == [] && SectionAt(ts, at, key, names)
    requires Loadable(key, names, cwd)
    requires ClosedAt(ts, at + 3 + |names|)
    ensures Reaches(ts, at + 4 + |names|, cwd, Outside(Some(key), lists.With(key, Entries(key, cwd, names))))
  {
    hide Reaches, Entries, Loadable, SectionAt;
    SectionParsed(ts, at, key, names, id, lists, cwd);
    CloseParsed(ts, at + 3 + |names|, key, lists.With(key, Entries(key, cwd, names)), cwd);
  }

  lemma CloseParsed(ts: seq<Token>, n: nat, key: Key, lists: Lists, cwd: string)
    requires Reaches(ts, n, cwd, Inside(key, lists)) && ClosedAt(ts, n)
    ensures Reaches(ts, n + 1, cwd, Outside(Some(key), lists))
  {
  }

  /** The first hundred tokens have the last name, and do not end with a word: the closing
      brace of the last section may be cut off, and when that section is empty all of it but a
      lone key. */
  predicate TokensKept(l: Lists) {
    var n := |AllTokens(l)|;
    n <= 101 || (l.dirs == [] && n <= 105 && n != 103)
  }

  /** The format, the lists and the token list can carry the configuration. */
  ghost predicate Carried(l: Lists, cwd: string) {
    (forall key :: Loadable(key, l.Of(key), cwd)) && TokensKept(l)
  }

  /** Tokenizing and parsing the text gives the three lists. */
  ghost predicate ReadsAs(text: string, l: Lists, cwd: string) {
    && Fits(START, text)
    && var p := Parse(Capped(Out(START, text)), EMPTY, cwd);
       p.Fine? && Loaded(p.s.lists, l, cwd)
  }

  /** Printing, tokenizing and parsing gives back the three lists. */
  ghost predicate RoundTrips(l: Lists, cwd: string) { ReadsAs(Print(l), l, cwd) }

  /** The first section, and the second without its closing brace. */
  predicate LaidFirst(ts: seq<Token>, l: Lists) {
    && SectionAt(ts, 0, WatchExtensions, l.exts) && ClosedAt(ts, 3 + |l.exts|)
    && SectionAt(ts, |l.exts| + 4, IgnoreFiles, l.files)
  }

  /** The three sections, the last one possibly without its closing brace. */
  predicate Laid(ts: seq<Token>, l: Lists) {
    var at := |l.exts| + |l.files| + 8;
    && LaidFirst(ts, l) && ClosedAt(ts, at - 1) && SectionAt(ts, at, IgnoreDirs, l.dirs)
    && (|ts| == at + 3 + |l.dirs| || (|ts| == at + 4 + |l.dirs| && ClosedAt(ts, at + 3 + |l.dirs|)))
  }

  lemma SectionWithin(before: seq<Token>, key: Key, names: seq<string>, after: seq<Token>, ts: seq<Token>)
    requires ts == before + SectionTokens(key, names) + after
    ensures SectionAt(ts, |before|, key, names) && ClosedAt(ts, |before| + 3 + |names|)
  {
  }

  lemma AllLaid(l: Lists)
    ensures Laid(AllTokens(l), l)
  {
    var a, b, c := SectionTokens(WatchExtensions, l.exts), SectionTokens(IgnoreFiles, l.files),
                   SectionTokens(IgnoreDirs, l.dirs);
    hide SectionTokens, SectionAt, ClosedAt;
    var ts := AllTokens(l);
    assert ts == [] + a + (b + c) && ts == a + b + c + [];
    SectionWithin([], WatchExtensions, l.exts, b + c, ts);
    SectionWithin(a, IgnoreFiles, l.files, c, ts);
    SectionWithin(a + b, IgnoreDirs, l.dirs, [], ts);
  }

  function FirstList(l: Lists, cwd: string): Lists { EMPTY.(exts := Entries(WatchExtensions, cwd, l.exts)) }

  lemma OneParsed(ts: seq<Token>, l: Lists, cwd: string)
    requires Carried(l, cwd) && LaidFirst(ts, l)
    ensures Reaches(ts, |l.exts| + 4, cwd, Outside(Some(WatchExtensions), FirstList(l, cwd)))
  {
    hide Reaches, Carried, Entries, SectionAt, Loadable, ClosedAt;
    CarriedParts(l, cwd);
    StartReached(ts, cwd);
    BlockParsed(ts, 0, WatchExtensions, l.exts, None, EMPTY, cwd);
  }

  lemma TwoParsed(ts: seq<Token>, l: Lists, cwd: string)
    requires Carried(l, cwd) && LaidFirst(ts, l) && ClosedAt(ts, |l.exts| + |l.files| + 7)
    ensures Reaches(ts, |l.exts| + |l.files| + 8, cwd, Outside(Some(IgnoreFiles), Expected(l, cwd).(dirs := [])))
  {
    hide Reaches, Carried, Entries, SectionAt, Loadable, ClosedAt;
    CarriedParts(l, cwd);
    OneParsed(ts, l, cwd);
    BlockParsed(ts, |l.exts| + 4, IgnoreFiles, l.files, Some(WatchExtensions), FirstList(l, cwd), cwd);
  }

  /** The last section, at the end of the list, with or without its closing brace. */
  lemma LastParsed(ts: seq<Token>, at: nat, key: Key, names: seq<string>, id: Option<Key>, lists: Lists, cwd: string)
    returns (s: State)
    requires Reaches(ts, at, cwd, Outside(id, lists)) && lists.Of(key) == [] && SectionAt(ts, at, key, names)
    requires Loadable(key, names, cwd)
    requires |ts| == at + 3 + |names| || (|ts| == at + 4 + |names| && ClosedAt(ts, at + 3 + |names|))
    ensures Reaches(ts, |ts|, cwd, s) && s.lists == lists.With(key, Entries(key, cwd, names))
  {
    hide Reaches, Entries, SectionAt, Loadable, ClosedAt;
    if |ts| == at + 3 + |names| {
      SectionParsed(ts, at, key, names, id, lists, cwd);
      s := Inside(key, lists.With(key, Entries(key, cwd, names)));
    } else {
      BlockParsed(ts, at, key, names, id, lists, cwd);
      s := Outside(Some(key), lists.With(key, Entries(key, cwd, names)));
    }
  }

  /** After the three sections, with or without the last closing brace, the lists are full. */
  lemma LaidParsed(ts: seq<Token>, l: Lists, cwd: string)
    requires Carried(l, cwd) && Laid(ts, l)
    ensures var p := Parse(ts, EMPTY, cwd); p.Fine? && p.s.lists == Expected(l, cwd)
  {
    hide Reaches, Carried, Entries, SectionAt, Loadable, ClosedAt, LaidFirst, AllTokens, Parse;
    CarriedParts(l, cwd);
    TwoParsed(ts, l, cwd);
    var s := LastParsed(ts, |l.exts| + |l.files| + 8, IgnoreDirs, l.dirs, Some(IgnoreFiles),
                        Expected(l, cwd).(dirs := []), cwd);
    ReachedEnd(ts, cwd, s);
  }

  lemma CarriedParts(l: Lists, cwd: string)
    requires Carried(l, cwd)
    ensures Loadable(WatchExtensions, l.exts, cwd) && Loadable(IgnoreFiles, l.files, cwd) &&
            Loadable(IgnoreDirs, l.dirs, cwd)
    ensures ValidNames(l.exts) && ValidNames(l.files) && ValidNames(l.dirs)
  {
    hide ValidNames;
    assert Loadable(WatchExtensions, l.Of(WatchExtensions), cwd) && Loadable(IgnoreFiles, l.Of(IgnoreFiles), cwd)
           && Loadable(IgnoreDirs, l.Of(IgnoreDirs), cwd);
  }

  lemma StartReached(ts: seq<Token>, cwd: string)
    ensures Reaches(ts, 0, cwd, Outside(None, EMPTY))
  {
  }

  lemma ReachedEnd(ts: seq<Token>, cwd: string, s: State)
    requires Reaches(ts, |ts|, cwd, s)
    ensures Parse(ts, EMPTY, cwd) == Fine(s)
  {
  }

  /** The tokens that are left when an empty last section is cut off: the second section, with
      or without its closing brace, and perhaps the last key and its colon. */
  predicate CutShort(ts: seq<Token>, l: Lists) {
    var at := |l.exts| + |l.files| + 8;
    && l.dirs == [] && LaidFirst(ts, l)
    && (|ts| == at - 1 || (ClosedAt(ts, at - 1) &&
        (|ts| == at || (|ts| == at + 2 && ts[at] == Text(KeyName(IgnoreDirs)) && ts[at + 1] == DoubleColon))))
  }

  lemma CutShortParsed(ts: seq<Token>, l: Lists, cwd: string)
    requires Carried(l, cwd) && CutShort(ts, l)
    ensures var p := Parse(ts, EMPTY, cwd); p.Fine? && p.s.lists == Expected(l, cwd)
  {
    hide Reaches, Carried, Entries, SectionAt, Loadable, ClosedAt, LaidFirst, Parse, KeyName;
    CarriedParts(l, cwd);
    var at := |l.exts| + |l.files| + 8;
    var all := Expected(l, cwd).(dirs := []);
    assert Expected(l, cwd) == all by { assert Entries(IgnoreDirs, cwd, []) == []; }
    if |ts| == at + 2 {
      TwoParsed(ts, l, cwd);
      KeyParsed(ts, at, IgnoreDirs, Outside(Some(IgnoreFiles), all), cwd);
      ReachedEnd(ts, cwd, State(Some(IgnoreDirs), Some(IgnoreDirs), false, all));
    } else {
      OneParsed(ts, l, cwd);
      SecondAt(ts, l);
      var s := LastParsed(ts, |l.exts| + 4, IgnoreFiles, l.files, Some(WatchExtensions), FirstList(l, cwd), cwd);
      ReachedEnd(ts, cwd, s);
    }
  }

  lemma SecondAt(ts: seq<Token>, l: Lists)
    requires LaidFirst(ts, l)
    ensures SectionAt(ts, |l.exts| + 4, IgnoreFiles, l.files)
  {
  }

  /** The first hundred of the tokens of a configuration that can be carried. */
  lemma KeptLaid(l: Lists)
    requires TokensKept(l)
    ensures Laid(Capped(AllTokens(l)), l) || CutShort(Capped(AllTokens(l)), l)
  {
    AllLaid(l);
    hide AllTokens, KeyName;
  }

  /** The round trip: every configuration that the format, the token list and the lists can
      carry comes back, in order; ignore entries behind the working directory. */
  lemma RoundTrip(l: Lists, cwd: string)
    requires Carried(l, cwd)
    ensures RoundTrips(l, cwd)
  {
    hide AllTokens, Laid, CutShort, Parse, Expected, Print, Loadable, Loaded;
    CarriedParts(l, cwd);
    LoadedIff(Expected(l, cwd), l, cwd);
    forall key ensures ValidNames(l.Of(key)) { }
    YieldsAll(l);
    KeptLaid(l);
    if Laid(Capped(AllTokens(l)), l) {
      LaidParsed(Capped(AllTokens(l)), l, cwd);
    } else {
      CutShortParsed(Capped(AllTokens(l)), l, cwd);
    }
  }
}

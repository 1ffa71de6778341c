/** Reading the configuration file (src/lib/config/config.c, config_init): the pieces of the
    file, the tokenizer and the parser in one. */
module ConfigRead {
  import opened Tokenizer
  import opened Config
  import opened ConfigRoundTrip
  import opened ConfigRoundTripIff

  lemma NulFreeConcat(a: string, b: string)
    requires NulFree(a) && NulFree(b)
    ensures NulFree(a + b)
  {
  }

  lemma {:induction false} NamesNulFree(names: seq<string>)
    requires ValidNames(names)
    ensures NulFree(PrintNames(names))
  {
    if names != [] {
      assert NulFree(names[0]) by { assert ValidName(names[0]); }
      NamesNulFree(names[1..]);
      ShortNulFree();
      var sep := if |names| == 1 then "\n" else ",\n";
      NulFreeConcat("\"", names[0]);
      NulFreeConcat("\"" + names[0], "\"");
      NulFreeConcat("  ", Quoted(names[0]));
      NulFreeConcat("  " + Quoted(names[0]), sep);
      NulFreeConcat("  " + Quoted(names[0]) + sep, PrintNames(names[1..]));
    }
  }

  lemma ShortNulFree()
    ensures NulFree("  ") && NulFree("\"") && NulFree("\n") && NulFree(",\n") && NulFree("\n\n")
    ensures NulFree(": {\n") && NulFree("}")
  {
  }

  lemma SectionNulFree(key: Key, names: seq<string>)
    requires ValidNames(names)
    ensures NulFree(PrintSection(key, names))
  {
    KeyNames(key);
    NamesNulFree(names);
    ShortNulFree();
    hide PrintNames, KeyName, NulFree;
    assert NulFree(KeyName(key)) by { LexemeNulFree(KeyName(key)); }
    NulFreeConcat(KeyName(key), ": {\n");
    NulFreeConcat(KeyName(key) + ": {\n", PrintNames(names));
    NulFreeConcat(KeyName(key) + ": {\n" + PrintNames(names), "}");
  }

  lemma LexemeNulFree(w: string)
    requires AllLexeme(w)
    ensures NulFree(w)
  {
  }

  lemma PrintNulFree(l: Lists)
    requires forall key :: ValidNames(l.Of(key))
    ensures NulFree(Print(l))
  {
    assert ValidNames(l.Of(WatchExtensions)) && ValidNames(l.Of(IgnoreFiles)) && ValidNames(l.Of(IgnoreDirs));
    SectionNulFree(WatchExtensions, l.exts);
    SectionNulFree(IgnoreFiles, l.files);
    SectionNulFree(IgnoreDirs, l.dirs);
    ShortNulFree();
    hide PrintSection, NulFree;
    var a, b, c := PrintSection(WatchExtensions, l.exts), PrintSection(IgnoreFiles, l.files),
                   PrintSection(IgnoreDirs, l.dirs);
    NulFreeConcat(a, "\n\n");
    NulFreeConcat(a + "\n\n", b);
    NulFreeConcat(a + "\n\n" + b, "\n\n");
    NulFreeConcat(a + "\n\n" + b + "\n\n", c);
  }

  /** Read through fgets, a printed configuration gives its lists exactly when it can be
      carried, whatever characters its names have. */
  lemma FileReadsIff(l: Lists, cwd: string)
    ensures ReadsAs(Seen(FgetsPieces(Print(l))), l, cwd) <==> Carried(l, cwd)
  {
    hide ReadsAs, Print, ValidNames, AllTokens, TokensKept;
    var text := Seen(FgetsPieces(Print(l)));
    if forall key :: ValidNames(l.Of(key)) {
      PrintNulFree(l);
      PiecesDoNotMatter(FgetsPieces(Print(l)));
      RoundTripIff(l, cwd);
    } else {
      var key :| !ValidNames(l.Of(key));
      if ReadsAs(text, l, cwd) {
        NamesNecessary(text, l, cwd, key);
      }
      assert !Loadable(key, l.Of(key), cwd);
    }
  }

  /** The part of `config_init` that reads `file`: false when the tokenizer or the parser
      leaves its memory.  A file printed for `l` fills an empty configuration with exactly the
      lists of `l`, the ignored names behind the working directory, if and only if `l` can be
      carried. */
  method ReadConfig(file: string, conf: CmonConfig, ghost l: Lists) returns (ok: bool)
    requires conf.Valid()
    modifies conf.exts, conf.files, conf.dirs, conf.exts.arr, conf.files.arr, conf.dirs.arr
    ensures conf.Valid()
    ensures var text := Seen(FgetsPieces(file));
            var p := Parse(Capped(Out(START, text)), old(conf.Contents()), conf.cwd);
            ok == (Fits(START, text) && p.Fine?) && (ok ==> conf.Contents() == p.s.lists)
    ensures file == Print(l) && old(conf.Contents()) == EMPTY ==>
              (ok && Loaded(conf.Contents(), l, conf.cwd) <==> Carried(l, conf.cwd))
  {
    hide Fits, Out, Parse, Print, Loaded, Carried, Seen, FgetsPieces;
    if file == Print(l) {
      FileReadsIff(l, conf.cwd);
    }
    var arr := new TokenArr();
    ghost var ts := Out(START, Seen(FgetsPieces(file)));
    assert [] + ts == ts;
    ok := ConfigTokenizer(arr, FgetsPieces(file));
    if ok {
      ok := conf.ConfigParser(arr);
    }
  }
}

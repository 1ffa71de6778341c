/** The configuration file that the program writes when there is none
    (src/lib/config/config.h, DEFAULT_CONFIG). */
module ConfigDefault {
  import opened Tokenizer
  import opened Config
  import opened ConfigRoundTrip
  import opened ConfigRoundTripIff

  const EXTS: string := "  \"html\",\n" + "  \"css\"\n"
  const FILES: string := "  \".gitignore\",\n" + "  \"c000mand1.go\"\n"
  const DIRS: string := "  \".git\",\n" + ("  \"build\",\n" + ("  \"node_modules\",\n" + "  \"si/super/com\"\n"))

  const DEFAULT_CONFIG: string :=
    "WATCH_FILE_EXT_NAMES" + ": {\n" + EXTS + "}" + "\n\n" +
    ("IGNORE_FILES" + ": {\n" + FILES + "}") + "\n\n" +
    ("IGNORE_DIRS" + ": {\n" + DIRS + "}")

  const DEFAULT_LISTS: Lists :=
    Lists(["html", "css"], [".gitignore", "c000mand1.go"], [".git", "build", "node_modules", "si/super/com"])

  lemma Line(name: string, rest: seq<string>, line: string)
    requires line == if rest == [] then "  \"" + name + "\"\n" else "  \"" + name + "\",\n"
    ensures PrintNames([name] + rest) == line + PrintNames(rest)
  {
  }

  lemma TwoLines(a: string, b: string, la: string, lb: string)
    requires la == "  \"" + a + "\",\n" && lb == "  \"" + b + "\"\n"
    ensures PrintNames([a, b]) == la + lb
  {
    Line(b, [], lb);
    Line(a, [b], la);
    assert [a] + [b] == [a, b] && [b] + [] == [b];
    assert PrintNames([]) == "" && lb + "" == lb;
  }

  lemma FourLines(a: string, b: string, c: string, d: string, la: string, lb: string, lc: string, ld: string)
    requires la == "  \"" + a + "\",\n" && lb == "  \"" + b + "\",\n" && lc == "  \"" + c + "\",\n" &&
             ld == "  \"" + d + "\"\n"
    ensures PrintNames([a, b, c, d]) == la + (lb + (lc + ld))
  {
    TwoLines(c, d, lc, ld);
    Line(b, [c, d], lb);
    Line(a, [b, c, d], la);
    assert [b] + [c, d] == [b, c, d] && [a] + [b, c, d] == [a, b, c, d];
  }

  /** The default file is what the printer writes for the default lists. */
  lemma DefaultPrinted()
    ensures Print(DEFAULT_LISTS) == DEFAULT_CONFIG
  {
    hide PrintNames;
    TwoLines("html", "css", "  \"html\",\n", "  \"css\"\n");
    TwoLines(".gitignore", "c000mand1.go", "  \".gitignore\",\n", "  \"c000mand1.go\"\n");
    FourLines(".git", "build", "node_modules", "si/super/com",
              "  \".git\",\n", "  \"build\",\n", "  \"node_modules\",\n", "  \"si/super/com\"\n");
  }

  /** Reading the default file gives the default lists, exactly in the directories whose path
      can be counted. */
  lemma DefaultRoundTrips(cwd: string)
    ensures Print(DEFAULT_LISTS) == DEFAULT_CONFIG
    ensures RoundTrips(DEFAULT_LISTS, cwd) <==> |cwd| <= 257
    ensures |cwd| <= 257 ==>
              var p := Parse(Capped(Out(START, DEFAULT_CONFIG)), EMPTY, cwd);
              p.Fine? &&
              p.s.lists == Lists(["html", "css"], [cwd + ".gitignore", cwd + "c000mand1.go"],
                                 [cwd + ".git", cwd + "build", cwd + "node_modules", cwd + "si/super/com"])
  {
    hide Print, RoundTrips, ValidNames;
    DefaultPrinted();
    forall key ensures ValidNames(DEFAULT_LISTS.Of(key)) {
      DefaultValid(key);
    }
    assert !Loadable(IgnoreDirs, DEFAULT_LISTS.Of(IgnoreDirs), cwd) <==> |cwd| > MAX_COUNTED;
    RoundTripIff(DEFAULT_LISTS, cwd);
    if |cwd| <= 257 { DefaultLoaded(cwd); }
  }

  lemma DefaultLoaded(cwd: string)
    requires RoundTrips(DEFAULT_LISTS, cwd)
    ensures var p := Parse(Capped(Out(START, Print(DEFAULT_LISTS))), EMPTY, cwd);
            p.Fine? &&
            p.s.lists == Lists(["html", "css"], [cwd + ".gitignore", cwd + "c000mand1.go"],
                               [cwd + ".git", cwd + "build", cwd + "node_modules", cwd + "si/super/com"])
  {
    hide Fits, Print, Parse, Out;
  }

  lemma DefaultValid(key: Key)
    ensures ValidNames(DEFAULT_LISTS.Of(key))
  {
    match key
    case WatchExtensions => assert ValidName("html") && ValidName("css");
    case IgnoreFiles => assert ValidName(".gitignore") && ValidName("c000mand1.go");
    case IgnoreDirs =>
      assert ValidName(".git") && ValidName("build") && ValidName("node_modules") && ValidName("si/super/com");
  }
}

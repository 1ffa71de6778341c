/** The configuration parser (src/lib/config/config.c, config_parser and _get_token;
    src/lib/utils/cmon_string_array.c). */
module Config {
  import opened Tokenizer
  import opened Wrappers

  const ARRAY_SIZE: nat := 50

  /** The longest string whose length `_char_arr_len` counts; a longer one counts as 0, and the
      copy then overflows its allocation. */
  const MAX_COUNTED: nat := 257

  /** The configuration entries, and the lists they fill. */
  datatype Key = WatchExtensions | IgnoreFiles | IgnoreDirs

  datatype Lists = Lists(exts: seq<string>, files: seq<string>, dirs: seq<string>) {
    function Of(key: Key): seq<string> {
      match key
      case WatchExtensions => exts
      case IgnoreFiles => files
      case IgnoreDirs => dirs
    }

    function With(key: Key, list: seq<string>): Lists {
      match key
      case WatchExtensions => this.(exts := list)
      case IgnoreFiles => this.(files := list)
      case IgnoreDirs => this.(dirs := list)
    }
  }

  function KeyOf(word: string): Option<Key> {
    if word == "WATCH_FILE_EXT_NAMES" then Some(WatchExtensions)
    else if word == "IGNORE_FILES" then Some(IgnoreFiles)
    else if word == "IGNORE_DIRS" then Some(IgnoreDirs)
    else None
  }

  function KeyName(key: Key): (word: string)
    ensures KeyOf(word) == Some(key)
  {
    match key
    case WatchExtensions => "WATCH_FILE_EXT_NAMES"
    case IgnoreFiles => "IGNORE_FILES"
    case IgnoreDirs => "IGNORE_DIRS"
  }

  /** A list holds at most fifty strings; more are dropped. */
  function Appended(list: seq<string>, s: string): seq<string> {
    if |list| + 1 > ARRAY_SIZE then list else list + [s]
  }

  function Cut(list: seq<string>): seq<string> {
    if |list| <= ARRAY_SIZE then list else list[..ARRAY_SIZE]
  }

  /** The parser between tokens: `config_target`, `conf_id`, `in_block`, and the lists. */
  datatype State = State(target: Option<Key>, id: Option<Key>, inBlock: bool, lists: Lists)

  /** What one token leads to; `Fault` is an access through a bad pointer or past an
      allocation. */
  datatype Parsed = Fine(s: State) | Fault

  /** What a string in a block adds for a key: ignore entries get the working directory in
      front, extensions do not. */
  function Entry(key: Key, cwd: string, word: string): string {
    if key == WatchExtensions then word else cwd + word
  }

  /** The strings that the entry is made of are all short enough to be counted. */
  predicate Countable(key: Key, cwd: string, word: string) {
    |word| <= MAX_COUNTED && (key != WatchExtensions ==> |cwd| <= MAX_COUNTED)
  }

  /** A STRING token. */
  function ParseString(word: Option<string>, s: State, cwd: string): Parsed {
    if s.inBlock && s.target.Some? then
      var key := s.target.value;
      if word.None? then Fault
      else
        var asEntry := if s.id == Some(IgnoreDirs) || s.id == Some(IgnoreFiles) then IgnoreFiles else WatchExtensions;
        if !Countable(asEntry, cwd, word.value) then Fault
        else if asEntry == WatchExtensions && word.value == "" then Fine(s)
        else Fine(s.(lists := s.lists.With(key, Appended(s.lists.Of(key), Entry(asEntry, cwd, word.value)))))
    else Fine(s)
  }

  /** One turn of the parser loop, at token `i`. */
  function ParseToken(ts: seq<Token>, i: nat, s: State, cwd: string): Parsed
    requires i < |ts|
  {
    match ts[i]
    case Text(word) =>
      if i + 1 >= |ts| then Fault
      else if ts[i + 1] == DoubleColon && KeyOf(word).Some? then Fine(s.(target := KeyOf(word), id := KeyOf(word)))
      else Fine(s)
    case OpenCurly => Fine(s.(inBlock := true))
    case CloseCurly => Fine(s.(inBlock := false, target := None))
    case Str(word) => ParseString(Some(word), s, cwd)
    case UnsetStr => ParseString(None, s, cwd)
    case Number(_) => Fine(s)
    case DoubleColon => Fine(s)
  }

  /** The parser after the first `n` tokens. */
  function ParseUpTo(ts: seq<Token>, n: nat, lists: Lists, cwd: string): Parsed
    requires n <= |ts|
  {
    if n == 0 then Fine(State(None, None, false, lists))
    else
      match ParseUpTo(ts, n - 1, lists, cwd)
      case Fault => Fault
      case Fine(s) => ParseToken(ts, n - 1, s, cwd)
  }

  /** The lists after all the tokens. */
  function Parse(ts: seq<Token>, lists: Lists, cwd: string): Parsed {
    ParseUpTo(ts, |ts|, lists, cwd)
  }

  lemma {:induction false} FaultStays(ts: seq<Token>, m: nat, n: nat, lists: Lists, cwd: string)
    requires m <= n <= |ts| && ParseUpTo(ts, m, lists, cwd) == Fault
    ensures ParseUpTo(ts, n, lists, cwd) == Fault
  {
    if m < n { FaultStays(ts, m, n - 1, lists, cwd); }
  }

  /** A list of at most fifty strings. */
  class StringArray {
    const arr: array<string>
    var len: nat

    predicate Valid()
      reads this
    {
      arr.Length == ARRAY_SIZE && len <= ARRAY_SIZE
    }

    function Items(): seq<string>
      reads this, arr
      requires Valid()
    {
      arr[..len]
    }

    /** `cmon_str_arr_init(arr)` */
    constructor ()
      ensures Valid() && fresh(arr) && Items() == []
    {
      arr := new string[ARRAY_SIZE](_ => "");
      len := 0;
    }

    /** `cmon_str_arr_add_from_str(arr, str)`: false when the list is full. */
    method AddFromStr(s: string) returns (added: bool)
      requires Valid()
      modifies this`len, arr
      ensures Valid() && Items() == Appended(old(Items()), s) && added == (old(len) < ARRAY_SIZE)
    {
      if len + 1 > ARRAY_SIZE { return false; }
      arr[len] := s;
      len := len + 1;
      added := true;
    }

    /** `cmon_str_arr_add_new_char_arr(arr, str)`: an empty string is refused as well. */
    method AddNewCharArr(s: string) returns (added: bool)
      requires Valid()
      modifies this`len, arr
      ensures Valid() && added == (s != "" && old(len) < ARRAY_SIZE)
      ensures Items() == if s == "" then old(Items()) else Appended(old(Items()), s)
    {
      if s == "" { return false; }
      added := AddFromStr(s);
    }
  }

  /** The three lists and the working directory. */
  class CmonConfig {
    const exts: StringArray
    const files: StringArray
    const dirs: StringArray
    const cwd: string

    predicate Valid()
      reads this, exts, files, dirs
    {
      && exts.Valid() && files.Valid() && dirs.Valid()
      && exts != files && exts != dirs && files != dirs
      && exts.arr != files.arr && exts.arr != dirs.arr && files.arr != dirs.arr
    }

    function Contents(): Lists
      reads this, exts, files, dirs, exts.arr, files.arr, dirs.arr
      requires Valid()
    {
      Lists(exts.Items(), files.Items(), dirs.Items())
    }

    /** `config_new()` */
    constructor (cwd: string)
      ensures Valid() && fresh(exts) && fresh(files) && fresh(dirs)
      ensures fresh(exts.arr) && fresh(files.arr) && fresh(dirs.arr)
      ensures this.cwd == cwd && Contents() == Lists([], [], [])
    {
      exts := new StringArray();
      files := new StringArray();
      dirs := new StringArray();
      this.cwd := cwd;
    }

    /** The list that a key names. */
    function Target(key: Key): StringArray {
      match key
      case WatchExtensions => exts
      case IgnoreFiles => files
      case IgnoreDirs => dirs
    }

    /** The STRING case of the parser: false when it faults. */
    method AddString(target: StringArray, ghost key: Key, id: Key, word: Option<string>) returns (ok: bool)
      requires Valid() && target == Target(key) && id == key
      modifies exts, files, dirs, exts.arr, files.arr, dirs.arr
      ensures Valid()
      ensures ok ==> ParseString(word, State(Some(key), Some(id), true, old(Contents())), cwd)
                     == Fine(State(Some(key), Some(id), true, Contents()))
      ensures !ok ==> ParseString(word, State(Some(key), Some(id), true, old(Contents())), cwd) == Fault
    {
      if word.None? { return false; }
      if id == IgnoreDirs || id == IgnoreFiles {
        if |cwd| > MAX_COUNTED || |word.value| > MAX_COUNTED { return false; }
        var _ := target.AddFromStr(cwd + word.value);
      } else {
        if |word.value| > MAX_COUNTED { return false; }
        var _ := target.AddNewCharArr(word.value);
      }
      ok := true;
    }

    /** `config_parser(arr, conf)`: false when it faults. */
    method ConfigParser(arr: TokenArr) returns (ok: bool)
      requires Valid() && arr.Valid() && arr.tokens as object !in {exts.arr, files.arr, dirs.arr}
      modifies exts, files, dirs, exts.arr, files.arr, dirs.arr
      ensures Valid() && ok == Parse(arr.Tokens(), old(Contents()), cwd).Fine?
      ensures ok ==> Contents() == Parse(arr.Tokens(), old(Contents()), cwd).s.lists
    {
      var target: StringArray? := null;
      var id: Option<Key> := None;
      var inBlock := false;
      ghost var key: Option<Key> := None;
      ghost var ts, first := arr.Tokens(), Contents();
      var i := 0;
      while i < arr.length
        invariant Valid() && arr.Valid() && arr.Tokens() == ts && i <= |ts|
        invariant target == null <==> key == None
        invariant target != null ==> target == Target(key.value) && id == key
        invariant ParseUpTo(ts, i, first, cwd) == Fine(State(key, id, inBlock, Contents()))
      {
        var cur := arr.tokens[i];
        assert cur == ts[i];
        match cur {
          case Text(word) =>
            if i + 1 >= arr.length {
              FaultStays(ts, i + 1, |ts|, first, cwd);
              return false;
            }
            var next := arr.tokens[i + 1];
            assert next == ts[i + 1];
            if next == DoubleColon {
              if word == "WATCH_FILE_EXT_NAMES" {
                target, id, key := exts, Some(WatchExtensions), Some(WatchExtensions);
              } else if word == "IGNORE_FILES" {
                target, id, key := files, Some(IgnoreFiles), Some(IgnoreFiles);
              } else if word == "IGNORE_DIRS" {
                target, id, key := dirs, Some(IgnoreDirs), Some(IgnoreDirs);
              }
            }
          case OpenCurly => inBlock := true;
          case CloseCurly => inBlock, target, key := false, null, None;
          case Str(word) =>
            if inBlock && target != null {
              ok := AddString(target, key.value, id.value, Some(word));
              if !ok { FaultStays(ts, i + 1, |ts|, first, cwd); return; }
            }
          case UnsetStr =>
            if inBlock && target != null {
              ok := AddString(target, key.value, id.value, None);
              if !ok { FaultStays(ts, i + 1, |ts|, first, cwd); return; }
            }
          case Number(_) =>
          case DoubleColon =>
        }
        i := i + 1;
      }
      ok := true;
    }
  }
}

/** The configuration tokenizer (src/lib/parser/tokenizer.c, config_tokenizer and
    _cmon_new_token; src/lib/utils/text_utils.c). */
module Tokenizer {
  import opened Net

  const MAX_TOKENS: nat := 100
  const MAX_LEXEME: nat := 100
  const FGETS_SIZE: nat := 2048
  const NUL: char := '\0'

  /** A token and its value.  `UnsetStr` is a STRING token for an empty lexeme: its value
      pointer is never written. */
  datatype Token =
    | Text(word: string)
    | Str(word: string)
    | UnsetStr
    | Number(word: string)
    | DoubleColon
    | OpenCurly
    | CloseCurly

  predicate IsAlpha(c: char) { 'A' <= c <= 'Z' || 'a' <= c <= 'z' }

  /** A character that goes into the lexeme. */
  predicate IsLexeme(c: char) { IsAlpha(c) || '0' <= c <= '9' || c == '.' || c == '_' || c == '/' }

  predicate IsQuote(c: char) { c == '"' || c == '\'' }

  /** A character that the tokenizer passes over. */
  predicate Ignored(c: char) {
    !IsLexeme(c) && !IsQuote(c) && c != '{' && c != '}' && c != ' ' && c != ':'
  }

  /** What the tokenizer remembers between characters: the pending lexeme, and whether a quote
      is open. */
  datatype Ctl = Ctl(lexeme: string, quoted: bool)

  const START: Ctl := Ctl("", false)

  /** A word outside quotes; it is a number when it has no letter. */
  function WordToken(w: string): Token {
    if forall i :: 0 <= i < |w| ==> !IsAlpha(w[i]) then Number(w) else Text(w)
  }

  function StringToken(w: string): Token { if w == "" then UnsetStr else Str(w) }

  function Next(k: Ctl, c: char): Ctl {
    if IsLexeme(c) then k.(lexeme := k.lexeme + [c])
    else if IsQuote(c) then Ctl(if k.quoted then "" else k.lexeme, !k.quoted)
    else if c == ' ' || c == ':' then k.(lexeme := "")
    else k
  }

  function Emit(k: Ctl, c: char): seq<Token> {
    if c == '{' then [OpenCurly]
    else if c == '}' then [CloseCurly]
    else if IsQuote(c) then if k.quoted then [StringToken(k.lexeme)] else []
    else if c == ' ' then if k.lexeme != "" then [WordToken(k.lexeme)] else []
    else if c == ':' then (if k.lexeme != "" then [WordToken(k.lexeme)] else []) + [DoubleColon]
    else []
  }

  /** The character writes a cell of the lexeme buffer: itself, or a terminator. */
  predicate Writes(k: Ctl, c: char) {
    IsLexeme(c) || (IsQuote(c) && k.quoted) || ((c == ' ' || c == ':') && k.lexeme != "")
  }

  function After(k: Ctl, text: string): Ctl
    decreases |text|
  {
    if text == "" then k else After(Next(k, text[0]), text[1..])
  }

  /** All the tokens of a text. */
  function Out(k: Ctl, text: string): seq<Token>
    decreases |text|
  {
    if text == "" then [] else Emit(k, text[0]) + Out(Next(k, text[0]), text[1..])
  }

  /** No character of the text writes past the lexeme buffer. */
  predicate Fits(k: Ctl, text: string)
    decreases |text|
  {
    text == "" ||
    ((Writes(k, text[0]) ==> |k.lexeme| < MAX_LEXEME) && Fits(Next(k, text[0]), text[1..]))
  }

  lemma {:induction false} Concat(k: Ctl, a: string, b: string)
    ensures After(k, a + b) == After(After(k, a), b)
    ensures Out(k, a + b) == Out(k, a) + Out(After(k, a), b)
    ensures Fits(k, a + b) <==> Fits(k, a) && Fits(After(k, a), b)
    decreases |a|
  {
    hide Next, Emit, Writes;
    if a == "" {
      assert a + b == b;
    } else {
      assert (a + b)[0] == a[0] && (a + b)[1..] == a[1..] + b;
      Concat(Next(k, a[0]), a[1..], b);
    }
  }

  lemma Step(k: Ctl, done: string, c: char)
    ensures After(k, done + [c]) == Next(After(k, done), c)
    ensures Out(k, done + [c]) == Out(k, done) + Emit(After(k, done), c)
    ensures Fits(k, done + [c]) <==>
            Fits(k, done) && (Writes(After(k, done), c) ==> |After(k, done).lexeme| < MAX_LEXEME)
  {
    hide Next, Emit, Writes;
    Concat(k, done, [c]);
    var m := After(k, done);
    assert After(m, [c]) == After(Next(m, c), "") && Out(m, [c]) == Emit(m, c) + Out(Next(m, c), "");
    assert Fits(m, [c]) <==> (Writes(m, c) ==> |m.lexeme| < MAX_LEXEME) && Fits(Next(m, c), "");
  }

  /** The first hundred tokens. */
  function Capped(ts: seq<Token>): seq<Token> {
    if |ts| <= MAX_TOKENS then ts else ts[..MAX_TOKENS]
  }

  lemma CappedSmall(ts: seq<Token>)
    requires |ts| <= MAX_TOKENS
    ensures Capped(ts) == ts && ts + [] == ts
  {
  }

  lemma CappedAppend(a: seq<Token>, b: seq<Token>)
    ensures Capped(Capped(a) + b) == Capped(a + b)
  {
  }

  /** Where the tokenizer is after the characters `done`: its state `k` and its tokens `ts`,
      on top of the `first` ones. */
  ghost predicate Tracks(k: Ctl, ts: seq<Token>, first: seq<Token>, done: string) {
    Fits(START, done) && k == After(START, done) && ts == Capped(first + Out(START, done))
  }

  lemma TrackStart(ts: seq<Token>)
    requires |ts| <= MAX_TOKENS
    ensures Tracks(START, ts, ts, "")
  {
  }

  lemma TrackResult(k: Ctl, ts: seq<Token>, first: seq<Token>, done: string)
    requires Tracks(k, ts, first, done)
    ensures Fits(START, done) && ts == Capped(first + Out(START, done))
  {
  }

  /** One more character: either it fits and the tokenizer follows, or no text that starts this
      way fits. */
  lemma TrackStep(k: Ctl, ts: seq<Token>, first: seq<Token>, done: string, c: char, rest: string)
    requires Tracks(k, ts, first, done)
    ensures if Writes(k, c) ==> |k.lexeme| < MAX_LEXEME then
              Tracks(Next(k, c), Capped(ts + Emit(k, c)), first, done + [c])
            else !Fits(START, done + [c] + rest)
  {
    hide Next, Emit, Writes;
    Step(START, done, c);
    Concat(START, done + [c], rest);
    CappedAppend(first + Out(START, done), Emit(k, c));
    assert first + (Out(START, done) + Emit(k, c)) == (first + Out(START, done)) + Emit(k, c);
  }

  /** The token list, with its room for a hundred tokens. */
  class TokenArr {
    const tokens: array<Token>
    var length: nat

    predicate Valid()
      reads this
    {
      tokens.Length == MAX_TOKENS && length <= MAX_TOKENS
    }

    function Tokens(): seq<Token>
      reads this, tokens
      requires Valid()
    {
      tokens[..length]
    }

    /** `token_arr_new()` */
    constructor ()
      ensures Valid() && fresh(tokens) && Tokens() == []
    {
      tokens := new Token[MAX_TOKENS](_ => UnsetStr);
      length := 0;
    }

    /** `_cmon_new_token(list, type, value)`: false when the list is full. */
    method NewToken(t: Token) returns (added: bool)
      requires Valid()
      modifies this`length, tokens
      ensures Valid() && Tokens() == Capped(old(Tokens()) + [t]) && added == (old(length) < MAX_TOKENS)
    {
      if length >= MAX_TOKENS { return false; }
      tokens[length] := t;
      length := length + 1;
      added := true;
    }
  }

  /** The static lexeme buffer with its write position, and the quotation flag. */
  class Lexer {
    const lexeme: array<char>
    var len: nat
    var quoted: bool

    predicate Valid()
      reads this
    {
      lexeme.Length == MAX_LEXEME && len <= MAX_LEXEME
    }

    function State(): Ctl
      reads this, lexeme
      requires Valid()
    {
      Ctl(lexeme[..len], quoted)
    }

    constructor ()
      ensures Valid() && fresh(lexeme) && State() == START
    {
      lexeme := new char[MAX_LEXEME];
      len := 0;
      quoted := false;
    }

    /** Terminates the lexeme, adds its token and starts a new one; false when the terminator
        would be written outside the buffer. */
    method Flush(arr: TokenArr, asString: bool) returns (ok: bool)
      requires Valid() && arr.Valid()
      requires lexeme as object != arr.tokens
      modifies this`len, lexeme, arr`length, arr.tokens
      ensures Valid() && arr.Valid() && ok == (old(len) < MAX_LEXEME)
      ensures ok ==> State() == old(State()).(lexeme := "")
      ensures ok ==> var w := old(State().lexeme);
                     arr.Tokens() == Capped(old(arr.Tokens()) + [if asString then StringToken(w) else WordToken(w)])
    {
      if len >= lexeme.Length { return false; }
      ghost var w := lexeme[..len];
      lexeme[len] := NUL;
      assert lexeme[..len] == w;
      var _ := arr.NewToken(if asString then StringToken(lexeme[..len]) else WordToken(lexeme[..len]));
      len := 0;
      ok := true;
    }

    /** One turn of the character loop. */
    method Feed(c: char, arr: TokenArr) returns (ok: bool)
      requires Valid() && arr.Valid()
      requires lexeme as object != arr.tokens
      modifies this`len, this`quoted, lexeme, arr`length, arr.tokens
      ensures Valid() && arr.Valid()
      ensures ok == (Writes(old(State()), c) ==> old(len) < MAX_LEXEME)
      ensures ok ==> State() == Next(old(State()), c)
      ensures ok ==> arr.Tokens() == Capped(old(arr.Tokens()) + Emit(old(State()), c))
    {
      hide Capped, WordToken, StringToken;
      ok := true;
      ghost var before := arr.Tokens();
      CappedSmall(before);
      if IsLexeme(c) {
        if len >= lexeme.Length { return false; }
        lexeme[len] := c;
        len := len + 1;
      } else if c == '{' {
        var _ := arr.NewToken(OpenCurly);
      } else if c == '}' {
        var _ := arr.NewToken(CloseCurly);
      } else if IsQuote(c) {
        if quoted {
          ok := Flush(arr, true);
        }
        quoted := !quoted;
      } else if c == ' ' {
        if len > 0 {
          ok := Flush(arr, false);
        }
      } else if c == ':' {
        ok := FeedColon(arr);
      }
    }

    /** The colon: it ends a word, and is a token itself. */
    method FeedColon(arr: TokenArr) returns (ok: bool)
      requires Valid() && arr.Valid()
      requires lexeme as object != arr.tokens
      modifies this`len, lexeme, arr`length, arr.tokens
      ensures Valid() && arr.Valid()
      ensures ok == (old(len) > 0 ==> old(len) < MAX_LEXEME)
      ensures ok ==> State() == old(State()).(lexeme := "")
      ensures ok ==> var w := old(State().lexeme);
                     arr.Tokens() == Capped(old(arr.Tokens()) +
                                            ((if w != "" then [WordToken(w)] else []) + [DoubleColon]))
    {
      ghost var before, w := arr.Tokens(), lexeme[..len];
      ok := true;
      if len > 0 {
        ok := Flush(arr, false);
        if !ok { return; }
        CappedAppend(before + [WordToken(w)], [DoubleColon]);
        assert before + ([WordToken(w)] + [DoubleColon]) == before + [WordToken(w)] + [DoubleColon];
      }
      var _ := arr.NewToken(DoubleColon);
      assert [] + [DoubleColon] == [DoubleColon];
    }
  }

  /** The part of a piece before a NUL, which ends the loop over it. */
  function CString(piece: string): string {
    if piece == "" || piece[0] == NUL then "" else [piece[0]] + CString(piece[1..])
  }

  /** The characters that the loops see. */
  function Seen(pieces: seq<string>): string {
    if pieces == [] then "" else CString(pieces[0]) + Seen(pieces[1..])
  }

  /** `config_tokenizer(arr, file)`, with the pieces that successive fgets calls return: false
      when a write leaves the lexeme buffer. */
  method ConfigTokenizer(arr: TokenArr, pieces: seq<string>) returns (ok: bool)
    requires arr.Valid()
    modifies arr`length, arr.tokens
    ensures arr.Valid() && ok == Fits(START, Seen(pieces))
    ensures ok ==> arr.Tokens() == Capped(old(arr.Tokens()) + Out(START, Seen(pieces)))
  {
    hide Tracks, Capped, Fits, Out;
    var lexer := new Lexer();
    ghost var first := arr.Tokens();
    TrackStart(first);
    ghost var done := "";
    assert pieces[0..] == pieces;
    for n := 0 to |pieces|
      invariant lexer.Valid() && arr.Valid() && fresh(lexer) && fresh(lexer.lexeme)
      invariant done + Seen(pieces[n..]) == Seen(pieces)
      invariant Tracks(lexer.State(), arr.Tokens(), first, done)
    {
      assert pieces[n..][0] == pieces[n] && pieces[n..][1..] == pieces[n + 1..];
      ok := TokenizePiece(arr, lexer, pieces[n], first, done, Seen(pieces[n + 1..]));
      assert done + CString(pieces[n]) + Seen(pieces[n + 1..]) == done + Seen(pieces[n..]);
      if !ok { return; }
      done := done + CString(pieces[n]);
    }
    assert done + "" == done;
    TrackResult(lexer.State(), arr.Tokens(), first, done);
    ok := true;
  }

  /** The character loop over one piece, between the characters `before` and `after` it. */
  method TokenizePiece(arr: TokenArr, lexer: Lexer, piece: string, ghost first: seq<Token>,
                       ghost before: string, ghost after: string)
    returns (ok: bool)
    requires arr.Valid() && lexer.Valid() && lexer.lexeme as object != arr.tokens
    requires Tracks(lexer.State(), arr.Tokens(), first, before)
    modifies lexer`len, lexer`quoted, lexer.lexeme, arr`length, arr.tokens
    ensures arr.Valid() && lexer.Valid()
    ensures if ok then Tracks(lexer.State(), arr.Tokens(), first, before + CString(piece))
            else !Fits(START, before + CString(piece) + after)
  {
    hide Next, Emit, Writes, Tracks, Capped;
    ghost var done := before;
    var i := 0;
    assert piece[0..] == piece;
    while i < |piece| && piece[i] != NUL
      invariant i <= |piece| && arr.Valid() && lexer.Valid()
      invariant done + CString(piece[i..]) == before + CString(piece)
      invariant Tracks(lexer.State(), arr.Tokens(), first, done)
    {
      var c := piece[i];
      assert piece[i..][0] == c && piece[i..][1..] == piece[i + 1..];
      TrackStep(lexer.State(), arr.Tokens(), first, done, c, CString(piece[i + 1..]) + after);
      ok := lexer.Feed(c, arr);
      assert done + [c] + CString(piece[i + 1..]) == done + CString(piece[i..]);
      if !ok {
        assert done + [c] + (CString(piece[i + 1..]) + after) == before + CString(piece) + after;
        return;
      }
      done := done + [c];
      i := i + 1;
    }
    assert done + "" == done;
    ok := true;
  }

  /** It is the longest front without a NUL. */
  lemma {:induction false} CStringExact(piece: string)
    ensures var s := CString(piece);
            s <= piece && (forall i :: 0 <= i < |s| ==> s[i] != '\0') && (|s| < |piece| ==> piece[|s|] == '\0')
  {
    if piece != "" && piece[0] != NUL {
      CStringExact(piece[1..]);
      assert piece == [piece[0]] + piece[1..];
    }
  }

  predicate NulFree(text: string) { forall i :: 0 <= i < |text| ==> text[i] != NUL }

  lemma {:induction false} CStringWhole(piece: string)
    requires NulFree(piece)
    ensures CString(piece) == piece
  {
    if piece != "" { CStringWhole(piece[1..]); }
  }

  /** For a text without NULs it does not matter how it is cut into pieces: the tokenizer sees
      the text. */
  lemma {:induction false} PiecesDoNotMatter(pieces: seq<string>)
    requires NulFree(Flatten(pieces))
    ensures Seen(pieces) == Flatten(pieces)
  {
    if pieces != [] {
      var p, rest := pieces[0], Flatten(pieces[1..]);
      assert Flatten(pieces) == p + rest;
      assert forall i :: 0 <= i < |p| ==> p[i] == Flatten(pieces)[i];
      assert forall i :: 0 <= i < |rest| ==> rest[i] == Flatten(pieces)[|p| + i];
      CStringWhole(p);
      PiecesDoNotMatter(pieces[1..]);
    }
  }

  /** The length of the piece that fgets takes from the front of a text: up to and including
      the first newline, and at most what the buffer holds. */
  function FgetsLength(text: string, room: nat): (n: nat)
    requires text != "" && room > 0
    ensures 0 < n <= |text| && n <= room
    ensures text[n - 1] == '\n' || n == |text| || n == room
    ensures forall i :: 0 <= i < n - 1 ==> text[i] != '\n'
    decreases room
  {
    if text[0] == '\n' || |text| == 1 || room == 1 then 1 else 1 + FgetsLength(text[1..], room - 1)
  }

  /** The pieces of a file, as fgets returns them. */
  function FgetsPieces(text: string): (pieces: seq<string>)
    ensures Flatten(pieces) == text
    decreases |text|
  {
    if text == "" then []
    else
      var n := FgetsLength(text, FGETS_SIZE - 1);
      var pieces := [text[..n]] + FgetsPieces(text[n..]);
      assert pieces[1..] == FgetsPieces(text[n..]) && text == text[..n] + text[n..];
      pieces
  }

  function Significant(text: string): string {
    if text == "" then ""
    else (if Ignored(text[0]) then "" else [text[0]]) + Significant(text[1..])
  }

  /** Commas, newlines, tabs and all other characters the tokenizer passes over may be put in
      or left out anywhere, inside quotes too, without changing a token. */
  lemma {:induction false} OnlySignificantMatters(k: Ctl, text: string)
    ensures Out(k, text) == Out(k, Significant(text)) && After(k, text) == After(k, Significant(text))
    ensures Fits(k, text) <==> Fits(k, Significant(text))
    decreases |text|
  {
    if text != "" {
      var c, rest := text[0], text[1..];
      OnlySignificantMatters(Next(k, c), rest);
      if !Ignored(c) {
        assert Significant(text)[0] == c && Significant(text)[1..] == Significant(rest);
      } else {
        assert Significant(text) == Significant(rest);
        assert Next(k, c) == k && Emit(k, c) == [] && !Writes(k, c);
      }
    }
  }

  function Word(t: Token): string {
    if t.Text? || t.Str? || t.Number? then t.word else ""
  }

  function Words(ts: seq<Token>): string {
    if ts == [] then "" else Word(ts[0]) + Words(ts[1..])
  }

  lemma {:induction false} WordsConcat(a: seq<Token>, b: seq<Token>)
    ensures Words(a + b) == Words(a) + Words(b)
  {
    if a == [] {
      assert a + b == b;
    } else {
      assert (a + b)[0] == a[0] && (a + b)[1..] == a[1..] + b;
      WordsConcat(a[1..], b);
    }
  }

  function Lexemes(text: string): string {
    if text == "" then "" else (if IsLexeme(text[0]) then [text[0]] else "") + Lexemes(text[1..])
  }

  /** No lexeme character is lost, repeated or moved: the values of the tokens, then the
      pending lexeme, are exactly the lexeme characters of the text. */
  lemma {:induction false} TokensConserveLexemes(k: Ctl, text: string)
    ensures Words(Out(k, text)) + After(k, text).lexeme == k.lexeme + Lexemes(text)
    decreases |text|
  {
    if text != "" {
      hide Next, Emit, Word;
      var c, rest := text[0], text[1..];
      var n := Next(k, c);
      TokensConserveLexemes(n, rest);
      WordsConcat(Emit(k, c), Out(n, rest));
      EmitConserves(k, c);
      Regroup(Words(Emit(k, c)), Words(Out(n, rest)), After(n, rest).lexeme, n.lexeme, Lexemes(rest),
              k.lexeme, if IsLexeme(c) then [c] else "");
    }
  }

  lemma Regroup(w: string, ws: string, pending: string, held: string, rest: string, before: string, x: string)
    requires ws + pending == held + rest && w + held == before + x
    ensures (w + ws) + pending == before + (x + rest)
  {
    assert (w + ws) + pending == w + (ws + pending) == (w + held) + rest;
  }

  lemma WordsShort(t: Token, u: Token)
    ensures Words([t]) == Word(t) && Words([t, u]) == Word(t) + Word(u)
  {
    assert [t][1..] == [] && [u][1..] == [] && [t, u][1..] == [u];
    assert Words([u]) == Word(u);
  }

  /** The words a character completes: the whole pending lexeme, or nothing. */
  lemma EmitWords(k: Ctl, c: char)
    ensures Words(Emit(k, c)) == if (IsQuote(c) && k.quoted) || c == ' ' || c == ':' then k.lexeme else ""
  {
    var w := k.lexeme;
    if IsQuote(c) {
      WordsShort(StringToken(w), DoubleColon);
    } else if c == ' ' || c == ':' {
      WordsShort(WordToken(w), DoubleColon);
      WordsShort(DoubleColon, DoubleColon);
      assert [WordToken(w)] + [DoubleColon] == [WordToken(w), DoubleColon] && [] + [DoubleColon] == [DoubleColon];
    } else {
      WordsShort(OpenCurly, DoubleColon);
      WordsShort(CloseCurly, DoubleColon);
    }
  }

  lemma EmitConserves(k: Ctl, c: char)
    ensures Words(Emit(k, c)) + Next(k, c).lexeme == k.lexeme + if IsLexeme(c) then [c] else ""
  {
    EmitWords(k, c);
    hide Emit;
    assert "" + k.lexeme == k.lexeme == k.lexeme + "";
  }

  predicate IsString(t: Token) { t.Str? || t.UnsetStr? }

  function Count(ts: seq<Token>, p: Token -> bool): nat {
    if ts == [] then 0 else (if p(ts[0]) then 1 else 0) + Count(ts[1..], p)
  }

  lemma {:induction false} CountConcat(a: seq<Token>, b: seq<Token>, p: Token -> bool)
    ensures Count(a + b, p) == Count(a, p) + Count(b, p)
  {
    if a == [] {
      assert a + b == b;
    } else {
      assert (a + b)[0] == a[0] && (a + b)[1..] == a[1..] + b;
      CountConcat(a[1..], b, p);
    }
  }

  function CountChars(text: string, p: char -> bool): nat {
    if text == "" then 0 else (if p(text[0]) then 1 else 0) + CountChars(text[1..], p)
  }

  lemma CountShort(ts: seq<Token>, p: Token -> bool)
    ensures ts == [] ==> Count(ts, p) == 0
    ensures |ts| == 1 ==> Count(ts, p) == if p(ts[0]) then 1 else 0
    ensures |ts| == 2 ==> Count(ts, p) == (if p(ts[0]) then 1 else 0) + if p(ts[1]) then 1 else 0
  {
    if |ts| == 1 {
      assert ts[1..] == [];
    } else if |ts| == 2 {
      assert ts[1..][0] == ts[1] && ts[1..][1..] == [];
    }
  }

  /** One character's share of the counts below. */
  lemma EmitCounts(k: Ctl, c: char)
    ensures Count(Emit(k, c), t => t == OpenCurly) == if c == '{' then 1 else 0
    ensures Count(Emit(k, c), t => t == CloseCurly) == if c == '}' then 1 else 0
    ensures Count(Emit(k, c), t => t == DoubleColon) == if c == ':' then 1 else 0
    ensures Count(Emit(k, c), t => IsString(t)) == if IsQuote(c) && k.quoted then 1 else 0
  {
    hide Count;
    var ts := Emit(k, c);
    CountShort(ts, t => t == OpenCurly);
    CountShort(ts, t => t == CloseCurly);
    CountShort(ts, t => t == DoubleColon);
    CountShort(ts, t => IsString(t));
    assert c == ':' && k.lexeme != "" ==> ts == [WordToken(k.lexeme), DoubleColon];
    assert c == ':' && k.lexeme == "" ==> ts == [DoubleColon];
  }

  /** Every brace and every colon gives exactly one token, inside quotes too. */
  lemma {:induction false} PunctuationCounts(k: Ctl, text: string)
    ensures Count(Out(k, text), t => t == OpenCurly) == CountChars(text, c => c == '{')
    ensures Count(Out(k, text), t => t == CloseCurly) == CountChars(text, c => c == '}')
    ensures Count(Out(k, text), t => t == DoubleColon) == CountChars(text, c => c == ':')
    decreases |text|
  {
    if text != "" {
      var c, n := text[0], Next(k, text[0]);
      PunctuationCounts(n, text[1..]);
      EmitCounts(k, c);
      CountConcat(Emit(k, c), Out(n, text[1..]), t => t == OpenCurly);
      CountConcat(Emit(k, c), Out(n, text[1..]), t => t == CloseCurly);
      CountConcat(Emit(k, c), Out(n, text[1..]), t => t == DoubleColon);
    }
  }

  /** The STRING tokens are half the quote characters, rounded down. */
  lemma StringCount(text: string)
    ensures Count(Out(START, text), t => IsString(t)) == CountChars(text, c => IsQuote(c)) / 2
  {
    QuotesPair(START, text);
  }

  lemma {:induction false} QuotesPair(k: Ctl, text: string)
    ensures 2 * Count(Out(k, text), t => IsString(t)) + (if After(k, text).quoted then 1 else 0)
            == CountChars(text, c => IsQuote(c)) + if k.quoted then 1 else 0
    decreases |text|
  {
    if text != "" {
      var c, n := text[0], Next(k, text[0]);
      QuotesPair(n, text[1..]);
      EmitCounts(k, c);
      CountConcat(Emit(k, c), Out(n, text[1..]), t => IsString(t));
    }
  }
}

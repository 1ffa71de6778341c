/** What config_tokenizer yields, said of the positions of the text and without its state
    (src/lib/parser/tokenizer.c, config_tokenizer; src/lib/utils/text_utils.c). */
module TokenPositions {
  import opened Tokenizer

  predicate Letter(c: char) { 'a' <= c <= 'z' || 'A' <= c <= 'Z' }
  predicate Kept(c: char) { Letter(c) || '0' <= c <= '9' || c == '.' || c == '_' || c == '/' }
  predicate Quote(c: char) { c == '"' || c == '\'' }

  function KeptOnly(text: string): string {
    if text == "" then ""
    else KeptOnly(text[..|text| - 1]) + if Kept(text[|text| - 1]) then [text[|text| - 1]] else ""
  }

  function QuoteCount(text: string): nat {
    if text == "" then 0 else QuoteCount(text[..|text| - 1]) + if Quote(text[|text| - 1]) then 1 else 0
  }

  /** Before position `i`, a quote is open. */
  predicate OpenAt(text: string, i: nat)
    requires i <= |text|
  {
    QuoteCount(text[..i]) % 2 == 1
  }

  /** The character at `p` starts a new lexeme: a space, a colon, or a closing quote. */
  predicate Breaks(text: string, p: nat)
    requires p < |text|
  {
    text[p] == ' ' || text[p] == ':' || (Quote(text[p]) && OpenAt(text, p))
  }

  /** Before position `i`, the pending lexeme started at `from`. */
  ghost predicate PendingFrom(text: string, i: nat, from: nat) {
    && from <= i <= |text| && (from > 0 ==> Breaks(text, from - 1))
    && forall p: nat :: from <= p < i ==> !Breaks(text, p)
  }

  /** A word with a letter is a text, any other a number. */
  function Word(w: string): Token {
    if exists i :: 0 <= i < |w| && Letter(w[i]) then Text(w) else Number(w)
  }

  /** What the character `c` yields with the lexeme `w` pending. */
  function Yielded(c: char, w: string, open: bool): seq<Token> {
    if c == '{' then [OpenCurly]
    else if c == '}' then [CloseCurly]
    else if c == ' ' then if w == "" then [] else [Word(w)]
    else if c == ':' then if w == "" then [DoubleColon] else [Word(w), DoubleColon]
    else if Quote(c) && open then [if w == "" then UnsetStr else Str(w)]
    else []
  }

  lemma NextIs(k: Ctl, c: char)
    ensures Next(k, c) == Ctl(if c == ' ' || c == ':' || (Quote(c) && k.quoted) then ""
                              else k.lexeme + if Kept(c) then [c] else "", k.quoted != Quote(c))
  {
    assert k.lexeme + "" == k.lexeme;
  }

  lemma OpenNext(text: string, n: nat)
    requires n < |text|
    ensures OpenAt(text, n + 1) == (OpenAt(text, n) != Quote(text[n]))
  {
    assert text[..n + 1][..n] == text[..n];
  }

  lemma KeptNext(text: string, from: nat, n: nat)
    requires from <= n < |text|
    ensures KeptOnly(text[from..n + 1]) == KeptOnly(text[from..n]) + if Kept(text[n]) then [text[n]] else ""
  {
    assert text[from..n + 1][..n - from] == text[from..n];
  }

  /** The tokenizer's state after any front of the text is what the positions say. */
  lemma {:induction false} StateAt(text: string, i: nat, from: nat)
    requires PendingFrom(text, i, from)
    ensures After(START, text[..i]) == Ctl(KeptOnly(text[from..i]), OpenAt(text, i))
    decreases i
  {
    hide After, Next, KeptOnly, OpenAt, Kept, Quote;
    if i == 0 {
      StartState(text, from);
    } else {
      var n, c := i - 1, text[i - 1];
      var j := PendingBefore(text, n);
      StateAt(text, n, j);
      assert text[..i] == text[..n] + [c];
      Step(START, text[..n], c);
      NextIs(After(START, text[..n]), c);
      OpenNext(text, n);
      KeptNext(text, j, n);
      SamePending(text, n, from, j);
      NothingKept(text, i);
    }
  }

  lemma StartState(text: string, from: nat)
    requires from == 0
    ensures After(START, text[..0]) == Ctl(KeptOnly(text[from..0]), OpenAt(text, 0))
  {
    assert text[..0] == "" && text[from..0] == "";
  }

  lemma NothingKept(text: string, i: nat)
    requires i <= |text|
    ensures KeptOnly(text[i..i]) == ""
  {
  }

  /** Before every position some lexeme is pending. */
  lemma {:induction false} PendingBefore(text: string, i: nat) returns (from: nat)
    requires i <= |text|
    ensures PendingFrom(text, i, from)
  {
    if i == 0 || Breaks(text, i - 1) {
      from := i;
    } else {
      from := PendingBefore(text, i - 1);
    }
  }

  /** It goes on where it was, or starts anew behind a break. */
  lemma SamePending(text: string, n: nat, from: nat, j: nat)
    requires PendingFrom(text, n + 1, from) && PendingFrom(text, n, j)
    ensures from == if Breaks(text, n) then n + 1 else j
  {
    hide Breaks;
  }

  /** The tokens, position by position: each character adds what its place says, and writes past
      the lexeme buffer exactly when it writes with a hundred characters pending. */
  lemma TokensAt(text: string, i: nat, from: nat)
    requires i < |text| && PendingFrom(text, i, from)
    ensures var c, w, open := text[i], KeptOnly(text[from..i]), OpenAt(text, i);
            && Out(START, text[..i + 1]) == Out(START, text[..i]) + Yielded(c, w, open)
            && (Fits(START, text[..i + 1]) <==>
                Fits(START, text[..i]) &&
                (Kept(c) || (Quote(c) && open) || ((c == ' ' || c == ':') && w != "") ==> |w| < 100))
  {
    var c := text[i];
    assert text[..i + 1] == text[..i] + [c];
    Step(START, text[..i], c);
    StateAt(text, i, from);
    hide Out, After, Fits, KeptOnly, OpenAt, PendingFrom;
    EmitIs(Ctl(KeptOnly(text[from..i]), OpenAt(text, i)), c);
  }

  lemma EmitIs(k: Ctl, c: char)
    ensures Emit(k, c) == Yielded(c, k.lexeme, k.quoted)
    ensures Writes(k, c) <==> Kept(c) || (Quote(c) && k.quoted) || ((c == ' ' || c == ':') && k.lexeme != "")
  {
    WordIs(k.lexeme);
    hide WordToken, Word;
    assert [WordToken(k.lexeme)] + [DoubleColon] == [WordToken(k.lexeme), DoubleColon];
  }

  lemma WordIs(w: string)
    ensures WordToken(w) == Word(w)
  {
    assert forall i :: 0 <= i < |w| ==> (IsAlpha(w[i]) <==> Letter(w[i]));
  }

  /** A text or number token of any text is just what its letters say. */
  lemma {:induction false} WordKinds(k: Ctl, text: string, i: nat)
    requires i < |Out(k, text)|
    ensures Out(k, text)[i].Number? ==> forall j :: 0 <= j < |Out(k, text)[i].word| ==> !Letter(Out(k, text)[i].word[j])
    ensures Out(k, text)[i].Text? ==> exists j :: 0 <= j < |Out(k, text)[i].word| && Letter(Out(k, text)[i].word[j])
    decreases |text|
  {
    EmitIs(k, text[0]);
    if i >= |Emit(k, text[0])| {
      WordKinds(Next(k, text[0]), text[1..], i - |Emit(k, text[0])|);
    }
  }
}

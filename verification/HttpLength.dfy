/** The Content-Length value (src/cmon_proxy/cmon_http.c, _parse_str_to_int and
    _http_get_content_length_headder). */
module HttpLength {
  import opened Search
  import opened Decimal

  const MAX_ITERATIONS: nat := 20
  const MAX_DIGITS: nat := 9
  const FIELD: string := "Content-Length:"

  /** A length, the C value -1, or an access outside an array. */
  datatype Length = Value(n: nat) | Bad | Overrun

  predicate IsEol(c: char) { c == '\r' || c == '\n' }

  /** The digits of `s`, in order. */
  function Digits(s: string): (d: string)
    ensures AllDigits(d) && |d| <= |s|
    ensures AllDigits(s) ==> d == s
  {
    if s == "" then ""
    else
      assert s == s[..|s| - 1] + [s[|s| - 1]];
      Digits(s[..|s| - 1]) + if IsDigit(s[|s| - 1]) then [s[|s| - 1]] else ""
  }

  function Others(s: string): nat { |s| - |Digits(s)| }

  lemma DigitsNext(s: string, k: nat)
    requires k < |s|
    ensures Digits(s[..k + 1]) == Digits(s[..k]) + if IsDigit(s[k]) then [s[k]] else ""
  {
    assert s[..k + 1][..k] == s[..k];
  }

  /** Only digits and spaces. */
  predicate Parsable(s: string) { forall i :: 0 <= i < |s| ==> IsDigit(s[i]) || s[i] == ' ' }

  /** What `_parse_str_to_int` returns: the number its digits write, or -1. */
  function ParseInt(s: string): int {
    if |s| > MAX_DIGITS || !Parsable(s) then -1 else Val(Digits(s))
  }

  /** It is -1 exactly for over nine characters, or one that is no digit and no space. */
  lemma ParseIntExact(s: string)
    ensures ParseInt(s) == -1 <==> |s| > 9 || exists i :: 0 <= i < |s| && s[i] !in DIGITS && s[i] != ' '
    ensures ParseInt(s) != -1 ==> ParseInt(s) == Val(Digits(s))
  {
    hide Val, Digits, IsDigit;
    forall i | 0 <= i < |s| ensures IsDigit(s[i]) <==> s[i] in DIGITS { IsDigitIff(s[i]); }
  }

  /** `_parse_str_to_int(str, size)` */
  method ParseStrToInt(str: array<char>, size: nat) returns (r: int)
    requires size <= str.Length
    ensures r == ParseInt(str[..size])
  {
    if size > MAX_DIGITS { return -1; }
    var value := 0;
    for i := 0 to size
      invariant Parsable(str[..i]) && value == Val(Digits(str[..i]))
    {
      var c := str[i];
      DigitsNext(str[..], i);
      assert str[..][..i] == str[..i] && str[..][..i + 1] == str[..i + 1];
      if IsDigit(c) {
        ghost var before := Digits(str[..i]);
        assert Digits(str[..i + 1]) == before + [c];
        assert (before + [c])[..|before|] == before;
        value := value * 10 + DigitValue(c);
      } else if c == ' ' {
        assert Digits(str[..i + 1]) == Digits(str[..i]);
      } else {
        assert !Parsable(str[..size]) by { assert str[..size][i] == c; }
        return -1;
      }
    }
    r := value;
  }

  /** The scan of the field's line, at its `k`-th character.  The digit buffer has nine cells,
      so a tenth digit is written outside it. */
  function ScanLine(line: string, k: nat): Length
    requires k <= |line|
    decreases |line| - k
  {
    var digits := Digits(line[..k]);
    if k == |line| then Length.Overrun
    else if IsEol(line[k]) then
      if digits == "" then Value(0)
      else
        var v := ParseInt(digits);
        if v < 0 then Bad else Value(v)
    else if Others(line[..k]) > MAX_ITERATIONS then Bad
    else if |digits| > MAX_DIGITS then Bad
    else if IsDigit(line[k]) && |digits| >= MAX_DIGITS then Length.Overrun
    else ScanLine(line, k + 1)
  }

  /** The length of a header block that starts at `mem[0]` and is `size` long. */
  function ContentLength(mem: string, size: nat): Length
    requires size < SIZE_T
  {
    match Scan(FIELD, mem, size)
    case Absent => Value(0)
    case Overrun => Length.Overrun
    case At(i) => ScanLine(mem[i + 14..], 0)
  }

  /** `_http_get_content_length_headder(buff, size)` */
  method GetContentLength(buff: array<char>, size: nat) returns (r: Length)
    requires buff.Length + |FIELD| < SIZE_T && size < SIZE_T
    ensures r == ContentLength(buff[..], size)
  {
    assert buff[0..] == buff[..];
    var p := FindPattern(FIELD, buff, 0, size);
    match p {
      case Absent => return Value(0);
      case Overrun => return Length.Overrun;
      case At(index) =>
        var numberBuf := new char[MAX_DIGITS](_ => '\0');
        r := ScanDigits(buff, index + 14, numberBuf);
    }
  }

  lemma NothingScanned()
    ensures Digits("") == "" && Others("") == 0
  {
  }

  /** The digit loop, from `buff + start`. */
  method ScanDigits(buff: array<char>, start: nat, numberBuf: array<char>) returns (r: Length)
    requires start <= buff.Length && numberBuf.Length == MAX_DIGITS && numberBuf != buff
    modifies numberBuf
    ensures r == ScanLine(buff[start..], 0)
  {
    hide Digits, Others, ParseInt, Val;
    ghost var line := buff[start..];
    NothingScanned();
    assert line[..0] == "";
    var size, iterations, k := 0, 0, 0;
    while start + k < buff.Length && !IsEol(buff[start + k])
      invariant k <= |line| && buff[start..] == line
      invariant size <= MAX_DIGITS && numberBuf[..size] == Digits(line[..k]) && iterations == Others(line[..k])
      invariant ScanLine(line, k) == ScanLine(line, 0)
    {
      var c := buff[start + k];
      assert c == line[k];
      DigitsNext(line, k);
      OthersNext(line, k);
      if iterations > MAX_ITERATIONS { return Bad; }
      if size > MAX_DIGITS { return Bad; }
      if IsDigit(c) {
        if size >= numberBuf.Length { return Length.Overrun; }
        numberBuf[size] := c;
        size := size + 1;
      } else {
        iterations := iterations + 1;
      }
      k := k + 1;
    }
    if start + k >= buff.Length { return Length.Overrun; }
    assert line[k] == buff[start + k];
    if size == 0 { return Value(0); }
    var v := ParseStrToInt(numberBuf, size);
    r := if v < 0 then Bad else Value(v);
  }

  /** The line up to its end of line, at `e`. */
  ghost predicate LineEnds(line: string, e: nat) {
    e < |line| && IsEol(line[e]) && forall i :: 0 <= i < e ==> !IsEol(line[i])
  }

  /** The text before the first end-of-line character. */
  function UpToEol(line: string): (text: string)
    ensures text <= line
    ensures forall i :: 0 <= i < |text| ==> text[i] != '\r' && text[i] != '\n'
    ensures |text| < |line| ==> line[|text|] == '\r' || line[|text|] == '\n'
  {
    if line == "" || IsEol(line[0]) then "" else [line[0]] + UpToEol(line[1..])
  }

  /** Enough room for the digits, and few enough other characters before the last one. */
  predicate Readable(text: string) {
    |Digits(text)| <= 9 && (text != "" ==> Others(text[..|text| - 1]) <= 20)
  }

  lemma {:induction false} DigitsGrow(s: string, j: nat, k: nat)
    requires j <= k <= |s|
    ensures |Digits(s[..j])| <= |Digits(s[..k])| && Others(s[..j]) <= Others(s[..k])
  {
    if j < k {
      DigitsGrow(s, j, k - 1);
      DigitsNext(s, k - 1);
    }
  }

  /** The scan of a terminated line gives a value exactly when the line is readable, and then
      the value is the number written by all the digits on it. */
  lemma {:induction false} ScanLineExact(line: string, k: nat, e: nat)
    requires LineEnds(line, e) && k <= e
    requires |Digits(line[..k])| <= MAX_DIGITS && (k > 0 ==> Others(line[..k - 1]) <= MAX_ITERATIONS)
    ensures ScanLine(line, k) == Value(Val(Digits(line[..e]))) || !Readable(line[..e])
    ensures ScanLine(line, k).Value? <==> Readable(line[..e])
    decreases e - k
  {
    hide Others, Digits;
    if e > 0 {
      assert line[..e][..e - 1] == line[..e - 1];
    }
    if k < e {
      DigitsNext(line, k);
      if Others(line[..k]) > MAX_ITERATIONS {
        DigitsGrow(line, k, e - 1);
      } else if IsDigit(line[k]) && |Digits(line[..k])| >= MAX_DIGITS {
        DigitsGrow(line, k + 1, e);
      } else {
        ScanLineExact(line, k + 1, e);
      }
    }
  }

  /** At or after `k`, a tenth digit comes before the scan gives up. */
  ghost predicate TenthDigit(text: string, k: nat) {
    exists j: nat :: k <= j < |text| && IsDigit(text[j]) &&
                     |Digits(text[..j])| == 9 && Others(text[..j]) <= 20
  }

  /** The scan of a terminated line writes outside its buffer exactly when such a digit comes. */
  lemma {:induction false} ScanLineOverrun(line: string, k: nat, e: nat)
    requires LineEnds(line, e) && k <= e && |Digits(line[..k])| <= MAX_DIGITS
    ensures ScanLine(line, k) == Length.Overrun <==> TenthDigit(line[..e], k)
    decreases e - k
  {
    hide Digits, Others;
    assert forall j: nat :: j < e ==> line[..e][..j] == line[..j];
    if k < e {
      DigitsNext(line, k);
      if Others(line[..k]) > MAX_ITERATIONS {
        forall j: nat | k <= j < e ensures Others(line[..j]) > MAX_ITERATIONS {
          DigitsGrow(line, k, j);
        }
      } else if IsDigit(line[k]) && |Digits(line[..k])| >= MAX_DIGITS {
        assert IsDigit(line[..e][k]) && line[..e][..k] == line[..k];
      } else {
        ScanLineOverrun(line, k + 1, e);
      }
    }
  }

  /** On a line without an end the scan gives up at its twenty-first other character, when no tenth
      digit came before, and otherwise leaves the memory or the digit buffer. */
  lemma {:induction false} ScanLineOpen(line: string, k: nat)
    requires forall i :: 0 <= i < |line| ==> line[i] != '\r' && line[i] != '\n'
    requires k <= |line| && |Digits(line[..k])| <= 9 && Others(line[..k]) <= 21
    ensures ScanLine(line, k) ==
            if exists j: nat :: k <= j < |line| && Others(line[..j]) == 21 && |Digits(line[..j])| <= 9 then Bad
            else Length.Overrun
    decreases |line| - k
  {
    hide Digits, Others;
    if k < |line| {
      DigitsNext(line, k);
      OthersNext(line, k);
      if Others(line[..k]) <= 20 {
        if IsDigit(line[k]) && |Digits(line[..k])| == 9 {
          forall j: nat | k < j < |line| ensures |Digits(line[..j])| > 9 {
            DigitsGrow(line, k + 1, j);
          }
        } else {
          ScanLineOpen(line, k + 1);
        }
      }
    }
  }

  lemma OthersNext(s: string, k: nat)
    requires k < |s|
    ensures Others(s[..k + 1]) == Others(s[..k]) + if IsDigit(s[k]) then 0 else 1
  {
    DigitsNext(s, k);
  }

  /** A value never exceeds 999999999, whatever the line. */
  lemma {:induction false} ScanLineRange(line: string, k: nat)
    requires k <= |line|
    ensures ScanLine(line, k).Value? ==> ScanLine(line, k).n <= 999_999_999
    decreases |line| - k
  {
    if k < |line| {
      var digits := Digits(line[..k]);
      if IsEol(line[k]) && |digits| <= MAX_DIGITS {
        ValShort(digits);
      }
      ScanLineRange(line, k + 1);
    }
  }

  /** The scan stops within 31 characters: nothing after them can change the result. */
  lemma {:induction false} ScanLineBounded(line: string, k: nat)
    requires |line| >= 31 && k <= 30
    requires |Digits(line[..k])| <= MAX_DIGITS && Others(line[..k]) <= MAX_ITERATIONS + 1
    ensures ScanLine(line[..31], k) == ScanLine(line, k)
    decreases 30 - k
  {
    hide Digits;
    assert line[..31][..k] == line[..k];
    DigitsNext(line, k);
    if k < 30 && Others(line[..k]) <= MAX_ITERATIONS && !(IsDigit(line[k]) && |Digits(line[..k])| >= MAX_DIGITS) {
      ScanLineBounded(line, k + 1);
    }
  }

  /** A complete block: its last four characters are CR LF CR LF. */
  ghost predicate IsBlock(block: string) {
    |block| >= 4 && block[|block| - 4..] == "\r\n\r\n"
  }

  lemma {:induction false} UpToEolEnds(line: string)
    requires exists i :: 0 <= i < |line| && IsEol(line[i])
    ensures LineEnds(line, |UpToEol(line)|)
  {
    if !IsEol(line[0]) {
      var i :| 0 <= i < |line| && IsEol(line[i]);
      assert line[1..][i - 1] == line[i];
      UpToEolEnds(line[1..]);
      var e := |UpToEol(line[1..])|;
      forall j | 0 < j < e + 1 ensures !IsEol(line[j]) { assert line[j] == line[1..][j - 1]; }
    }
  }

  /** Inside a block, the line of a field that starts at `i` ends inside the block. */
  lemma FieldLine(block: string, i: nat)
    requires IsBlock(block) && MatchesAt(FIELD, block, i)
    ensures i + 14 <= |block| && LineEnds(block[i + 14..], |UpToEol(block[i + 14..])|)
  {
    var line := block[i + 14..];
    var last := |block| - 1;
    assert block[i + 14] == block[i..i + |FIELD|][14] == ':';
    assert block[last] == block[|block| - 4..][3] == '\n';
    assert line[last - i - 14] == '\n';
    UpToEolEnds(line);
  }

  /** What follows a terminated line does not change where it ends. */
  lemma LineEndsFrame(line: string, tail: string, e: nat)
    requires LineEnds(line, e)
    ensures LineEnds(line + tail, e)
  {
  }

  /** What the line of a field, up to its end of line, comes to. */
  ghost function LineLength(text: string): Length {
    if Readable(text) then Value(Val(Digits(text))) else if TenthDigit(text, 0) then Length.Overrun else Bad
  }

  /** What the scan finds on a block, exactly: without the field, 0; with it, the number its
      line writes when the line is readable, otherwise the tenth-digit overrun or -1.  The scan
      never leaves the block, so what memory holds after it does not matter, unless the block is
      shorter than the field's name: then the search bound wraps, and the first field in the
      memory behind the block is taken, or the memory is left. */
  lemma ContentLengthExact(block: string, tail: string)
    requires IsBlock(block) && |block| + |tail| + |FIELD| < SIZE_T
    ensures var i := FirstMatch(FIELD, if |block| < |FIELD| then block + tail else block);
            ContentLength(block + tail, |block|) ==
            if |block| < |FIELD| then
              if i == -1 then Length.Overrun else ScanLine((block + tail)[i + 14..], 0)
            else
              if i == -1 then Value(0) else LineLength(UpToEol(block[i + 14..]))
  {
    hide ScanLine, Scan, MatchesAt, LineLength, LineEnds;
    ScanExact(FIELD, block + tail, |block|);
    assert (block + tail)[..|block|] == block;
    var i := FirstMatch(FIELD, block);
    if |block| >= |FIELD| && i != -1 {
      FieldLine(block, i);
      assert (block + tail)[i + 14..] == block[i + 14..] + tail;
      ScanLineLocal(block[i + 14..], tail);
    }
  }

  /** The text up to the line end lies in the part that two memories share. */
  lemma UpToEolSame(a: string, b: string, k: nat)
    requires k < |a| && k < |b| && a[..k + 1] == b[..k + 1] && IsEol(a[k])
    ensures UpToEol(a) == UpToEol(b) && |UpToEol(a)| <= k && LineEnds(a, |UpToEol(a)|)
  {
    hide UpToEol;
    var e := |UpToEol(a)|;
    forall j | 0 <= j < e ensures !IsEol(a[j]) { assert UpToEol(a)[j] == a[j]; }
    SharedFront(a, b, k + 1, e);
    UpToEolUnique(b, UpToEol(a));
  }

  lemma SharedFront(a: string, b: string, n: nat, e: nat)
    requires n <= |a| && n <= |b| && a[..n] == b[..n] && e < n
    ensures a[..e] <= b && a[e] == b[e]
  {
    assert a[..e] == a[..n][..e] == b[..n][..e] == b[..e];
    assert a[e] == a[..n][e] == b[..n][e];
  }

  /** The field's name does not reach over a line end, whole or cut off. */
  lemma NotAcross(mem: string, r: nat, n: nat)
    requires r <= n < |mem| && n < r + 15 && IsEol(mem[n])
    ensures !MatchesAt(FIELD, mem, r) && !(mem[r..] < FIELD)
  {
    Mismatch(FIELD, mem, r, n - r);
  }

  /** The search for the field in a header of `size` bytes that has a line end four bytes before
      its end, as both delimiters leave it, even when it claims up to two bytes more than the
      memory has. */
  lemma FieldSearched(mem: string, size: nat)
    requires 15 <= size <= |mem| + 2 && IsEol(mem[size - 4]) && |mem| + |FIELD| + 2 < SIZE_T
    ensures var i := FirstMatch(FIELD, mem[..size - 4]);
            Scan(FIELD, mem, size) == if i == -1 then Absent else At(i)
  {
    hide MatchesAt;
    var n := size - 4;
    FirstMatchInPrefix(FIELD, mem, n);
    forall r: nat | r <= size - 15 ensures n < r + 15 ==> !MatchesAt(FIELD, mem, r) && !(mem[r..] < FIELD) {
      if n < r + 15 { NotAcross(mem, r, n); }
    }
  }

  /** In a header shorter than the field's name the search bound wraps: the first field in the
      whole memory is taken, or the memory is left. */
  lemma ShortHeader(mem: string, size: nat)
    requires size < 15 && size <= |mem| && |mem| + |FIELD| < SIZE_T
    ensures var i := FirstMatch(FIELD, mem);
            ContentLength(mem, size) == if i == -1 then Length.Overrun else ScanLine(mem[i + 14..], 0)
  {
    hide ScanLine, MatchesAt;
    ScanExact(FIELD, mem, size);
  }

  /** What the length field of such a header comes to: it is read from the bytes in front of that
      line end. */
  lemma HeaderLengthExact(mem: string, size: nat)
    requires 15 <= size <= |mem| + 2 && IsEol(mem[size - 4]) && |mem| + |FIELD| + 2 < SIZE_T
    ensures var i := FirstMatch(FIELD, mem[..size - 4]);
            ContentLength(mem, size) == if i == -1 then Value(0) else LineLength(UpToEol(mem[i + 14..]))
  {
    hide Scan, MatchesAt, LineLength;
    FieldSearched(mem, size);
    var i := FirstMatch(FIELD, mem[..size - 4]);
    if i != -1 {
      var line := mem[i + 14..];
      assert line[size - 4 - (i + 14)] == mem[size - 4];
      UpToEolSame(line, line, size - 4 - (i + 14));
      ScanLineLocal(line, "");
      assert line + "" == line;
    }
  }

  lemma ScanLineLocal(line: string, tail: string)
    requires LineEnds(line, |UpToEol(line)|)
    ensures var text := UpToEol(line);
            ScanLine(line + tail, 0) == LineLength(text)
  {
    var text := UpToEol(line);
    LineEndsFrame(line, tail, |text|);
    ScanLineExact(line + tail, 0, |text|);
    ScanLineOverrun(line + tail, 0, |text|);
    assert (line + tail)[..|text|] == text;
  }

  /** Every value is in 0..999999999, whatever the memory holds. */
  lemma ContentLengthRange(mem: string, size: nat)
    requires size < SIZE_T
    ensures ContentLength(mem, size).Value? ==> ContentLength(mem, size).n <= 999_999_999
  {
    match Scan(FIELD, mem, size)
    case At(i) => ScanLineRange(mem[i + 14..], 0);
    case _ =>
  }

  /** The value of any readable line: its digits are noughts and then the decimal of the value,
      or noughts only. */
  lemma ContentLengthWritten(block: string, tail: string) returns (k: nat)
    requires IsBlock(block) && |block| + |tail| + |FIELD| < SIZE_T && FirstMatch(FIELD, block) != -1
    requires Readable(UpToEol(block[FirstMatch(FIELD, block) + 14..]))
    ensures var r := ContentLength(block + tail, |block|);
            && r.Value?
            && Digits(UpToEol(block[FirstMatch(FIELD, block) + 14..])) == Noughts(k) + Positive(r.n)
  {
    hide Readable, ContentLength, MatchesAt, Val, Dec;
    ContentLengthExact(block, tail);
    k := ValIsDecimal(Digits(UpToEol(block[FirstMatch(FIELD, block) + 14..])));
  }

  /** Round trip: the first field of that name in the block, at `i`, carries a space, the
      decimal of `n`, and an end of line. */
  lemma ContentLengthRoundTrip(block: string, i: nat, n: nat, tail: string)
    requires IsBlock(block) && |block| + |tail| + |FIELD| < SIZE_T && n < 1_000_000_000
    requires FirstMatch(FIELD, block) == i && ": " + Dec(n) + "\r\n" <= block[i + 14..]
    ensures ContentLength(block + tail, |block|) == Value(n)
  {
    FieldText(block[i + 14..], n);
    ContentLengthExact(block, tail);
  }

  lemma FieldText(line: string, n: nat)
    requires n < 1_000_000_000 && ": " + Dec(n) + "\r\n" <= line
    ensures var text := UpToEol(line); Readable(text) && Digits(text) == Dec(n)
  {
    var text := ": " + Dec(n);
    DecShort(n);
    assert line[..|text|] == text && line[|text|] == '\r';
    UpToEolUnique(line, text);
    DigitsOfField(Dec(n));
  }

  lemma {:induction false} UpToEolUnique(line: string, text: string)
    requires text <= line && |text| < |line| && IsEol(line[|text|])
    requires forall i :: 0 <= i < |text| ==> !IsEol(text[i])
    ensures UpToEol(line) == text
  {
    if text != "" {
      assert line[0] == text[0];
      UpToEolUnique(line[1..], text[1..]);
      assert text == [text[0]] + text[1..];
    }
  }

  lemma {:induction false} DigitsOfField(d: string)
    requires AllDigits(d)
    ensures Digits(": " + d) == d
    ensures d != "" && |d| <= MAX_DIGITS ==> Readable(": " + d)
  {
    var s := ": " + d;
    if d == "" {
      assert s == ": ";
      DigitsNext(s, 0);
      DigitsNext(s, 1);
      assert s[..2] == s && s[..0] == "";
    } else {
      var init := d[..|d| - 1];
      assert s[..|s| - 1] == ": " + init;
      DigitsOfField(init);
      assert init + [d[|d| - 1]] == d;
    }
  }
}

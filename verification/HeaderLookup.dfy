/** Header fields and the buffered header receive (src/cmon_proxy/cmon_http.c,
    c_http_get_header_field, _c_http_buf_get_header_value_view, c_http_buf_get_header_field,
    c_http_c_buf_recv_header). */
module HeaderLookup {
  import opened Search
  import opened Buffer
  import opened Wrappers
  import H = HttpHeader
  import L = HttpLength

  const CRLF: string := "\r\n"
  const INT_MAX: nat := 0x7fff_ffff

  // enum CmonHttpErrCodes
  const SUCCESS: int := 0
  const NULL_ARG: int := 1
  const HEADER_PARSING_ERR: int := 2
  const RECV_ERR: int := 3
  const BUFFER_ERR: int := 4
  const SOCKET_CLOSE: int := 6
  const KEY_NOT_FOUND: int := 7

  /** A return code, or an access outside an array. */
  datatype Answer = Code(rc: int) | Overrun

  /** Where a value lies in the block. */
  datatype Range = Range(start: nat, len: nat) | NoKey | NoEnd | Overrun

  /** The two searches of a lookup.  The second covers `size - start` bytes, or, in the lookup
      through a view, the longer `size - offset` of the macro. */
  function Locate(mem: string, size: nat, key: string, wide: bool): Range
    requires size < SIZE_T && |key| + 1 < SIZE_T
  {
    match Scan(key + ":", mem, size)
    case Absent => NoKey
    case Overrun => Range.Overrun
    case At(offset) =>
      var start := offset + |key| + 1;
      match Scan(CRLF, mem[start..], (size - if wide then offset else start) % SIZE_T)
      case Absent => NoEnd
      case Overrun => Range.Overrun
      case At(len) => Range(start, len)
  }

  /** The searches of both lookups, on memory. */
  method LocateValue(mem: array<char>, size: nat, key: string, wide: bool) returns (r: Range)
    requires mem.Length + |key| + 2 < SIZE_T && size < SIZE_T
    ensures r == Locate(mem[..], size, key, wide)
    ensures r.Range? ==> r.start + r.len <= mem.Length
  {
    hide Scan;
    assert mem[0..] == mem[..];
    var p := FindPattern(key + ":", mem, 0, size);
    match p {
      case Absent => return NoKey;
      case Overrun => return Range.Overrun;
      case At(offset) =>
        var start := offset + |key| + 1;
        assert mem[start..] == mem[..][start..];
        var q := FindPattern(CRLF, mem, start, (size - if wide then offset else start) % SIZE_T);
        match q {
          case Absent => r := NoEnd;
          case Overrun => r := Range.Overrun;
          case At(len) => r := Range(start, len);
        }
    }
  }

  /** `c_http_get_header_field(header, size, key, |key|, buf, bufSize)` */
  method GetHeaderField(header: array?<char>, size: nat, key: string, buf: array?<char>, bufSize: nat)
    returns (a: Answer)
    requires header != null ==> size <= header.Length && header.Length + |key| + 2 < SIZE_T && header != buf
    requires buf != null ==> bufSize <= buf.Length
    modifies buf
    ensures header == null || buf == null ==> a == Code(-1)
    ensures header != null && buf != null && (size == 0 || bufSize == 0 || key == "") ==> a == Code(-2)
    ensures header != null && buf != null && size != 0 && bufSize != 0 && key != "" ==>
              match Locate(header[..], size, key, false)
              case NoKey => a == Code(0)
              case NoEnd => a == Code(-3)
              case Overrun => a == Answer.Overrun
              case Range(start, len) =>
                if len > INT_MAX || len > bufSize then a == Code(-4)
                else start + len <= header.Length && a == Code(len) &&
                     buf[..len] == header[start..start + len] && buf[len..] == old(buf[len..])
    ensures buf != null && (a == Answer.Overrun || a.rc <= 0) ==> buf[..] == old(buf[..])
  {
    hide Locate;
    if header == null || buf == null { return Code(-1); }
    if size == 0 || bufSize == 0 || key == "" { return Code(-2); }
    var r := LocateValue(header, size, key, false);
    match r {
      case NoKey => return Code(0);
      case NoEnd => return Code(-3);
      case Overrun => return Answer.Overrun;
      case Range(start, len) =>
        if len > INT_MAX { return Code(-4); }
        if bufSize < len { return Code(-4); }
        ghost var rest := buf[len..];
        forall i | 0 <= i < len {
          buf[i] := header[start + i];
        }
        assert buf[len..] == rest && header[..] == old(header[..]);
        return Code(len);
    }
  }

  /** `_c_http_buf_get_header_value_view(header, key, |key|, &view)` */
  method GetValueView(header: CmonBuffer?, key: string) returns (a: Answer, view: Option<View>)
    requires header != null ==> header.Valid() && header.cap + |key| + 2 < SIZE_T
    ensures header == null ==> a == Code(NULL_ARG)
    ensures header != null ==>
              match Locate(header.buf[..], header.len, key, true)
              case NoKey => a == Code(KEY_NOT_FOUND)
              case NoEnd => a == Code(HEADER_PARSING_ERR)
              case Overrun => a == Answer.Overrun
              case Range(start, len) => a == Code(SUCCESS) && view == Some(View(header.buf, start, len))
    ensures a == Code(SUCCESS) ==>
              header != null && view.Some? && view.value.from + view.value.len <= view.value.buf.Length
  {
    view := None;
    if header == null { return Code(NULL_ARG), view; }
    var r := LocateValue(header.buf, header.len, key, true);
    match r {
      case NoKey => a := Code(KEY_NOT_FOUND);
      case NoEnd => a := Code(HEADER_PARSING_ERR);
      case Overrun => a := Answer.Overrun;
      case Range(start, len) =>
        a, view := Code(SUCCESS), Some(View(header.buf, start, len));
    }
  }

  /** `c_http_buf_get_header_field(header, key, |key|, buf)` */
  method BufGetHeaderField(header: CmonBuffer?, key: string, buf: CmonBuffer?) returns (a: Answer)
    requires header != null ==> header.Valid() && header.cap + |key| + 2 < SIZE_T
    requires buf != null ==> buf.Valid()
    requires header != null && buf != null ==> header != buf && header.buf != buf.buf
    modifies buf, if buf == null then {} else {buf.buf}
    ensures buf != null ==> buf.Valid()
    ensures header == null || buf == null ==> a == Code(NULL_ARG)
    ensures header != null && buf != null && old(buf.len) != 0 ==> a == Code(BUFFER_ERR)
    ensures header != null && buf != null && old(buf.len) == 0 ==>
              match Locate(header.buf[..], header.len, key, true)
              case NoKey => a == Code(KEY_NOT_FOUND)
              case NoEnd => a == Code(HEADER_PARSING_ERR)
              case Overrun => a == Answer.Overrun
              case Range(start, len) =>
                start + len <= header.cap && a == Code(SUCCESS) && buf.Bytes() == header.buf[start..start + len]
    ensures buf != null && a != Code(SUCCESS) ==> buf.Mem() == old(buf.Mem())
  {
    hide Locate, Does;
    if header == null || buf == null { return Code(NULL_ARG); }
    if buf.len != 0 { return Code(BUFFER_ERR); }
    var view;
    a, view := GetValueView(header, key);
    if a != Code(SUCCESS) { return; }
    ghost var value := header.buf[view.value.from..view.value.from + view.value.len];
    var rc := buf.InsertAt(view.value.buf, view.value.from, view.value.len, buf.len);
    IntoEmpty(value, old(buf.Mem()), buf.Mem());
  }

  lemma IntoEmpty(src: string, b: Raw, b': Raw)
    requires b.Valid() && b.len == 0 && Does(Insert(src, 0), b, b')
    ensures b'.Live() == src
  {
  }

  /** A key that can be looked up: no CR or LF in it. */
  predicate PlainKey(key: string) { key != "" && forall i :: 0 <= i < |key| ==> !L.IsEol(key[i]) }

  /** In a block, a field is followed by at least the final CRLF CRLF. */
  lemma FieldInside(block: string, key: string, offset: nat)
    requires L.IsBlock(block) && PlainKey(key) && MatchesAt(key + ":", block, offset)
    ensures offset + |key| + 1 <= |block| - 4
  {
    var dotted := key + ":";
    var last := offset + |key|;
    assert block[last] == block[offset..offset + |dotted|][|key|] == ':';
    assert block[offset] == block[offset..offset + |dotted|][0] == key[0];
    var end := block[|block| - 4..];
    assert end[0] == block[|block| - 4] && end[1] == block[|block| - 3] && end[2] == block[|block| - 2] &&
           end[3] == block[|block| - 1];
  }

  /** In the text after a field of a block, the first CRLF comes before the end. */
  lemma ValueEnds(rest: string)
    requires |rest| >= 4 && rest[|rest| - 4..] == "\r\n\r\n"
    ensures FirstMatch(CRLF, rest) != -1 && FirstMatch(CRLF, rest) + 4 <= |rest|
  {
    var q := |rest| - 4;
    H.TwoChars(CRLF, rest, q);
    assert rest[q] == rest[q..][0] && rest[q + 1] == rest[q..][1];
    assert MatchesAt(CRLF, rest, q);
  }

  /** A search whose window holds the first match finds it, whatever lies after the window. */
  lemma ScanWithin(p: string, text: string, tail: string, window: nat)
    requires p != [] && FirstMatch(p, text) != -1 && |text| + |tail| + |p| < SIZE_T
    requires FirstMatch(p, text) + |p| <= window < SIZE_T
    ensures Scan(p, text + tail, window) == At(FirstMatch(p, text))
  {
    PrefixStable(p, text, tail);
  }

  /** What the lookups find in any text of `size` bytes, complete or not: the first `key:` in it,
      and behind that the first CRLF, in the rest of the text or, through a view, up to the key and
      its colon further.  A rest of fewer than two bytes makes the search wrap. */
  lemma LocateAny(text: string, tail: string, key: string)
    requires key != "" && |key| + 1 <= |text| && 2 * |text| + |tail| + |key| + 2 < SIZE_T
    ensures var offset, all := FirstMatch(key + ":", text), text + tail;
            var start := offset + |key| + 1;
            if offset == -1 then
              Locate(all, |text|, key, false) == NoKey && Locate(all, |text|, key, true) == NoKey
            else
              && start <= |text|
              && Locate(all, |text|, key, false) ==
                 (if |text| - start < 2 then EndOf(start, all[start..], Range.Overrun)
                  else EndOf(start, text[start..], NoEnd))
              && (|tail| > |key| ==>
                  Locate(all, |text|, key, true) == EndOf(start, all[start..|text| + |key| + 1], NoEnd))
  {
    hide Scan, MatchesAt, FirstMatch, EndOf;
    var dotted, all := key + ":", text + tail;
    ScanExact(dotted, all, |text|);
    assert all[..|text|] == text;
    var offset := FirstMatch(dotted, text);
    if offset != -1 {
      var start := offset + |key| + 1;
      assert all[start..][..|text| - start] == text[start..];
      EndScanned(all[start..], |text| - start, start);
      if |tail| > |key| {
        assert all[start..][..|text| - offset] == all[start..|text| + |key| + 1];
        EndScanned(all[start..], |text| - offset, start);
      }
    }
  }

  /** The search for the line end in a window of the memory. */
  lemma EndScanned(rest: string, window: nat, start: nat)
    requires window <= |rest| && |rest| + 2 < SIZE_T
    ensures (match Scan(CRLF, rest, window)
             case Absent => NoEnd
             case Overrun => Range.Overrun
             case At(len) => Range(start, len))
            == if window < 2 then EndOf(start, rest, Range.Overrun) else EndOf(start, rest[..window], NoEnd)
  {
    hide Scan, MatchesAt;
    ScanExact(CRLF, rest, window);
  }

  /** The range up to the first CRLF, or what there is without one. */
  function EndOf(start: nat, rest: string, none: Range): Range {
    if FirstMatch(CRLF, rest) == -1 then none else Range(start, FirstMatch(CRLF, rest))
  }

  /** What a lookup finds in a complete block: exactly the text from the colon of the first
      `key:` to the next CRLF, if and only if the key and its colon are not longer than the block.
      It is so for both lookups, although the window of the one through a view is longer than the
      block, and whatever memory holds after the block. */
  lemma LocateExact(block: string, tail: string, key: string, wide: bool)
    requires L.IsBlock(block) && PlainKey(key)
    requires 2 * |block| + |tail| + |key| + 2 < SIZE_T
    ensures Locate(block + tail, |block|, key, wide) == FieldRange(block, key) <==> |key| + 1 <= |block|
  {
    hide Scan, MatchesAt;
    var dotted := key + ":";
    ScanExact(dotted, block + tail, |block|);
    assert (block + tail)[..|block|] == block;
    var offset := FirstMatch(dotted, block);
    if offset != -1 {
      FieldInside(block, key, offset);
      ValueScanned(block, tail, key, offset, |block| - offset);
      ValueScanned(block, tail, key, offset, |block| - offset - |key| - 1);
    }
  }

  /** The second search, over any window that reaches at least to the end of the block. */
  lemma ValueScanned(block: string, tail: string, key: string, offset: nat, window: nat)
    requires L.IsBlock(block) && PlainKey(key) && FirstMatch(key + ":", block) == offset
    requires 2 * |block| + |tail| + |key| + 2 < SIZE_T
    requires |block| - offset - |key| - 1 <= window < SIZE_T
    ensures var start := offset + |key| + 1;
            start <= |block| && FirstMatch(CRLF, block[start..]) != -1 &&
            Scan(CRLF, (block + tail)[start..], window) == At(FirstMatch(CRLF, block[start..]))
  {
    FieldInside(block, key, offset);
    hide Scan, MatchesAt;
    var start := offset + |key| + 1;
    var rest := block[start..];
    assert rest[|rest| - 4..] == block[|block| - 4..];
    ValueEnds(rest);
    assert (block + tail)[start..] == rest + tail;
    ScanWithin(CRLF, rest, tail, window);
  }

  /** The documented range of a field's value. */
  function FieldRange(block: string, key: string): (r: Range)
    requires key != ""
    ensures r.Range? ==> r.start + r.len <= |block|
  {
    var offset := FirstMatch(key + ":", block);
    if offset == -1 then NoKey
    else
      var start := offset + |key| + 1;
      var len := FirstMatch(CRLF, block[start..]);
      if len == -1 then NoEnd else Range(start, len)
  }

  /** The two lookups give the same bytes, over any memory behind their copies of the block. */
  lemma LookupsAgree(block: string, tail: string, tail': string, key: string)
    requires L.IsBlock(block) && PlainKey(key) && |key| + 1 <= |block|
    requires 2 * |block| + |tail| + |key| + 2 < SIZE_T && 2 * |block| + |tail'| + |key| + 2 < SIZE_T
    ensures Locate(block + tail, |block|, key, false) == Locate(block + tail', |block|, key, true)
    ensures !Locate(block + tail, |block|, key, false).Overrun? && !Locate(block + tail, |block|, key, false).NoEnd?
  {
    LocateExact(block, tail, key, false);
    LocateExact(block, tail', key, true);
    FieldHasEnd(block, key);
  }

  lemma FieldHasEnd(block: string, key: string)
    requires L.IsBlock(block) && PlainKey(key)
    ensures FieldRange(block, key).Range? || FieldRange(block, key).NoKey?
  {
    var offset := FirstMatch(key + ":", block);
    if offset != -1 {
      FieldInside(block, key, offset);
      var rest := block[offset + |key| + 1..];
      assert rest[|rest| - 4..] == block[|block| - 4..];
      ValueEnds(rest);
    }
  }

  /** A header field as a sender writes it. */
  datatype Field = Field(name: string, value: string)

  function RenderFields(fields: seq<Field>): string {
    if fields == [] then ""
    else RenderFields(fields[..|fields| - 1]) + fields[|fields| - 1].name + ":" + fields[|fields| - 1].value + CRLF
  }

  /** A block: its first line, its fields, an empty line. */
  function Render(line: string, fields: seq<Field>): string {
    line + CRLF + RenderFields(fields) + CRLF
  }

  lemma {:induction false} RenderSplit(fields: seq<Field>, i: nat) returns (after: string)
    requires i < |fields|
    ensures RenderFields(fields) == RenderFields(fields[..i]) + fields[i].name + ":" + fields[i].value + CRLF + after
    decreases |fields| - i
  {
    if i == |fields| - 1 {
      after := "";
      assert RenderFields(fields) + "" == RenderFields(fields);
    } else {
      var init, f := fields[..|fields| - 1], fields[|fields| - 1];
      assert init[..i] == fields[..i] && init[i] == fields[i];
      var a := RenderSplit(init, i);
      var g := f.name + ":" + f.value + CRLF;
      after := a + g;
      assert RenderFields(fields) == RenderFields(init) + g;
      assert RenderFields(init) + g == RenderFields(fields[..i]) + fields[i].name + ":" + fields[i].value + CRLF +
             (a + g);
    }
  }

  /** When the first `name:` in a rendered block is the name of field `i`, the lookup of that
      name gives the text of that field. */
  lemma RenderedFieldFound(line: string, fields: seq<Field>, i: nat)
    requires i < |fields| && PlainKey(fields[i].name) && FirstMatch(CRLF, fields[i].value) == -1
    requires FirstMatch(fields[i].name + ":", Render(line, fields)) == |line| + 2 + |RenderFields(fields[..i])|
    ensures var block := Render(line, fields);
            var r := FieldRange(block, fields[i].name);
            r.Range? && block[r.start..r.start + r.len] == fields[i].value
  {
    hide MatchesAt;
    var f := fields[i];
    var after := RenderSplit(fields, i);
    SplitBlock(line + CRLF, RenderFields(fields[..i]), f.name, f.value, after, Render(line, fields));
    ValueThenCrlf(f.value, after + CRLF);
  }

  lemma SplitBlock(first: string, before: string, name: string, value: string, after: string, block: string)
    requires block == first + (before + name + ":" + value + CRLF + after) + CRLF
    ensures var start := |first| + |before| + |name| + 1;
            start + |value| <= |block| &&
            block[start..] == value + (CRLF + (after + CRLF)) && block[start..start + |value|] == value
  {
  }

  lemma ValueThenCrlf(value: string, after: string)
    requires FirstMatch(CRLF, value) == -1
    ensures FirstMatch(CRLF, value + (CRLF + after)) == |value|
  {
    var text := value + (CRLF + after);
    forall q: nat | q < |value| ensures !MatchesAt(CRLF, text, q) {
      H.TwoChars(CRLF, text, q);
      if q + 1 < |value| {
        assert !MatchesAt(CRLF, value, q);
        H.TwoChars(CRLF, value, q);
      }
    }
    H.TwoChars(CRLF, text, |value|);
    FirstMatchUnique(CRLF, text, |value|);
  }
}

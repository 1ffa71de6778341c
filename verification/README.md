# Verification of cmon

A Dafny model of the stateful core of cmon, and proofs about it: the HTTP/1.1 framing and relay
of the proxy, the growable byte buffer, the pattern search, the configuration tokenizer and
parser, and the path from the text of `pstree` to the signals sent.  `dafny verify
dfyconfig.toml` checks the whole project.

## How C is modelled

- A C `char` is a Dafny `char`; a run of C memory is a `string`, a C array an `array<char>`.
  The code compares characters and, for digits, subtracts `'0'`; nothing depends on their width.
- `size_t` arithmetic is written out modulo 2^64 wherever it can wrap.
- An access outside an array, through NULL or past an allocation is an outcome (`Overrun`,
  `Fault`, `Crash`, `ok == false`), not a precondition, so the theorems say for which inputs the
  code stays in bounds.  A loop turn that changes nothing is the outcome `Hangs`, and
  `Relay.HangsForever` proves that no number of turns ends it.
- What a peer sends is a list of non-empty segments.  A read returns bytes of the first segment
  only, at most as many as asked for; after the last one it returns 0, or -1 when `fails` is set.
  A statement about every list of segments is a statement about every way the reads may split
  the stream.  A receiver takes `room` more bytes, so writes may be short.
- Memory from `malloc` holds arbitrary characters.

Code that loops or updates fields is a method or a class, proved against a specification
function or a closed form; the properties below are lemmas about those functions.

## Where the code does not do what it says

The model keeps the code, and each point has a theorem that says exactly when it is harmless.

- The search bound `t_len - p_len` wraps for a text shorter than the pattern
  (`src/utils/c_utils_str.c:54`).  The search meets its documentation if and only if the pattern
  is not longer (`Search.ScanExact`), so a first read of fewer than four bytes breaks header
  detection (`HttpHeader.ShortFirstRead`), a lookup is right if and only if the key and its colon
  are not longer than the block (`HeaderLookup.LocateExact`), and in a block shorter than
  `Content-Length:` the length is looked for in the memory behind it
  (`HttpLength.ContentLengthExact`).
- A bare LF LF ends the header with a length two bytes too long
  (`src/cmon_proxy/cmon_http.c:111-113`).  The header length is independent of how the stream is
  split if and only if none precedes the delimiter (`HttpHeader.FragmentationIndependentIff`);
  when one does, it is right for exactly the splits on which no read ends between the two
  (`HttpHeader.SplitRightIff`).
- The digit buffer has nine cells and its guard allows a tenth write
  (`src/cmon_proxy/cmon_http.c:220`, `237-245`); see `HttpLength.ContentLengthExact`.
- Reads are not capped by the bytes that remain of the message, and a peer that closes in the
  middle of a body makes the relay loop forever (`src/cmon_proxy/cmon_proxy.c:87-142`, against the
  comment at 49-50).  `Relay.RunExact` says exactly when the relay succeeds and when it hangs, as
  long as nothing past the message has been read; `Relay.LandsIffReadEnds` says the first in terms
  of the sender's segments.
- The header read may itself take bytes past the message.  Then the relay fails, unless the message
  has no body: that one returns its total and the bytes held, the start of the next message, are
  dropped.  And after a first read of fewer than four bytes the header may claim more than was
  received: then the relay leaves its arrays, unless the message has no body: that one returns its
  total, having sent buffer contents that were never received.  `HttpMessage.StartedOutcome` has
  every message started, `HttpMessage.SuccessConserves` says which successes lose or invent bytes,
  and `Proxy.ForwardIff` says, on the segments alone, when a message with anything behind it is
  forwarded and nothing is lost.
- The response is used without a NULL test (`src/cmon_proxy/cmon_proxy.c:193-194`).
  `Proxy.HandleClient` says that a cleanly split connection ends there if and only if some request
  has no response, and what has been forwarded by then.
- A new buffer is filled with `strncpy`, which stops at a NUL (`src/utils/c_utils_buffer.c:55`);
  see `Buffer.StrNCopiedExact`.
- An empty string token has no value, a word at the end of the token list is followed by NULL,
  and `_char_arr_len` counts a string over 257 characters as 0; see
  `ConfigProjection.FaultsExactly`.
- A digit in a process name is taken for a pid and signalled, and a pid of ten digits leaves the
  buffer (`src/lib/ps_tree/ps_tree.c:71-82`); see `ProcessTree.ExtractionIff`.

## Model

| member | source | states |
|---|---|---|
| Search.FirstMatch | src/utils/c_utils_str.c:37-42 | the least index where the pattern occurs, and -1 exactly when it occurs nowhere |
| Search.FindPattern | src/utils/c_utils_str.c:43-64 | for every pattern, memory and claimed length, the result of the nested loops in closed form: first match if the wrapped bound admits it, leaving the memory exactly when some tried index has the rest of it as the start of a match |
| Search.ScanExact | src/utils/c_utils_str.c:54 | the documented result (index or -1) if and only if the pattern is not longer than the text; otherwise never -1 |
| Search.PrefixStable | src/utils/c_utils_str.c:37-64 | a match found in a text is the same in every extension of it |
| Search.NewMatchEndsInExtension | src/utils/c_utils_str.c:37-64 | a match that appears only in an extension ends in the added part |
| Search.FirstMatchInPrefix | src/utils/c_utils_str.c:37-64 | the first match of a prefix is the first match of the text when that ends in the prefix, else none |
| Search.CopyN | src/utils/c_utils_str.c:17-34 | error codes for NULL and for lack of room, and otherwise exactly the n bytes copied and every other byte kept |
| Net.Socket.Read | src/cmon_proxy/cmon_http.c:92-103 | one read delivers a non-empty prefix of what has arrived, or 0 or -1 at the end, and the rest stays in the stream |
| Net.Socket.Peek | src/cmon_proxy/cmon_sockets.h:8 | shows what has arrived and consumes nothing |
| HttpHeader.JudgeBuffer | src/cmon_proxy/cmon_http.c:107-114 | the two delimiter searches after a read, over the whole buffer memory |
| HttpHeader.RecvHeader | src/cmon_proxy/cmon_http.c:79-118 | status, bytes read and unread segments equal the read loop's specification; the buffer is the bytes received, then its old content |
| HttpHeader.JudgeFront | src/cmon_proxy/cmon_http.c:107-114 | with four bytes read the decision depends on the bytes read only |
| HttpHeader.HeaderExact | src/cmon_proxy/cmon_http.c:79-118 | for every split whose first read has four bytes: the length is that of the first CRLFCRLF of the whole stream, the last read was the one that completed it, and received plus unread bytes are the stream |
| HttpHeader.HeaderAbsent | src/cmon_proxy/cmon_http.c:84-104 | when no delimiter of either kind ends inside the buffer, for every split whose first read has four bytes: 0 if the peer closes before the buffer is full, -1 if the buffer fills or a read fails |
| HttpHeader.HeaderTooLong | src/cmon_proxy/cmon_http.c:84-104 | -1, for every split whose first read has four bytes, when the delimiter ends past the buffer and no bare LF LF precedes it |
| HttpHeader.RecvExact | src/cmon_proxy/cmon_http.c:79-118 | for any stream whose first read has four bytes, in any segments: the result and how much is read, in full, said of the segments |
| HttpHeader.HeaderReads | src/cmon_proxy/cmon_http.c:92-116 | where the header reads stop, said of the segments: at the end of the first segment that reaches the end of the header, or at the end of the buffer; the rest of the segments is unread |
| HttpHeader.BareLfExact | src/cmon_proxy/cmon_http.c:107-114 | with a bare LF LF first, with or without a delimiter behind it: the length for every split, the delimiter's exactly when the read that brings the LF LF brings it too |
| HttpHeader.SplitRightIff | src/cmon_proxy/cmon_http.c:79-118 | for each single split: the length is right if and only if no bare LF LF precedes the delimiter or no read ends between them |
| HttpHeader.FragmentationIndependentIff | src/cmon_proxy/cmon_http.c:107-114 | the length is right for every split whose first read has four bytes, and every old buffer content, if and only if no bare LF LF precedes the delimiter |
| HttpHeader.BareLfSplit | src/cmon_proxy/cmon_http.c:111-114 | for every stream with a bare LF LF before the delimiter, a split on which the length is wrong |
| HttpHeader.ShortFirstRead | src/cmon_proxy/cmon_http.c:92-114 | after a first read of fewer than four bytes nothing more is read: the code leaves the buffer, or claims the header up to a CRLFCRLF that what the buffer held before completes |
| HttpLength.ParseStrToInt | src/cmon_proxy/cmon_http.c:41-60 | the loop equals its specification |
| HttpLength.ParseIntExact | src/cmon_proxy/cmon_http.c:41-60 | -1 exactly for over nine characters, or one that is none of the ten digits and no space; else the value of the digits |
| Decimal.ValIsDecimal | src/cmon_proxy/cmon_http.c:49-51 | every digit run is noughts and then the decimal, in the characters 0 to 9, of the value computed for it |
| HttpLength.GetContentLength | src/cmon_proxy/cmon_http.c:214-264 | the field search and digit scan equal their specification on every memory |
| HttpLength.ScanDigits | src/cmon_proxy/cmon_http.c:228-263 | the digit loop, with its nine-cell buffer, equals the line scan |
| HttpLength.ScanLineExact | src/cmon_proxy/cmon_http.c:230-263 | a terminated line gives a value if and only if it has at most nine digits and at most twenty other characters before its last, and then the number all its digits write |
| HttpLength.ScanLineOverrun | src/cmon_proxy/cmon_http.c:237-245 | the digit buffer is overrun if and only if a tenth digit comes before more than twenty other characters |
| HttpLength.ScanLineBounded | src/cmon_proxy/cmon_http.c:230-250 | nothing after the first 31 characters of the line can change the result |
| HttpLength.ScanLineOpen | src/cmon_proxy/cmon_http.c:230-250 | on a line without an end: given up exactly at the twenty-first other character before a tenth digit, else an access outside an array |
| HttpLength.ContentLengthExact | src/cmon_proxy/cmon_http.c:214-264 | on a block ending in CRLFCRLF, in full: 0 without the field, else by the first field's line its value, the tenth-digit overrun, or -1, and memory behind the block has no say; in a block shorter than the field's name the first field in that memory is taken, or the memory is left |
| HttpLength.ContentLengthRange | src/cmon_proxy/cmon_http.c:214-264 | every value is in 0..999999999 |
| HttpLength.ContentLengthWritten | src/cmon_proxy/cmon_http.c:214-264 | for every readable first line, the digits on it are noughts and then the decimal of the value |
| HttpLength.HeaderLengthExact | src/cmon_proxy/cmon_http.c:214-264 | the length of any header that either delimiter ends, even one that claims two bytes more than the memory: read from the bytes before its last line end |
| HttpLength.ContentLengthRoundTrip | src/cmon_proxy/cmon_http.c:207-264 | a block whose first field carries the decimal of any n below 10^9 gives back n (section 8.6 of RFC 9110) |
| Relay.IterateProgress | src/cmon_proxy/cmon_proxy.c:87-142 | a turn decreases the measure or changes nothing |
| Relay.HangsForever | src/cmon_proxy/cmon_proxy.c:87-142 | after `Hangs` no number of turns ends the loop |
| Relay.IterateConserves | src/cmon_proxy/cmon_proxy.c:87-142 | a turn keeps the size_t account and conserves written, held and unread bytes in order |
| Relay.CallsKeepAccount | src/cmon_proxy/cmon_http.c:606-692 | under any interleaving of receive and flushing send the account holds, the held bytes are the stream between what was written and what is unread, at most 8192, and no counter wraps when the peer sends nothing past the message |
| Relay.RunConserves | src/cmon_proxy/cmon_proxy.c:87-153 | however a relay ends, the bytes written are a prefix of those held and unread, once each |
| Relay.FailedWrites | src/cmon_proxy/cmon_proxy.c:87-153 | what a failed relay has written: exactly what the receiver had room for, or all that was read, past the message or up to a failed read |
| Relay.RunExact | src/cmon_proxy/cmon_proxy.c:87-153 | from a state in which nothing past the message has been read (framed), without lines 101-136: the total is returned if and only if the reads stop at the end of the message and the receiver takes it; the loop never ends if and only if the peer closes early and the receiver takes all; else -1 |
| Relay.RunOverread | src/cmon_proxy/cmon_proxy.c:87-153 | from a state that holds more than the message has left: -1, or, when the message is already complete, the total with nothing changed and the bytes held left behind |
| Relay.OverreadWrites | src/cmon_proxy/cmon_proxy.c:87-153 | what it writes then: what it held and one read behind it, as far as the receiver takes them; nothing if that read fails |
| Relay.SentDelivers | src/cmon_proxy/cmon_proxy.c:144-146 | when the total is returned from a framed state, exactly the rest of the message was written and exactly what follows it is unread |
| Relay.LandsIffReadEnds | src/cmon_proxy/cmon_http.c:676-689 | for segments of any length: reads stop at the end of the message if and only if it is the end of a segment, or in one at a multiple of the buffer size, counted in the first from the first read's room |
| Relay.RelayAligned | src/cmon_proxy/cmon_proxy.c:80-146 | without pipelining the relay returns the total, writes exactly what it held and the rest of the message, and leaves the next message untouched |
| HttpMessage.Message.RecvBodyChunk | src/cmon_proxy/cmon_http.c:653-692 | every return code and the new fields, equal to the account's receive step |
| HttpMessage.Message.SendBodyChunk | src/cmon_proxy/cmon_http.c:606-640 | writes body_chunk[..cur_body_size] or fails; flushing empties it, not flushing keeps it |
| HttpMessage.Message.CopyExcess | src/cmon_proxy/cmon_http.c:570-572 | the bytes read past the header are the front of the body buffer |
| HttpMessage.Message.Frame | src/cmon_proxy/cmon_http.c:568-588 | the fields of a started message, counters modulo 2^64 |
| HttpMessage.GetMessage | src/cmon_proxy/cmon_http.c:522-591 | NULL, an access outside an array, or a message with its fields, for every content of the allocated buffer, as `StartExact` and `ShortStartExact` say when |
| HttpMessage.StartExact | src/cmon_proxy/cmon_http.c:522-591 | on the stream, when the first segment has four bytes: NULL exactly when no delimiter ends in the buffer or the length line is neither readable nor overlong, an access outside an array exactly for an overlong one, else the message with its length; and what a header shorter than the field's name comes to |
| HttpMessage.ShortStartExact | src/cmon_proxy/cmon_http.c:522-591 | the same when the first segment has fewer bytes, from that segment and what the buffer held |
| HttpMessage.StartBalanced | src/cmon_proxy/cmon_http.c:584-587 | a message whose header was received whole starts in balance, and framed if and only if nothing past it was read |
| HttpMessage.StartedOutcome | src/cmon_proxy/cmon_proxy.c:52-154 | every message started, without lines 101-136: the total is returned, the loop never ends, an array is left, or -1, each exactly when; also when the header claims more than was received and when the header read took bytes past the message |
| HttpMessage.SuccessConserves | src/cmon_proxy/cmon_proxy.c:144-146 | when the total is returned, the bytes written and unread are those received and unread before if and only if the header was received whole and nothing past the message with it |
| HttpMessage.TotalFitsInt | src/cmon_proxy/cmon_proxy.c:146 | the total returned as an int always fits one |
| HttpMessage.SendMessage | src/cmon_proxy/cmon_proxy.c:52-154 | without lines 101-136: header then relay: outcome, bytes written and unread segments equal the run of the account; also NULL, a header longer than its buffer, and a negative body count |
| HttpMessage.RelayBody | src/cmon_proxy/cmon_proxy.c:87-153 | without lines 101-136: the relay loop equals the run, and terminates or reports the turn that repeats for ever |
| Proxy.LengthLocal | src/cmon_proxy/cmon_http.c:574-576 | the length of a header block does not depend on the body bytes behind it |
| Proxy.MessageArrives | src/cmon_proxy/cmon_http.c:522-591 | a well-formed message, in any split whose first segment has four bytes and followed by anything, is received as itself |
| Proxy.ForwardIff | src/cmon_proxy/cmon_proxy.c:168-190 | with anything behind a well-formed message, in any segments and without lines 101-136: it is forwarded whole and what follows it left if and only if the first segment has four bytes and the reads stop at its end, a condition on the segments alone: where the header reads stop, then segment ends and multiples of the body buffer |
| Proxy.ShortSegmentsStop | src/cmon_proxy/cmon_proxy.c:168-190 | for segments that fit behind the header in the buffer and twice in the body buffer, that condition is that the sender ends a segment at the end of the message |
| Proxy.StatedLengthWellFormed | src/cmon_proxy/cmon_http.c:207-264 | a framed header whose Content-Length is the decimal of the body's length, or that has none and no body, is well formed |
| Proxy.OpeningDelivers | src/cmon_proxy/cmon_proxy.c:80-146 | the relay of a received message writes its header and body, once each and in order, and leaves what follows |
| Proxy.ForwardNext | src/cmon_proxy/cmon_proxy.c:168-190 | the turn equals `OneTurn`; on the stream, exactly when no message or an access outside an array follows; and when the stream starts with a message, in any segments, exactly it is taken and written if and only if it is split cleanly |
| Proxy.TurnTaken | src/cmon_proxy/cmon_proxy.c:168-213 | at its place in a stream of messages, a turn takes and writes the message whose turn it is if and only if that is split cleanly, and finds none after the last |
| Proxy.HandleClient | src/cmon_proxy/cmon_proxy.c:156-215 | whatever the peers send: every turn made goes on from where its direction was, all but the last return a total, the last decides how the connection ends, and nothing else is read or written; for any number of requests and responses, in any segments, pipelined or not, without lines 101-136: each request and then its response is taken and forwarded, once each, if and only if each is split cleanly; the proxy then closes when the client does, or uses the response that is missing |
| Proxy.ServedIff | src/cmon_proxy/cmon_proxy.c:166-214 | the if and only if, of the list of turns |
| Proxy.FirstUnclean | src/cmon_proxy/cmon_proxy.c:166-214 | at the first message, in turn order, that is not split cleanly: everything before it was forwarded, it is not, and unless its total is returned the connection ends with it, the other direction untouched |
| Proxy.UnpipelinedClean | src/cmon_proxy/cmon_proxy.c:168-213 | a peer that starts each message in a segment of its own, of at least four bytes, sends cleanly however it splits them |
| Proxy.PlainWellFormed | src/cmon_proxy/cmon_http.c:207-264 | every body below 10^9 bytes, behind a first line and its Content-Length, is a well-formed message |
| HeaderLookup.LocateValue | src/cmon_proxy/cmon_http.c:351-365 | key search and CRLF search, with either window |
| HeaderLookup.GetHeaderField | src/cmon_proxy/cmon_http.c:330-382 | every return code, and on success exactly the value bytes in front of the buffer's old rest |
| HeaderLookup.GetValueView | src/cmon_proxy/cmon_http.c:410-434 | every code, and on success a view inside the header's memory |
| HeaderLookup.BufGetHeaderField | src/cmon_proxy/cmon_http.c:449-468 | every code; on success the buffer is the value, otherwise it is unchanged |
| HeaderLookup.LocateExact | src/cmon_proxy/cmon_http.c:27-27 | on a complete block both lookups find the text from the first `key:` to the next CRLF, whatever memory follows and in spite of the longer window, if and only if the key and its colon are not longer than the block |
| HeaderLookup.LocateAny | src/cmon_proxy/cmon_http.c:351-365 | in any text, complete or not: the first `key:` and the first CRLF behind it, within the text or, through a view, its longer window |
| HeaderLookup.LookupsAgree | src/cmon_proxy/cmon_http.c:330-468 | the two lookups give the same range and never leave the block |
| HeaderLookup.RenderedFieldFound | src/cmon_proxy/cmon_http.c:316-324 | in a block rendered from a field list, the value found is the field's own text |
| HeaderPeek.BufRecvHeader | src/cmon_proxy/cmon_http.c:131-175 | every code; success moves exactly the header from stream to buffer, any failure consumes nothing |
| HeaderPeek.ReceiveExactly | src/cmon_proxy/cmon_http.c:158-174 | the receive step brings exactly the expected bytes |
| HeaderPeek.PeekAgreesWithRecv | src/cmon_proxy/cmon_http.c:79-175 | both receive functions report the same header length on the same stream |
| Buffer.CmonBuffer.constructor | src/utils/c_utils_buffer.c:15-36 | an empty buffer of the given capacity |
| Buffer.CmonBuffer.New | src/utils/c_utils_buffer.c:45-60 | NULL for NULL, else what strncpy leaves, with 20 spare cells |
| Buffer.StrNCopiedExact | src/utils/c_utils_buffer.c:55 | a new buffer holds its source if and only if only NULs follow a NUL in it |
| Buffer.StrNCopiedAt | src/utils/c_utils_buffer.c:55 | every byte of a new buffer: that of its source up to the first NUL, and NUL from there on |
| Buffer.CmonBuffer.MoveUp | src/utils/c_utils_buffer.c:295-297 | the descending overlapping move loses no byte, for every index and distance |
| Buffer.CmonBuffer.ShiftFrom | src/utils/c_utils_buffer.c:164-223 | every cell after a shift, the codes, and that the buffer moves to fresh memory exactly when the shift does not fit |
| Buffer.CmonBuffer.RebuildShifted | src/utils/c_utils_buffer.c:182-212 | the rebuilding shift: both parts, a zero gap, 20 zero cells |
| Buffer.CmonBuffer.InsertAt | src/utils/c_utils_buffer.c:239-309 | the live bytes are the splice, in place or rebuilt; the codes; the buffer moves to fresh memory exactly when the insertion does not fit; `avl` is not maintained |
| Buffer.CmonBuffer.InsertInPlace | src/utils/c_utils_buffer.c:295-305 | the branch that fits: every cell, the splice and those behind it |
| Buffer.CmonBuffer.RebuildInserted | src/utils/c_utils_buffer.c:263-292 | the branch that grows: the splice in fresh memory |
| Buffer.CmonBuffer.SetLength | src/utils/c_utils_buffer.c:336-352 | the old length or -1, and no cell changed |
| Buffer.CmonBuffer.SetCapacity | src/utils/c_utils_buffer.c:360-380 | the cells are kept, the capacity is at least the one asked for, and the buffer moves exactly when it was smaller |
| Buffer.RunRefines | src/utils/c_utils_buffer.c:164-380 | every run refines the run on plain sequences and keeps len within cap |
| Buffer.RunIsText | src/utils/c_utils_buffer.c:164-380 | a run whose operations leave no byte open ends with exactly the bytes of the plain sequence, however often it rebuilds |
| Buffer.Potential | src/utils/c_utils_buffer.c:189-189 | the potential 21 x growths + 20 - slack never exceeds the bytes added |
| Buffer.GrowthBound | src/utils/c_utils_buffer.c:53-275 | over any run adding t bytes, 21 x reallocations is at most t, and 21 x old bytes copied at most (initial length + t) x t |
| Buffer.PerformAll | src/utils/c_utils_buffer.c:164-380 | any list of calls on a buffer is a run from its old memory to its new one, and the buffer moves exactly as often as the run counts; so the bytes of the plain sequence and the growth bound hold of the calls |
| Buffer.InsertIsShiftThenCopy | src/utils/c_utils_buffer.c:144-309 | inserting is shifting and then writing over the gap |
| Buffer.InsertsCommute | src/utils/c_utils_buffer.c:226-309 | two insertions in either order, indices adjusted, give the same bytes |
| Tokenizer.TokenArr.NewToken | src/lib/parser/tokenizer.c:43-71 | appends below a hundred tokens, else changes nothing |
| Tokenizer.Lexer.Flush | src/lib/parser/tokenizer.c:229-252 | terminates the lexeme and adds its token, or reports the write past the buffer |
| Tokenizer.Lexer.Feed | src/lib/parser/tokenizer.c:213-257 | one character: the next state, the tokens, and exactly when a write leaves the buffer |
| Tokenizer.TokenizePiece | src/lib/parser/tokenizer.c:212-258 | the character loop over one piece, up to a NUL |
| Tokenizer.ConfigTokenizer | src/lib/parser/tokenizer.c:196-261 | the first hundred of all tokens of the characters seen; it stays in the lexeme buffer exactly when the text fits |
| TokenPositions.StateAt | src/lib/parser/tokenizer.c:211-259 | before every position the pending lexeme is the lexeme characters since the last space, colon or closing quote, and a quote is open exactly after an odd number of quotes |
| TokenPositions.TokensAt | src/lib/parser/tokenizer.c:215-257 | the tokens that each character adds, from its place in the text alone, and exactly when it writes past the buffer |
| TokenPositions.WordKinds | src/lib/parser/tokenizer.c:241-241 | a word outside quotes is a number exactly when it has no letter |
| Tokenizer.FgetsPieces | src/lib/parser/tokenizer.c:211 | the pieces fgets returns concatenate to the file |
| Tokenizer.CStringExact | src/lib/parser/tokenizer.c:213 | of each piece the loop sees the longest front without a NUL |
| Tokenizer.PiecesDoNotMatter | src/lib/parser/tokenizer.c:211-259 | without NULs the tokenizer sees the text, however it is cut |
| Tokenizer.OnlySignificantMatters | src/lib/parser/tokenizer.c:215-257 | ignored characters may be inserted or deleted anywhere without effect |
| Tokenizer.TokensConserveLexemes | src/lib/parser/tokenizer.c:211-259 | token values and the pending lexeme together are exactly the lexeme characters of the text |
| Tokenizer.PunctuationCounts | src/lib/parser/tokenizer.c:220-255 | each brace and each colon gives exactly one token |
| Tokenizer.StringCount | src/lib/parser/tokenizer.c:228-236 | string tokens are half the quotes, rounded down |
| Config.StringArray.AddFromStr | src/lib/utils/cmon_string_array.c:71-83 | appends below fifty strings, else changes nothing |
| Config.StringArray.AddNewCharArr | src/lib/utils/cmon_string_array.c:44-69 | the same, and an empty string is refused |
| Config.CmonConfig.AddString | src/lib/config/config.c:346-355 | the STRING case, with its faults |
| Config.CmonConfig.ConfigParser | src/lib/config/config.c:299-363 | the parser loop equals the fold over tokens, on every token list |
| ConfigProjection.AlwaysTracked | src/lib/config/config.c:302-305 | in_block, the target and conf_id at every token, said without state; conf_id agrees with the target |
| ConfigProjection.FaultsExactly | src/lib/config/config.c:299-363 | the parser faults if and only if a word ends the list, or a string under a key is unset or too long |
| ConfigProjection.ParseIsProjection | src/lib/config/config.c:299-363 | each list is its old content, then exactly the strings in a block under its key, in order, ignored ones with the working directory in front, cut at fifty |
| ConfigRoundTrip.YieldsAll | src/lib/config/config.h:14-30 | valid names print to exactly the expected tokens |
| ConfigRoundTrip.RoundTrip | src/lib/config/config.c:288-294 | print, tokenize and parse give back the three lists in order, ignore entries behind the working directory, within the limits of `Carried` |
| ConfigRoundTripIff.StringsAreValid | src/lib/parser/tokenizer.c:228-236 | whatever the text, string tokens hold valid names only |
| ConfigRoundTripIff.RoundTripIff | src/lib/config/config.c:288-294 | for every configuration: the round trip holds if and only if the names are valid, no list has more than fifty, the working directory can be counted if some name is ignored, and the first hundred tokens have the last name and do not end with a word |
| ConfigRead.FileReadsIff | src/lib/parser/tokenizer.c:211-259 | the same through the pieces that fgets returns, even for names with NULs |
| ConfigRead.ReadConfig | src/lib/config/config.c:284-294 | pieces, tokenizer and parser in one: what the lists become for any file, and that a printed file fills an empty configuration with its own names, each ignored one as working directory and then name, if and only if it can be carried |
| ConfigDefault.DefaultRoundTrips | src/lib/config/config.h:14-30 | the default file is printed by the printer, and read as its lists, written out, if and only if the working directory can be counted |
| IntArray.CmonIntArray.New | src/utils/c_int_array.c:14-29 | NULL for size 0, else an empty array |
| IntArray.CmonIntArray.Add | src/utils/c_int_array.c:35-61 | the number behind the items, in place or moved; NULL past 5000 and for ever after |
| PsTree.PidBuffer.Feed | src/lib/ps_tree/ps_tree.c:71-82 | one character: digits collected, a run ended and added, and exactly when a write leaves the buffer |
| PsTree.FeedChunk | src/lib/ps_tree/ps_tree.c:71-82 | the character loop over one read, digits carried across reads |
| PsTree.GetPidsFromPipe | src/lib/ps_tree/ps_tree.c:58-87 | for every text and split: the numbers of its digit runs, in order, as `PidsOfLayout` says; false exactly when a run overflows or a read fails |
| PsTree.PidsOfLayout | src/lib/ps_tree/ps_tree.c:70-83 | in a text cut at its digits the pids are exactly the values of the runs that something follows, and the buffer is long enough exactly when those have nine digits at most and a last one ten |
| PsTree.LayoutOf | src/lib/ps_tree/ps_tree.c:70-83 | every text can be cut that way |
| PsTree.KillSubtree | src/lib/process/process.c:34-51 | 1 and no signal without pids, else one signal per pid in reverse order |
| ProcessTree.ExtractionIff | src/lib/ps_tree/ps_tree.c:58-87 | the pids of a printed tree come out as its preorder, within the buffer, if and only if the text around them has no digit and no pid has more than nine |
| ProcessTree.SubtreeBlock | src/lib/ps_tree/ps_tree.c:37 | the pids of a subtree are one block of the preorder, root first |
| ProcessTree.KillOrder | src/lib/process/process.c:45-49 | each process once, every descendant before its ancestors, the root last |
| ProcessTree.StopSubtree | src/lib/inotify/inotify.c:80-81 | from any split of any text to the signals: one per digit run, in reverse; for the text of a tree exactly its sweep, if and only if the text around the pids has no digit and no pid has more than nine |

## Left out

- Script injection into the body (`src/cmon_proxy/cmon_proxy.c:101-136`), with the accesses that are made on every turn even when nothing is injected: the pattern search over a chunk that may be shorter than the pattern (103), the copy that ends one cell past its twelve (105), the copy from in front of a short chunk (133) and the terminator behind a full one (135).  These are removed from the model, so what is said of the relay (`Relay.RunExact`, `HttpMessage.StartedOutcome`, `Proxy.ForwardIff`, `Proxy.HandleClient`) is about the code without these lines.
- HttpMessage.SendMessage: without lines 101-136, as above.
- HttpMessage.RelayBody: without lines 101-136, as above.
- Proxy.HandleClient: its if and only if is for peers that send whole messages and then close, and for receivers with room; otherwise the turns are those of `OneTurn`, each as `HttpMessage.StartedOutcome` says.
- Buffer.CmonBuffer.SetCapacity: the code frees the block that realloc has already released (`src/utils/c_utils_buffer.c:371-376`); the model releases it once.
- Buffer.CmonBuffer.InsertAt: the source is another array than the buffer's own.
- HeaderLookup.LookupsAgree: asks for a block at least as long as the key and its colon, since a shorter one makes the search wrap (`Search.ScanExact`).
- Read errors in the middle of a stream: `fails` sets what the read after the last segment returns.
- The state machine at `src/cmon_proxy/cmon_proxy.c:217-281`, `c_http_set_headder`, `_c_http_get_key_value_range` and `c_u_buffer_copy`: stubs or incomplete. `c_proxy_start` starts that state machine, not the request/response loop modelled here.
- `cmon_tokenizer` and `cmon_parse_config`: older variants that nothing calls.
- `ino_procees_events` and `ino_recursive_dir_add`: file watching.
- Connecting, accepting, threads, fork and exec, logging, printing, malloc failure and the order of frees: input and output only.
- `c_u_view_buffer_new`, CmonString and CmonPath: easy members.

/** `readResponse` in main.ts: the reader of one HTTP/1.1 response from the runtime's socket.

    It reads until a read returns `null`, a read of exactly five bytes arrives (not kept), a
    read ends like the last chunk `0\r\n\r\n`, or, after the first read, the response is not
    chunked.  Only the first kept read is inspected for `Transfer-Encoding` and
    `Content-Length` header lines.  The kept reads are copied end to end into one buffer; the
    body is the text between the first blank line (`\r\n\r\n`) and the next one, and a chunked
    body is de-chunked by a loop that reads a size line and takes at most that many characters
    of the text up to the next `\r\n`.

    The socket is the sequence of what successive reads return; after the last one a read
    returns `null`.  The model assumes ASCII responses, so that a character stands for a byte. */
module Response {
  import opened Common
  import opened Text
  import opened Radix
  import opened JsNumber

  /** The bytes 48, 13, 10, 13, 10 the loop compares a read's end with. */
  const LastChunk: string := "0\r\n\r\n"

  // ---------------------------------------------------------------------------------------
  // framing

  /** `chunk.slice(-5).every((byte, index) => byte === [48, 13, 10, 13, 10][index])`: the last
      five characters of the read (all of it, if it is shorter) agree position by position with
      the start of `0\r\n\r\n`. */
  predicate EndsWithLastChunk(chunk: string)
  {
    var tail := if |chunk| <= 5 then chunk else chunk[|chunk| - 5..];
    tail == LastChunk[..|tail|]
  }

  /** For a read of five characters or more this is "ends with `0\r\n\r\n`"; a shorter read
      passes when it is itself a prefix of `0\r\n\r\n`, the empty read included. */
  lemma EndsWithLastChunkMeaning(chunk: string)
    ensures |chunk| >= 5 ==> (EndsWithLastChunk(chunk) <==> chunk[|chunk| - 5..] == LastChunk)
    ensures |chunk| < 5 ==> (EndsWithLastChunk(chunk) <==> chunk == LastChunk[..|chunk|])
  {
  }

  /** The header lines main.ts inspects in a read: the text before its first blank line,
      split on `\n`, so every line but the last keeps its closing `\r`. */
  function HeaderLines(chunk: string): seq<string>
  {
    Split(SplitLimit2(chunk, CRLFCRLF)[0], '\n')
  }

  /** `line.split(" ")[1]`, which is `undefined` (`None`) for a line without a space. */
  function SecondWord(line: string): Option<string>
  {
    var words := Split(line, ' ');
    if |words| >= 2 then Some(words[1]) else None
  }

  const TransferEncoding: string := "Transfer-Encoding:"
  const ContentLength: string := "Content-Length:"

  /** The effect of one header line on `isChunked`. */
  function ClassifyLine(isChunked: bool, line: string): bool
  {
    if StartsWith(line, TransferEncoding) then SecondWord(line) == Some("chunked")
    else if StartsWith(line, ContentLength) then
      match SecondWord(line)
      case Some(value) => if IsPositive(value) then false else isChunked
      case None => isChunked
    else isChunked
  }

  /** `headerLines.forEach(...)`: the lines applied in order. */
  function Classify(lines: seq<string>, isChunked: bool): (r: bool)
    ensures (forall j :: 0 <= j < |lines| ==> !SetsFraming(lines[j])) ==> r == isChunked
  {
    if |lines| == 0 then isChunked else ClassifyLine(Classify(AllButLast(lines), isChunked), Last(lines))
  }

  /** Whether a header line can change `isChunked` at all. */
  predicate SetsFraming(line: string)
  {
    StartsWith(line, TransferEncoding) || StartsWith(line, ContentLength)
  }

  /** Lines that carry neither header after line `i` leave the decision where line `i` put it. */
  lemma {:induction false} ClassifyUpTo(lines: seq<string>, i: nat, isChunked: bool)
    requires i < |lines|
    requires forall j :: i < j < |lines| ==> !SetsFraming(lines[j])
    ensures Classify(lines, isChunked) == ClassifyLine(Classify(lines[..i], isChunked), lines[i])
    decreases |lines|
  {
    if i < |lines| - 1 {
      ClassifyUpTo(AllButLast(lines), i, isChunked);
      assert AllButLast(lines)[..i] == lines[..i];
      assert !SetsFraming(Last(lines));
    } else {
      assert AllButLast(lines) == lines[..i];
    }
  }

  /** The last `Transfer-Encoding:` line, or a later `Content-Length:` line with a positive
      value, decides the framing whatever the lines before it said. */
  lemma ClassifyLastDecides(lines: seq<string>, i: nat, isChunked: bool)
    requires i < |lines|
    requires forall j :: i < j < |lines| ==> !SetsFraming(lines[j])
    ensures StartsWith(lines[i], TransferEncoding) ==>
      Classify(lines, isChunked) == (SecondWord(lines[i]) == Some("chunked"))
    ensures (&& !StartsWith(lines[i], TransferEncoding) && StartsWith(lines[i], ContentLength)
             && SecondWord(lines[i]).Some? && IsPositive(SecondWord(lines[i]).value))
      ==> !Classify(lines, isChunked)
  {
    ClassifyUpTo(lines, i, isChunked);
  }

  /** The second word of `key value` is `value` when neither holds a space. */
  lemma SecondWordAfter(key: string, value: string)
    requires ' ' !in key && ' ' !in value
    ensures SecondWord(key + " " + value) == Some(value)
    ensures StartsWith(key + " " + value, key)
  {
    assert key + " " + value == key + [' '] + value;
    SplitFirst(key, value, ' ');
    SplitWithout(value, ' ');
    assert (key + " " + value)[..|key|] == key;
  }

  /** A `Transfer-Encoding` line decides on its own, whatever came before it: the response is
      chunked exactly when the line's value is `chunked`. */
  lemma ClassifyTransferEncoding(isChunked: bool, value: string)
    requires ' ' !in value
    ensures ClassifyLine(isChunked, TransferEncoding + " " + value) == (value == "chunked")
  {
    SecondWordAfter(TransferEncoding, value);
  }

  /** A `Transfer-Encoding: chunked` line that is not the last header line keeps its `\r`, so
      its value is `chunked\r` and the response is taken as not chunked. */
  lemma ChunkedLineWithCarriageReturn(isChunked: bool)
    ensures !ClassifyLine(isChunked, TransferEncoding + " " + "chunked\r")
  {
    ClassifyTransferEncoding(isChunked, "chunked\r");
  }

  /** A `Content-Length` line with the length printed in decimal, as the last header line or
      followed by its `\r`, turns chunking off when the length is positive and leaves it as it
      was when the length is 0. */
  lemma ClassifyContentLength(isChunked: bool, n: nat, tail: string)
    requires tail == "" || tail == "\r"
    ensures ClassifyLine(isChunked, ContentLength + " " + Decimal(n) + tail) == (isChunked && n == 0)
  {
    var value := Decimal(n) + tail;
    ContentLengthLine(value);
    assert ContentLength + " " + Decimal(n) + tail == ContentLength + " " + value;
    DecimalPositive(n, tail);
  }

  lemma ContentLengthLine(value: string)
    requires |value| > 0 && '0' <= value[0] <= '9'
    requires ' ' !in value
    ensures var line := ContentLength + " " + value;
      && !StartsWith(line, TransferEncoding) && StartsWith(line, ContentLength)
      && SecondWord(line) == Some(value)
  {
    var line := ContentLength + " " + value;
    SecondWordAfter(ContentLength, value);
    assert line[0] != TransferEncoding[0];
  }

  // ---------------------------------------------------------------------------------------
  // the read loop

  /** What the read loop ends with: the reads it kept, in order, and `isChunked`. */
  datatype Gathered = Gathered(kept: seq<string>, isChunked: bool)

  /** The framing after a read: the headers of the read decide it unless they were inspected
      already. */
  function Framing(chunk: string, isChunked: bool, headers: bool): (r: bool)
    ensures headers ==> r == isChunked
    ensures !headers && (forall j :: 0 <= j < |HeaderLines(chunk)| ==> !SetsFraming(HeaderLines(chunk)[j]))
      ==> r == isChunked
  {
    if headers then isChunked else Classify(HeaderLines(chunk), isChunked)
  }

  /** The read loop from a given state: `isChunked` and whether the headers were inspected. */
  function Gather(socket: seq<string>, isChunked: bool, headers: bool): Gathered
    decreases |socket|
  {
    if !isChunked || |socket| == 0 || |socket[0]| == 5 then Gathered([], isChunked)
    else
      var chunk := socket[0];
      var c := Framing(chunk, isChunked, headers);
      if EndsWithLastChunk(chunk) then Gathered([chunk], c)
      else
        var rest := Gather(socket[1..], c, true);
        Gathered([chunk] + rest.kept, rest.isChunked)
  }

  /** One turn of the read loop: a read that is not five bytes long is kept, the headers are
      inspected if they were not yet, and the loop stops after a read that ends like the last
      chunk.  A one-step unfolding of `Gather`, kept to keep the loop's proof small. */
  lemma GatherStep(socket: seq<string>, isChunked: bool, headers: bool)
    requires isChunked && |socket| > 0 && |socket[0]| != 5
    ensures var c := Framing(socket[0], isChunked, headers);
      var rest := Gather(socket[1..], c, true);
      Gather(socket, isChunked, headers)
        == if EndsWithLastChunk(socket[0]) then Gathered([socket[0]], c)
           else Gathered([socket[0]] + rest.kept, rest.isChunked)
  {
  }

  /** The read loop of a fresh call: chunked until the headers say otherwise. */
  function ReadLoop(socket: seq<string>): Gathered
  {
    Gather(socket, true, false)
  }

  /** Once the headers have been inspected, later reads never change the framing. */
  lemma {:induction false} GatherKeepsFraming(socket: seq<string>, isChunked: bool)
    ensures Gather(socket, isChunked, true).isChunked == isChunked
    decreases |socket|
  {
    if isChunked && |socket| > 0 && |socket[0]| != 5 && !EndsWithLastChunk(socket[0]) {
      GatherKeepsFraming(socket[1..], isChunked);
    }
  }

  /** The framing is decided by the first kept read alone, starting from "chunked". */
  lemma FramingFromFirstRead(socket: seq<string>)
    ensures var g := ReadLoop(socket);
      g.isChunked == if |g.kept| == 0 then true else Classify(HeaderLines(g.kept[0]), true)
  {
    if |socket| > 0 && |socket[0]| != 5 {
      var c := Classify(HeaderLines(socket[0]), true);
      if !EndsWithLastChunk(socket[0]) {
        GatherKeepsFraming(socket[1..], c);
      }
    }
  }

  /** What the loop keeps is a prefix of the reads, none of them five bytes long, and only the
      last of them may end like the last chunk; when it stops before the end of the reads, it
      is because the next read is five bytes long, or the last kept read ended like the last
      chunk, or the response is not chunked. */
  lemma {:induction false} GatherShape(socket: seq<string>, isChunked: bool, headers: bool)
    ensures var g := Gather(socket, isChunked, headers);
      && |g.kept| <= |socket|
      && g.kept == socket[..|g.kept|]
      && (forall j :: 0 <= j < |g.kept| ==> |g.kept[j]| != 5)
      && (forall j :: 0 <= j < |g.kept| - 1 ==> !EndsWithLastChunk(g.kept[j]))
      && (|g.kept| < |socket| ==>
            || |socket[|g.kept|]| == 5
            || !g.isChunked
            || (|g.kept| > 0 && EndsWithLastChunk(Last(g.kept))))
    decreases |socket|
  {
    if isChunked && |socket| > 0 && |socket[0]| != 5 {
      var chunk := socket[0];
      var c := Framing(chunk, isChunked, headers);
      if !EndsWithLastChunk(chunk) {
        GatherShape(socket[1..], c, true);
        var rest := Gather(socket[1..], c, true);
        KeptCons(socket, rest.kept);
      }
    }
  }

  /** A read kept in front of a prefix of the later reads makes a prefix of the reads. */
  lemma KeptCons(socket: seq<string>, rest: seq<string>)
    requires |socket| > 0 && |rest| < |socket| && rest == socket[1..][..|rest|]
    ensures var kept := [socket[0]] + rest;
      && kept == socket[..|kept|]
      && (forall j :: 1 <= j < |kept| ==> kept[j] == rest[j - 1])
      && (|rest| > 0 ==> Last(kept) == Last(rest))
  {
    assert socket[..|rest| + 1] == [socket[0]] + socket[1..][..|rest|];
  }

  /** When the first read carries headers that keep the response chunked, no read is five
      bytes long and none but the last ends like the last chunk, every read is kept: the loop
      then sees the whole response, however it was cut into reads. */
  lemma {:induction false} GatherKeepsAll(socket: seq<string>, isChunked: bool, headers: bool)
    requires |socket| > 0 && isChunked
    requires headers || Classify(HeaderLines(socket[0]), isChunked)
    requires forall j :: 0 <= j < |socket| ==> |socket[j]| != 5
    requires forall j :: 0 <= j < |socket| - 1 ==> !EndsWithLastChunk(socket[j])
    ensures Gather(socket, isChunked, headers) == Gathered(socket, true)
    decreases |socket|
  {
    var c := Framing(socket[0], isChunked, headers);
    if |socket| > 1 {
      GatherKeepsAll(socket[1..], c, true);
      assert [socket[0]] + socket[1..] == socket;
    } else if !EndsWithLastChunk(socket[0]) {
      assert socket[1..] == [];
    }
  }

  // ---------------------------------------------------------------------------------------
  // header/body split and de-chunking

  /** The de-chunk loop: `body.split("\r\n", 2)` gives the size line and the text up to the
      next `\r\n`; at most `parseInt(`0x${size}`, 16)` characters of that text are taken (none
      when the size is not hexadecimal) and the rest of that text is what remains.  A remaining
      text without `\r\n` leaves `frame[1]` undefined, and reading from it throws. */
  function Dechunk(body: string): Result<string>
    decreases |body|
  {
    if |body| == 0 then Ok("")
    else
      var frame := SplitLimit2(body, CRLF);
      if |frame| < 2 then Err(UndefinedProperty("frame[1]"))
      else
        var size := if ParseHexPrefix(frame[0]).Some? then ParseHexPrefix(frame[0]).value else 0;
        var contents := Prefix(frame[1], size);
        Prepend(contents, Dechunk(frame[1][|contents|..]))
  }

  /** `text` followed by the outcome of the rest of the loop; an error stays an error. */
  function Prepend(text: string, r: Result<string>): Result<string>
  {
    match r
    case Err(e) => Err(e)
    case Ok(more) => Ok(text + more)
  }

  lemma PrependTwice(a: string, b: string, r: Result<string>)
    ensures Prepend(a, Prepend(b, r)) == Prepend(a + b, r)
  {
    if r.Ok? {
      assert a + (b + r.value) == a + b + r.value;
    }
  }

  /** The text a frame of the de-chunk loop contributes and the text left after it. */
  function Frame(body: string): (r: (string, string))
    requires Contains(body, CRLF)
    ensures |r.1| < |body|
  {
    var frame := SplitLimit2(body, CRLF);
    var size := if ParseHexPrefix(frame[0]).Some? then ParseHexPrefix(frame[0]).value else 0;
    var contents := Prefix(frame[1], size);
    (contents, frame[1][|contents|..])
  }

  /** `text.split("\r\n\r\n", 2)` and what main.ts makes of it: no blank line, the whole text;
      otherwise the text between the first blank line and the next, de-chunked when chunked. */
  function Extract(text: string, isChunked: bool): Result<string>
  {
    var data := SplitLimit2(text, CRLFCRLF);
    if |data| == 2 then (if isChunked then Dechunk(data[1]) else Ok(data[1])) else Ok(text)
  }

  /** What `readResponse` returns (or the error it throws) for a sequence of reads. */
  function ReadResponseSpec(socket: seq<string>): Result<string>
  {
    var g := ReadLoop(socket);
    Extract(Concat(g.kept), g.isChunked)
  }

  /** Each frame takes at most as many characters as its size line says, nothing when the size
      line is not hexadecimal, and the text that remains is strictly shorter, so the loop ends. */
  lemma FrameBound(body: string)
    requires Contains(body, CRLF)
    ensures var frame := SplitLimit2(body, CRLF);
      && |Frame(body).0| <= |frame[1]|
      && (ParseHexPrefix(frame[0]).Some? ==> |Frame(body).0| <= ParseHexPrefix(frame[0]).value)
      && (ParseHexPrefix(frame[0]).None? ==> Frame(body).0 == "" && Frame(body).1 == frame[1])
      && Frame(body).0 + Frame(body).1 == frame[1]
  {
  }

  /** The de-chunk loop, one frame at a time. */
  lemma DechunkStep(body: string)
    requires |body| > 0
    ensures !Contains(body, CRLF) ==> Dechunk(body).Err?
    ensures Contains(body, CRLF) ==>
      Dechunk(body) == Prepend(Frame(body).0, Dechunk(Frame(body).1))
  {
  }

  /** De-chunking never produces more text than it was given. */
  lemma {:induction false} DechunkShrinks(body: string)
    requires Dechunk(body).Ok?
    ensures |Dechunk(body).value| <= |body|
    decreases |body|
  {
    if |body| > 0 {
      var frame := SplitLimit2(body, CRLF);
      var (contents, rest) := Frame(body);
      DechunkShrinks(rest);
    }
  }

  /** A chunk written as its hexadecimal size, `\r\n` and its data (without `\r\n` inside) is
      read back as that data, and whatever follows the next `\r\n` is dropped: the loop keeps
      only the first chunk of a body. */
  lemma FirstChunkOnly(data: string, tail: string)
    requires !Contains(data, CRLF)
    requires |tail| == 0 || StartsWith(tail, CRLF)
    ensures Dechunk(Render(|data|, 16) + CRLF + data + tail) == Ok(data)
  {
    var size := Render(|data|, 16);
    var body := size + CRLF + data + tail;
    assert body == size + CRLF + (data + tail);
    FirstCRLF(size, data + tail);
    NoOccurrence(data, CRLF);
    assert body[|size| + 2..] == data + tail;
    DataWithoutCRLF(body, |size| + 2, data, tail);
    SplitAt(body, CRLF, size, data, tail);
    HexRoundTrip(|data|, "");
    assert size + "" == size;
    WholeFrame(body, size, data);
  }

  /** A frame whose size is exactly the length of the text after its size line consumes all of
      it, and the loop ends there. */
  lemma WholeFrame(body: string, size: string, data: string)
    requires SplitLimit2(body, CRLF) == [size, data]
    requires ParseHexPrefix(size) == Some(|data|)
    ensures Dechunk(body) == Ok(data)
  {
    assert Frame(body) == (data, "") by {
      assert Prefix(data, |data|) == data;
    }
    DechunkStep(body);
    assert data + "" == data;
  }

  /** A hexadecimal size line holds no `\r\n`, so the first separator follows it. */
  lemma FirstCRLF(size: string, rest: string)
    requires AllDigits(size, 16)
    ensures var s := size + CRLF + rest;
      && OccursAt(s, CRLF, |size|)
      && forall j :: 0 <= j < |size| ==> !OccursAt(s, CRLF, j)
  {
    var s := size + CRLF + rest;
    assert s[|size|..|size| + 2] == CRLF;
    forall j | 0 <= j < |size| ensures !OccursAt(s, CRLF, j) {
      assert s[j] == size[j];
      assert IsHexDigit(size[j]);
    }
  }

  /** No `\r\n` starts inside a text without one when it is followed by the end or by `\r\n`. */
  lemma DataWithoutCRLF(body: string, from: nat, data: string, tail: string)
    requires from <= |body| && body[from..] == data + tail
    requires forall j :: !OccursAt(data, CRLF, j)
    requires |tail| == 0 || StartsWith(tail, CRLF)
    ensures forall j :: from <= j < from + |data| ==> !OccursAt(body, CRLF, j)
  {
    var e := from + |data|;
    assert |body| == e + |tail|;
    forall j | from <= j < e
      ensures !OccursAt(body, CRLF, j)
    {
      if j < e - 1 {
        assert !OccursAt(data, CRLF, j - from);
        assert body[j..j + 2] == data[j - from..j - from + 2];
      } else if |tail| > 0 {
        assert j + 1 == e;
        assert body[e] == tail[0] == tail[..2][0] == '\r';
        assert body[j..j + 2][1] == '\r' != CRLF[1];
      }
    }
  }

  // ---------------------------------------------------------------------------------------
  // whole responses

  /** A header block as the runtime sends it: no blank line inside, and not ending in `\r` or
      `\n`, so the blank line after it is the first one of the response. */
  predicate HeaderBlock(head: string)
  {
    !Contains(head, CRLFCRLF) && (|head| == 0 || (Last(head) != '\r' && Last(head) != '\n'))
  }

  lemma HeadWithoutBlankLine(s: string, head: string, rest: string)
    requires s == head + CRLFCRLF + rest && HeaderBlock(head)
    ensures forall j :: 0 <= j < |head| ==> !OccursAt(s, CRLFCRLF, j)
  {
    NoOccurrence(head, CRLFCRLF);
    forall j | 0 <= j < |head|
      ensures !OccursAt(s, CRLFCRLF, j)
    {
      SeparatorChars(s, j);
      if j + 4 <= |head| {
        SeparatorChars(head, j);
        assert s[j..j + 4] == head[j..j + 4];
      } else {
        assert s[|head| - 1] == Last(head);
      }
    }
  }

  /** A body without a blank line, after a header block and a blank line, is the second piece
      of `text.split("\r\n\r\n", 2)`. */
  lemma ResponseSplit(head: string, body: string)
    requires HeaderBlock(head) && !Contains(body, CRLFCRLF)
    ensures SplitLimit2(head + CRLFCRLF + body, CRLFCRLF) == [head, body]
  {
    var s := head + CRLFCRLF + body;
    HeadWithoutBlankLine(s, head, body);
    NoOccurrence(body, CRLFCRLF);
    assert s[|head| + 4..] == body;
    NoneInSuffix(s, |head| + 4, CRLFCRLF, |body|);
    assert s == head + CRLFCRLF + body + "";
    SplitAt(s, CRLFCRLF, head, body, "");
  }

  /** The body of a response with one chunk: its size line, the data and the last chunk. */
  function OneChunk(data: string): string
  {
    Render(|data|, 16) + CRLF + data + CRLF + LastChunk
  }

  /** In a one-chunk body the only blank line is the one that ends the last chunk. */
  lemma OneChunkBlankLine(data: string)
    requires |data| > 0 && !Contains(data, CRLF)
    ensures var m := OneChunk(data);
      forall p :: 0 <= p < |m| - 4 ==> !OccursAt(m, CRLFCRLF, p)
    ensures OccursAt(OneChunk(data), CRLFCRLF, |OneChunk(data)| - 4)
  {
    BlankLineAfterChunk(Render(|data|, 16), data);
  }

  lemma BlankLineAfterChunk(size: string, data: string)
    requires AllDigits(size, 16) && |data| > 0 && !Contains(data, CRLF)
    ensures var m := size + CRLF + data + CRLF + LastChunk;
      && (forall p :: 0 <= p < |m| - 4 ==> !OccursAt(m, CRLFCRLF, p))
      && OccursAt(m, CRLFCRLF, |m| - 4)
  {
    var x := size + CRLF + data;
    var m := x + CRLF + LastChunk;
    SizeLineLayout(size, data);
    LastChunkLayout(x);
    NoOccurrence(data, CRLF);
    NoBlankBefore(m, |size|, data);
    SeparatorChars(m, |m| - 4);
  }

  /** Where the size line, its `\r\n` and the data sit in `size + CRLF + data`. */
  lemma SizeLineLayout(size: string, data: string)
    requires AllDigits(size, 16)
    ensures var x := size + CRLF + data;
      && |x| == |size| + 2 + |data|
      && (forall i :: 0 <= i < |size| ==> x[i] != '\r')
      && x[|size|] == '\r' && x[|size| + 1] == '\n'
      && (forall i :: 0 <= i < |data| ==> x[|size| + 2 + i] == data[i])
  {
    var x := size + CRLF + data;
    forall i | 0 <= i < |size| ensures x[i] != '\r' {
      assert x[i] == size[i] && IsDigit(size[i], 16);
    }
  }

  /** `x + CRLF + LastChunk` is `x` followed by `\r\n0\r\n\r\n`. */
  lemma LastChunkLayout(x: string)
    ensures var m := x + CRLF + LastChunk;
      && |m| == |x| + 7
      && (forall i :: 0 <= i < |x| ==> m[i] == x[i])
      && m[|x|] == '\r' && m[|x| + 1] == '\n' && m[|x| + 2] == '0'
      && m[|x| + 3] == '\r' && m[|x| + 4] == '\n' && m[|x| + 5] == '\r' && m[|x| + 6] == '\n'
  {
    var m := x + CRLF + LastChunk;
    assert m[|x|..] == CRLF + LastChunk;
  }

  /** A text laid out as characters other than `\r`, `\r\n`, `data` without `\r\n`, and
      `\r\n0` followed by four more characters has no blank line before its last four. */
  lemma NoBlankBefore(m: string, s: nat, data: string)
    requires |data| > 0 && |m| == s + 2 + |data| + 7
    requires forall i :: 0 <= i < s ==> m[i] != '\r'
    requires m[s] == '\r' && m[s + 1] == '\n'
    requires forall i :: 0 <= i < |data| ==> m[s + 2 + i] == data[i]
    requires forall j :: !OccursAt(data, CRLF, j)
    requires var e := s + 2 + |data|; m[e] == '\r' && m[e + 1] == '\n' && m[e + 2] == '0'
    ensures forall p :: 0 <= p < |m| - 4 ==> !OccursAt(m, CRLFCRLF, p)
  {
    var e := s + 2 + |data|;
    forall p | 0 <= p < |m| - 4
      ensures !OccursAt(m, CRLFCRLF, p)
    {
      SeparatorChars(m, p);
      if p == s {
        if |data| >= 2 {
          SeparatorChars(data, 0);
        }
      } else if s + 2 <= p < e - 1 {
        SeparatorChars(data, p - s - 2);
      }
    }
  }

  /** The blank line after the headers and the one ending the last chunk delimit the body that
      main.ts de-chunks: the size line, the data and the `0` of the last chunk. */
  lemma OneChunkSplit(head: string, data: string)
    requires HeaderBlock(head) && |data| > 0 && !Contains(data, CRLF)
    ensures SplitLimit2(head + CRLFCRLF + OneChunk(data), CRLFCRLF)
         == [head, Render(|data|, 16) + CRLF + data + (CRLF + "0")]
  {
    var mid := Render(|data|, 16) + CRLF + data + (CRLF + "0");
    OneChunkParts(data);
    OneChunkBlankLine(data);
    BlankLineEnded(head, mid);
  }

  lemma OneChunkParts(data: string)
    ensures OneChunk(data) == Render(|data|, 16) + CRLF + data + (CRLF + "0") + CRLFCRLF
  {
    LastChunkParts(Render(|data|, 16) + CRLF + data);
  }

  lemma LastChunkParts(x: string)
    ensures x + CRLF + LastChunk == x + (CRLF + "0") + CRLFCRLF
  {
    assert CRLF + LastChunk == (CRLF + "0") + CRLFCRLF;
    assert x + CRLF + LastChunk == x + (CRLF + LastChunk);
  }

  lemma BlankLineEnded(head: string, mid: string)
    requires HeaderBlock(head)
    requires forall p :: 0 <= p < |mid| ==> !OccursAt(mid + CRLFCRLF, CRLFCRLF, p)
    ensures SplitLimit2(head + CRLFCRLF + (mid + CRLFCRLF), CRLFCRLF) == [head, mid]
  {
    var text := head + CRLFCRLF + mid + CRLFCRLF;
    assert text == head + CRLFCRLF + (mid + CRLFCRLF);
    HeadWithoutBlankLine(text, head, mid + CRLFCRLF);
    assert text[|head| + 4..] == mid + CRLFCRLF;
    NoneInSuffix(text, |head| + 4, CRLFCRLF, |mid|);
    SplitAt(text, CRLFCRLF, head, mid, CRLFCRLF);
  }

  /** A chunked response whose body is one chunk of data without `\r\n` is read back as that
      data, provided the first read's header lines keep it chunked, no read but the last is five
      bytes long or ends like the last chunk, and a five-byte last read is the last chunk
      itself, which the loop then drops. */
  lemma ChunkedResponseRoundTrip(socket: seq<string>, head: string, data: string)
    requires |socket| > 0
    requires forall j :: 0 <= j < |socket| - 1 ==> |socket[j]| != 5
    requires |Last(socket)| == 5 ==> Last(socket) == LastChunk
    requires forall j :: 0 <= j < |socket| - 1 ==> !EndsWithLastChunk(socket[j])
    requires Classify(HeaderLines(socket[0]), true)
    requires Concat(socket) == head + CRLFCRLF + OneChunk(data)
    requires HeaderBlock(head) && |data| > 0 && !Contains(data, CRLF)
    ensures ReadResponseSpec(socket) == Ok(data)
  {
    if |Last(socket)| == 5 {
      LastChunkDropped(socket, head, data);
    } else {
      GatherKeepsAll(socket, true, false);
      OneChunkSplit(head, data);
      FirstChunkOnly(data, CRLF + "0");
    }
  }

  /** A last read of exactly five bytes stops the loop before it is kept: the reads before it
      are kept, with the framing their headers set. */
  lemma {:induction false} GatherDropsLast(socket: seq<string>, headers: bool)
    requires |socket| > 0 && |Last(socket)| == 5
    requires headers || |socket| == 1 || Classify(HeaderLines(socket[0]), true)
    requires forall j :: 0 <= j < |socket| - 1 ==> |socket[j]| != 5
    requires forall j :: 0 <= j < |socket| - 1 ==> !EndsWithLastChunk(socket[j])
    ensures Gather(socket, true, headers) == Gathered(AllButLast(socket), true)
    decreases |socket|
  {
    if |socket| > 1 {
      GatherDropsLast(socket[1..], true);
      assert [socket[0]] + AllButLast(socket[1..]) == AllButLast(socket);
    }
  }

  /** The case of `ChunkedResponseRoundTrip` where the last chunk arrives as a read of its
      own: the loop drops it, and the body kept ends in the `\r\n` before it, which still
      de-chunks to the data. */
  lemma LastChunkDropped(socket: seq<string>, head: string, data: string)
    requires |socket| > 0 && Last(socket) == LastChunk
    requires forall j :: 0 <= j < |socket| - 1 ==> |socket[j]| != 5
    requires forall j :: 0 <= j < |socket| - 1 ==> !EndsWithLastChunk(socket[j])
    requires Classify(HeaderLines(socket[0]), true)
    requires Concat(socket) == head + CRLFCRLF + OneChunk(data)
    requires HeaderBlock(head) && |data| > 0 && !Contains(data, CRLF)
    ensures ReadResponseSpec(socket) == Ok(data)
  {
    GatherDropsLast(socket, false);
    KeptBeforeLastChunk(socket, head, data);
    BeforeLastChunkReadsBack(head, data);
  }

  /** Without the last read, the reads make the response up to the `\r\n` before the last
      chunk. */
  lemma KeptBeforeLastChunk(socket: seq<string>, head: string, data: string)
    requires |socket| > 0 && Last(socket) == LastChunk
    requires Concat(socket) == head + CRLFCRLF + OneChunk(data)
    ensures Concat(AllButLast(socket)) == head + CRLFCRLF + (Render(|data|, 16) + CRLF + data + CRLF)
  {
    var x := Render(|data|, 16) + CRLF + data + CRLF;
    assert OneChunk(data) == x + LastChunk;
    DropSuffix(Concat(socket), Concat(AllButLast(socket)), LastChunk, head + CRLFCRLF, x);
  }

  /** A text that ends in `last` both as `kept + last` and as `front + (x + last)` has
      `kept == front + x`. */
  lemma DropSuffix(all: string, kept: string, last: string, front: string, x: string)
    requires all == kept + last && all == front + (x + last)
    ensures kept == front + x
  {
    assert front + (x + last) == (front + x) + last;
    assert kept == all[..|kept|] == (front + x);
  }

  /** The response up to the `\r\n` before the last chunk still reads back as the data. */
  lemma BeforeLastChunkReadsBack(head: string, data: string)
    requires HeaderBlock(head) && |data| > 0 && !Contains(data, CRLF)
    ensures Extract(head + CRLFCRLF + (Render(|data|, 16) + CRLF + data + CRLF), true) == Ok(data)
  {
    var body := Render(|data|, 16) + CRLF + data + CRLF;
    assert OneChunk(data) == body + LastChunk;
    BodyBeforeLastChunk(data, body);
    ResponseSplit(head, body);
    DechunkBeforeLastChunk(data);
    ExtractChunked(head + CRLFCRLF + body, head, body, data);
  }

  /** A chunked text that splits into headers and `body` extracts to the de-chunked body. */
  lemma ExtractChunked(text: string, head: string, body: string, out: string)
    requires SplitLimit2(text, CRLFCRLF) == [head, body] && Dechunk(body) == Ok(out)
    ensures Extract(text, true) == Ok(out)
  {
  }

  /** A size line, `\r\n`, the data and a final `\r\n` de-chunk to the data. */
  lemma DechunkBeforeLastChunk(data: string)
    requires !Contains(data, CRLF)
    ensures Dechunk(Render(|data|, 16) + CRLF + data + CRLF) == Ok(data)
  {
    assert CRLF[..|CRLF|] == CRLF;
    FirstChunkOnly(data, CRLF);
  }

  /** The one-chunk body without its last chunk has no blank line. */
  lemma BodyBeforeLastChunk(data: string, body: string)
    requires |data| > 0 && !Contains(data, CRLF)
    requires OneChunk(data) == body + LastChunk
    ensures !Contains(body, CRLFCRLF)
  {
    var m := OneChunk(data);
    OneChunkBlankLine(data);
    forall p ensures !OccursAt(body, CRLFCRLF, p) {
      if 0 <= p && p + 4 <= |body| {
        assert body[p..p + 4] == m[p..p + 4];
        assert !OccursAt(m, CRLFCRLF, p);
      }
    }
  }

  /** The status line of a successful response from the runtime's API. */
  const StatusLine: string := "HTTP/1.1 200 OK"

  /** A character that can end neither a line nor a header block. */
  predicate Plain(c: char)
  {
    c != '\r' && c != '\n'
  }

  /** A text without line-ending characters. */
  predicate AllPlain(s: string)
  {
    forall i :: 0 <= i < |s| ==> Plain(s[i])
  }

  lemma AllPlainAppend(a: string, b: string)
    requires AllPlain(a) && AllPlain(b)
    ensures AllPlain(a + b)
  {
    assert forall i :: |a| <= i < |a + b| ==> (a + b)[i] == b[i - |a|];
  }

  lemma DigitsPlain(s: string, base: nat)
    requires AllDigits(s, base)
    ensures AllPlain(s)
  {
    assert forall i :: 0 <= i < |s| ==> IsDigit(s[i], base);
  }

  /** The header block of a status line and one header field. */
  function TwoLineHead(field: string): string
  {
    StatusLine + CRLF + field
  }

  lemma TwoLineHeadBlock(field: string)
    requires |field| > 0 && AllPlain(field)
    ensures HeaderBlock(TwoLineHead(field))
    ensures Split(TwoLineHead(field), '\n') == [StatusLine + "\r", field]
  {
    var head := TwoLineHead(field);
    assert forall i :: 0 <= i < |StatusLine| ==> Plain(StatusLine[i]);
    assert forall i :: 0 <= i < |StatusLine| ==> head[i] == StatusLine[i];
    assert forall i :: 0 <= i < |field| ==> head[|StatusLine| + 2 + i] == field[i];
    assert head[|StatusLine| + 1] == '\n';
    forall p ensures !OccursAt(head, CRLFCRLF, p) {
      SeparatorChars(head, p);
    }
    assert !Contains(head, CRLFCRLF);
    assert head == StatusLine + "\r" + ['\n'] + field;
    assert '\n' !in field by {
      assert forall i :: 0 <= i < |field| ==> field[i] != '\n';
    }
    SplitFirst(StatusLine + "\r", field, '\n');
    SplitWithout(field, '\n');
  }

  /** The status line decides nothing: it is neither a `Transfer-Encoding` nor a
      `Content-Length` line. */
  lemma StatusLineIgnored(isChunked: bool)
    ensures ClassifyLine(isChunked, StatusLine + "\r") == isChunked
  {
    var line := StatusLine + "\r";
    assert line[0] != TransferEncoding[0] && line[0] != ContentLength[0];
  }

  /** Two header lines, one after the other: a two-step unfolding of `Classify`, kept to keep
      the proofs about two-line header blocks small. */
  lemma ClassifyTwo(a: string, b: string, isChunked: bool)
    ensures Classify([a, b], isChunked) == ClassifyLine(ClassifyLine(isChunked, a), b)
  {
    assert AllButLast([a, b]) == [a] && Last([a, b]) == b;
    assert AllButLast([a]) == [] && Last([a]) == a;
    assert Classify([a], isChunked) == ClassifyLine(isChunked, a);
  }

  /** A response with a positive `Content-Length` is taken as not chunked on its first read,
      so only that read is kept and everything after it on the socket is ignored: when the
      first read holds the whole response, the result is its body. */
  lemma ContentLengthResponse(body: string, later: seq<string>)
    requires |body| > 0 && !Contains(body, CRLFCRLF)
    ensures var field := ContentLength + " " + Decimal(|body|);
      ReadResponseSpec([TwoLineHead(field) + CRLFCRLF + body] + later) == Ok(body)
  {
    var field := ContentLength + " " + Decimal(|body|);
    var head := TwoLineHead(field);
    var read := head + CRLFCRLF + body;
    ContentLengthHead(|body|);
    ResponseSplit(head, body);
    assert !Classify(HeaderLines(read), true);
    NotChunkedKeepsFirstRead([read] + later);
    assert Concat([read]) == read by {
      assert AllButLast([read]) == [];
    }
  }

  /** The header block with a `Content-Length` field is a header block, and its lines take the
      response as not chunked exactly when the length is positive. */
  lemma ContentLengthHead(n: nat)
    ensures var field := ContentLength + " " + Decimal(n);
      && HeaderBlock(TwoLineHead(field))
      && Classify(Split(TwoLineHead(field), '\n'), true) == (n == 0)
  {
    var field := ContentLength + " " + Decimal(n);
    assert AllPlain(ContentLength + " ");
    DigitsPlain(Decimal(n), 10);
    AllPlainAppend(ContentLength + " ", Decimal(n));
    TwoLineHeadBlock(field);
    StatusLineIgnored(true);
    ClassifyContentLength(true, n, "");
    assert field + "" == field;
    ClassifyTwo(StatusLine + "\r", field, true);
  }

  /** When the first read's headers take the response as not chunked, the loop keeps that read
      alone. */
  lemma NotChunkedKeepsFirstRead(socket: seq<string>)
    requires |socket| > 0 && |socket[0]| != 5
    requires !Classify(HeaderLines(socket[0]), true)
    ensures ReadLoop(socket) == Gathered([socket[0]], false)
  {
    GatherStep(socket, true, false);
    assert Gather(socket[1..], false, true) == Gathered([], false);
    assert [socket[0]] + [] == [socket[0]];
  }

  /** A whole chunked response in one read, as the runtime sends it: status line,
      `Transfer-Encoding: chunked`, a blank line and one chunk, is read back as the chunk's
      data. */
  lemma ChunkedResponseOneRead(data: string)
    requires |data| > 0 && !Contains(data, CRLF)
    ensures var field := TransferEncoding + " " + "chunked";
      ReadResponseSpec([TwoLineHead(field) + CRLFCRLF + OneChunk(data)]) == Ok(data)
  {
    var field := TransferEncoding + " " + "chunked";
    var head := TwoLineHead(field);
    var read := head + CRLFCRLF + OneChunk(data);
    ChunkedField();
    TwoLineHeadBlock(field);
    OneChunkSplit(head, data);
    HeadClassify(field, read);
    assert Concat([read]) == read by {
      assert AllButLast([read]) == [];
    }
    ChunkedResponseRoundTrip([read], head, data);
  }

  /** The field `Transfer-Encoding: chunked` is one line and keeps the response chunked. */
  lemma ChunkedField()
    ensures var field := TransferEncoding + " " + "chunked";
      |field| > 0 && AllPlain(field) && ClassifyLine(true, field)
  {
    ClassifyTransferEncoding(true, "chunked");
  }

  /** The headers of a read whose header block is the status line and one field are classified
      by that field alone. */
  lemma HeadClassify(field: string, read: string)
    requires |field| > 0 && AllPlain(field)
    requires SplitLimit2(read, CRLFCRLF)[0] == TwoLineHead(field)
    ensures Classify(HeaderLines(read), true) == ClassifyLine(true, field)
  {
    TwoLineHeadBlock(field);
    StatusLineIgnored(true);
    ClassifyTwo(StatusLine + "\r", field, true);
  }

  /** What the split at the blank line yields: without a blank line the whole text; otherwise,
      when not chunked, exactly the text from after the first blank line up to the next one or
      to the end. */
  lemma ExtractOutcome(text: string, isChunked: bool)
    ensures !Contains(text, CRLFCRLF) ==> Extract(text, isChunked) == Ok(text)
    ensures Contains(text, CRLFCRLF) && !isChunked ==>
      var r := Extract(text, isChunked);
      var from := IndexOf(text, CRLFCRLF).value + 4;
      && r.Ok? && from + |r.value| <= |text|
      && text[from..from + |r.value|] == r.value
      && (from + |r.value| == |text| || OccursAt(text, CRLFCRLF, from + |r.value|))
      && forall j :: from <= j < from + |r.value| ==> !OccursAt(text, CRLFCRLF, j)
  {
    if Contains(text, CRLFCRLF) {
      var data := SplitLimit2(text, CRLFCRLF);
      FirstOccurrence(text, CRLFCRLF, |data[0]|, IndexOf(text, CRLFCRLF).value);
    }
  }

  /** The runtime's empty chunked body, the last chunk alone, leaves `0` between the two blank
      lines; `0` holds no `\r\n`, so the de-chunk loop reads `frame[1]` of a one-piece split and
      throws. */
  lemma EmptyChunkedBodyThrows()
    ensures var field := TransferEncoding + " " + "chunked";
      ReadResponseSpec([TwoLineHead(field) + CRLFCRLF + LastChunk]).Err?
  {
    var field := TransferEncoding + " " + "chunked";
    var head := TwoLineHead(field);
    var read := head + CRLFCRLF + LastChunk;
    ChunkedField();
    TwoLineHeadBlock(field);
    assert LastChunk == "0" + CRLFCRLF;
    assert read == head + CRLFCRLF + ("0" + CRLFCRLF);
    forall p | 0 <= p < 1
      ensures !OccursAt("0" + CRLFCRLF, CRLFCRLF, p)
    {
      SeparatorChars("0" + CRLFCRLF, p);
    }
    BlankLineEnded(head, "0");
    assert SplitLimit2(read, CRLFCRLF) == [head, "0"];
    HeadClassify(field, read);
    assert EndsWithLastChunk(read) by {
      assert read[|read| - 5..] == LastChunk;
    }
    assert ReadLoop([read]) == Gathered([read], true);
    assert Concat([read]) == read by {
      assert AllButLast([read]) == [];
    }
    forall j ensures !OccursAt("0", CRLF, j) { }
    assert !Contains("0", CRLF);
  }

  // ---------------------------------------------------------------------------------------
  // readResponse

  /** `headerLines.forEach(...)` over the header lines of the first read. */
  method ClassifyHeaders(lines: seq<string>, isChunked0: bool) returns (isChunked: bool)
    ensures isChunked == Classify(lines, isChunked0)
  {
    isChunked := isChunked0;
    for k := 0 to |lines|
      invariant isChunked == Classify(lines[..k], isChunked0)
    {
      var line := lines[k];
      assert AllButLast(lines[..k + 1]) == lines[..k];
      assert Last(lines[..k + 1]) == line;
      if StartsWith(line, TransferEncoding) {
        isChunked := SecondWord(line) == Some("chunked");
      } else if StartsWith(line, ContentLength) {
        var value := SecondWord(line);
        if value.Some? && IsPositive(value.value) {
          isChunked := false;
        }
      }
    }
    assert lines[..|lines|] == lines;
  }

  /** The kept reads copied into one buffer of their total length, each at the offset where the
      previous one ended. */
  method ConcatReads(chunks: seq<string>) returns (text: string)
    ensures text == Concat(chunks)
  {
    ConcatLength(chunks);
    var buffer := new char[TotalLength(chunks)];
    var offset := 0;
    for k := 0 to |chunks|
      invariant offset == TotalLength(chunks[..k]) <= buffer.Length
      invariant buffer[..offset] == Concat(chunks[..k])
    {
      var chunk := chunks[k];
      assert chunks[..k + 1] == chunks[..k] + [chunk];
      ConcatSnoc(chunks[..k], chunk);
      TotalLengthPrefix(chunks, k + 1);
      ghost var before := buffer[..offset];
      forall j | 0 <= j < |chunk| {
        buffer[offset + j] := chunk[j];
      }
      assert buffer[..offset] == before;
      assert buffer[..offset + |chunk|] == before + chunk;
      offset := offset + |chunk|;
    }
    assert chunks[..|chunks|] == chunks;
    text := buffer[..];
  }

  /** The de-chunk loop of main.ts. */
  method DechunkBody(body0: string) returns (r: Result<string>)
    ensures r == Dechunk(body0)
  {
    var body := body0;
    var concatenated := "";
    assert Prepend(concatenated, Dechunk(body)) == Dechunk(body) by {
      if Dechunk(body).Ok? {
        assert concatenated + Dechunk(body).value == Dechunk(body).value;
      }
    }
    while |body| > 0
      invariant Dechunk(body0) == Prepend(concatenated, Dechunk(body))
      decreases |body|
    {
      var frame := SplitLimit2(body, CRLF);
      if |frame| < 2 {
        assert Dechunk(body) == Err(UndefinedProperty("frame[1]"));
        return Err(UndefinedProperty("frame[1]"));
      }
      var size := ParseHexPrefix(frame[0]);
      var contents := Prefix(frame[1], if size.Some? then size.value else 0);
      assert (contents, DropFirst(frame[1], |contents|)) == Frame(body);
      DechunkStep(body);
      PrependTwice(concatenated, contents, Dechunk(Frame(body).1));
      concatenated := concatenated + contents;
      body := DropFirst(frame[1], |contents|);
    }
    assert Dechunk(body) == Ok("");
    assert concatenated + "" == concatenated;
    r := Ok(concatenated);
  }

  /** `readResponse`: the read loop, the concatenation of the kept reads, the split at the
      first blank line and the de-chunking of a chunked body. */
  method ReadResponse(socket: seq<string>) returns (r: Result<string>)
    ensures r == ReadResponseSpec(socket)
  {
    var chunks, isChunked := ReadChunks(socket);
    var text := ConcatReads(chunks);
    var data := SplitLimit2(text, CRLFCRLF);
    if |data| == 2 {
      var body := data[1];
      if isChunked {
        r := DechunkBody(body);
      } else {
        r := Ok(body);
      }
    } else {
      r := Ok(text);
    }
  }

  /** One turn of the read loop at position `n` of the socket, with `c` the framing after the
      headers of the read were inspected (if they had not been): the read joins the kept ones,
      and the loop either stops on it or goes on from the next position.  A one-step unfolding
      of `Gather` at a position, kept to keep the proof of `ReadChunks` small. */
  lemma ReadTurn(socket: seq<string>, n: nat, chunks: seq<string>, isChunked: bool, headers: bool, c: bool)
    requires n < |socket| && isChunked && |socket[n]| != 5
    requires c == Framing(socket[n], isChunked, headers)
    requires var g := Gather(socket[n..], isChunked, headers);
      ReadLoop(socket) == Gathered(chunks + g.kept, g.isChunked)
    ensures EndsWithLastChunk(socket[n]) ==> ReadLoop(socket) == Gathered(chunks + [socket[n]], c)
    ensures var g := Gather(socket[n + 1..], c, true);
      !EndsWithLastChunk(socket[n]) ==> ReadLoop(socket) == Gathered(chunks + [socket[n]] + g.kept, g.isChunked)
  {
    var t := socket[n..];
    GatherStep(t, isChunked, headers);
    assert t[0] == socket[n] && t[1..] == socket[n + 1..];
    KeepOneMore(ReadLoop(socket), chunks, Gather(t, isChunked, headers), socket[n], c,
      Gather(socket[n + 1..], c, true), EndsWithLastChunk(socket[n]));
  }

  /** The bookkeeping of `ReadTurn` on plain values, split off to keep its proof small. */
  lemma KeepOneMore(whole: Gathered, chunks: seq<string>, g: Gathered, x: string, c: bool, rest: Gathered, ends: bool)
    requires whole == Gathered(chunks + g.kept, g.isChunked)
    requires g == if ends then Gathered([x], c) else Gathered([x] + rest.kept, rest.isChunked)
    ensures ends ==> whole == Gathered(chunks + [x], c)
    ensures !ends ==> whole == Gathered(chunks + [x] + rest.kept, rest.isChunked)
  {
    assert chunks + ([x] + rest.kept) == chunks + [x] + rest.kept;
  }

  /** The read loop of `readResponse`: the reads it keeps and whether the response is taken as
      chunked. */
  method ReadChunks(socket: seq<string>) returns (chunks: seq<string>, isChunked: bool)
    ensures ReadLoop(socket) == Gathered(chunks, isChunked)
  {
    chunks := [];
    var headers := false;
    isChunked := true;
    var n := 0;
    while isChunked
      invariant n <= |socket| && chunks == socket[..n] && headers == (n > 0)
      invariant var g := Gather(socket[n..], isChunked, headers);
        ReadLoop(socket) == Gathered(chunks + g.kept, g.isChunked)
      decreases |socket| - n
    {
      if n == |socket| || |socket[n]| == 5 {
        assert chunks + [] == chunks;
        break;
      }
      var chunk := socket[n];
      ghost var before := isChunked;
      ghost var inspected := headers;
      if !headers {
        var lines := HeaderLines(chunk);
        isChunked := ClassifyHeaders(lines, isChunked);
        headers := true;
      }
      ReadTurn(socket, n, chunks, before, inspected, isChunked);
      chunks := chunks + [chunk];
      assert chunks == socket[..n + 1];
      n := n + 1;
      if EndsWithLastChunk(chunk) {
        assert ReadLoop(socket) == Gathered(chunks, isChunked);
        break;
      }
    }
  }
}

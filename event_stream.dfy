/** `containerEvents` in main.ts: the decoder of the runtime's `/events` stream.  Each turn of
    its loop checks the abort signal, reads from the socket, splits what is pending plus the new
    text on `\n`, keeps the unfinished last piece as `leftover`, and sends every complete line
    that is neither blank nor a number and that `JSON.parse` accepts.

    The socket is a trace of polls: `Received(chunk)` is a read that returned `chunk`,
    `Aborted` is a turn at which the abort signal was found set, and the end of the trace is a
    read that returned `null` (the peer closed the stream).  `JSON.parse` is the parameter
    `parse`; what is sent is the parsed value. */
module EventStream {
  import opened Common
  import opened Text
  import opened JsNumber

  datatype Poll = Aborted | Received(chunk: string)

  /** The text of the reads, in order. */
  function Stream(polls: seq<Poll>): string
  {
    if |polls| == 0 then ""
    else Stream(AllButLast(polls)) + (if Last(polls).Received? then Last(polls).chunk else "")
  }

  /** The number of reads the loop performs: it stops at the first abort or at the end of the
      stream, and at nothing else. */
  function StopIndex(trace: seq<Poll>): (k: nat)
    ensures k <= |trace|
    ensures forall j :: 0 <= j < k ==> trace[j].Received?
    ensures k < |trace| ==> trace[k].Aborted?
  {
    if |trace| == 0 || trace[0].Aborted? then 0 else 1 + StopIndex(trace[1..])
  }

  /** The loop stops exactly at the first poll that is not a read. */
  lemma {:induction false} StopsAt(trace: seq<Poll>, k: nat)
    requires k <= |trace| && Aborted !in trace[..k]
    requires k == |trace| || trace[k].Aborted?
    ensures StopIndex(trace) == k
  {
    if k > 0 {
      assert trace[0] in trace[..k];
      assert trace[1..][..k - 1] == trace[1..k];
      StopsAt(trace[1..], k - 1);
    }
  }

  /** The lines of `data` that a `\n` has completed. */
  function CompleteLines(data: string): (r: seq<string>)
    ensures forall k :: 0 <= k < |r| ==> '\n' !in r[k]
  {
    AllButLast(Split(data, '\n'))
  }

  /** The unfinished text after the last `\n` of `data`. */
  function Pending(data: string): (r: string)
    ensures '\n' !in r
  {
    Last(Split(data, '\n'))
  }

  /** A line main.ts does not even try to parse: blank, or a number such as a chunk size. */
  predicate Skipped(line: string)
  {
    |Trim(line)| == 0 || IsNumeric(line)
  }

  // The forwarding of lines is stated for any line filter `skip`; the decoder passes `Skipped`.
  // The facts below hold whatever the filter, so in particular for `Skipped`.

  /** The values sent for one complete line: none for a line the filter skips or one
      `JSON.parse` rejects, otherwise the parsed value. */
  function Sent<T>(line: string, skip: string -> bool, parse: string -> Option<T>): (r: seq<T>)
    ensures |r| <= 1
    ensures |r| == 1 <==> !skip(line) && parse(line).Some?
  {
    if skip(line) then []
    else match parse(line)
      case None => []
      case Some(e) => [e]
  }

  /** The values sent for a list of complete lines, in order. */
  function Forward<T>(lines: seq<string>, skip: string -> bool, parse: string -> Option<T>): (r: seq<T>)
    ensures |r| <= |lines|
  {
    if |lines| == 0 then [] else Forward(AllButLast(lines), skip, parse) + Sent(Last(lines), skip, parse)
  }

  /** The values sent for one line: nothing for a skipped line or one `JSON.parse` rejects,
      otherwise exactly the parsed value. */
  lemma ForwardOne<T>(line: string, skip: string -> bool, parse: string -> Option<T>)
    ensures Forward([line], skip, parse)
         == if skip(line) || parse(line).None? then [] else [parse(line).value]
  {
    assert AllButLast([line]) == [];
  }

  /** Lines are handled one at a time and independently: forwarding a list is forwarding its
      parts, in order. */
  lemma {:induction false} ForwardAppend<T>(xs: seq<string>, ys: seq<string>, skip: string -> bool, parse: string -> Option<T>)
    ensures Forward(xs + ys, skip, parse) == Forward(xs, skip, parse) + Forward(ys, skip, parse)
    decreases |ys|
  {
    if |ys| == 0 {
      assert xs + ys == xs;
    } else {
      assert AllButLast(xs + ys) == xs + AllButLast(ys);
      assert Last(xs + ys) == Last(ys);
      ForwardAppend(xs, AllButLast(ys), skip, parse);
    }
  }

  /** Nothing is sent for lines that are all skipped, whatever `JSON.parse` does. */
  lemma {:induction false} ForwardSkipsAll<T>(lines: seq<string>, skip: string -> bool, parse: string -> Option<T>)
    requires forall k :: 0 <= k < |lines| ==> skip(lines[k])
    ensures Forward(lines, skip, parse) == []
  {
    if |lines| > 0 {
      ForwardSkipsAll(AllButLast(lines), skip, parse);
    }
  }

  /** Every value sent comes from a line that was not skipped and that `JSON.parse` turned
      into that value. */
  lemma {:induction false} ForwardSource<T>(lines: seq<string>, skip: string -> bool, parse: string -> Option<T>, e: T)
    requires e in Forward(lines, skip, parse)
    ensures exists k :: 0 <= k < |lines| && !skip(lines[k]) && parse(lines[k]) == Some(e)
  {
    var rest := Forward(AllButLast(lines), skip, parse);
    if e in rest {
      ForwardSource(AllButLast(lines), skip, parse, e);
      var k :| 0 <= k < |lines| - 1 && !skip(AllButLast(lines)[k]) && parse(AllButLast(lines)[k]) == Some(e);
      assert lines[k] == AllButLast(lines)[k];
    } else {
      assert !skip(lines[|lines| - 1]) && parse(lines[|lines| - 1]) == Some(e);
    }
  }

  /** One read: the pending text and the new chunk are exactly the complete lines, each
      followed by `\n`, and then the new pending text, which holds no `\n`. */
  lemma ReadStep(leftover: string, chunk: string)
    ensures '\n' !in Pending(leftover + chunk)
    ensures var lines := CompleteLines(leftover + chunk);
      leftover + chunk
        == (if |lines| == 0 then "" else Join(lines, "\n") + "\n") + Pending(leftover + chunk)
  {
    var parts := Split(leftover + chunk, '\n');
    JoinSplit(leftover + chunk, '\n');
    JoinLast(parts, "\n");
  }

  lemma {:induction false} JoinLast(parts: seq<string>, sep: string)
    requires |parts| > 0
    ensures Join(parts, sep)
         == (if |parts| == 1 then "" else Join(AllButLast(parts), sep) + sep) + Last(parts)
  {
    if |parts| > 2 {
      JoinLast(parts[1..], sep);
      var init := AllButLast(parts);
      assert AllButLast(parts[1..]) == init[1..];
      assert Join(init, sep) == parts[0] + sep + Join(init[1..], sep);
      assert Join(parts, sep) == parts[0] + sep + (Join(init[1..], sep) + sep + Last(parts));
    } else if |parts| == 2 {
      assert AllButLast(parts) == [parts[0]];
    }
  }

  /** Text that arrives after `data` only finishes its pending line and adds lines of its own:
      the lines already complete are kept, and none is lost or duplicated. */
  lemma MoreData(data: string, chunk: string)
    ensures CompleteLines(data + chunk)
         == CompleteLines(data) + CompleteLines(Pending(data) + chunk)
    ensures Pending(data + chunk) == Pending(Pending(data) + chunk)
  {
    SplitAppend(data, chunk, '\n');
  }

  /** One more read: the lines it completes are sent after those sent before, and what is
      pending is the unfinished end of the pending text plus the read. */
  lemma ReadMore<T>(trace: seq<Poll>, count: nat, skip: string -> bool, parse: string -> Option<T>)
    requires count < |trace| && trace[count].Received?
    ensures var before := Stream(trace[..count]);
      var lines := Split(Pending(before) + trace[count].chunk, '\n');
      && Forward(CompleteLines(Stream(trace[..count + 1])), skip, parse)
         == Forward(CompleteLines(before), skip, parse) + Forward(AllButLast(lines), skip, parse)
      && Pending(Stream(trace[..count + 1])) == Last(lines)
  {
    var before := Stream(trace[..count]);
    var chunk := trace[count].chunk;
    assert AllButLast(trace[..count + 1]) == trace[..count];
    assert Stream(trace[..count + 1]) == before + chunk;
    MoreData(before, chunk);
    ForwardAppend(CompleteLines(before), CompleteLines(Pending(before) + chunk), skip, parse);
  }

  /** One line: passed over when the filter skips it, otherwise parsed and, if `JSON.parse`
      accepts it, sent. */
  method SendLine<T>(sent0: seq<T>, line: string, skip: string -> bool, parse: string -> Option<T>)
    returns (sent: seq<T>)
    ensures sent == sent0 + Sent(line, skip, parse)
  {
    sent := sent0;
    if !skip(line) {
      match parse(line)
      case Some(e) => sent := sent + [e];
      case None =>
    }
  }

  /** The lines up to `k` and one more: the values sent for the first `k`, then those of line `k`.
      A one-step unfolding of `Forward`, kept to keep the loop's proof small. */
  lemma ForwardNext<T>(lines: seq<string>, k: nat, skip: string -> bool, parse: string -> Option<T>)
    requires k < |lines|
    ensures Forward(lines[..k + 1], skip, parse) == Forward(lines[..k], skip, parse) + Sent(lines[k], skip, parse)
  {
    assert AllButLast(lines[..k + 1]) == lines[..k];
    assert Last(lines[..k + 1]) == lines[k];
  }

  /** The inner loop of one read: each complete line is skipped, dropped or sent, in order. */
  method SendLines<T>(sent0: seq<T>, lines: seq<string>, skip: string -> bool, parse: string -> Option<T>)
    returns (sent: seq<T>)
    ensures sent == sent0 + Forward(lines, skip, parse)
  {
    sent := sent0;
    for k := 0 to |lines|
      invariant sent == sent0 + Forward(lines[..k], skip, parse)
    {
      ForwardNext(lines, k, skip, parse);
      sent := SendLine(sent, lines[k], skip, parse);
    }
    assert lines[..|lines|] == lines;
  }

  /** The decoder's loop with the line filter `skip`.  It stops at the first abort or when the
      stream ends; by then it has sent exactly the values of the complete lines of everything
      read, in order, however the text was cut into reads, and it holds the unfinished last
      line. */
  method DecodeEvents<T>(trace: seq<Poll>, skip: string -> bool, parse: string -> Option<T>)
    returns (sent: seq<T>, leftover: string, count: nat)
    ensures count == StopIndex(trace)
    ensures sent == Forward(CompleteLines(Stream(trace[..count])), skip, parse)
    ensures leftover == Pending(Stream(trace[..count]))
  {
    sent := [];
    leftover := "";
    count := 0;
    while count < |trace| && trace[count].Received?
      invariant count <= |trace| && Aborted !in trace[..count]
      invariant sent == Forward(CompleteLines(Stream(trace[..count])), skip, parse)
      invariant leftover == Pending(Stream(trace[..count]))
    {
      var chunk := trace[count].chunk;
      ReadMore(trace, count, skip, parse);
      var lines := Split(leftover + chunk, '\n');
      leftover := Last(lines);
      lines := AllButLast(lines);
      sent := SendLines(sent, lines, skip, parse);
      assert trace[..count + 1] == trace[..count] + [trace[count]];
      count := count + 1;
    }
    StopsAt(trace, count);
  }

  /** `containerEvents`: the decoder's loop passing over blank and numeric lines. */
  method ContainerEvents<T>(trace: seq<Poll>, parse: string -> Option<T>)
    returns (sent: seq<T>, leftover: string, count: nat)
    ensures count == StopIndex(trace)
    ensures sent == Forward(CompleteLines(Stream(trace[..count])), Skipped, parse)
    ensures leftover == Pending(Stream(trace[..count]))
  {
    sent, leftover, count := DecodeEvents(trace, Skipped, parse);
  }

  /** A chunk-size line followed by an event cut anywhere between two reads: the size is
      dropped and the event is sent once, whole. */
  lemma SplitEvent<T>(size: string, p: string, q: string, parse: string -> Option<T>, e: T)
    requires Skipped(size) && '\n' !in size
    requires '\n' !in p + q && !Skipped(p + q) && parse(p + q) == Some(e)
    ensures Forward(CompleteLines(Stream([Received(size + "\n" + p), Received(q + "\n")])), Skipped, parse) == [e]
  {
    SplitLine(size, p, q, Skipped, parse, e);
  }

  lemma SplitLine<T>(size: string, p: string, q: string, skip: string -> bool, parse: string -> Option<T>, e: T)
    requires skip(size) && '\n' !in size
    requires '\n' !in p + q && !skip(p + q) && parse(p + q) == Some(e)
    ensures Forward(CompleteLines(Stream([Received(size + "\n" + p), Received(q + "\n")])), skip, parse) == [e]
  {
    var event := p + q;
    StreamTwo(size + "\n" + p, q + "\n");
    assert size + "\n" + p + (q + "\n") == size + "\n" + (event + "\n" + "");
    TwoLines(size, event);
    ForwardSkipThenKeep(size, event, skip, parse);
  }

  lemma TwoLines(a: string, b: string)
    requires '\n' !in a && '\n' !in b
    ensures CompleteLines(a + "\n" + (b + "\n" + "")) == [a, b]
  {
    SplitFirst(b, "", '\n');
    SplitFirst(a, b + "\n" + "", '\n');
    SplitWithout("", '\n');
    assert Split(a + "\n" + (b + "\n" + ""), '\n') == [a, b, ""];
  }

  lemma StreamTwo(a: string, b: string)
    ensures Stream([Received(a), Received(b)]) == a + b
  {
    assert AllButLast([Received(a), Received(b)]) == [Received(a)];
    assert Last([Received(a), Received(b)]) == Received(b);
    assert AllButLast([Received(a)]) == [] && Last([Received(a)]) == Received(a);
    assert Stream([Received(a)]) == "" + a;
  }

  lemma ForwardSkipThenKeep<T>(a: string, b: string, skip: string -> bool, parse: string -> Option<T>)
    requires skip(a) && !skip(b) && parse(b).Some?
    ensures Forward([a, b], skip, parse) == [parse(b).value]
  {
    assert AllButLast([a, b]) == [a] && Last([a, b]) == b;
    assert AllButLast([a]) == [] && Last([a]) == a;
    assert Forward([a], skip, parse) == [];
  }
}

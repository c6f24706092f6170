# Container dashboard: socket decoders and statistics summaries

This project models the logic of a container dashboard that can be stated precisely, and proves properties of that model.

The dashboard's server (main.ts) talks HTTP/1.1 to the container runtime over a Unix socket. Three parts of main.ts are modelled:

- **`containerEvents`**: the decoder of the runtime's `/events` stream. It splits the incoming text into lines, holding back the unfinished last line across reads. It skips blank lines and lines whose `Number` is not NaN, such as a chunk size written only in decimal digits, and sends every other line that parses as JSON. A chunk size with hex letters, such as `1a3`, is not skipped: it fails `JSON.parse` and is dropped there.
- **`readResponse`**: the reader of one HTTP response. It does the following:
  - reads until a stop condition;
  - classifies the framing from the header lines of the first read;
  - copies the kept reads end to end;
  - takes the body between the first blank line and the next;
  - de-chunks a chunked body with its own loop.
- **`formatStats`/`formatBytes`**: the summary of a container's statistics document.

The agent (agent/agent.go) computes the same summary in Go. Its `ContainerStats` and `formatBytes` are modelled with Go's `uint64` wrap-around made explicit.

The modules are:

- `Common`: `Option` and `Result`.
- `Text`: the JavaScript string operations main.ts uses:
  - `split` on a character, and `split(sep, 2)`, which drops whatever follows a second separator;
  - `trim` over JavaScript's white space;
  - `slice`;
  - concatenation of a list of reads.
- `Radix`: decimal and hexadecimal digits, and `parseInt(`0x${s}`, 16)`.
- `JsNumber`: `Number(s)` on a string, as a scanner over the StringNumericLiteral grammar. It decides whether the result is NaN and whether it is positive.
- `EventStream`: `containerEvents`.
- `Response`: `readResponse`.
- `Stats`: `formatStats` and `formatBytes` of main.ts.
- `Agent`: `ContainerStats`, `formatBytes` and `ContainerDetails` of agent/agent.go, and how they relate to `Stats`.

How the model follows the source:

- The loops of the source are methods with loops. Each method is proved equal to a specification function: `ContainerEvents`, `SendLines`, `ReadResponse`, `ReadChunks`, `ClassifyHeaders`, `ConcatReads`, `DechunkBody` and `ContainerStats`. The lemmas are stated about those functions.
- Socket reads are a sequence of strings, one per read.
- `JSON.parse` is a function parameter.
- The event decoder's loop (`DecodeEvents`) takes its line filter as a parameter, and `ContainerEvents` passes `Skipped`: a line whose trim is empty or whose `Number` is not NaN. The forwarding lemmas hold for any filter, and so for `Skipped`.
- The runtime's statistics client and the JSON decoder are an input outcome (`Fetch`).

The model follows the code's semantics, not HTTP/1.1. In particular:

- Only the first chunk of a chunked body survives, because `split("\r\n", 2)` drops the rest (`Response.FirstChunkOnly`).
- A `Transfer-Encoding: chunked` line that ends in `\r` reads as "not chunked" (`Response.ChunkedLineWithCarriageReturn`).
- An empty chunked body makes the de-chunk loop throw (`Response.EmptyChunkedBodyThrows`).

## Model

| member | source | states |
|---|---|---|
| Text.Join | agent/agent.go:80 | `parts.join(sep)` (and Go's `strings.Join`): the text starts with the first part, followed by `sep` when a second part follows |
| Text.StartsWith | main.ts:66-68 | `line.startsWith(p)`: `p` is a prefix of the line |
| Text.Split | main.ts:32 | `s.split("\n")`: at least one piece, none containing the separator |
| Text.JoinSplit | main.ts:32 | joining the pieces with the separator gives back the text: nothing lost or duplicated |
| Text.SplitAppend | main.ts:32-34 | splitting `x + y` is the complete pieces of `x`, then the split of `x`'s unfinished piece followed by `y` |
| Text.SplitLimit2 | main.ts:95 | `s.split(sep, 2)`: one piece (the whole text) exactly when `sep` does not occur; otherwise the text before the first `sep`, then the text from after it up to the next `sep` or the end, with no `sep` inside either piece |
| Text.SplitAt | main.ts:102 | a text built as head, `sep`, mid, and a tail that is empty or starts with `sep` (no `sep` in head or mid) splits into exactly `[head, mid]` |
| Text.Trim | main.ts:37 | `line.trim()` is empty exactly when every character is JavaScript white space, and otherwise starts and ends with a non-space |
| Text.TrimBlank | main.ts:37 | trimming the start then the end yields nothing exactly for an all-space line, and keeps the first non-space character |
| Text.Prefix | main.ts:210 | `id.slice(0, 12)`: the first `min(12, |id|)` characters of the text |
| Text.DropFirst | main.ts:211 | `name.slice(1)`: the text without its first character (empty stays empty) |
| Text.TotalLength | main.ts:86-88 | `chunks.reduce((acc, chunk) => acc + chunk.length, 0)`: the sum of the read lengths |
| Text.Concat | main.ts:89-93 | the buffer the offset loop fills: the reads end to end, in order |
| Text.ConcatLength | main.ts:86-88 | the concatenated reads are as long as the sum of the read lengths, which sizes the buffer |
| Text.ConcatAppend | main.ts:90-93 | concatenating two lists of reads is concatenating their concatenations |
| Radix.Render | main.ts:227 | the digits of a count: non-empty, all digits of the base, no leading zero unless the count is 0 |
| Radix.RenderValue | main.ts:227 | reading rendered digits back gives the count |
| Radix.Decimal | main.ts:227 | `${n}` and Go's `%d`: the decimal digits of a count, non-empty and all decimal |
| Radix.DecimalInjective | main.ts:227 | distinct counts print distinct decimal texts |
| Radix.ParseHexPrefix | main.ts:103 | `parseInt(`0x${s}`, 16)` is NaN exactly when `s` is empty or does not start with a hex digit |
| Radix.HexRunOfDigits | main.ts:103 | `parseInt` reads hex digits up to the first character that is not one |
| Radix.HexRoundTrip | main.ts:103 | a chunk size written in hex, followed by a non-hex character, parses back to the size |
| JsNumber.IsNumeric | main.ts:37 | `!isNaN(Number(s))`: the trimmed text is empty, an infinity, or scans completely as a StringNumericLiteral (defines the skip test; its properties are the lemmas below) |
| JsNumber.IsPositive | main.ts:69-70 | `Number(s) > 0`: the text scans as a numeric literal with no minus sign and a non-zero digit, or is `Infinity` or `+Infinity` (defines the test; its properties are the lemmas below) |
| JsNumber.PositiveIsNumeric | main.ts:69-70 | a string whose `Number` is positive is not NaN |
| JsNumber.DigitsAreNumeric | main.ts:37 | a trimmed line of decimal digits is a number, so the event decoder skips it |
| JsNumber.ObjectIsNotNumeric | main.ts:37 | a line that starts, after trimming, with `{` is not a number, so a JSON event is not skipped as one |
| JsNumber.DecimalPositive | main.ts:69-70 | `Number` of a decimal count followed by white space is a number, positive exactly when the count is |
| JsNumber.DecimalScan | main.ts:69-70 | the scan of a printed count has no sign, is complete, and has a non-zero digit exactly when the count is positive |
| JsNumber.TrimDigits | main.ts:37 | trimming decimal digits followed by white space leaves the digits |
| JsNumber.RunDigits | main.ts:37 | the scanner stays in the integer phase over decimal digits and records whether one is non-zero |
| EventStream.StopIndex | main.ts:27-29 | the loop performs reads up to, and not past, the first abort or the end of the stream |
| EventStream.StopsAt | main.ts:27-29 | the loop stops exactly at the first poll that is not a read: the first abort, or the end of the stream |
| EventStream.CompleteLines | main.ts:32-34 | the lines a `\n` has completed: every piece of the split but the last, none holding a `\n` |
| EventStream.Pending | main.ts:34 | `leftover = lines.pop()`, or `""` when that is empty: the text after the last `\n`, which holds no `\n` |
| EventStream.Skipped | main.ts:37 | the skip test: the trimmed line is empty or its `Number` is not NaN |
| EventStream.Sent | main.ts:37-46 | one line sends at most one value, and one exactly when the filter keeps it and `JSON.parse` accepts it |
| EventStream.Forward | main.ts:36-47 | the values sent for a list of complete lines, line by line in order; never more values than lines |
| EventStream.ForwardAppend | main.ts:36-47 | the values sent for two runs of lines are the values of each, in order |
| EventStream.ForwardSkipsAll | main.ts:37-39 | lines the filter skips (blank and numeric ones under `Skipped`) send nothing, whatever `JSON.parse` does |
| EventStream.ForwardSource | main.ts:37-43 | every value sent comes from a line the filter did not skip and that parses to it |
| EventStream.ForwardOne | main.ts:37-46 | one line sends its parsed value, or nothing when it is skipped or fails to parse |
| EventStream.ReadStep | main.ts:32-34 | after a read the new `leftover` has no `\n`, and the old `leftover` plus the read is the complete lines joined by `\n`, a `\n`, and the new `leftover` |
| EventStream.MoreData | main.ts:32-34 | a read completes the lines of everything so far: the lines of the whole text are the earlier lines, then the lines of the pending text plus the read; nothing lost or duplicated |
| EventStream.ReadMore | main.ts:31-47 | one more read sends the values of the lines it completes after those sent before, and leaves pending the unfinished end of the pending text plus the read |
| EventStream.SendLine | main.ts:37-46 | one line is passed over when skipped, otherwise parsed and, when `JSON.parse` accepts it, its value is sent |
| EventStream.SendLines | main.ts:36-47 | the inner loop sends exactly the values `Forward` gives for the complete lines, after those already sent |
| EventStream.DecodeEvents | main.ts:27-47 | the loop stops at the first abort or the end, has sent exactly the values of the complete lines of all text read, in order, however the text was cut into reads, and holds the unfinished line |
| EventStream.ContainerEvents | main.ts:25-48 | the same, with blank and numeric lines skipped |
| EventStream.SplitLine | main.ts:31-46 | a skipped line and then a line cut over two reads: only the second line's value is sent, once |
| EventStream.SplitEvent | main.ts:31-46 | a numeric chunk-size line and an event cut anywhere over two reads: the number is dropped and the event is sent once, whole |
| Response.EndsWithLastChunkMeaning | main.ts:77-83 | the stop test holds for a read of five or more characters exactly when it ends with `0\r\n\r\n`, and for a shorter read when the read is a prefix of `0\r\n\r\n` |
| Response.HeaderLines | main.ts:61-64 | the header lines of a read: the text before its first blank line, split on `\n` |
| Response.SecondWord | main.ts:66-69 | `line.split(" ")[1]`: the second space-separated word, absent for a line without a space |
| Response.EndsWithLastChunk | main.ts:77-83 | the stop test `lastFiveBytes.every(...)` (its meaning is `EndsWithLastChunkMeaning`) |
| Response.ClassifyLine | main.ts:66-73 | the effect of one header line on `isChunked`: a `Transfer-Encoding:` line sets it to whether its value is `chunked`, a positive `Content-Length:` line clears it, any other line leaves it |
| Response.Classify | main.ts:65-74 | `headerLines.forEach(...)`: the lines applied in order; lines that are neither `Transfer-Encoding:` nor `Content-Length:` leave the framing as it was |
| Response.ClassifyLastDecides | main.ts:65-74 | the last `Transfer-Encoding:` line, or a later positive `Content-Length:` line, decides the framing whatever the lines before it said |
| Response.SecondWordAfter | main.ts:67-69 | the second space-separated word of `key value` is `value` |
| Response.ClassifyTransferEncoding | main.ts:66-67 | a `Transfer-Encoding:` line sets chunked exactly when its value is `chunked` |
| Response.ChunkedLineWithCarriageReturn | main.ts:61-67 | a `Transfer-Encoding: chunked` line still ending in `\r` (any line but the last of the headers) sets "not chunked" |
| Response.ClassifyContentLength | main.ts:68-73 | a `Content-Length:` line sets "not chunked" when its value is positive, and leaves the framing unchanged for 0 |
| Response.StatusLineIgnored | main.ts:65-74 | the status line changes nothing |
| Response.Framing | main.ts:60-76 | the first read's header lines decide `isChunked`; once the headers were inspected, a read leaves it unchanged, and so do header lines that are neither `Transfer-Encoding:` nor `Content-Length:` |
| Response.Gather | main.ts:55-84 | the read loop from a given state: it stops before a five-character read, at the end, or once not chunked, and after a read that ends like the last chunk; it keeps the reads it passes and inspects the headers of the first one (its properties are the lemmas below) |
| Response.ReadLoop | main.ts:52-84 | the read loop from its initial state: no headers seen yet, chunked assumed |
| Response.GatherKeepsFraming | main.ts:60-76 | once the headers have been inspected, later reads never change the framing |
| Response.FramingFromFirstRead | main.ts:53-76 | the framing is chunked unless the first kept read's header lines say otherwise |
| Response.GatherShape | main.ts:55-84 | the kept reads are a prefix of the socket, none five characters long, only the last may end like the last chunk, and the loop stopped on a five-character read, on "not chunked", on the last chunk, or at the end |
| Response.GatherKeepsAll | main.ts:55-84 | a chunked response whose reads are never five characters long and end like the last chunk only at the end keeps every read |
| Response.NotChunkedKeepsFirstRead | main.ts:55-76 | when the first read's headers say "not chunked", only that read is kept, whatever follows |
| Response.Dechunk | main.ts:99-106 | the de-chunk loop: the frames' contents in order, each cut to its hex size (0 when the size line is not hex), or the error thrown on a non-empty body without `\r\n` (its properties are the lemmas below) |
| Response.Frame | main.ts:102-105 | a de-chunk step leaves a strictly shorter text |
| Response.FrameBound | main.ts:102-105 | a frame adds at most the parsed size, and adds nothing when the size line is not hex |
| Response.DechunkStep | main.ts:101-106 | a non-empty body without `\r\n` throws; otherwise the result is the frame's contents followed by the result for the rest |
| Response.DechunkShrinks | main.ts:100-106 | de-chunking never yields more text than the body |
| Response.FirstChunkOnly | main.ts:100-106 | a hex size, `\r\n` and data without `\r\n` de-chunk to the data, whatever follows the next `\r\n`: only the first chunk survives |
| Response.WholeFrame | main.ts:102-106 | a body split into a size line and exactly that much data de-chunks to the data |
| Response.ResponseSplit | main.ts:95-98 | a header block, a blank line and a body without a blank line split into exactly the headers and the body |
| Response.OneChunkBlankLine | main.ts:95-98 | in a one-chunk body the only blank line is the one that ends the last chunk |
| Response.BlankLineAfterChunk | main.ts:95-98 | after a hex size line, `\r\n`, data without `\r\n` and the last chunk, the first blank line is the one inside the last chunk |
| Response.OneChunkSplit | main.ts:95-98 | the second piece of a one-chunk response is the size line, the data and the `\r\n0` before the final blank line |
| Response.TwoLineHeadBlock | main.ts:61-64 | a status line plus one field is a header block whose lines are the status line (with its `\r`) and the field |
| Response.ChunkedField | main.ts:66-67 | `Transfer-Encoding: chunked` is one line and keeps the response chunked |
| Response.HeadClassify | main.ts:61-74 | a header block of the status line and one field is classified by that field alone |
| Response.ContentLengthHead | main.ts:61-76 | a `Content-Length` header takes the response as not chunked exactly when the length is positive |
| Response.Extract | main.ts:94-116 | what `readResponse` makes of the concatenated text: the text itself without a blank line, otherwise the body, de-chunked when chunked |
| Response.ReadResponseSpec | main.ts:51-117 | `readResponse` as a whole: the read loop, the concatenation, then `Extract` |
| Response.ExtractOutcome | main.ts:94-116 | a text without a blank line is returned unchanged; otherwise a non-chunked result is exactly the text from after the first blank line up to the next one or the end |
| Response.ChunkedResponseRoundTrip | main.ts:51-117 | a chunked one-chunk response is read back as its data when the first read's headers keep it chunked, no read before the last is five bytes long or ends like the last chunk, and a five-byte last read is the last chunk alone (which the loop drops) |
| Response.GatherDropsLast | main.ts:57-58 | a last read of exactly five bytes is not kept: the loop keeps the reads before it and stays chunked |
| Response.LastChunkDropped | main.ts:51-117 | the case of the round trip where the last chunk is a read of its own: dropped by the five-byte test, the rest still reads back as the data |
| Response.ChunkedResponseOneRead | main.ts:51-117 | a whole chunked response in one read, whose header block is the status line and the `Transfer-Encoding: chunked` field alone, is read back as its data |
| Response.ContentLengthResponse | main.ts:51-117 | a response whose header block is the status line and a `Content-Length` field alone, held whole by the first read, is read back as its body, and later reads are ignored |
| Response.EmptyChunkedBodyThrows | main.ts:100-106 | an empty chunked body (the last chunk alone) throws in the de-chunk loop |
| Response.ClassifyHeaders | main.ts:65-74 | the `forEach` over the header lines computes the classification |
| Response.ConcatReads | main.ts:85-94 | the offset loop fills the buffer with the kept reads end to end |
| Response.DechunkBody | main.ts:99-106 | the de-chunk loop's result, or the error it throws, is `Dechunk` of the body |
| Response.ReadChunks | main.ts:52-84 | the read loop keeps the reads and ends with the framing that `ReadLoop` describes |
| Response.ReadResponse | main.ts:51-117 | `readResponse` returns, or throws, what `ReadResponseSpec` describes |
| Stats.UnitOf | main.ts:225-235 | the unit is the largest one of which there is at least one whole, and below GiB fewer than 1024 of them |
| Stats.UnitOfUnique | main.ts:225-235 | exactly one unit satisfies the threshold conditions |
| Stats.UnitOfMonotone | main.ts:225-235 | more bytes never pick a smaller unit |
| Stats.FormatBytes | main.ts:225-235 | exact text exactly below 1024, otherwise the count over the chosen unit's scale with that unit's name |
| Stats.ScaledWholePart | main.ts:228-234 | a scaled value shows a whole part of at least 1, and below GiB of at most 1023 |
| Stats.ExactBytesRoundTrip | main.ts:226-227 | below 1024 the text is the decimal count and ` B`, and its digits read back as the count |
| Stats.NumberCpus | main.ts:197-198 | the per-CPU list's length, falling back to `online_cpus` when the list is absent or empty |
| Stats.FormatStats | main.ts:175-223 | the ID is the first 12 characters, the name drops its first character, the deltas are the counter differences, and the memory and network figures are `formatBytes` of the usage, the limit and the totals; the CPU count is `NumberCpus`, the process count is copied, and the CPU and memory percentages are recorded as numerator over denominator |
| Stats.Total | main.ts:200-207 | the `reduce` over the interfaces: the sum of one count over the list |
| Stats.NetworkRead | main.ts:200-203 | the sum of `rx_bytes` over the interfaces, and 0 without a `networks` object |
| Stats.NetworkWrite | main.ts:204-207 | the sum of `tx_bytes` over the interfaces, and 0 without a `networks` object |
| Stats.TotalAppend | main.ts:200-207 | the network total of two lists is the sum of their totals |
| Stats.TotalPermutation | main.ts:200-207 | the network totals do not depend on the order of the interfaces |
| Stats.TotalRemove | main.ts:200-207 | removing one interface from the list removes its count from the total |
| Stats.TotalBounds | main.ts:200-207 | each interface's count is part of the total |
| Agent.Add64 | agent/agent.go:67-68 | `uint64` addition is the sum modulo 2^64, and the exact sum below 2^64 |
| Agent.Sub64 | agent/agent.go:71-72 | `uint64` subtraction: adding the subtrahend back gives the minuend modulo 2^64; the true difference when nothing wraps |
| Agent.FormatBytes64 | agent/agent.go:92-102 | Go's `formatBytes` picks the same unit and the same quotient as the dashboard's `formatBytes` |
| Agent.WrappedTotal | agent/agent.go:63-69 | the accumulated counter is the exact total modulo 2^64 |
| Agent.NumCPUs | agent/agent.go:73-76 | the per-CPU list's length, or `OnlineCPUs` when it is empty |
| Agent.JoinedNames | agent/agent.go:80 | `strings.Join(container.Names, ",")`: the first name, then a comma when another follows |
| Agent.Details | agent/agent.go:78-88 | a panic exactly when the ID is shorter than 12 bytes or the joined names are empty; otherwise the first 12 bytes of the ID and the joined names without their first byte |
| Agent.ContainerStatsSpec | agent/agent.go:46-59 | a failed fetch or decode returns a record with every field empty |
| Agent.ContainerStats | agent/agent.go:46-90 | the method, with its accumulation loop, returns what `ContainerStatsSpec` describes |
| Agent.AccumulateStep | agent/agent.go:65-69 | each turn of the loop keeps the counter equal to the exact total so far modulo 2^64 |
| Agent.CpuDeltaWraps | agent/agent.go:71-72 | when the previous counter is ahead, the delta is the negative difference plus 2^64 |
| Agent.NetworkOrderIrrelevant | agent/agent.go:65-69 | the record does not depend on the order in which `range` visits the networks map |
| Agent.NetTotalsExact | agent/agent.go:63-69 | below 2^64 the counters are the exact totals, and 0 with no networks |
| Agent.Interfaces | agent/agent.go:65 | the dashboard's interface list holds the same counts, interface by interface |
| Agent.InterfacesTotal | agent/agent.go:63-69 | the dashboard and the agent total the same counts |
| Agent.IdentityAgrees | agent/agent.go:79-80 | the agent's ID is the dashboard's; its name is the dashboard's when the container has only the name the document gives, and differs when further names follow that name (the agent joins them all) |
| Agent.NetworkAgrees | agent/agent.go:85-86 | the network figures agree with the dashboard's while the totals stay below 2^64 |
| Agent.CpuAgrees | agent/agent.go:71-81 | the CPU quotient agrees with the dashboard's while neither counter goes backwards |
| Agent.AgentMatchesDashboard | agent/agent.go:78-88 | without a panic the agent records what the dashboard computes from the same sample: ID, memory units and quotients, process count, the name under the condition of `IdentityAgrees` (and a different name when more names follow), and the network and CPU figures under the conditions above |

## Left out

- Socket and HTTP I/O are not modelled, because they are glue around the decoders: `Deno.connect`, the request strings, `conn.write`, `Deno.serve`, WebSockets. Reads are an input sequence, and the end of the sequence is a `null` read.
- `TextDecoder` is left out: the model assumes ASCII responses, where a character stands for a byte. Outside ASCII it would miss two things: decoding a read on its own can split a character, and a chunk size counts bytes while `slice` at main.ts:104 counts UTF-16 code units.
- `JSON.parse` and `JSON.stringify` are left out, because they are foreign library code. `JSON.parse` is a parameter, and `formatStats` receives the parsed document. What `ws.send` transmits is recorded as the parsed value.
- agent/main.go and agent/ssh.go are not part of this model, because they are HTTP serving, concurrency and SSH forwarding. The runtime client calls in agent/agent.go (`getCli`, `ContainerList`, the statistics request, the decoder) are inputs: the `Fetch` outcome.
- Stats.FormatBytes: does not give the digits that `toFixed(2)` prints, because that is floating-point formatting. It records the quotient and the unit. Rounding can print `1024.00 KiB` just below 1 MiB.
- Stats.FormatStats: does not give the digits of the CPU and memory percentages, because they are floating-point divisions. It records numerator and denominator (`TwoDecimals`), and does not handle a zero denominator, just as the source does not. It also does not model double-precision loss in sums above 2^53: counters are exact integers.
- Agent.ContainerStats: does not give the digits that `%.2f` prints, for the same reason; quotients are recorded as for `Stats.FormatStats`. Printing to standard output on an error is not modelled.
- Agent.FormatBytes64: the same simplification as `Stats.FormatBytes`. The two sides can print different digits for the same quotient: Go's `%.2f` rounds an exact tie to even and `toFixed(2)` rounds it up, so 1152 bytes (1.125 KiB) prints `1.12 KiB` from the agent and `1.13 KiB` from the dashboard.
- AgentMatchesDashboard: the agreement holds for the recorded units and quotients, not for the printed text, because of that tie rounding; the CPU and memory percentages can differ the same way. The names agree only when the container has the single name the document shows: the agent prints all names joined by `,` without the first character (`/db` and `/web/db` print `db,/web/db`), while the dashboard shows `db`.
- JsNumber.IsPositive: does not model floating-point underflow, so a tiny value such as `1e-400` counts as positive. `Number` gives 0 for it.
- The `networks` object's `Object.values` order and the Go map's `range` order are modelled as a given list. The totals are proved not to depend on that order.
- Static HTML loading and routing are left out, because they are not logic of the decoders.

# MTWS verification model

A Dafny model of MTWS, an HTTP/1.1 server written in Go that runs its web application firewall inside the
request parser. Five parts of the server are modelled and proved:

- **The firewall** (`Normalize`, `Rules`, `Automaton`, `Scanner`). The batch normalizer is proved against a reference
  definition: remove comments, then squeeze white space and fold case. The Aho-Corasick automaton is built on a heap of
  nodes, each carrying the path that reaches it as a ghost constant; map iteration is a nondeterministic choice. The
  streaming scanner holds back a slash, a space or an open comment, and is proved to report, for any way of
  cutting the input into pieces, what the rule list prescribes for the normalized whole.
- **The request parser** (`Blanks`, `Percent`, `HttpText`, `Http`, `Parser`, `FramingRules`, `Forms`, `Wire`, `RoundTrip`,
  `Witnesses`, `Accepted`). The parser is a set of methods over a shared buffered reader that delivers its bytes in arbitrary
  fragments. They are proved against functions of the unread bytes (`Http`). Those functions are proved to accept exactly a
  grammar of wire forms that is rendered by concatenation and does not use them (`Forms`, `Wire`), to read back pipelined
  requests (`RoundTrip`) and to accept only clean, unambiguous requests (`Accepted`). The chunked
  coding is that of section 7.1 of RFC 9112, body length that of section 6.3, percent decoding that of section 2.1 of
  RFC 3986.
- **The rate limiter** (`Limiter`): a token bucket per key on the heap, equal to a sliding window, and the exact condition
  under which eviction cannot be observed.
- **The connection** (`Connection`, `CommaList`): the keep-alive loop over the real parser, with a write-once response writer,
  arbitrary handlers, writes that may fail, and the metrics.
- **The server** (`Lifecycle`, `Simulation`, `Durations`, `StaticPath`): the acceptor, the bounded job channel, the workers,
  shutdown and counters as one transition system, whose worker steps cover every run of the connection loop; the
  lock-free maximum of request durations; the lexical path checks of the static file handler.

A byte is the character with the same code. Streams, rule lists, fragmentations, call sequences and interleavings are
quantified without bounds.

## Where the code and its documentation differ

The model follows the code.

- Both field loops count the terminating blank line as an iteration (`http/parser.go:52-63`, `http/parser.go:289-300`), so
  at most 63 headers and 15 trailers are accepted, not the 64 and 16 of `docs/http-compliance.md`:
  `Wire.FieldLimitExactly`.
- `docs/http-compliance.md` says that a `Host` value with white space or control characters is refused. The code refuses
  space, TAB, CR and LF only (`http/parser.go:85`). `FramingRules.HostMeetsDocumentExactly` says on which values the two
  agree, `Witnesses.HostDecides` which values are accepted in a request, and `Witnesses.ControlHostIsAccepted` gives a
  request that is accepted against the documentation.
- `docs/http-compliance.md` says that only exactly `chunked` is accepted as a transfer coding. The code trims the value and
  compares under simple case folding, which also identifies the Kelvin sign with the letter k (`http/parser.go:359-361`).
  `FramingRules.CodingExactly` lists the accepted spellings, `Witnesses.CodingDecides` shows that they decide a request,
  and `Witnesses.KelvinSpellingIsAccepted` gives an accepted request with such a coding.
- The fuzz test of the scanner (`security/waf/automaton_fuzz_test.go:13-29`) skips patterns with an empty normal form. With
  such a rule the scanner does not agree with the substring oracle; `Rules.ScanMeetsOracleExactly` gives the exact
  condition and `Rules.FiresExactly` says when something is reported for every rule list.
- The keep-alive header can mislead: a handler that writes nothing gets a fallback 500 that may still say keep-alive
  although the connection is then closed (`core/connection.go:112-119`). `Connection.KeepAliveHeaderExactly` says for
  which responses, `Connection.MisleadingHeaderExactly` on which servers.

## Model

| member | source | states |
|---|---|---|
| Normalize.Normalize | security/waf/normalize.go:3-38 | the index loop computes the reference form (comments removed, white space squeezed, case folded) and its final trim changes nothing |
| Normalize.FindClose | security/waf/normalize.go:11-18 | the inner loop finds the first comment terminator, or none when the comment is unterminated |
| Normalize.AppendVisible | security/waf/normalize.go:29-34 | a visible byte is preceded by one space exactly when white space or a comment separates it from earlier output |
| Normalize.NormalForms | security/waf/normalize.go:3-54 | normalizing is idempotent, and its outputs are exactly the texts with no upper case, no outer or doubled space, no other white space and no comment opening |
| Normalize.NormShrinks | security/waf/normalize.go:3-38 | a normal form is never longer than the input |
| Normalize.CommentIsSpace | security/waf/normalize.go:9-21 | a closed comment, whatever it contains, normalizes like one space in its place |
| Normalize.UnclosedComment | security/waf/normalize.go:11-18 | a comment that is not closed swallows the rest of the text |
| Normalize.PlainTextNormalizes | security/waf/normalize.go:23-34 | a text without comments normalizes to its words in lower case with single spaces between them |
| Normalize.SqueezeJoinsFields | security/waf/normalize.go:23-34 | the squeezed text is the white-space separated words joined by single spaces, in lower case |
| Normalize.NormNeverEndsInSpace | security/waf/normalize.go:49-54 | no normal form starts or ends with a space, so the trim is a no-op |
| Normalize.StreamRefinesBatch | security/waf/automaton.go:152-199 | at every moment the stripped text plus what the mode will add equals the batch result, for every continuation |
| Normalize.EmittedIsPrefix | security/waf/automaton.go:152-199 | what has been sent to the automaton is a prefix of the normal form of every continuation |
| Normalize.ClosedStream | security/waf/automaton.go:130-150 | at the end of input exactly a held-back slash is still missing from the normal form |
| Rules.OwnIsLast | security/waf/automaton.go:42-61 | among rules with one normal form the last live rule in the list owns it |
| Rules.EntryIdentifies | security/waf/automaton.go:43-49 | what is stored for a rule has its pattern, and its own identifier or MTWS-WAF- and its place in the list in at least four digits |
| Rules.LongestSuffixIsLongest | security/waf/automaton.go:201-209 | the automaton's state path is a suffix of the text and every trie path that is a suffix of the text is a suffix of it |
| Rules.FollowIsLongest | security/waf/automaton.go:201-209 | following fail links and consuming a byte leads from the longest suffix of a text to that of the extended text |
| Rules.FailOfChild | security/waf/automaton.go:76-84 | a child's fail path is found by following its parent's fail links |
| Rules.OutputIsInherited | security/waf/automaton.go:81-88 | a node reports its own rule, else what a non-root fail node reports, else nothing; this is the owner of its longest suffix that is a normal form |
| Rules.TableIsCoherent | security/waf/automaton.go:63-90 | fail links and outputs of a rule list can be computed level by level from shorter paths |
| Rules.BestSuffixMeaning | security/waf/automaton.go:201-220 | a node below the root reports iff some normal form ends there, and then the longest one, the last rule in the list among equals |
| Rules.VerdictMeaning | security/waf/automaton.go:201-220 | a report falls due iff a normal form ends there, or the automaton is at a root that carries an empty normal form |
| Rules.ReportsExactly | security/waf/automaton.go:116-220 | for every rule list: a report is made iff a non-empty normal form occurs in the text, or an empty one exists and the automaton revisits its root |
| Rules.FiresExactly | security/waf/automaton.go:116-220 | the same in terms of patterns alone: a report is made iff a non-empty normal form of a pattern is contained in the normalized value, or some pattern normalizes to nothing and some point of the value begins no normal form |
| Rules.ScanMeetsOracleExactly | security/waf/automaton_fuzz_test.go:13-29 | the scan agrees with the substring oracle on all inputs iff no pattern normalizes to nothing |
| Rules.ReportIsEarliestLongestLast | security/waf/automaton.go:42-61 | the reported rule has the earliest end, then the longest normal form, then the last place in the list; the report carries its pattern and its identifier |
| Rules.EarlyReportIsFinal | security/waf/automaton.go:116-128 | a report made before the end of the input is the report for every continuation |
| Automaton.InsertPath | security/waf/automaton.go:51-59 | walking a normal form adds exactly its prefixes to the trie and leaves the other nodes and their outputs alone |
| Automaton.PaddedText | security/waf/automaton.go:226-239 | the two loops write the number in decimal, with zeros in front up to the width |
| Automaton.BuildTrie | security/waf/automaton.go:38-61 | the trie holds exactly the prefixes of the live rules' normal forms, and each node its own rule |
| Automaton.FindFail | security/waf/automaton.go:76-79 | the fail-link loop ends at the node whose edge gives the child's fail path, or past the root when that path is the root |
| Automaton.LinkChild | security/waf/automaton.go:73-88 | one child gets its final fail link and output; everything linked before stays |
| Automaton.Expand | security/waf/automaton.go:69-89 | the children of a node are linked and queued in any order the map yields, keeping the queue in layers without repetition |
| Automaton.LinkTopLevel | security/waf/automaton.go:63-67 | the root's children fail to the root and inherit nothing |
| Automaton.LinkFailures | security/waf/automaton.go:63-90 | the breadth-first search terminates, expands every path of the trie exactly once and shorter paths first, and links every node as the table prescribes |
| Automaton.NewRules | security/waf/automaton.go:38-93 | for every rule list and iteration order the finished graph has the prescribed trie, fail links and outputs |
| Scanner.NodeFacts | security/waf/automaton.go:63-90 | in a finished automaton a node's fail link is the longest proper suffix in the trie, its output the rule of its longest suffix that is a normal form, its edges the trie's |
| Scanner.MatchStep | security/waf/automaton.go:201-220 | one byte moves the longest-suffix state and gives the verdict on the extended text |
| Scanner.Scanner.Advance | security/waf/automaton.go:203-209 | the state after the loop is the followed path, and every fail hop is paid for by node depth |
| Scanner.Scanner.FeedNormalized | security/waf/automaton.go:201-220 | one normalized byte extends the text, keeps the state its longest trie suffix, and reports the first match |
| Scanner.Scanner.EmitVisible | security/waf/automaton.go:191-198 | a pending space is sent first exactly when something was emitted, then the folded byte |
| Scanner.Scanner.FeedAfterSlash | security/waf/automaton.go:164-180 | after a held-back slash either a comment opens or the slash was visible text |
| Scanner.Scanner.FeedRaw | security/waf/automaton.go:152-199 | one raw byte keeps the flags equal to the undecided part of the stream and reports the first match in the emitted text |
| Scanner.Scanner.Feed | security/waf/automaton.go:116-128 | feeding a piece reports the first match of everything fed so far, however the pieces were cut |
| Scanner.Scanner.Finish | security/waf/automaton.go:130-150 | the whole value is judged by its normal form, with at most one fail hop per normalized byte and at most one such byte per raw byte |
| Scanner.ScanParts | security/waf/automaton_fuzz_test.go:22-26 | any splitting of a value over feeds followed by finish gives the answer for the whole value |
| Http.ScanHexExactly | http/parser.go:322-334 | the running bound accepts exactly the hexadecimal numerals of value at most 1 MiB and returns their value |
| Forms.SizeLineExactly | http/parser.go:312-335 | a chunk line is accepted with size n iff it is a hexadecimal numeral of value n, at most 1 MiB, with white space around it, perhaps followed by a semicolon and an extension |
| Parser.ReadLineLimited | http/parser.go:451-475 | returns the bytes before the first CR LF if they fit, else the error for an overlong, cut-off or failed line |
| Forms.TargetIsJudged | http/parser.go:179-196 | a target is judged by what it means when it is percent-encoded properly, and as it is otherwise |
| Forms.RequestLineExactly | http/parser.go:120-142 | a request line is accepted iff it is a token, a target in origin form (or an asterisk for OPTIONS) that is quiet, and a version, with white space between and around them |
| Forms.TargetIsBlocked | http/parser.go:137-139 | a well-shaped request line is refused iff a rule fires on its target, with that rule and the field uri |
| Forms.FieldLineExactly | http/parser.go:144-177 | a field line is accepted iff it does not start with a space or TAB and is a token, a colon and a quiet value with white space around them; the name becomes canonical |
| Forms.ValueIsBlocked | http/parser.go:171-174 | a well-shaped field line is refused iff a rule fires on its value, with that rule and the name of the field |
| Forms.TokenCharExactly | http/parser.go:432-449 | token bytes are the visible ASCII characters that are not delimiters |
| Parser.ScanValue | http/parser.go:179-196 | the target is judged after percent decoding, or as it is when decoding fails; an empty value is never reported |
| Blanks.TrimExactly | http/parser.go:161-162 | trimming removes the ASCII and Unicode white space at both ends, all of it and nothing else |
| Blanks.FrontExactly | http/parser.go:126 | white space is recognised exactly where UTF-8 encodes a character with the Unicode property White_Space |
| Blanks.WordsAreVisible | http/parser.go:126 | the parts of a request line are not empty and contain no white space, ASCII or Unicode |
| Blanks.ThreeWordsExactly | http/parser.go:126 | a line has three parts iff it consists of them, visible and not empty, with white space between them and perhaps around them |
| Parser.ReadRequestLine | http/parser.go:120-142 | checks field count, method, target form and firewall in that order |
| Parser.ReadHeaderLine | http/parser.go:144-177 | a blank line ends the fields; other lines give a canonical name and a trimmed inspected value, or the first applicable error |
| Parser.ReadFieldMap | http/parser.go:51-69 | the header and trailer loops return the fields up to the blank line, or the error for a limit, duplicate or forbidden name |
| Parser.ReadBody | http/parser.go:198-236 | under any fragmentation the body is the announced number of bytes, and the verdict is that on the whole body, or on what arrived if it broke off |
| Parser.ParseChunkSize | http/parser.go:312-335 | the digit loop computes the bounded hexadecimal value and the first applicable error |
| Parser.ReadChunk | http/parser.go:264-281 | one chunk is appended after its scan and its terminator, within the size limit |
| Parser.ReadChunkedBody | http/parser.go:238-283 | the chunk loop decodes to one body under one scanner and terminates; its running total never exceeds 1 MiB |
| Parser.ParseRequest | http/parser.go:29-118 | the answer is that of the parse function, and on success exactly the request's own bytes have been consumed |
| Wire.ReadLineExactly | http/parser.go:451-475 | a line is read iff the stream starts with a short enough line without CR LF, followed by its terminator |
| Wire.ReadLineFailsExactly | http/parser.go:451-475 | reading a line fails iff the stream does not start with one; the error tells an overlong line, a failed read, a cut-off line and the end of the stream apart |
| Wire.ReadFieldsSound | http/parser.go:51-69 | accepted fields are at most 63 (or 15) well-formed lines with distinct permitted names, and the blank line |
| Wire.ReadFieldsComplete | http/parser.go:51-69 | every such list of lines is read back in full and no further |
| Wire.FieldLimitExactly | http/parser.go:52-55 | of lists of distinct permitted fields exactly those of at most 63 headers (or 15 trailers) are accepted, longer ones are refused for their number |
| Wire.ReadChunksSound | http/parser.go:238-283 | an accepted chunked body consists of non-empty chunks with matching size lines, a last chunk and trailers, within 1 MiB, and no rule fires on the decoded whole |
| Wire.ReadChunksComplete | http/parser.go:238-283 | every such body is decoded to the concatenation of its chunks, and exactly its bytes are consumed |
| Wire.ParseSound | http/parser.go:29-118 | every accepted request was written in the grammar, and exactly its own bytes were consumed |
| Wire.ParseComplete | http/parser.go:29-118 | every request written in the grammar is accepted, whatever follows it |
| Wire.ParseExactly | http/parser.go:29-118 | the parser accepts exactly the grammar, and returns exactly the request and the rest |
| Wire.ParseIsLocal | http/parser.go:29-118 | bytes after an accepted request, and how the stream ends, do not influence it |
| Wire.BeginningIsRefused | http/parser.go:29-118 | no proper beginning of a request is accepted, however the stream ends |
| Wire.CutBodyIsRefused | http/parser.go:198-236 | a body that breaks off is refused for what a rule finds in the part that arrived, else for breaking off |
| Wire.CutChunkIsRefused | http/parser.go:264-268 | a chunk that breaks off is refused, and the error is an end of file only if nothing of its data arrived |
| Wire.FiringTargetIsRefused | http/parser.go:29-45 | a request on whose target a rule fires is refused with that rule, whatever follows |
| Wire.FiringFieldIsRefused | http/parser.go:51-69 | a field on whose value a rule fires is refused with that rule, behind any acceptable fields |
| Wire.OtherVersionIsRefused | http/parser.go:47-49 | a well-formed request of any other version is refused for its version |
| Wire.BadFramingIsRefused | http/parser.go:71-101 | a request with well-formed lines and headers that do not frame a body is refused with the framing error, whatever follows |
| FramingRules.FramingExactly | http/parser.go:71-108 | headers are accepted with a framing iff the Host passes and exactly that framing is announced, with a length of at most 1 MiB |
| FramingRules.LengthIsRefused | http/parser.go:89-101 | a Content-Length is refused as invalid iff it is no decimal numeral of a 64-bit integer, and as too large iff it is one above 1 MiB |
| FramingRules.HostMeetsDocumentExactly | http/parser.go:81-87 | the code and the documented Host rule agree on a value iff it is blank, has one of the four refused bytes, or has no control character and no white space |
| FramingRules.CodingExactly | http/parser.go:359-361 | the accepted transfer codings are the spellings of chunked in any case, with a k or a Kelvin sign, with white space around or not |
| Witnesses.HostDecides | http/parser.go:81-87 | of requests that differ in the Host value exactly those with a passing value are accepted |
| Witnesses.ControlHostIsAccepted | http/parser.go:85-87 | a request whose Host is a control character is accepted |
| Witnesses.CodingDecides | http/parser.go:72-79 | of chunked requests that differ in the transfer coding exactly those that spell chunked are accepted |
| Witnesses.KelvinSpellingIsAccepted | http/parser.go:359-361 | a chunked request whose coding is spelled with a Kelvin sign is accepted and decoded |
| RoundTrip.SizeLineRoundTrip | http/parser.go:312-335 | the hexadecimal text of a size up to 1 MiB is read back as that size |
| RoundTrip.DecimalRoundTrip | http/parser.go:89-101 | the decimal text of a length has that value |
| RoundTrip.FieldTextReadsBack | http/parser.go:144-177 | a canonical field written as a line is read back as that name and value |
| RoundTrip.FramingReadsBack | http/parser.go:71-101 | the headers of a written message announce exactly the framing the writer used |
| RoundTrip.RequestLineReadsBack | http/parser.go:120-142 | a written request line is read back as its method, target and version |
| RoundTrip.ReadsBack | http/parser.go:29-118 | a canonical clean message, with a length or in chunks under any partition, is read back as itself and the rest is untouched |
| RoundTrip.PipelineRoundTrip | http/parser.go:29-118 | messages sent back to back are read back in order, each exactly once |
| Witnesses.PlainGetIsSendable | http/parser.go:29-118 | a plain request with any passing Host value meets the conditions on messages |
| Witnesses.ChunkedPostIsSendable | http/parser.go:29-118 | so does, under a rule list with a rule, a request with two chunks, a trailer and any accepted transfer coding |
| Accepted.AcceptedIsClean | http/parser.go:29-310 | an accepted request has no pattern's normal form in what its target means (in the target itself when it cannot be decoded), in its header values, body or trailer values; canonical token names; a Host without blanks; one framing; at most 63 headers, 15 permitted trailers and 1 MiB |
| Accepted.CanonicalIgnoresCase | http/parser.go:161-176 | two names count as one field iff they differ at most in case |
| Percent.UnescapeFailsExactly | http/parser.go:184-189 | percent decoding fails iff some percent sign does not introduce two hexadecimal digits |
| Percent.UnescapeExactly | http/parser.go:184-189 | decoding gives t iff the text spells t in literal bytes and escapes |
| Percent.HexDigitExactly | http/parser.go:371-382 | the hexadecimal digits in either case have the sixteen values, and there are no others |
| Accepted.SpellingDoesNotHide | http/parser.go:184-195 | every percent-encoded spelling of a target is judged as the target it means |
| Accepted.MalformedIsJudgedRaw | http/parser.go:184-195 | a target that cannot be decoded is judged as it is |
| Accepted.ChunksAreBlocked | http/parser.go:238-283 | chunks carrying a body on which a rule fires are refused with that rule, wherever they are cut |
| Accepted.FramingIndependence | http/parser.go:198-283 | the same bytes with a length or in chunks cut anywhere give the same body or the same blocking rule |
| Limiter.Bucket.Attempt | security/ratelimiter/limiter.go:60-73 | refills up to the capacity and takes one token iff there is one |
| Limiter.Limiter.Cleanup | security/ratelimiter/limiter.go:76-88 | every half time-to-live exactly the buckets idle for longer than the time-to-live are dropped |
| Limiter.Limiter.Allow | security/ratelimiter/limiter.go:41-74 | the call is one step of the state function: eviction, then the attempt on its own key |
| Limiter.TokensAreMinimum | security/ratelimiter/limiter.go:60-73 | the bucket level is the minimum of the budgets left since each earlier attempt |
| Limiter.BucketIsSlidingWindow | security/ratelimiter/limiter.go:41-74 | with capacity at least one, an attempt is admitted iff since every attempt time s the admissions plus one are at most capacity + rate * (now - s) |
| Limiter.SlidingWindowExactly | security/ratelimiter/limiter.go:51-58 | the sliding-window law holds of all histories iff the capacity is at least one |
| Limiter.KeysAreIndependent | security/ratelimiter/limiter.go:41-74 | without eviction each key's bucket is that of its own attempts only |
| Limiter.KeepIsSlidingWindow | security/ratelimiter/limiter.go:41-74 | every answer of a run over many keys, without eviction, is the sliding-window answer of its key |
| Limiter.EvictionIsUnobservable | security/ratelimiter/limiter.go:47-87 | when a bucket earns its capacity in one tick more than the time-to-live, eviction changes no answer on any call sequence |
| Limiter.LimiterIsSlidingWindow | security/ratelimiter/limiter.go:41-87 | under that condition the limiter with eviction is the sliding window of each key |
| Limiter.IdleBucketsGo | security/ratelimiter/limiter.go:76-88 | after every call of any run, each bucket kept was used within the last one and a half times the time-to-live |
| Limiter.SlowRefillShows | security/ratelimiter/limiter.go:76-88 | for any capacity: when the fraction left over plus what a bucket earns until it is dropped is less than the whole tokens of the capacity, a caller who empties the bucket and calls again after the drop is let through where a kept bucket refuses |
| Limiter.EvictionExactly | security/ratelimiter/limiter.go:41-88 | for a whole capacity: eviction changes no answer on any call sequence iff a bucket earns its capacity by the time it can be dropped |
| Words.AddAllOnesUndoes | core/metrics.go:58-62 | in 64-bit arithmetic adding the complement of zero and adding one undo each other at every value |
| Connection.Metrics.DecActive | core/metrics.go:58-62 | takes back exactly one increment at every value of the gauge, by adding the complement of zero; at zero it wraps |
| Connection.Metrics.RecordResponse | core/metrics.go:113-128 | exactly one class counter moves for a status of at least 200, and none below |
| Connection.ResponseWriter.Write | core/response.go:82-124 | at most one response per writer, counted iff it was sent, with the writer's connection headers |
| Connection.Answer | core/connection.go:87-119 | the handler's response or the fallback 500 is sent with the decided headers; the loop goes on iff the handler answered and the connection is kept alive |
| Connection.Reject | core/connection.go:68-85 | a firewall hit is counted and answered 403, any other refusal 400 |
| Connection.ServeRequests | core/connection.go:50-120 | the loop terminates and does a run on the unread bytes; requests, refusals and responses are counted exactly |
| Connection.HandleConnection | core/connection.go:27-121 | whatever handlers and writes do, what is sent is the responses of a run in order, and the gauge returns to its value |
| Connection.ServesAtMost | core/connection.go:99-119 | at most the configured number of requests is served on a connection |
| Connection.ServesInOrder | core/connection.go:50-120 | the served requests are the successive requests of the stream; a refusal is that of the bytes right after them, and nothing is served after it |
| Connection.AdvertisesRemaining | core/connection.go:99-109 | the advertised number of requests is what remains, so it strictly decreases |
| Connection.KeepAliveHeaderExactly | core/connection.go:99-119 | the keep-alive header tells whether the connection goes on, except exactly for a fallback on a connection to be kept |
| Connection.FallbackAdvertisesKeepAlive | core/connection.go:112-115 | on any stream that starts with a request that may be followed by others, the run in which the handler writes nothing advertises keep-alive and closes |
| Connection.MisleadingHeaderExactly | core/connection.go:99-119 | some run has a keep-alive header that does not tell whether the connection goes on iff the server has a router, keeps connections and allows more than one request |
| Connection.OneResponseEach | core/connection.go:50-120 | at most one response per request and one for a refusal; when every write succeeds exactly these, in the order of the requests |
| Connection.PipelineIsServed | core/connection.go:50-120 | of messages sent back to back a connection serves a prefix, in order |
| Connection.WholePipelineIsServed | core/connection.go:50-120 | when every request is handled, none asks to close and the limit suffices, all of them are served, in order |
| CommaList.SplitCommaExactly | core/connection.go:128-133 | the elements of the Connection header are its pieces between commas, none lost and none containing a comma |
| CommaList.ElementsExactly | core/connection.go:128-133 | the pieces are exactly the comma-free parts of the header with commas or its ends around them |
| Connection.AsksToCloseExactly | core/connection.go:123-134 | a request asks to close iff an element of its Connection header is close, in any case and with white space around it or not |
| Connection.GoesOnExactly | core/connection.go:99-120 | the connection goes on after a request iff a handler answered it, keep-alive is on, the limit is not reached and the request does not say close; the response says keep-alive iff these hold but for the handler |
| Connection.CloseIsHonoured | core/connection.go:99-134 | after a request that says close nothing more is read, and its response does not say keep-alive |
| Connection.AnswersExactly | core/connection.go:68-115 | fallback answers are 500, without a router there is a single 500, a refusal is 403 for the firewall and 400 otherwise |
| Connection.StreamEnds | core/connection.go:60-85 | a stream that ends between requests ends the connection silently unless it is the first; one that ends inside a request line is refused |
| Connection.StreamBreaksOff | core/connection.go:60-85 | a stream that breaks off in a body ends the connection silently after the first request; in chunk data only if nothing of the chunk arrived, otherwise it is refused |
| Connection.CountedAtMost | core/metrics.go:113-128 | the counted responses are at most those sent, and all of them iff every status is at least 200 |
| Lifecycle.StepKeepsInv | cmd/server/main.go:67-202 | every atomic step of the acceptor, a worker or the shutdown keeps the invariant |
| Lifecycle.PoolIsSafe | cmd/server/main.go:189-202 | in every run: no send on or second close of a closed channel, a bounded queue, at most N handlers, and a gauge that counts them and never underflows |
| Lifecycle.ClosedAtMostOnce | cmd/server/main.go:83-139 | in every reachable state an accepted connection is in exactly one place and has been closed at most once |
| Lifecycle.StopDrains | pool/pool.go:37-43 | once Stop has returned every accepted connection was closed exactly once, the queue is empty, and the refusal counters equal the refused connections |
| Lifecycle.ResponsesAreConserved | core/metrics.go:46-128 | responses counted never exceed the events they answer, and equal them once nothing is in progress iff no response was lost |
| Lifecycle.EventBalances | core/connection.go:43-115 | each worker step that calls for a response makes it owed, and each that settles one counts or loses it |
| Lifecycle.EventMovesConnection | pool/pool.go:20-26 | each worker step keeps every connection in exactly one place |
| Lifecycle.ServesWithinLimit | core/connection.go:99-119 | in every interleaving a worker parses at most the configured number of requests on one connection |
| Lifecycle.ClosedChannelStaysQuiet | pool/pool.go:37-43 | once the channel is closed no connection enters and the queue only shrinks |
| Lifecycle.OldestIsTaken | pool/pool.go:20-26 | a worker gets the connection that was accepted before all others still waiting, and the others stay; nothing overtakes the queue |
| Lifecycle.ShutdownNeedsCancel | cmd/server/main.go:67-202 | nothing is shut down and no connection dropped before cancellation, and nothing is accepted after the listener is closed |
| Lifecycle.RecordExactly | core/metrics.go:113-128 | a status is counted in the class of its hundreds, everything from 500 on in the last and nothing below 200 |
| Lifecycle.OwnResponses | cmd/server/main.go:95-139 | the server's own refusals and fallbacks are counted as client errors (429, 400, 403) and server errors (503, 500), and nothing else but a handler's response is counted |
| Simulation.ExchangeSimulates | core/connection.go:87-119 | one exchange of the loop is three enabled worker steps with the same effect on the counters |
| Simulation.LoopSimulates | core/connection.go:50-120 | every run of the connection loop is a sequence of enabled worker steps with the same counters |
| Simulation.ConnectionSimulates | pool/pool.go:20-26 | a worker can do whatever the connection loop may do, and ends idle with the connection closed once and the gauge where it was |
| Durations.StepKeepsInv | core/metrics.go:70-87 | in any interleaving of loads and swaps the register only grows, holds a recorded value and dominates every finished call |
| Durations.MaximumIsExact | core/metrics.go:70-87 | when all calls have returned the register is the maximum of what they recorded and the total their sum |
| Durations.RetrySeesGrowth | core/metrics.go:78-86 | a lost swap means that the register has grown |
| StaticPath.SafeExactly | cmd/server/main.go:579-597 | a path is accepted iff it has no forbidden byte, is relative, and never loses more parents than it has |
| StaticPath.DotVanishes | cmd/server/main.go:579-597 | dots and empty components make no difference to the cleaned path |
| StaticPath.ParentVanishes | cmd/server/main.go:579-597 | a double dot takes away the component in front of it |
| StaticPath.RootHasNoParent | cmd/server/main.go:599-605 | a double dot at the root makes no difference |
| StaticPath.CleanExactly | cmd/server/main.go:579-597 | cleaned components have no dot, and double dots only in front of a relative path; such components stay as they are |
| StaticPath.WithinRootExactly | cmd/server/main.go:599-605 | a cleaned target is within the root iff its components start with the root's |
| StaticPath.SafePathStaysInside | cmd/server/main.go:484-498 | joining an accepted path to any absolute root adds exactly its components to the root's, so the second check accepts it |

## Left out

- Nil automatons, nil readers and nil metrics, which the source accepts and ignores: they would only add easy cases.
- Feeding a scanner after it has reported or finished: no caller does.
- Rule identifiers given by `New` to a plain pattern list, policy file loading, configuration, routing tables and request getters.
- Parser.ReadBody: a read delivers at least one byte or an error, and only the end of file may be announced together with the last bytes; a read that delivers bytes together with another error, or neither bytes nor an error, is not modelled.
- Error texts; each error is a constructor, and what matters of it later (a firewall hit, a wrapped end of file) is kept.
- Limiter.Bucket.Attempt: uses exact real numbers where the source uses float64, so rounding is not captured.
- Limiter.Limiter.Allow: as above; the clock is a parameter and never runs backwards, and calls are atomic, for the mutex is not modelled.
- Limiter.EvictionExactly: is stated for whole capacities; for fractional ones `EvictionIsUnobservable` and `SlowRefillShows` give one direction each, and between them the answer depends on how the earnings of one clock tick divide the capacity.
- StaticPath.SafePathStaysInside: is about the lexical target; the source repeats the second check on the path after following symbolic links, and the file system is not modelled.
- Connection.Metrics.RecordResponse: counters other than the gauge do not wrap; 2^64 events are out of reach.
- Connection.Conn.Write: a failed write delivers nothing; partial writes, header texts, dates and bodies of responses are not modelled.
- Lifecycle models goroutines, the channel and the atomic counters on values, as a transition system whose steps are atomic; the sequential code of one connection is the class-based `Connection`, tied to the worker steps by `Simulation`. The worker steps abstract the parser to its outcomes, and a missing router to a handler that writes nothing.
- The shutdown timeout of `run` and the process exit after it; fairness, deadlines and timers are nondeterministic outcomes.
- Handler panics, TLS, sockets, file reads, symbolic links, MIME types.
- Parser.ReadFieldMap: one method with a kind parameter stands for the two loops of the source, which differ in the limit, the error names and the forbidden trailers.
- Logging, the log ring, JSON, Prometheus text, the dashboard and the benchmark tools.

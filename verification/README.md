# What loads promises, proved on a model

loads is a load-testing service: a broker hands runs to agents, the agents send back results in
batches, and a log keeps them. Its repository carries a Go example server with the libraries it
needs. This project models the parts whose correctness is least obvious, and proves what they
promise:

* **Punycode and IDNA** (`Punycode`, `Decoder`, `Insertions`, `RoundTrip`, `Checks`, `Tracking`,
  `Encoder`, `Limits`, `Ascending`, `Idna`): two different state machines in wrapping int32 arithmetic. Both are
  described exactly on every input, and the round trip is proved to hold exactly for the strings
  that the decoder's limits admit, with the sharp lengths from which it can fail.
* **Public suffix tables** (`Rules`, `SlowSuffix`, `Sorting`, `Trie`, `Build`, `TextCrusher`,
  `Tables`, `Layout`, `Generator`, `Lookup`, `Compiler`, `Strings`): a small compiler from rules to
  bit-packed tables, and a binary search over them that is proved to agree with the definition of
  publicsuffix.org on every domain, and whose answer about ICANN is described exactly.
* **WebSocket** (`Bytes`, `WebSocketFrames`, `WebSocketReader`, `WebSocketConn`): frames of sections
  5.2 to 5.5 of RFC 6455 and the resumable reader of a connection, on streams of any frames, wrongly
  masked ones included.
* **The result log** (`RecordFile`, `KeyTable`, `LogSpec`, `LogState`, `ResultLog`): records
  compressed by a growing dictionary, queued, flushed, and scanned back in chunks.
* **The broker's agents** (`BrokerState`, `BrokerLedger`, `BrokerController`): who owns which run,
  when a run is over, and how often it ends.
* **Batched results** (`Messages`, `TestResults`, `Relay`): messages regrouped by type and replayed.
* **SPDY/3 frames** (`SpdyHeaders`, `SpdyFrames`, `SpdyWire`, `SpdyFramer`), with header compression
  disabled: round trips, the layout of every frame in plain bytes, and what a reader refuses.

`Arithmetic`, `Int32`, `Collections` and `Wrappers` are shared. Code that changes variables, fields
or buffers is modelled by methods and classes with loops; each is proved against a function or a
predicate, and the lemmas are about those. Text of Punycode is a sequence of code points; bytes are
numbers below 256. `dafny verify dfyconfig.toml` checks the whole project.

## What the code does not keep

Where a promise does not hold, the model keeps the code as it is and says when it does hold:

* A string of at most 1024 code points that encodes without error need not decode: 318 code points
  are enough for a counterexample (`Limits.RefusedString`); `RoundTrip.DecodeEncode` has the exact
  condition, and 66 code points are always safe.
* The encoder is to write the right encoding or report an error. It does exactly when every
  distance is an int32 or one of its sign tests fires (`Encoder.Encode`, `Limits.EncoderRight`). The
  tests miss distances beyond 2^32: 3855 times `a` and U+10FFFF are written wrongly, and no string of
  fewer code points is (`Limits.EncoderBoundsSharp`).
* `PublicSuffix` is documented to say whether ICANN manages the suffix. Its flag is that of the last
  node it comes to, which can lie below the suffix (`Build.FlagOfAnotherNode`); `Lookup.PublicSuffix`
  says exactly what the flag is.
* The generator drops the error of the walk that assigns indexes, and writes tables for a list that
  does not fit. Such tables never represent the tree: they do if and only if the tree fits
  (`Compiler.PrintReal`, `Compiler.Generate`).
* `read_zfile` never returns on a file that ends inside a record (`RecordFile.EndsIff`), and reading
  fails at a compressed record that contains the end marker, which zlib does not exclude
  (`RecordFile.MarkerInside`). What was written is read back exactly when no record contains it, and
  otherwise up to the first that does (`RecordFile.WrittenReadBack`, `ResultLog.Session`).
* A filtered page of `get_data` can miss matching records, because the end test counts records that
  the filter has dropped (`LogSpec.FilteredPage`, `LogSpec.MissedRecord`).
* `BrokerController.clean` is documented to discard silent agents from the agents list; the code
  takes them out of their runs only (`BrokerState.CleanPass`). When sending fails, a run whose last
  agent cannot be reached is never published (`BrokerState.NeverPublished`).
* A run can end twice (`BrokerState.EndsTwice`). It ends at most as often as it is given to an agent
  while nobody has it, and exactly that often once nobody holds it, as long as agents stay registered
  and in reach; so it ends again only after late data, or a reservation with the same id, has opened
  it again (`BrokerController.Run`).
* A ping without payload ends a WebSocket connection's stream, because `ReadFull` of nothing is the
  end of input (`WebSocketReader.EmptyPingEnds`). Up to the first such error a reader gets exactly
  the data and sends exactly the pongs in front of the first empty ping, close, pong or wrongly masked
  frame; so it gets all data exactly when none stands behind it (`WebSocketConn.ReadRun`).
* A SPDY header name that comes twice is to be refused. It is looked up in lower case among names kept
  in canonical form, so no name that begins with a letter is ever found (`SpdyWire.LetterMissed`). The
  version of a control frame is read and not looked at (`SpdyWire.VersionIgnored`).
* Writing a SPDY reset without a status reports the error after half of the frame has been written
  (`SpdyFrames.WriteFails`).

## Model

| member | source | states |
|---|---|---|
| Decoder.Decode | loads/examples/echo_go/src/code.google.com/p/go.net/idna/punycode.go:31-91 | decoding in wrapping int32 arithmetic gives, on every input shorter than 2^31 - 1, what the same algorithm gives over unbounded integers: same string or same refusal |
| Decoder.ReadVarInt | loads/examples/echo_go/src/code.google.com/p/go.net/idna/punycode.go:50-77 | one number read with wrapping int32 operations is the number over unbounded integers; the sign test catches every wrap, and a first number stays far enough below the limit for `n += i/x` |
| Decoder.InsertRune | loads/examples/echo_go/src/code.google.com/p/go.net/idna/punycode.go:78-88 | bias, counter and insertion of one round never wrap, for the first insertion into an empty buffer too |
| Decoder.WeightInRange | loads/examples/echo_go/src/code.google.com/p/go.net/idna/punycode.go:60-76 | a digit times an accepted weight, and the next weight, stay inside int32 |
| Decoder.GrowthStep | loads/examples/echo_go/src/code.google.com/p/go.net/idna/punycode.go:60-76 | the number read grows more slowly than the weight: 9 i <= 35 (w - 1) is kept by every digit |
| Decoder.QuotientInRange | loads/examples/echo_go/src/code.google.com/p/go.net/idna/punycode.go:78-81 | `n += i/x` does not wrap and `i %= x` is an index, whenever i is an int32 that a first insertion keeps small |
| Decoder.LastIndex | loads/examples/echo_go/src/code.google.com/p/go.net/idna/punycode.go:35 | the last place of a character, or -1 when there is none |
| Decoder.DecodeEdges | loads/examples/echo_go/src/code.google.com/p/go.net/idna/punycode.go:31-47 | nothing decodes to nothing, a string with a dash at its end to what is before it, and a string that begins with its only dash is refused |
| Decoder.NonDigitRefused | loads/examples/echo_go/src/code.google.com/p/go.net/idna/punycode.go:55-58 | a character behind the border that is no digit makes the decoder refuse the string, wherever it stands |
| Decoder.CaseIgnored | loads/examples/echo_go/src/code.google.com/p/go.net/idna/punycode.go:164-174 | behind the border the case of letters changes nothing |
| Punycode.EncodeDigit | loads/examples/echo_go/src/code.google.com/p/go.net/idna/punycode.go:164-184 | decodeDigit gives back every digit below 36 that encodeDigit writes |
| Punycode.DigitAlphabet | loads/examples/echo_go/src/code.google.com/p/go.net/idna/punycode.go:164-184 | letters of either case are 0 to 25 and figures 26 to 35, digits are written in lower case, and no other character is a digit |
| Punycode.Adapt | loads/examples/echo_go/src/code.google.com/p/go.net/idna/punycode.go:187-200 | the loop of adapt computes the bias of RFC 3492 section 6.1, as Punycode.AdaptMeaning and Punycode.AdaptScales describe it, without a wrap, and its result lies in [0, 213] |
| Punycode.AdaptMeaning | loads/examples/echo_go/src/code.google.com/p/go.net/idna/punycode.go:187-200 | section 6.1 of RFC 3492 without its loop: the distance over 700 the first time and over 2 later, plus its share, divided by 35 as often as it takes to come to 455; then 36 per division and 36 x / (x + 38) |
| Punycode.AdaptScales | loads/examples/echo_go/src/code.google.com/p/go.net/idna/punycode.go:188-192 | the first distance is damped by 700 and every later one halved |
| Punycode.AdaptRange | loads/examples/echo_go/src/code.google.com/p/go.net/idna/punycode.go:194-199 | five divisions by 35 bring any int32 below the bound of the loop, so the bias is never outside [0, 213] |
| Punycode.ScaledDelta | loads/examples/echo_go/src/code.google.com/p/go.net/idna/punycode.go:188-193 | the scaled delta plus its share does not leave int32 |
| Punycode.VarIntReadsBack | loads/examples/echo_go/src/code.google.com/p/go.net/idna/punycode.go:50-77 | numbers are self-delimiting: wherever the digits of q stand in a string, reading them adds exactly q and stops right behind them, unless the weight limit refuses |
| Punycode.SmallWeightsFit | loads/examples/echo_go/src/code.google.com/p/go.net/idna/punycode.go:73-76 | a number below 74565403 never reaches the weight limit, under any bias that adapt can give |
| Insertions.HandledInsert | loads/examples/echo_go/src/code.google.com/p/go.net/idna/punycode.go:85-88 | handling s[j] inserts it into the handled part behind the handled code points before j |
| Insertions.DistanceNonNegative | loads/examples/echo_go/src/code.google.com/p/go.net/idna/punycode.go:122-158 | the distance that the encoder's delta stands for is never negative |
| Insertions.DistanceSkip | loads/examples/echo_go/src/code.google.com/p/go.net/idna/punycode.go:127-137 | passing a smaller code point adds one to the distance, passing a larger one nothing |
| Insertions.DistanceNext | loads/examples/echo_go/src/code.google.com/p/go.net/idna/punycode.go:158-159 | the end of a scan adds one to the distance |
| Insertions.ReadyMoved | loads/examples/echo_go/src/code.google.com/p/go.net/idna/punycode.go:152-157 | after an insertion the distance is zero and one more code point is handled |
| RoundTrip.DecodeFollows | loads/examples/echo_go/src/code.google.com/p/go.net/idna/punycode.go:31-162 | the invariant between the two machines: the decoder's buffer is what the encoder has handled, and from there it rebuilds the whole string exactly when all weights to come fit |
| RoundTrip.DecodeOne | loads/examples/echo_go/src/code.google.com/p/go.net/idna/punycode.go:49-89 | one round of the decoder at an insertion turns the handled part into the next handled part, with the encoder's counter and bias, or refuses its weights |
| RoundTrip.InsertionDone | loads/examples/echo_go/src/code.google.com/p/go.net/idna/punycode.go:78-88 | division and remainder of the number read find the code point and the place that the encoder meant |
| RoundTrip.BorderFound | loads/examples/echo_go/src/code.google.com/p/go.net/idna/punycode.go:35-47 | the last dash is the border between basic code points and digits |
| RoundTrip.ExtensionIsDigits | loads/examples/echo_go/src/code.google.com/p/go.net/idna/punycode.go:139-152 | behind the border there are digits only, so no dash, and some whenever anything is inserted |
| RoundTrip.DecodeEncode | loads/examples/echo_go/src/code.google.com/p/go.net/idna/punycode.go:31-162 | decoding what the encoder writes gives the string back if and only if it is basic, or has at most 1024 code points and no weight reaches the decoder's limit; else it is refused |
| Tracking.Jump | loads/examples/echo_go/src/code.google.com/p/go.net/idna/punycode.go:115-126 | jumping to the next code point that occurs skips no insertion, and moves the distance by (m - n)(h + 1) |
| Tracking.FarInsertion | loads/examples/echo_go/src/code.google.com/p/go.net/idna/punycode.go:122-125 | a distance beyond int32 does not shrink before the next insertion |
| Tracking.TracksInsert | loads/examples/echo_go/src/code.google.com/p/go.net/idna/punycode.go:138-157 | behind an insertion delta is the distance modulo 2^32 again, even where the distance written was cut; what was written is its low bits, under the bias adapted from them |
| Checks.CheckedJump | loads/examples/echo_go/src/code.google.com/p/go.net/idna/punycode.go:115-126 | the jump passes over no sign test: nothing is checked between one code point of the string and the next |
| Checks.VarIntUnique | loads/examples/echo_go/src/code.google.com/p/go.net/idna/punycode.go:138-152 | digits can be read in one way only, so a different number shows in what is written |
| Checks.WrittenRight | loads/examples/echo_go/src/code.google.com/p/go.net/idna/punycode.go:122-157 | with every distance to come an int32, the digits to come are those of the insertions |
| Checks.WrittenWrong | loads/examples/echo_go/src/code.google.com/p/go.net/idna/punycode.go:122-157 | behind sign tests that do not fire, a distance that is no int32 makes the digits to come wrong |
| Tracking.DistanceBound | loads/examples/echo_go/src/code.google.com/p/go.net/idna/punycode.go:122-158 | as long as something is left to insert, the distance is at most 1113984 times the length |
| Encoder.AppendVarInt | loads/examples/echo_go/src/code.google.com/p/go.net/idna/punycode.go:138-152 | the innermost loop appends the digits of delta; k never wraps |
| Encoder.NextCodePoint | loads/examples/echo_go/src/code.google.com/p/go.net/idna/punycode.go:116-121 | the least code point of s from n on, when there is one |
| Encoder.EncodeOne | loads/examples/echo_go/src/code.google.com/p/go.net/idna/punycode.go:138-156 | one occurrence of n is written as int32 keeps its distance; the variables track the distances modulo 2^32 in any case |
| Encoder.EncodePass | loads/examples/echo_go/src/code.google.com/p/go.net/idna/punycode.go:127-157 | one scan over the string; the overflow exit is taken only when a sign test fires on a checked distance |
| Encoder.CopyBasic | loads/examples/echo_go/src/code.google.com/p/go.net/idna/punycode.go:99-114 | the basic code points, then a dash if there are any, and both counts |
| Encoder.Encode | loads/examples/echo_go/src/code.google.com/p/go.net/idna/punycode.go:98-162 | for every string, an error if and only if a checked distance wraps to a negative number; otherwise the basic part and the insertions with their distances cut to int32 and the biases adapted from those |
| Limits.EncodingInRange | loads/examples/echo_go/src/code.google.com/p/go.net/idna/punycode.go:115-160 | up to 1927 code points no distance that is written or checked leaves int32, so no addition to delta wraps and no overflow exit is taken |
| Limits.CaughtIsFar | loads/examples/echo_go/src/code.google.com/p/go.net/idna/punycode.go:122-132 | a sign test fires only where some insertion has a distance that is no int32 |
| Limits.FarIsCaught | loads/examples/echo_go/src/code.google.com/p/go.net/idna/punycode.go:122-132 | below 3856 code points every distance that is no int32 makes a sign test fire |
| Limits.EncoderRight | loads/examples/echo_go/src/code.google.com/p/go.net/idna/punycode.go:98-162 | the encoder writes the encoding of RFC 3492 section 6.3 if and only if every distance is an int32; an error means that one is not; below 3856 code points it never writes a wrong encoding |
| Limits.ShortIsRestorable | loads/examples/echo_go/src/code.google.com/p/go.net/idna/punycode.go:31-162 | every string of at most 66 code points, so every DNS label, survives encoding and decoding |
| Limits.OneRuneRestorable | loads/examples/echo_go/src/code.google.com/p/go.net/idna/punycode.go:73-76 | basic code points followed by one other: restored exactly when there are at most 1024 of them and the distance of the other is below 353885386 |
| Limits.RefusedString | loads/examples/echo_go/src/code.google.com/p/go.net/idna/punycode.go:73-82 | 317 times `a` and U+10FFFF, 318 code points, encode without error and are refused by the decoder |
| Limits.OneRuneWritten | loads/examples/echo_go/src/code.google.com/p/go.net/idna/punycode.go:115-152 | basic code points followed by one other: which sign tests are made, when one fires, and what is written when none does |
| Limits.EncoderBoundsSharp | loads/examples/echo_go/src/code.google.com/p/go.net/idna/punycode.go:122-125 | both length bounds of the encoder are sharp: 1927 times `a` and U+10FFFF are an error, and of 3855 times `a` and U+10FFFF the distance 4295522303 passes every sign test and is written as 555007 |
| Ascending.RisingInsertions | loads/examples/echo_go/src/code.google.com/p/go.net/idna/punycode.go:115-160 | of strings in which every code point is larger than those before: each insertion and its bias in closed form, (s[k] - s[k-1] - 1)(k + 1) + k and the bias adapted from it |
| Ascending.NihongoEncoded | loads/examples/echo_go/src/code.google.com/p/go.net/idna/punycode.go:98-162 | U+65E5 U+672C U+8A9E are written wgv71a119e, by the int32 encoder as it is |
| Idna.ToASCII | loads/examples/echo_go/src/code.google.com/p/go.net/idna/idna.go:24-39 | every label is the encoder's result or, when ASCII, itself; an error exactly when the encoder fails on a label |
| Idna.AsciiOutcomeUnique | loads/examples/echo_go/src/code.google.com/p/go.net/idna/idna.go:24-39 | these conditions leave one outcome for every domain |
| Idna.ToUnicode | loads/examples/echo_go/src/code.google.com/p/go.net/idna/idna.go:44-59 | every label is decoded when it has the prefix and kept when it has not; an error only when one cannot be decoded |
| Idna.UnderAscii | loads/examples/echo_go/src/code.google.com/p/go.net/idna/idna.go:24-39 | of a label that is not ASCII and a top level domain that is, only the first is encoded, behind xn-- |
| Idna.NihongoDomain | loads/examples/echo_go/src/code.google.com/p/go.net/idna/idna.go:24-59 | that label below .jp becomes xn--wgv71a119e.jp |
| Idna.LabelThereAndBack | loads/examples/echo_go/src/code.google.com/p/go.net/idna/idna.go:24-59 | one label comes back if and only if it survives: ASCII without the prefix, or restorable |
| Idna.DecodedNotItself | loads/examples/echo_go/src/code.google.com/p/go.net/idna/idna.go:50-51 | no ASCII string decodes to itself with the prefix in front |
| Idna.NoDotInserted | loads/examples/echo_go/src/code.google.com/p/go.net/idna/idna.go:48-58 | decoding adds no dot, so labels stay labels |
| Idna.DomainThereAndBack | loads/examples/echo_go/src/code.google.com/p/go.net/idna/idna.go:24-59 | for every domain, when ToASCII succeeds, ToUnicode gives the domain back if and only if every label survives |
| Idna.UnencodableLost | loads/examples/echo_go/src/code.google.com/p/go.net/idna/idna.go:31-34 | a label that ToASCII cannot encode has more than 1927 code points and would not have come back |
| Idna.ShortDomainThereAndBack | loads/examples/echo_go/src/code.google.com/p/go.net/idna/idna.go:24-59 | with labels of at most 66 code points, none ASCII with the prefix, ToASCII succeeds and ToUnicode gives the domain back |
| Rules.PartsOfRule | loads/examples/echo_go/src/code.google.com/p/go.net/publicsuffix/gen.go:201-209 | splitting a rule's text gives the parts of the rule that the generator enters |
| Rules.ParseMeaning | loads/examples/echo_go/src/code.google.com/p/go.net/publicsuffix/gen.go:201-209 | `*.` in front makes a rule a wildcard below the rest, `!` an exception for the rest, and any other text is its labels |
| Rules.MatchMeaning | loads/examples/echo_go/src/code.google.com/p/go.net/publicsuffix/list_test.go:270-295 | the label-by-label comparison decides whether the rule covers the domain: its labels are the last ones, with one more in front for a wildcard |
| Rules.SuffixCountUnique | loads/examples/echo_go/src/code.google.com/p/go.net/publicsuffix/list_test.go:256-268 | for a well-formed list the algorithm of publicsuffix.org leaves one number of labels only |
| Rules.PublicSuffixUnique | loads/examples/echo_go/src/code.google.com/p/go.net/publicsuffix/list_test.go:256-268 | a domain has only one public suffix under a well-formed list |
| Rules.JapaneseCount | loads/examples/echo_go/src/code.google.com/p/go.net/publicsuffix/list_test.go:138-150 | with the rules jp, *.kobe.jp and !city.kobe.jp, every domain has two labels under the exception, three under the wildcard and one elsewhere |
| SlowSuffix.FirstByPriority | loads/examples/echo_go/src/code.google.com/p/go.net/publicsuffix/list_test.go:301-326 | the first of the sorted rules is an exception if there is one, and a longest rule otherwise |
| SlowSuffix.MatchRule | loads/examples/echo_go/src/code.google.com/p/go.net/publicsuffix/list_test.go:286-295 | a rule is accepted exactly when all its parts match |
| SlowSuffix.CollectMatching | loads/examples/echo_go/src/code.google.com/p/go.net/publicsuffix/list_test.go:283-297 | the list has the parts of exactly the rules that cover the domain |
| SlowSuffix.Prevailing | loads/examples/echo_go/src/code.google.com/p/go.net/publicsuffix/list_test.go:298-303 | the prevailing rule, or `*`, fixes the number of labels that the algorithm asks for |
| SlowSuffix.SlowPublicSuffix | loads/examples/echo_go/src/code.google.com/p/go.net/publicsuffix/list_test.go:269-312 | the slow query returns the public suffix of the domain for every well-formed list, and indexes no empty part |
| Trie.Child | loads/examples/echo_go/src/code.google.com/p/go.net/publicsuffix/gen.go:414-428 | the child with the label, made if it was missing, at its place in label order |
| Sorting.LessMeaning | loads/examples/echo_go/src/code.google.com/p/go.net/publicsuffix/list.go:97-110 | the order of labels: a proper beginning is less, otherwise the first difference decides |
| Trie.InsertOrdered | loads/examples/echo_go/src/code.google.com/p/go.net/publicsuffix/gen.go:209-219 | inserting a rule keeps the children of every node in strictly increasing label order |
| Trie.InsertAttr | loads/examples/echo_go/src/code.google.com/p/go.net/publicsuffix/gen.go:209-219 | inserting a rule makes the nodes on its path exist, marks the last one, and leaves every other path as it was |
| Trie.AddRule | loads/examples/echo_go/src/code.google.com/p/go.net/publicsuffix/gen.go:209-219 | the walk from the root along the labels of a rule is the insertion |
| Build.BuildTree | loads/examples/echo_go/src/code.google.com/p/go.net/publicsuffix/gen.go:199-222 | the loop over the rules builds the tree of the list, ordered |
| Build.TreeSays | loads/examples/echo_go/src/code.google.com/p/go.net/publicsuffix/gen.go:209-219 | a path is in the tree exactly when a rule goes through it; its type and wildcard bit say which rules end there |
| Build.WalkMeaning | loads/examples/echo_go/src/code.google.com/p/go.net/publicsuffix/list.go:48-84 | walking down the tree along a domain counts the labels of its public suffix, from any depth on |
| Build.WalkFromRoot | loads/examples/echo_go/src/code.google.com/p/go.net/publicsuffix/list.go:45-90 | the walk over the tree of a well-formed list finds the labels of the public suffix |
| Build.TreeManaged | loads/examples/echo_go/src/code.google.com/p/go.net/publicsuffix/gen.go:217 | the flag of a node is set exactly when every rule that ends at it comes from the ICANN section |
| Build.FlagMeaning | loads/examples/echo_go/src/code.google.com/p/go.net/publicsuffix/list.go:45-84 | the walk gives the flag of the node where it ends, from any depth on |
| Build.EndsAtUnique | loads/examples/echo_go/src/code.google.com/p/go.net/publicsuffix/list.go:45-84 | there is one such node for every domain |
| Build.FlagWithoutRule | loads/examples/echo_go/src/code.google.com/p/go.net/publicsuffix/gen.go:217 | a node at which no rule ends has the flag, whatever the section of the rules around it |
| Build.FlagOfAnotherNode | loads/examples/echo_go/src/code.google.com/p/go.net/publicsuffix/list.go:34-46 | with a private rule for a top level domain and a rule three labels deep below it, a domain beside that rule has the private suffix and the flag set |
| TextCrusher.DropSubstrings | loads/examples/echo_go/src/code.google.com/p/go.net/publicsuffix/gen.go:549-563 | the loop ends; every label is still inside a string that is left, what is dropped lies inside another, and no string that is left does |
| TextCrusher.BestOverlap | loads/examples/echo_go/src/code.google.com/p/go.net/publicsuffix/gen.go:572-594 | two different strings of the list with the longest overlap of all, or none overlap |
| TextCrusher.MergeOverlaps | loads/examples/echo_go/src/code.google.com/p/go.net/publicsuffix/gen.go:571-605 | the loop ends when no two strings overlap; every label is still inside one of them, they have not become longer, and shorter exactly when two overlapped |
| TextCrusher.MakeText | loads/examples/echo_go/src/code.google.com/p/go.net/publicsuffix/gen.go:536-610 | every label is a substring of the text, so it is found at line 306; without the crush flag the text is the labels joined; with it the text is shorter than that if and only if two nonempty labels at different places overlap or one lies inside the other, and it is a joining of strings none of which overlap |
| TextCrusher.CrushableIff | loads/examples/echo_go/src/code.google.com/p/go.net/publicsuffix/gen.go:549-605 | there is something to crush exactly when one nonempty label lies inside another or a suffix of one is a prefix of another |
| Tables.NodeWordFields | loads/examples/echo_go/src/code.google.com/p/go.net/publicsuffix/gen.go:499-503 | offset, length and children index within their bits are read back from a node's word, which is a uint32 |
| Tables.ChildrenWordFields | loads/examples/echo_go/src/code.google.com/p/go.net/publicsuffix/gen.go:478-483 | both bounds, node type and wildcard bit are read back from a children word, which is a uint32 |
| Tables.ShippedWords | loads/examples/echo_go/src/code.google.com/p/go.net/publicsuffix/table.go:6815-6822 | words of the tables that the package is shipped with come out as printed there: children entries 0 to 6, and the nodes of ac and academy |
| Generator.IndexAssigner.AssignIndexes | loads/examples/echo_go/src/code.google.com/p/go.net/publicsuffix/gen.go:451-491 | the children of a node get consecutive numbers and the node its entry; the error is returned exactly when a table is full, and then the node has no entry |
| Generator.IndexAssigner.Walk | loads/examples/echo_go/src/code.google.com/p/go.net/publicsuffix/gen.go:400-410 | the preorder walk numbers all children blocks one after another, and every node with children has its entry; it fails exactly when the tables have no room, and then leaves a node without its entry |
| Generator.EncodeLabels | loads/examples/echo_go/src/code.google.com/p/go.net/publicsuffix/gen.go:305-315 | every label gets offset and length of a place where it stands in the text; an error means text or label beyond the fields |
| Generator.PrintNodes | loads/examples/echo_go/src/code.google.com/p/go.net/publicsuffix/gen.go:493-510 | the words come in the order of the walk, one block of children after another |
| Generator.TreeRepresented | loads/examples/echo_go/src/code.google.com/p/go.net/publicsuffix/gen.go:400-510 | the numbering of assignIndexes is the emission order of printNode: the tables represent the tree, each node with its label, type, wildcard bit and its children's block |
| Generator.TreeNotRepresented | loads/examples/echo_go/src/code.google.com/p/go.net/publicsuffix/gen.go:326-348 | where the walk gave up, the tables written all the same do not represent the tree |
| Layout.RepresentsNodeSame | loads/examples/echo_go/src/code.google.com/p/go.net/publicsuffix/gen.go:436-491 | what tables represent does not depend on the numbers kept in the nodes |
| Compiler.CollectLabels | loads/examples/echo_go/src/code.google.com/p/go.net/publicsuffix/gen.go:220-227 | the list has exactly the labels of the rules, each once, sorted |
| Compiler.OneLabelList | loads/examples/echo_go/src/code.google.com/p/go.net/publicsuffix/gen.go:220-227 | there is only one such list |
| Compiler.PrintReal | loads/examples/echo_go/src/code.google.com/p/go.net/publicsuffix/gen.go:267-383 | the tables represent the tree if and only if it fits, the dropped error of line 326 notwithstanding; tables are made when the labels are short, some label is not empty, and all labels together have room; no table is made for a longer label; the text is the labels joined without the crush flag, and with it shorter exactly when there is something to crush |
| Compiler.Generate | loads/examples/echo_go/src/code.google.com/p/go.net/publicsuffix/gen.go:119-251 | tables are made for every nonempty well-formed list whose labels are shorter than 64 and together shorter than 32768; they serve its rules, and the flags of their sections, if and only if the tree fits the tables; their text is crushed exactly when the flag asks for it |
| Compiler.Compare | loads/examples/echo_go/src/code.google.com/p/go.net/publicsuffix/list_test.go:230-254 | for every well-formed list that fits and every domain, the fast query on the generated tables and the slow query give the same suffix; the tables exist under the conditions of Compiler.Generate |
| Lookup.Find | loads/examples/echo_go/src/code.google.com/p/go.net/publicsuffix/list.go:97-110 | binary search finds the child with the label, and notFound means that there is none |
| Lookup.CutLast | loads/examples/echo_go/src/code.google.com/p/go.net/publicsuffix/list.go:50-57 | what lies behind the last dot is the last label, and what lies before it the others |
| Lookup.Locate | loads/examples/echo_go/src/code.google.com/p/go.net/publicsuffix/list.go:45-84 | the loop over the tables finds the position and the flag that the walk over the tree finds |
| Lookup.PublicSuffix | loads/examples/echo_go/src/code.google.com/p/go.net/publicsuffix/list.go:45-90 | the fast query returns the public suffix that the rules define, wildcards, exceptions, empty labels and the default rule included; its second result is whether every rule that ends at the last node it comes to is in the ICANN section, and false when it comes to none |
| Lookup.Derives | loads/examples/echo_go/src/code.google.com/p/go.net/publicsuffix/list.go:121-133 | the `invalid public suffix` error is unreachable, and success gives the suffix and exactly one label more |
| Lookup.EffectiveTLDPlusOne | loads/examples/echo_go/src/code.google.com/p/go.net/publicsuffix/list.go:123-133 | on generated tables it never returns the `invalid public suffix` error; it fails exactly when there is no further label |
| Bytes.XorTwice | loads/examples/echo_go/src/code.google.com/p/go.net/websocket/hybi.go:89 | masking a byte twice with the same key byte gives it back |
| Bytes.XorMeaning | loads/examples/echo_go/src/code.google.com/p/go.net/websocket/hybi.go:89 | the masking of a byte, bit by bit |
| Bytes.ValueOfBigEndian | loads/examples/echo_go/src/code.google.com/p/go.net/websocket/hybi.go:155-162 | a number is read back from its bytes in network byte order when they are enough |
| Bytes.BigEndianAt | loads/examples/echo_go/src/code.google.com/p/go.net/websocket/hybi.go:219-223 | shift and mask cut out the bytes of the number, most significant first |
| Bytes.OrLow | loads/examples/echo_go/src/code.google.com/p/go.net/websocket/hybi.go:187-198 | the opcode of 4 bits and the flags above it are joined without touching each other |
| WebSocketFrames.MaskedTwice | loads/examples/echo_go/src/code.google.com/p/go.net/websocket/hybi.go:87-92 | unmasking is masking again, from the same position |
| WebSocketFrames.MaskedParts | loads/examples/echo_go/src/code.google.com/p/go.net/websocket/hybi.go:87-92 | masking by running position does not care where the data is cut |
| WebSocketFrames.WriteFrame | loads/examples/echo_go/src/code.google.com/p/go.net/websocket/hybi.go:187-242 | the bytes of a frame with any opcode byte and any length below 2^63; a key that has not 4 bytes is an error and nothing is sent |
| WebSocketFrames.LengthReadsBack | loads/examples/echo_go/src/code.google.com/p/go.net/websocket/hybi.go:147-162 | the length comes back through its 7, 16 or 64 bit form |
| WebSocketFrames.HeaderReadsBack | loads/examples/echo_go/src/code.google.com/p/go.net/websocket/hybi.go:120-178 | parsing what was written gives back length and key and stops at the payload; the header comes back if and only if the opcode is below 16 |
| WebSocketFrames.HeaderLayout | loads/examples/echo_go/src/code.google.com/p/go.net/websocket/hybi.go:184-242 | section 5.2 of RFC 6455 in plain numbers: flags and opcode, mask bit and length, length fields, key |
| WebSocketFrames.Rfc6455Examples | loads/examples/echo_go/src/code.google.com/p/go.net/websocket/hybi.go:184-242 | the examples of section 5.7 of RFC 6455 byte by byte: a text frame unmasked and masked, and a masked pong |
| WebSocketReader.FramesReadBack | loads/examples/echo_go/src/code.google.com/p/go.net/websocket/hybi.go:120-242 | frames of any kind written one after another are parsed as the same list, payloads unmasked |
| WebSocketReader.PingTaken | loads/examples/echo_go/src/code.google.com/p/go.net/websocket/hybi.go:291-302 | taking a ping with a payload of any length writes one pong with its first 125 bytes and leaves the rest of the stream |
| WebSocketReader.EmptyPingEnds | loads/examples/echo_go/src/code.google.com/p/go.net/websocket/hybi.go:291-296 | a ping without payload, whatever is behind it, is reported as the end of input, and what is behind it stays unread |
| WebSocketReader.WrongMaskEnds | loads/examples/echo_go/src/code.google.com/p/go.net/websocket/hybi.go:267-279 | a frame of any kind and length whose masking is wrong for its side, whatever is behind it, is answered with a close frame of status 1002 (not by a client without a key) and reported as the end of input; nothing of it is read |
| WebSocketReader.EndTaken | loads/examples/echo_go/src/code.google.com/p/go.net/websocket/hybi.go:288-304 | a wrongly masked frame, a close, a pong or an empty ping ends the reading with its error; its payload and all behind it stay unread |
| WebSocketReader.HeardParts | loads/examples/echo_go/src/code.google.com/p/go.net/websocket/hybi.go:285-307 | a stream is the frames in front of the first such frame and the rest, and so is its data |
| WebSocketReader.RepliesParts | loads/examples/echo_go/src/code.google.com/p/go.net/websocket/hybi.go:267-302 | what is sent is one pong for each ping heard, in order, and behind them the close frame when a wrongly masked frame ended the reading |
| WebSocketReader.AdvanceStreams | loads/examples/echo_go/src/code.google.com/p/go.net/websocket/websocket.go:171-197 | on a stream of frames of any kind, the next data is found, with its type, and the pings on the way answered, or the reading ends at the first frame that ends it, or at the end |
| WebSocketConn.Conn.ReadLength | loads/examples/echo_go/src/code.google.com/p/go.net/websocket/hybi.go:155-162 | the length fields added up in int64 arithmetic are the wrapped value of their bytes |
| WebSocketConn.Conn.NewFrameReader | loads/examples/echo_go/src/code.google.com/p/go.net/websocket/hybi.go:120-178 | reading a header byte by byte is parsing it, on every input |
| WebSocketConn.Conn.AnswerPing | loads/examples/echo_go/src/code.google.com/p/go.net/websocket/hybi.go:291-302 | up to 125 bytes are answered and the rest of the ping is discarded; an empty ping reads as the end of input |
| WebSocketConn.Conn.HandleFrame | loads/examples/echo_go/src/code.google.com/p/go.net/websocket/hybi.go:267-307 | what becomes of a frame on every input; WebSocketReader.WrongMaskEnds, WebSocketReader.PingTaken and WebSocketReader.EndTaken say what that is |
| WebSocketConn.Conn.FindData | loads/examples/echo_go/src/code.google.com/p/go.net/websocket/websocket.go:174-195 | the loop of Conn.Read ends, and stops where the specification does |
| WebSocketConn.Conn.ReadFrame | loads/examples/echo_go/src/code.google.com/p/go.net/websocket/hybi.go:82-94 | n bytes are unmasked in place by running position |
| WebSocketConn.Conn.Read | loads/examples/echo_go/src/code.google.com/p/go.net/websocket/websocket.go:171-197 | one read returns between one byte and a full buffer of the next data, or the failure in its place, on every input |
| WebSocketConn.ReadConserves | loads/examples/echo_go/src/code.google.com/p/go.net/websocket/websocket.go:171-197 | what a read returns followed by what is still to come is the data in front of the first frame that ends reading, wrongly masked frames included, and the frames sent followed by those due are the pongs for the pings in front of it and the close for a wrong mask; the error is reported only when all of that is read |
| WebSocketConn.ReadRun | loads/examples/echo_go/src/code.google.com/p/go.net/websocket/websocket.go:171-197 | the same over any number of reads with buffers of any sizes; with nonempty buffers every read makes progress; all data of the stream arrives if and only if none stands behind a close, a pong, an empty ping or a wrongly masked frame |
| WebSocketConn.Conn.Receive | loads/examples/echo_go/src/code.google.com/p/go.net/websocket/websocket.go:303-332 | what is left of a frame is discarded, then the next data frame is returned whole with its type, that of the message for a continuation, pings answered on the way |
| WebSocketConn.ReceiveConserves | loads/examples/echo_go/src/code.google.com/p/go.net/websocket/websocket.go:303-332 | successive calls give the payloads and types of the data frames one by one, in order, up to the first frame that ends reading |
| RecordFile.Find | loads/db/_python.py:31-32 | the first place of a marker from a position on, or -1 |
| RecordFile.FirstStays | loads/db/_python.py:29-36 | more data behind a chunk does not change its first complete record |
| RecordFile.FirstShifts | loads/db/_python.py:29-36 | searching from a position on is searching what is left there |
| RecordFile.ReadChunk | loads/db/_python.py:29-50 | the records found in a chunk are the first records of the whole rest of the file |
| RecordFile.ReadZFile | loads/db/_python.py:17-55 | on every file the records, in order, are those of the file read as a whole, wherever the chunks of 1024 bytes end; so is the way it ends: done, an undecodable record, or never |
| RecordFile.ReadsWritten | loads/db/_python.py:17-55 | clear records followed by end markers are read back, and a tail that is cut short makes it loop for ever after them |
| RecordFile.WrittenReadBack | loads/db/_python.py:17-55 | for every compression under which no beginning of a record unpacks: the records written are read up to the first that has the end marker inside, where reading fails with the line cut there; all are read back if and only if none has |
| RecordFile.MarkerInside | loads/db/_python.py:31-38 | the 37 bytes of the record {"0": "r620", "1": "addSuccess"} have the end marker in their checksum: reading its file is an error without a record |
| RecordFile.EndsIff | loads/db/_python.py:52-55 | reading never ends exactly when part of a record is left over behind records that all decode |
| KeyTable.KeyAdded | loads/db/_python.py:119-130 | a new code keeps the two dictionaries inverse to each other, and changes no code given before |
| KeyTable.LastCode | loads/db/_python.py:121-126 | the codes are the numbers below the size, so the largest plus one is new |
| KeyTable.StandsOn | loads/db/_python.py:138-142 | a compressed record means the same in every later state of the dictionaries |
| KeyTable.StandsForOne | loads/db/_python.py:138-142 | a compressed record means one record only |
| KeyTable.Uncompress | loads/db/_python.py:138-142 | looking up the codes one by one, in any order, gives the record that the row stands for |
| LogSpec.CountsAreTotals | loads/db/_python.py:174-175 | the counts are the sums of the sizes over the records of each type, for exactly the types that there are |
| LogSpec.DefaultsCounted | loads/db/_python.py:172-175 | a record without a type counts as unknown, and one without a size as 1 |
| LogSpec.ErrorsMeaning | loads/db/_python.py:181-182 | the errors of a log are its records of the types addError and addFailure, each as often as it is there, in the order of the log |
| LogSpec.ErrorsParts | loads/db/_python.py:171-184 | the errors of two logs one after the other are those of the first and then those of the second |
| LogSpec.AddedFaithful | loads/db/_python.py:171-184 | adding a record keeps files and queues faithful to the log |
| LogSpec.ErrorsDumpedFaithful | loads/db/_python.py:186-204 | writing the queue of errors loses, repeats and reorders nothing |
| LogSpec.RecordsDumpedFaithful | loads/db/_python.py:186-204 | writing the queue of records loses, repeats and reorders nothing, and keeps what was written readable |
| LogSpec.FileRead | loads/db/_python.py:17-55 | the compressed file of a run is read back as its rows, up to the first whose compressed form has the end marker inside |
| LogSpec.StoppedPage | loads/db/_python.py:346-351 | a page that is full before the unreadable record is the page of the whole log |
| LogSpec.WholePage | loads/db/_python.py:322-355 | without a filter, a page is the records from start on, size of them |
| LogSpec.FilterMeaning | loads/db/_python.py:342-345 | the matching records are those whose type is the one asked for, in their order and multiplicity |
| LogSpec.FilteredPage | loads/db/_python.py:342-351 | with a filter, a page is the first matching records from start on if and only if the window of size + 1 records has enough of them or none match behind it |
| LogSpec.MissedRecord | loads/db/_python.py:342-351 | a page of one record finds a matching record behind one other and misses it behind two |
| ResultLog.NextCode | loads/db/_python.py:121-126 | the code after the largest is the number of codes |
| ResultLog.BrokerDB.constructor | loads/db/_python.py:77-95 | a log in an empty directory holds nothing |
| ResultLog.BrokerDB.Add | loads/db/_python.py:171-184 | the run's log grows by the record, and every run stays faithful to its log |
| ResultLog.BrokerDB.CompressHeaders | loads/db/_python.py:114-136 | the row stands for the record in the grown dictionaries of the run; those of other runs are unchanged |
| ResultLog.BrokerDB.DumpQueue | loads/db/_python.py:186-204 | the queue is appended to its file row by row, each row standing for its record |
| ResultLog.BrokerDB.Flush | loads/db/_python.py:246-286 | everything added is in the files afterwards, and nothing has been added |
| ResultLog.BrokerDB.UpdateHeaders | loads/db/_python.py:100-112 | merging the saved dictionary of a run into the one in memory changes nothing |
| ResultLog.BrokerDB.Batch | loads/db/_python.py:322-355 | the loop gives the page of the records that the rows stand for, and stops before their end exactly when the page is full |
| ResultLog.BrokerDB.GetData | loads/db/_python.py:373-393 | the page of the records added for the run, filtered and cut; where it comes to a row that is not clear, the page of those in front of it and then the error |
| ResultLog.BrokerDB.GetErrors | loads/db/_python.py:357-371 | the records of the types addError and addFailure, in order, each as often as it was added, cut to the page asked for |
| ResultLog.BrokerDB.GetCounts | loads/db/_python.py:301-309 | the counts over all records added for the run |
| ResultLog.Session | loads/db/_python.py:171-393 | after any interleaving of adding, flushing and reading, what is read are the records added for the run in order, all of them when every compressed row is clear and otherwise those before the first that is not, then its error; counts are those of all records added, and errors are all those of the types addError and addFailure |
| BrokerController.Controller.RemoveAgent | loads/transport/brokerctrl.py:65-78 | the agent is in no dictionary any more, and nothing else changes |
| BrokerController.Controller.RegisterAgent | loads/transport/brokerctrl.py:80-85 | an agent that is known keeps its entry |
| BrokerController.Controller.UnregisterAgents | loads/transport/brokerctrl.py:87-94 | nobody is left, and no run is left either |
| BrokerController.Controller.ChooseAgents | loads/transport/brokerctrl.py:105-116 | the loop picks different free agents, each responsive when checked |
| BrokerController.Controller.ReserveAgents | loads/transport/brokerctrl.py:102-119 | exactly as many agents as asked for, all different, registered, without a run before and with the new one after; too few agents is reported exactly when there are too few, and then nothing changes |
| BrokerController.Controller.SendToAgent | loads/transport/brokerctrl.py:121-138 | an agent that cannot be reached is removed |
| BrokerController.Controller.TerminateRun | loads/transport/brokerctrl.py:204-224 | the agent leaves its run; the run is returned, and test_ended called, exactly when nobody else has it |
| BrokerController.Controller.UpdateStatus | loads/transport/brokerctrl.py:182-202 | an agent that runs nothing leaves its run, any other is noted as heard of |
| BrokerController.Controller.SaveData | loads/transport/brokerctrl.py:238-251 | the sender is registered; it keeps its run, or gets that of its data when it has none |
| BrokerController.Controller.Clean | loads/transport/brokerctrl.py:140-180 | the loop does to the dictionaries what the pass is specified to do, agent by agent; BrokerState.CleanPass and BrokerState.SilentAgentGone say what that is |
| BrokerController.Happen | loads/transport/brokerctrl.py:65-251 | every step keeps agents with a run registered and published runs ended, moves no agent from one run to another, ends a run only with its last agent and then once, and opens one only by a reservation or by data for it |
| BrokerController.Run | loads/transport/brokerctrl.py:65-251 | the same over every history; the endings of every run, the times it was dropped unended, and its being held now are together the times it was opened; nothing is dropped while agents stay registered and in reach; between two endings of a run it was reserved or had data again |
| BrokerState.CleanPass | loads/transport/brokerctrl.py:140-180 | a pass removes from their runs exactly the agents that are late or out of reach, whatever the order of the dictionary; it notes the time of an agent not heard of, takes that of one removed and changes no other; a run is published at most once, and if and only if its last agent was told to quit after all others had gone; when everybody can be reached, if and only if all its agents are late |
| BrokerState.SilentAgentGone | loads/transport/brokerctrl.py:149-180 | an agent with a run that was never heard of and is not heard of between two passes more than the timeout apart has lost its run after the second, whatever happened to others between |
| BrokerState.SilentRunEnds | loads/transport/brokerctrl.py:149-180 | a run all of whose agents are silent like that ends with the second pass and is published |
| BrokerState.NextFinished | loads/transport/brokerctrl.py:204-224 | a run is found to be over at an agent exactly when no other agent has it any more |
| BrokerState.FinishedIff | loads/transport/brokerctrl.py:140-180 | without failures, a run is published in some step of the pass if and only if all its agents are late |
| BrokerState.NeverPublished | loads/transport/brokerctrl.py:154-171 | a run whose only agent is late and out of reach is gone, but neither ended nor published |
| BrokerState.EndsTwice | loads/transport/brokerctrl.py:245-251 | such a second ending: late data brings an agent back into its run, which then ends again |
| BrokerLedger.Ledger | loads/transport/brokerctrl.py:65-251 | over any history in which steps end runs only with their last agents: endings, drops and being held now add up to the openings |
| BrokerLedger.OpenedBetween | loads/transport/brokerctrl.py:65-251 | between two endings of a run there is a step that gives it to an agent while nobody has it |
| BrokerLedger.PassEnds | loads/transport/brokerctrl.py:140-180 | a cleaning pass ends a run only if it takes all agents from it, and once; with everybody in reach it drops none and opens none |
| BrokerLedger.TerminatedEnds | loads/transport/brokerctrl.py:204-224 | taking an agent from its run ends that run exactly when nobody else has it, and no other |
| Messages.Commute | loads/results/base.py:226-285 | calls of different methods can change places: tests, failures, errors, successes, ended tests, hits and sockets come out the same |
| Messages.SameKindMatters | loads/results/base.py:249-251 | two errors of a test, in whatever results, can change places exactly when their texts are equal |
| Messages.OrderOfKinds | loads/results/base.py:219-223 | two streams with the same messages of each type, in the same order within the type, give the same results |
| Messages.StreamTotals | loads/results/base.py:275-285 | the data received over a stream of calls is the sum of the sizes, sockets are counted as opened and closed, and the hits are kept in order |
| Messages.StreamOfTest | loads/results/base.py:238-259 | a test after a stream of calls: it is known exactly if it was or is mentioned; its errors, failures, successes and end are those of the calls about it |
| TestResults.TestResult.StartTest | loads/results/base.py:238-242 | a test is made when its key is new and kept when it is not |
| TestResults.TestResult.GetTest | loads/results/base.py:309-314 | the test of a key, made when there is none |
| TestResults.TestResult.StopTest | loads/results/base.py:244-247 | the test has ended, and no other test changes |
| TestResults.TestResult.AddError | loads/results/base.py:249-251 | the error is appended to its test, and no other test changes |
| TestResults.TestResult.AddFailure | loads/results/base.py:253-255 | the failure is appended to its test, and no other test changes |
| TestResults.TestResult.AddSuccess | loads/results/base.py:257-259 | the test has one success more, and no other test changes |
| TestResults.TestResult.Call | loads/results/base.py:226-285 | each call has the effect that the specification gives it; Messages.StreamTotals and Messages.StreamOfTest say what a stream of them comes to |
| TestResults.TestResult.Batch | loads/results/base.py:220-223 | replaying a batch, its types in any order, gives the results of the calls in their original order |
| Relay.SummarizedTestResult.Push | loads/results/zmqrelay.py:127-128 | the message is queued behind the others |
| Relay.SummarizedTestResult.DumpData | loads/results/zmqrelay.py:135-161 | the queue becomes one batch, every message under its type; an empty queue is not sent by the timer |
| Relay.SummarizedTestResult.Close | loads/results/zmqrelay.py:130-133 | in the end every message pushed is in exactly one batch |
| Relay.Receive | loads/util.py:374-380 | batch after batch, wherever the stream was cut, the results are those of the calls themselves |
| Relay.RelayAll | loads/results/zmqrelay.py:120-161 | from the calls to the results: for every stream and every placement of the dumps the receiving object ends as if it had been called directly, with the sums, counts, hits and tests of the stream |
| SpdyHeaders.WordBack | loads/examples/echo_go/src/code.google.com/p/go.net/spdy/read.go:146-150 | a 32-bit number is read back, and four bytes are consumed |
| SpdyHeaders.EntryBack | loads/examples/echo_go/src/code.google.com/p/go.net/spdy/read.go:184-212 | one header with its values is read back under its canonical name, and its name is found neither duplicate nor unlowercased |
| SpdyHeaders.BlockBack | loads/examples/echo_go/src/code.google.com/p/go.net/spdy/read.go:177-217 | a block of valid headers is read back as the same map, whatever the order in which the map gave its keys |
| SpdyFrames.ControlBack | loads/examples/echo_go/src/code.google.com/p/go.net/spdy/read.go:146-175 | type, flags and length of a control frame are read back, and its body is handed to the reader of its type |
| SpdyFrames.SettingsBack | loads/examples/echo_go/src/code.google.com/p/go.net/spdy/read.go:40-58 | flags, ids and values of settings are read back, in order |
| SpdyFrames.FrameBack | loads/examples/echo_go/src/code.google.com/p/go.net/spdy/read.go:146-348 | a valid frame of any type is read back as it was, whatever follows it and whatever the order of its headers |
| SpdyFrames.PriorityBack | loads/examples/echo_go/src/code.google.com/p/go.net/spdy/write.go:215 | of a priority three bits are sent: it comes back if and only if it is below 8 |
| SpdyFrames.WriteFails | loads/examples/echo_go/src/code.google.com/p/go.net/spdy/write.go:14-318 | when WriteFrame fails, for every frame; nothing has been written then, except by a reset without a status, which leaves the first half of its frame behind |
| SpdyFrames.StreamBack | loads/examples/echo_go/src/code.google.com/p/go.net/spdy/read.go:146-348 | a stream of valid frames is read back as the same list of frames |
| SpdyWire.ControlLayout | loads/examples/echo_go/src/code.google.com/p/go.net/spdy/write.go:141-153 | control bit and version 3, type, flags and a length of 24 bits, byte by byte |
| SpdyWire.LayoutWithHeaders | loads/examples/echo_go/src/code.google.com/p/go.net/spdy/write.go:184-296 | types 1, 2 and 8 in plain bytes: the length, and the order of the fields in front of the header block |
| SpdyWire.LayoutPlain | loads/examples/echo_go/src/code.google.com/p/go.net/spdy/write.go:22-130 | types 3, 4, 6, 7 and 9 and the data frame in plain bytes: their lengths and the order of their fields |
| SpdyWire.SettingLayout | loads/examples/echo_go/src/code.google.com/p/go.net/spdy/write.go:59-67 | a setting is its flag, an id of 24 bits and its value |
| SpdyWire.BlockOfOne | loads/examples/echo_go/src/code.google.com/p/go.net/spdy/write.go:155-182 | a block of one name: the number of names, the name in lower case and its values, each behind its length |
| SpdyWire.TwoValues | loads/examples/echo_go/src/code.google.com/p/go.net/spdy/write.go:171 | values are sent with a zero byte between them |
| SpdyWire.LowerMeaning | loads/examples/echo_go/src/code.google.com/p/go.net/spdy/write.go:166 | names are sent in lower case, character by character |
| SpdyWire.CanonicalMeaning | loads/examples/echo_go/src/code.google.com/p/go.net/spdy/read.go:208-211 | names are kept with capitals at the beginning and behind each hyphen, and small letters elsewhere |
| SpdyWire.HeadersRefused | loads/examples/echo_go/src/code.google.com/p/go.net/spdy/read.go:219-329 | a frame with headers comes back if and only if it has none of the names that its kind must not have |
| SpdyWire.RefusedInRequests | loads/examples/echo_go/src/code.google.com/p/go.net/spdy/types.go:231-237 | the five names that a request must not have |
| SpdyWire.RefusedInResponses | loads/examples/echo_go/src/code.google.com/p/go.net/spdy/types.go:239-244 | the four names that a response must not have |
| SpdyWire.DuplicateMissed | loads/examples/echo_go/src/code.google.com/p/go.net/spdy/read.go:198-200 | a name that came before is noticed if and only if its canonical form is its lower-case form |
| SpdyWire.LetterMissed | loads/examples/echo_go/src/code.google.com/p/go.net/spdy/read.go:198-200 | so a name that begins with a letter never is |
| SpdyWire.RstStreamRead | loads/examples/echo_go/src/code.google.com/p/go.net/spdy/read.go:23-38 | a reset without a status or without a stream is refused |
| SpdyWire.PingRead | loads/examples/echo_go/src/code.google.com/p/go.net/spdy/read.go:60-72 | a ping without an id or with flags is refused |
| SpdyWire.GoAwayRead | loads/examples/echo_go/src/code.google.com/p/go.net/spdy/read.go:74-89 | the end of a connection with flags or of a length other than 8 is refused |
| SpdyWire.WindowUpdateRead | loads/examples/echo_go/src/code.google.com/p/go.net/spdy/read.go:95-110 | and so is a window update |
| SpdyWire.DataRead | loads/examples/echo_go/src/code.google.com/p/go.net/spdy/read.go:331-348 | data without a stream is refused, and comes back otherwise |
| SpdyWire.UnknownType | loads/examples/echo_go/src/code.google.com/p/go.net/spdy/read.go:112-129 | every type but the eight is refused |
| SpdyWire.VersionIgnored | loads/examples/echo_go/src/code.google.com/p/go.net/spdy/read.go:151-155 | a control frame of any version is read as one of version 3 |
| SpdyFramer.WriteFrames | loads/examples/echo_go/src/code.google.com/p/go.net/spdy/write.go:137-139 | valid frames written one after another leave their bytes and no error |
| SpdyFramer.ReadFrames | loads/examples/echo_go/src/code.google.com/p/go.net/spdy/read.go:146-175 | frames read one after another until the input ends or fails are those of the whole input |
| SpdyFramer.Transfer | loads/examples/echo_go/src/code.google.com/p/go.net/spdy/read.go:146-348 | what one framer writes another reads: the same list of valid frames, to the end |
| SpdyFramer.Framer.WriteControlFrameHeader | loads/examples/echo_go/src/code.google.com/p/go.net/spdy/write.go:141-153 | version and control bit, type, flags and length, in network byte order |
| SpdyFramer.Framer.WriteHeaderValueBlock | loads/examples/echo_go/src/code.google.com/p/go.net/spdy/write.go:155-182 | the loop over the map appends the block of the headers |
| SpdyFramer.Framer.WriteFrame | loads/examples/echo_go/src/code.google.com/p/go.net/spdy/write.go:137-139 | every frame's bytes are appended, or its error is returned; the header buffer is empty again |
| SpdyFramer.Framer.ParseHeader | loads/examples/echo_go/src/code.google.com/p/go.net/spdy/read.go:184-212 | one header: its name checked, its values added under the canonical name |
| SpdyFramer.Framer.ParseHeaderValueBlock | loads/examples/echo_go/src/code.google.com/p/go.net/spdy/read.go:177-217 | the loop reads the block, and reports an error in a name only at its end |
| SpdyFramer.Framer.ReadFrame | loads/examples/echo_go/src/code.google.com/p/go.net/spdy/read.go:146-157 | reading field by field is the parse of the input, for every input and with the same error |

## Left out

- Decoder.Decode: inputs of 2^31 - 1 bytes and more, where the length itself is no int32; the same holds for Encoder.Encode, Idna.ToASCII and Idna.ToUnicode.
- Strings are sequences of Unicode code points; UTF-8, surrogates and what Go does with invalid bytes are not modelled, so decoding an integer that is a surrogate is not distinguished.
- SlowSuffix.SlowPublicSuffix: needs a well-formed list: nonempty labels, `*` only as a whole first label and `!` only as the first character of rules with at least two labels, no path both plain and exception, no exception below another. The same holds for Compiler.Generate, Compiler.Compare and Lookup.PublicSuffix.
- SlowSuffix.FirstByPriority: sort.Sort is an insertion sort here; byPriority is no strict order on lists with several exceptions, for which the package sort promises nothing.
- Compiler.Generate: whether tables are made when the labels are short but together 32768 characters or more, which depends on how far they overlap.
- The tree of the generator is a value; its nodes are not heap objects, so sharing of nodes is not modelled. Fetching the list, its comments, the subset and version flags, and the printed source text are left out.
- WebSocketConn.ReadRun: reading on after an error; a client has keys for the pongs that it is to send.
- WebSocketConn.Conn.Read: how many bytes arrive at once is any number the buffer allows; write errors of the socket, locks, handshake, HTTP and unmarshalling are left out. Masking keys are given in advance.
- ResultLog.BrokerDB.GetData: json and zlib are functions; unpacking undoes packing, and no proper beginning of a compressed record unpacks. Grouping, reopening a directory in another process, deleting runs, metadata, urls and disk space are left out, and a reader takes its records at once.
- ResultLog.BrokerDB.Add: run ids and types are texts and sizes are numbers, as the rest of the code needs them.
- BrokerController.Controller.ReserveAgents: the random choices are given; that the loop ends is not promised by the code, and is not stated.
- BrokerController.Controller.SaveData: storing the data is the log's part, and so is refusing data without a run id; the cached status replies, observers and metadata are left out.
- BrokerController.Controller.Clean: what is sent to the agents; only whether sending works matters. The commands of clients, which reserve agents, send to them and list runs, are left out.
- TestResults.TestResult.Batch: the receiver has taken the run id out of the batch, as loads/runners/distributed.py does; with it the calls would fail. Clock values, observers, rates, quantiles and counters are left out.
- Relay.RelayAll: one agent; sending is repeated until it works, and json gives the batch back with its types in any order.
- SpdyFramer.Framer.ParseHeader: lower-casing and canonical form are those of ASCII names.
- SpdyHeaders.EntryBack: names outside ASCII, whose lower-case form may have another length.
- SpdyFrames.FrameBack: header compression, frames whose headers do not fit 24 bits of length, priorities from 8 on (see SpdyFrames.PriorityBack), header names not in canonical form, empty lists of values.
- SpdyFramer.Framer.ReadFrame: where the input stands after an error.
- The IPv4 and IPv6 packages, sockets, processes, command lines, reports and notifications.

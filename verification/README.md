# etlx-core: a verified model

This project models five components of the library and proves what they are for. Each imperative core is written as
a Dafny method or class over arrays and fields and proved equal to a specification function; the theorems are about
those functions.

- **JSON** (`Json*.dfy`). The single-pass tokeniser that writes a flat array in place and keeps its bracket stack only
  implicitly, and the view that navigates that array. `JsonMachine` is the specification, `JsonParser` the imperative
  code; `JsonLexemes` and `JsonRefusal` say what is accepted and what each error code means. The array is exactly the
  pre-order flattening of the document tree, lookups on it are lookups on the tree, the backward scan is an explicit
  stack, and the number of token slots matters only as a threshold.
- **SHA-256, HMAC and streams** (`Sha256*.dfy`, `Hmac`, `Streams`). `Sha256Spec` is FIPS 180-4 (sections
  4.1.2, 4.2.2, 5.1.1, 5.3.3 and 6.2.2) on whole messages; the class buffers partial blocks and agrees with it for
  every way the message is cut. `Sha256Constants` derives its tables from the primes and `Sha256Example` works one
  digest out. HMAC is section 2 of RFC 2104. The stream copy works over readers that hand out any piece they like and
  may fail.
- **Event loop** (`EventSpec`, `Events`, `EventEffects`, `EventOrder`, `EventSettling`, `EventCircles`,
  `EventTermination`). A bounded queue and an unsorted timer table, changed by the callbacks that run from them:
  `EventEffects` says how, from what the callbacks say alone. The clock is a monotone one, which may move while
  callbacks run; "a clock that stands still while callbacks run" (`EventSpec.Still`) is the simulated clock
  when no callback advances it. Ordering and conservation at every moment of every run, endless runs included; exactly
  when `RunOnce` returns; termination and progress of `Run`.
- **HTTP** (`Http*.dfy`, `Decimal`). The bounded request builder, the response parser as the inverse of the message
  format of RFC 9112, and the client's receive loop over a socket that cuts the stream as it likes.
- **Key-value store** (`KvImage`, `KvFiles`, `Kv`). The bounded map, its file image, the loader on any file, and the
  write-temporary-then-rename protocol with failing steps and crashes.

`Core`, `Slices`, `Radix` and `Decimal` hold shared vocabulary. `dafny verify dfyconfig.toml` checks everything.

## Where the code differs from what one would expect

Each of these is proved, with the exact condition where there is one.

- A JSON document that is a bare primitive with nothing behind it is reported as truncated, although section 2 of
  RFC 8259 allows it: `JsonRoundTrip.BarePrimitive`, and `JsonRoundTrip.DocumentVerdict` for the whole behaviour.
- `RunOnce` need not return. Its firing loop compares with the time it read at its start, so only timers armed with no
  positive delay can be due by it. When no due timer starts an endless chain of such armings the loop ends, on any
  monotone clock (`EventSettling.DueEndSettles`); positive delays are the plainest case (`EventOrder.OnceFiresDue`). On a
  clock that moves while callbacks run it may end even with such a chain (`EventCircles.MovingClockEndsCircle`).
- On a clock that stands still while callbacks run, the exact condition for every program is: no due timer starts an
  endless chain, or the loop ends after the full table has refused an arming (`EventSettling.ReturnsIffOrRefused`). So
  where nothing is ever refused the chains alone decide (`EventSettling.RoomySettlesIff`), and they also do, whatever is
  refused, when an arming at once is always the first arming of its callback (`EventCircles.ReturnsIff`). `EventCircles.FullTableBreaksCircle`
  is an endless chain that a refusal ends.
- `RunOnce` fires in table order. When no delay is negative, that is due order exactly when the timers due at its reading
  of the clock stand in that order (`EventOrder.OnceInOrderIff`); after `SimulatedClock::Advance` has jumped past several
  timers they need not (`EventOrder.AdvancedClockFiresLateFirst`). With a negative delay even that is not enough
  (`EventOrder.NegativeDelayFiresEarlier`). In a run of `Run` without negative delays, on a clock that stands still
  while callbacks run, the order is always right: `EventOrder.AlwaysInOrder`.
- After `Stop`, `Run` still sleeps until the next timer before it returns, exactly when no immediate callback is pending
  and some timer is, none of them already due: `EventOrder.StopEndsRun`.
- `Commit` looks at the result of `fflush` only. A loss that `fflush` does not report is renamed over the good file and
  tears the store: `Kv.UnreportedLossTearsStore`, and `Kv.CommitThenCrash` for what any crash leaves.
- A `Content-Length` of 2^64 or more wraps and may cut a body that is there: `HttpInversion.CutIsTheSmaller` gives the
  exact condition, `HttpInversion.ParsedBodyIsTheSmaller` the same for whole responses, and
  `HttpInversion.DeclaredLengthWraps` a response that loses its body.

## Model

| member | source | states |
|---|---|---|
| `JsonParser.ParseInto` | src/json/json.cpp:91-159 | The in-place tokeniser returns the machine's verdict, writes exactly its tokens, and on success leaves every slot behind them untouched |
| `JsonParser.Parser.Iterate` | src/json/json.cpp:94-150 | One turn of the main loop, with its increment, is one step of the machine |
| `JsonParser.Parser.Alloc` | src/json/json.cpp:17-22 | Hands out the next slot, reset, exactly while one is left |
| `JsonParser.Parser.ParsePrimitive` | src/json/json.cpp:28-50 | One primitive token up to its terminator, or the error; no room is an error only once the terminator is found |
| `JsonParser.Parser.ParseString` | src/json/json.cpp:52-87 | One string token without its quotes, with every escape checked, or the error |
| `JsonParser.Parser.SkipHex` | src/json/json.cpp:72-78 | The four digits of a unicode escape, or which of the two errors they give |
| `JsonParser.Parser.OpenBracket` | src/json/json.cpp:97-109 | Opens a container below the current one and makes it current |
| `JsonParser.Parser.CloseBracket` | src/json/json.cpp:110-126 | Closes the innermost open container if its kind matches, else Invalid |
| `JsonParser.Parser.Unclosed` | src/json/json.cpp:152-157 | The closing scan finds whether a token is still open |
| `JsonLexemes.CharacterClasses` | src/json/json.cpp:24-71 | White space, the ends of a primitive, the simple escapes and the hex digits, character by character |
| `JsonLexemes.ScansStringIff` | src/json/json.cpp:52-87 | A string is taken, and ends at q, if and only if a quote stands there and between the quotes only plain characters and complete escapes |
| `JsonLexemes.ScansPrimitiveIff` | src/json/json.cpp:28-50 | A primitive ends at the first character that ends one, with no control character before it; it is Partial if and only if only such characters are left |
| `JsonLexemes.StringOn` | src/json/json.cpp:52-87 | A string accepted or refused as Invalid stays so whatever text follows |
| `JsonLexemes.StringCompletes` | src/json/json.cpp:52-87 | A string reported as Partial can be completed |
| `JsonLexemes.CursorMoves` | src/json/json.cpp:97-147 | Which token is current after each character of a document of any shape |
| `JsonLexemes.AcceptedIsSpelled` | src/json/json.cpp:91-159 | Every accepted document, JSON or not: each string, primitive and container token spells what its kind says, and every character is white space, colon, comma or part of a token |
| `JsonRefusal.RefusalCodes` | src/json/json.cpp:91-159 | With slots enough: Partial if and only if the document is not accepted but some continuation of it is, Invalid if and only if none is |
| `JsonRefusal.InvalidStays` | src/json/json.cpp:94-150 | What is Invalid stays Invalid whatever follows |
| `JsonRefusal.PartialCompletes` | src/json/json.cpp:152-157 | What is Partial is accepted once its lexeme is completed and its containers are closed, innermost first |
| `JsonRefusal.BadEscapeIsInvalid` | src/json/json.cpp:65-81 | A backslash before any but the nine escape characters makes a string Invalid |
| `JsonForest.StepKeepsGrowing` | src/json/json.cpp:94-150 | Every step keeps starts increasing, spans nested or disjoint, and each size equal to the number of children |
| `JsonForest.AcceptedIsForest` | src/json/json.cpp:91-159 | For every accepted input: parents before children, spans in bounds and well nested, sizes exact, and sizes plus roots sum to the token count |
| `JsonStack.CloseMatchesPop` | src/json/json.cpp:110-126 | The backward scan closes the top of the stack of open tokens, and refuses exactly what a pop would refuse |
| `JsonStack.StepMatchesRecogniser` | src/json/json.cpp:94-150 | In lock step, on every input: an iteration takes the open tokens, in index order, to the next stack of a recogniser that keeps one, at the same position, or both fail with the same code; NoMemory is the tokeniser's own |
| `JsonStack.ParseMatchesRecogniser` | src/json/json.cpp:91-159 | Verdict and error code are the explicit-stack recogniser's, except for NoMemory, which needs fewer slots than characters |
| `JsonCapacity.CapacityThreshold` | src/json/json.cpp:17-22 | If parsing uses n tokens, any capacity of at least n gives the identical result and any smaller one NoMemory |
| `JsonRoundTrip.ParsesValue` | src/json/json.cpp:94-150 | Reading the text of any value, anywhere in a document, appends its pre-order tokens and counts one child |
| `JsonRoundTrip.BarePrimitive` | src/json/json.cpp:28-50 | A primitive that ends the input is Partial |
| `JsonRoundTrip.DocumentVerdict` | src/json/json.cpp:91-159 | For every tree and any white space: Partial for a bare primitive at the end, NoMemory with too few slots, else exactly the pre-order array |
| `JsonView.ParseToView` | src/json/json.cpp:161-166 | The view of the first token, or the parser's error, or Invalid for a document without tokens |
| `JsonView.Json.Member` | src/json/json.cpp:189-200 | The loop finds the token behind the first key of this container with that text |
| `JsonView.Json.Element` | src/json/json.cpp:202-212 | The loop finds the n-th token whose parent is this container |
| `JsonView.Json.AsInt` | src/json/json.cpp:214-231 | The signed number all of the lexeme denotes, WrongType for other characters, Invalid for no digits |
| `JsonView.ReadDigits` | src/json/json.cpp:224-229 | The number of an all-digit text, or nothing at the first other character |
| `JsonView.RootDenotes` | src/json/json.cpp:161-166 | The view of a parsed document denotes the document's tree |
| `JsonView.ScalarsAndSizes` | src/json/json.cpp:168-187 | Views give back type, lexeme, and number of members or items of what they denote |
| `JsonView.MemberMeansLookup` | src/json/json.cpp:189-200 | Lookup by key on the flat array is lookup of the first such member in the tree, as a view that again denotes it |
| `JsonView.ElementMeansNth` | src/json/json.cpp:202-212 | Lookup by index is the n-th item of the tree, and the invalid view past the end |
| `JsonView.AsIntReadsBack` | src/json/json.cpp:214-231 | Every integer as usually written reads back as itself |
| `JsonViewErrors.AsIntVerdict` | src/json/json.cpp:214-231 | A number if and only if the value is a primitive of digits behind at most one minus sign; Invalid if and only if there is nothing behind the sign; WrongType otherwise |
| `JsonViewErrors.NoMembersElsewhere` | src/json/json.cpp:189-190 | Lookup by key in anything but an object is the invalid view |
| `JsonViewErrors.NoItemsElsewhere` | src/json/json.cpp:202-203 | Lookup by index in anything but an array is the invalid view |
| `JsonViewErrors.ScalarsAreEmpty` | src/json/json.cpp:184-187 | The size of a scalar is 0 |
| `JsonViewErrors.NothingInInvalid` | include/etlx/json/json.hpp:50-60 | The invalid view answers everything and leads back to itself |
| `Decimal.PlaceValue` | src/json/json.cpp:224-229 | Each digit counts for its power of ten |
| `Sha256.Small0Rotates` | src/crypto/sha256.cpp:44 | The shifts of the code are the rotations of the standard's sigma0 |
| `Sha256.Small1Rotates` | src/crypto/sha256.cpp:45 | Likewise sigma1 |
| `Sha256.Big0Rotates` | src/crypto/sha256.cpp:56 | Likewise Sigma0 of the round |
| `Sha256.Big1Rotates` | src/crypto/sha256.cpp:53 | Likewise Sigma1 of the round |
| `Sha256.ScheduleSum` | src/crypto/sha256.cpp:46 | The four summands in the order of the code give the standard's schedule word |
| `Sha256.Sha256.Schedule` | src/crypto/sha256.cpp:36-47 | The array filled in place holds the recursively defined message schedule |
| `Sha256.RotatesOnce` | src/crypto/sha256.cpp:53-60 | The assignments of one turn of the loop are one round of the standard |
| `Sha256.Sha256.RotateRounds` | src/crypto/sha256.cpp:49-61 | Rotating the eight variables 64 times is the standard's 64 rounds |
| `Sha256.Sha256.AddInto` | src/crypto/sha256.cpp:63-64 | The chaining state grows word by word modulo 2^32 |
| `Sha256.Sha256.CompressBlock` | src/crypto/sha256.cpp:35-65 | The chaining state after a block is section 6.2.2 of FIPS 180-4, for every state and block |
| `Sha256.Sha256.Reset` | src/crypto/sha256.cpp:25-33 | The state stands for the empty message, from whatever it was before |
| `Sha256.CompressingStands` | src/crypto/sha256.cpp:74-78 | Compressing a full buffer keeps state and buffer standing for the message |
| `Sha256.WholeBlock` | src/crypto/sha256.cpp:79 | So does hashing a block straight from the data |
| `Sha256.Sha256.Drain` | src/crypto/sha256.cpp:74-78 | Topping up a partial block loses and repeats no byte |
| `Sha256.Sha256.Absorb` | src/crypto/sha256.cpp:74-80 | State and buffer stand for the message extended by all of data |
| `Sha256.Sha256.Update` | src/crypto/sha256.cpp:67-82 | Extends the message hashed by exactly data, however it is cut, or BadState with nothing changed after Final |
| `Sha256.Sha256.FeedPadding` | src/crypto/sha256.cpp:87-94 | The zero-feeding loop ends from every fill level, having fed 0x80 and the minimal zeros |
| `Sha256.Sha256.FeedLength` | src/crypto/sha256.cpp:96-103 | The big-endian bit length taken before padding completes the last block |
| `Sha256.Sha256.Output` | src/crypto/sha256.cpp:105-111 | The chaining words, most significant byte first |
| `Sha256.FoldOfPad` | src/crypto/sha256.cpp:87-103 | What was fed is the padded message of section 5.1.1, and the state its fold |
| `Sha256.Sha256.Final` | src/crypto/sha256.cpp:84-114 | The SHA-256 digest of everything fed since Reset; BadState the second time |
| `Sha256.HashOf` | src/crypto/sha256.cpp:116-120 | One-shot and streaming agree |
| `Sha256Spec.PaddingIsMinimal` | src/crypto/sha256.cpp:91-94 | In bits, the padding is the least that leaves room for the length field |
| `Sha256Spec.ZeroBytesFit` | src/crypto/sha256.cpp:92-94 | The buffer holds 56 bytes for the first time exactly when the standard's number of zeros has been fed |
| `Sha256Spec.BigEndianAt` | src/crypto/sha256.cpp:97-99 | Byte i of the length field is the value shifted down and masked |
| `Sha256Spec.CompressFeedsForward` | src/crypto/sha256.cpp:63-64 | The chaining state is added to what the rounds make of it |
| `Sha256Constants.RoundConstants` | src/crypto/sha256.cpp:8-19 | The 64 constants are the first 32 fractional bits of the cube roots of the first 64 primes, in order (section 4.2.2) |
| `Sha256Constants.CubeRootIsUnique` | src/crypto/sha256.cpp:8-19 | No other constant meets that |
| `Sha256Constants.PrimesAreTheFirst` | src/crypto/sha256.cpp:8-19 | The primes of that statement begin with 2 and leave none out |
| `Sha256Constants.InitialHash` | src/crypto/sha256.cpp:25-29 | The initial state is the first 32 fractional bits of the square roots of the first eight primes (section 5.3.3) |
| `Sha256Example.DigestOfAbc` | tests/crypto/test_crypto.cpp:32-34 | The digest of the text abc, worked out through all schedule words and rounds, is ba7816bf...f20015ad |
| `Sha256Example.PaddedAbc` | src/crypto/sha256.cpp:87-103 | Its one block: the text, 0x80, zeros and the bit length 24 |
| `Hmac.HmacSha256.Init` | src/crypto/hmac.cpp:11-29 | Keys shorter than, equal to and longer than a block start the inner hash of RFC 2104 |
| `Hmac.HmacSha256.XorInto` | src/crypto/hmac.cpp:22-26 | The inner and the outer key block of section 2 of RFC 2104 |
| `Hmac.HmacSha256.Update` | src/crypto/hmac.cpp:31-33 | Extends the authenticated text by exactly data, however it is cut |
| `Hmac.HmacSha256.Final` | src/crypto/hmac.cpp:35-43 | The tag of section 2 of RFC 2104 for the key and the whole text; BadState the second time |
| `Hmac.TagOf` | src/crypto/hmac.cpp:45-49 | One-shot and streaming agree |
| `Hmac.LongKeyIsItsDigest` | src/crypto/hmac.cpp:15-17 | A key longer than a block is interchangeable with its digest |
| `Hmac.ShortKeyIsPadded` | src/crypto/hmac.cpp:12-20 | A shorter key is interchangeable with itself filled up with zero bytes |
| `Hmac.TagIsHmac` | src/crypto/hmac.cpp:11-43 | H(K xor opad, H(K xor ipad, text)) byte by byte, for any K that is the key, or its digest if it is longer than 64 bytes, filled up with zeros |
| `Hmac.OrCollects` | src/crypto/crypto.cpp:10-12 | The accumulator stays zero exactly as long as the bytes agree |
| `Hmac.ConstTimeEqual` | src/crypto/crypto.cpp:7-14 | True exactly for equal sequences, of whatever lengths |
| `Hmac.Verify` | src/crypto/hmac.cpp:51-57 | Accepts a signature exactly when it is the tag of the message under the key |
| `Streams.SpanReader.Read` | src/io/io.cpp:10-17 | As many of the remaining bytes as fit, in order; 0 only for no room or no data |
| `Streams.Read` | src/io/io.cpp:44-47 | Through any reader: some non-empty piece of what is left, 0 at the end, or a failure behind it |
| `Streams.SpanWriter.Put` | src/io/io.cpp:19-26 | Appends all of src, or nothing when it does not fit |
| `Streams.Write` | src/io/io.cpp:19-36 | Succeeds exactly when every sink behind the writer has room, and then each receives exactly src; otherwise each receives it whole or not at all |
| `Streams.WriteBoth` | src/io/io.cpp:33-36 | A tee delivers the same bytes to both sinks, or fails with each holding them whole or not at all |
| `Streams.ChunkCopied` | src/io/io.cpp:43-53 | One turn of the copy loop extends what was copied by the piece read, whatever its size |
| `Streams.Copy` | src/io/io.cpp:38-55 | However the reader cuts its stream and for any scratch size: when every sink has room for all that is left, each receives exactly that, and the copy succeeds unless the reader fails behind it; otherwise it fails and each sink holds a beginning of it |
| `Streams.Feed` | include/etlx/crypto/stream.hpp:15 | Either hasher takes exactly the bytes written, or reports BadState after Final with nothing changed |
| `Streams.Finish` | include/etlx/crypto/stream.hpp:28 | The digest, or the tag under its key, of everything either hasher was fed |
| `Streams.HashStream` | include/etlx/crypto/stream.hpp:22-29 | For any reader, hasher and non-empty scratch: the digest or tag of the whole stream, however it is cut; each error case otherwise |
| `Events.EventLoop.Post` | src/events/loop.cpp:7-11 | Queued behind everything, or QueueFull with nothing changed |
| `Events.EventLoop.PostAfter` | src/events/loop.cpp:13-17 | Armed for now plus delay, behind all other timers, or QueueFull with nothing changed |
| `Events.EventLoop.Stop` | include/etlx/events/loop.hpp:46 | Clears the running flag and nothing else |
| `Events.EventLoop.EarliestTimer` | src/events/loop.cpp:19-27 | The first of the soonest timers, or -1 for an empty table |
| `Events.EventLoop.DrainBatch` | src/events/loop.cpp:34-40 | Runs as many queued callbacks as there were on entry, while they change the queue |
| `Events.EventLoop.RunNext` | src/events/loop.cpp:36-38 | Pops the front callback, then runs it |
| `Events.EventLoop.ScanDue` | src/events/loop.cpp:47-48 | The first due timer of the table, or its size |
| `Events.EventLoop.FireAt` | src/events/loop.cpp:49-54 | Erases one timer, keeps the others in order, then runs it |
| `Events.EventLoop.FireDue` | src/events/loop.cpp:43-57 | Reads the clock once; the restarting scan reaches the state in which no timer is due by that time, while the callbacks may move the clock |
| `Events.EventLoop.FireNext` | src/events/loop.cpp:46-56 | One turn of the restarting loop from any state, ending or not, with the time read before it, wherever the clock is by now |
| `Events.EventLoop.RunOnce` | src/events/loop.cpp:29-59 | The whole new state of loop and tables, and the exact number of callbacks run |
| `Events.EventLoop.Run` | src/events/loop.cpp:61-73 | The whole new state after running to idle or stop, sleeping included |
| `Events.EventLoop.Turn` | src/events/loop.cpp:64-70 | The whole new state after one iteration of Run; an endless run is a sequence of these |
| `EventEffects.CallbackDoes` | src/events/loop.cpp:7-17 | A callback posts and arms in its own order until the queue of 16 or the table of 8 is full, each timer due its delay after the moment of arming; nothing else of it is refused |
| `EventEffects.DrainDid` | src/events/loop.cpp:33-40 | Draining does what the callbacks drained say, one after the other |
| `EventEffects.FireDid` | src/events/loop.cpp:44-57 | Firing does what the callbacks of the timers fired say, in the order of firing |
| `EventEffects.OnceDid` | src/events/loop.cpp:29-59 | A RunOnce does what the callbacks say that it ran: the running flag, the time taken, and what was posted and armed, in order, all of it when there is room for all |
| `EventEffects.OnceTakesAll` | src/events/loop.cpp:29-59 | When nothing is refused, exactly what they ask for is queued, and armed for the time they ask for |
| `EventEffects.DrainRunsOnIff` | src/events/loop.cpp:33-40 | Draining leaves the loop running if and only if it was and no callback drained calls Stop |
| `EventEffects.OnceRunsOnIff` | src/events/loop.cpp:29-59 | So does RunOnce, with the timers it fired |
| `EventEffects.RestWaits` | src/events/loop.cpp:65-70 | The loop waits only with an empty queue and no timer due, and exactly until the soonest timer |
| `EventEffects.TimeNeverGoesBack` | src/events/loop.cpp:61-73 | At no moment of a run, ended or not, has the clock gone back |
| `Events.SimulatedClock.SleepUntil` | include/etlx/core/time.hpp:56 | Moves time forward to t, never back |
| `EventSpec.SettledIsUnique` | src/events/loop.cpp:44-57 | The firing loop has one outcome, however long one watches it |
| `EventSpec.LoopedIsUnique` | src/events/loop.cpp:61-73 | So has a run that ends |
| `EventSpec.OnceIsInstant` | include/etlx/core/time.hpp:52-57 | With callbacks that take no time the clock reads the same throughout a RunOnce |
| `EventOrder.AlwaysConserved` | src/events/loop.cpp:29-73 | At every moment of every run, ending or not and on any monotone clock: accepted callbacks are, in order, those run and those queued; armed timers as a multiset those fired and those pending; both capacities hold |
| `EventOrder.AfterNext` | src/events/loop.cpp:61-73 | The state after k+1 iterations is one iteration on from the state after k, so the statements about beginnings reach every moment of an endless run |
| `EventOrder.RunConserves` | src/events/loop.cpp:61-73 | The same at the end of a run that ends |
| `EventOrder.DrainRunsBatch` | src/events/loop.cpp:32-40 | Immediate callbacks run in queue order and what they post stays behind the rest |
| `EventOrder.OnceRunsBatch` | src/events/loop.cpp:29-59 | A RunOnce runs exactly what was queued when it was called, so a callback posted meanwhile runs no earlier than the next one, and leaves no timer due by the time it read |
| `EventOrder.FirstDueIsLeast` | src/events/loop.cpp:47-48 | While no timer is overdue, the scan picks what a stable priority queue would |
| `EventOrder.AlwaysInOrder` | src/events/loop.cpp:29-73 | At every moment of every run of Run, ending or not, with no negative delay and a clock moved only by sleeping: timers have fired by due time, ties in order of arming, whatever the callbacks arm |
| `EventOrder.RunFiresInOrder` | src/events/loop.cpp:61-73 | The same at the end of a run that ends |
| `EventOrder.PostingStartsOrdered` | include/etlx/events/loop.hpp:30-36 | A fresh loop with any posts without negative delay is a start to which the run theorems apply |
| `EventOrder.FireTakesDue` | src/events/loop.cpp:43-57 | With positive delays and any monotone clock the restart loop ends after as many turns as timers were due when the clock was read, and fires exactly those, in table order |
| `EventOrder.OnceFiresDue` | src/events/loop.cpp:29-59 | So every such RunOnce returns and fires exactly the timers due at its reading of the clock; on a clock that stands still those due at entry |
| `EventOrder.OnceFiresDueFirst` | src/events/loop.cpp:42-57 | With no negative delay and any monotone clock, a RunOnce that returns fires the timers due at its reading of the clock first, in table order, and behind them only timers that fell due the moment they were armed |
| `EventOrder.OnceFiresEntryFirst` | src/events/loop.cpp:29-59 | On a clock that stands still while callbacks run, those due at entry come first |
| `EventOrder.OnceInOrderIff` | src/events/loop.cpp:42-57 | With no negative delay, a RunOnce that returns fires in order of due time exactly when the timers due at its reading of the clock stand in that order; on a clock that stands still, exactly when those due at entry do |
| `EventOrder.NegativeDelayFiresEarlier` | src/events/loop.cpp:13-16 | With a negative delay the timers due at entry can be in order and the firing not |
| `EventOrder.AdvancedClockFiresLateFirst` | include/etlx/core/time.hpp:57 | A clock advanced past two timers: the later one fires first |
| `EventSettling.FireFirstCascades` | src/events/loop.cpp:44-57 | Each turn of the restart loop lowers the number of timers that can still be due by the time read, whatever is refused and however the clock moves |
| `EventSettling.DueEndSettles` | src/events/loop.cpp:43-57 | On any monotone clock the restart loop ends in every state whose due timers start no endless chain of armings at once |
| `EventSettling.RankedReturns` | src/events/loop.cpp:29-59 | A rank that falls along armings at once makes every RunOnce return, on any monotone clock; posts and later timers may go round in circles |
| `EventSettling.PositiveDelaysFall` | src/events/loop.cpp:13-16 | Positive delays are a case of that |
| `EventSettling.UnrefusedEnds` | src/events/loop.cpp:14-57 | For every program, on a clock that stands still: a loop that ends with no arming refused has met no endless chain |
| `EventSettling.SettlesIffOrRefused` | src/events/loop.cpp:14-57 | For every program, on a clock that stands still: the loop ends if and only if no due timer starts an endless chain, or it ends after a refusal by the full table |
| `EventSettling.ReturnsIffOrRefused` | src/events/loop.cpp:29-59 | And RunOnce returns if and only if that holds once the queue is drained |
| `EventSettling.RoomySettlesIff` | src/events/loop.cpp:14-57 | Where nothing is ever refused the loop ends if and only if no due timer starts an endless chain |
| `EventCircles.ForkNeverSettles` | src/events/loop.cpp:14-57 | An endless chain through a second arming, never refused, keeps the loop going for ever |
| `EventCircles.CircleNeverSettles` | src/events/loop.cpp:44-57 | On a clock that stands still, a due timer of a set of callbacks whose first arming is at once and in the set keeps the loop going for ever, whatever else is in the table and whatever is refused |
| `EventCircles.SettlesIff` | src/events/loop.cpp:44-57 | On a clock that stands still, for callbacks whose only arming at once is their first arming, the loop ends if and only if no due timer starts an endless chain, whatever is refused |
| `EventCircles.ReturnsIff` | src/events/loop.cpp:29-59 | And RunOnce returns if and only if that holds once the queue is drained |
| `EventCircles.AlwaysReturnsIff` | src/events/loop.cpp:29-59 | For the same callbacks and clock, RunOnce returns from every state if and only if no callback starts an endless chain |
| `EventCircles.ZeroDelayNeverSettles` | src/events/loop.cpp:44-57 | When every callback re-arms the same one at once and takes no time, the loop ends exactly if no timer is due to begin with |
| `EventCircles.MovingClockEndsCircle` | src/events/loop.cpp:43 | When it takes a moment first, the loop ends, since the time was read once |
| `EventCircles.FullTableBreaksCircle` | src/events/loop.cpp:14 | An endless chain through a second arming is broken when the full table refuses it |
| `EventOrder.ProgressAfterSleep` | src/events/loop.cpp:65-70 | After every sleep the next RunOnce fires a timer |
| `EventOrder.RunEndsIdleOrStopped` | src/events/loop.cpp:61-73 | Run returns only with nothing pending or after Stop |
| `EventTermination.CallCosts` | src/events/loop.cpp:7-17 | Running a callback adds no more work than it was counted for, whatever it posts and whichever posts are refused |
| `EventTermination.FirePays` | src/events/loop.cpp:43-57 | Without circular scheduling the restart loop ends within as many turns as there is work, with delays of any size and sign and any time read |
| `EventTermination.OnceReturns` | src/events/loop.cpp:29-59 | So every such RunOnce returns, and runs no more than it takes off the work |
| `EventTermination.AcyclicFalls` | src/events/loop.cpp:44-57 | Acyclic programs are a case of the ranked ones |
| `EventTermination.OnceProgresses` | src/events/loop.cpp:29-59 | A RunOnce strictly lowers the work, or has nothing to run and changes nothing |
| `EventTermination.AcyclicRunEnds` | src/events/loop.cpp:61-73 | Every run of such a program ends, idle or stopped, within a bound computed from the pending callbacks |
| `EventTermination.RearmingIsCyclic` | src/events/loop.cpp:44-57 | The program that re-arms itself is one of those this shuts out |
| `EventOrder.StopEndsRun` | include/etlx/events/loop.hpp:42-46 | When a RunOnce in which Stop was called returns, the run ends and nothing runs after it; Run sleeps first exactly when only timers are pending and none is already due |
| `HttpRequest.Appender.Put` | src/http/http.cpp:28-37 | The buffer starts with everything put so far, or it did not fit and that is remembered; the rest of the buffer is untouched |
| `HttpRequest.Appender.PutUInt` | src/http/http.cpp:38-46 | Appends the numeral, or remembers that it did not fit |
| `HttpRequest.Appender.Numeral` | src/http/http.cpp:38-46 | The decimal numeral, in at most 20 digits for every value below 2^64 |
| `HttpRequest.TwentyDigits` | src/http/http.cpp:39-43 | The scratch of 20 characters never overflows |
| `HttpRequest.BuildRequest` | src/http/http.cpp:76-106 | Succeeds exactly when the rendered request fits, and then the buffer starts with exactly it |
| `HttpRequest.FirstBlankLineEndsHead` | src/http/http.cpp:76-103 | With fields free of line ends, the first blank line separates head and body |
| `HttpReadBack.RequestReadsBack` | src/http/http.cpp:76-106 | With clean fields: method and path read back from the first line, then Host, Connection and every header in order, the length of a body last, and the body behind the blank line |
| `HttpReadBack.RequestLineReadsBack` | src/http/http.cpp:76-84 | Method and path read back from every request line |
| `HttpText.Trim` | src/http/http.cpp:60-65 | The two-index loop takes away all white space at the ends |
| `HttpText.TrimsBlanks` | src/http/http.cpp:60-65 | Optional white space around a trimmed text is exactly what is taken away |
| `HttpText.TrimmedIff` | src/http/http.cpp:60-65 | What is left of a text is determined: only spaces and tabs go in front, only those and carriage returns behind, and none is left at an end |
| `HttpText.IEqual` | src/http/http.cpp:49-58 | Equality up to ASCII case |
| `HttpVerdict.SameNameIff` | src/http/http.cpp:49-58 | Names are equal if and only if they have the same length and each pair of letters is equal or 32 apart with the smaller in A to Z |
| `HttpText.BlankAfterLines` | src/http/http.cpp:111 | Behind non-empty lines free of line ends the first blank line is the one after the last of them |
| `HttpResponse.ParseResponse` | src/http/http.cpp:108-170 | For every input, the response or error its lines determine |
| `HttpResponse.NextLine` | src/http/http.cpp:136-142 | No header line runs past the blank line or is empty: the clamp and the break are never taken |
| `HttpResponse.ParseStatusLine` | src/http/http.cpp:118-133 | Three-digit code and trimmed reason, or Malformed |
| `HttpResponse.ParseHeaders` | src/http/http.cpp:136-149 | All header lines in order, those without a colon skipped, one too many refused |
| `HttpResponse.ParseHeader` | src/http/http.cpp:144-146 | Name and value around the first colon, both trimmed, or nothing without a colon |
| `HttpResponse.FindHeader` | src/http/http.cpp:69-74 | The value of the first header of that name in any case, or the empty text |
| `HttpResponse.ParseLength` | src/http/http.cpp:155-167 | The value of an all-digit field modulo 2^64, accumulated with wrap-around at every step |
| `HttpVerdict.Verdict` | src/http/http.cpp:108-150 | For every text with a blank line: Malformed without three digits behind the first space of its first line, else TooManyHeaders for more than sixteen further lines with a colon, else a response |
| `HttpVerdict.Unheaded` | src/http/http.cpp:111-112 | A text without a blank line is Incomplete |
| `HttpVerdict.HeadedOrNot` | src/http/http.cpp:111-115 | Every text with a blank line has a head of lines up to the first one |
| `HttpVerdict.StatusLineMeans` | src/http/http.cpp:118-131 | The code is the number of the three digits behind the first space |
| `HttpVerdict.ReasonMeans` | src/http/http.cpp:127-133 | The reason is what follows the next space, trimmed, or empty |
| `HttpVerdict.HeaderMeans` | src/http/http.cpp:144-146 | The first colon of a line separates name and value |
| `HttpVerdict.CollectMeans` | src/http/http.cpp:137-149 | Lines without a colon are passed over, the others kept in order, a seventeenth refused |
| `HttpVerdict.Contents` | src/http/http.cpp:108-170 | All lines with a colon are headers, and the body is what follows the blank line, cut to the declared length |
| `HttpVerdict.GetHeaderFirst` | src/http/http.cpp:69-74 | The value of the first header of that name in any case |
| `HttpVerdict.GetHeaderNone` | src/http/http.cpp:69-74 | The empty text when there is none |
| `HttpVerdict.CaseOfNamesIsIgnored` | src/http/http.cpp:155-168 | Changing the case of field names changes neither body nor declared length |
| `HttpInversion.StatusLineReads` | src/http/http.cpp:118-133 | Parsing a printed status line gives back code and reason |
| `HttpInversion.FieldLineReads` | src/http/http.cpp:144-146 | Parsing a printed field line gives back name and value, whatever white space surrounds the value |
| `HttpInversion.FieldLinesRead` | src/http/http.cpp:137-149 | Any list of printed fields is collected in order as long as there is room; one more is TooManyHeaders |
| `HttpInversion.ParsesRendered` | src/http/http.cpp:108-170 | For every status, reason, list of fields and body: parsing the rendered response gives them back, with the body cut to the declared length; a seventeenth field is TooManyHeaders |
| `HttpInversion.CutIsTheSmaller` | src/http/http.cpp:155-168 | The body kept is the smaller of declared and available length if and only if the declared one is below 2^64 or wraps to no less than what is available |
| `HttpInversion.ParsedBodyIsTheSmaller` | src/http/http.cpp:108-170 | The same for every rendered response that declares its length in digits |
| `HttpInversion.UndeclaredKeepsAll` | src/http/http.cpp:155-168 | Without a declared length that is a number, everything behind the blank line is the body |
| `HttpInversion.DeclaredLengthWraps` | src/http/http.cpp:155-168 | The parser receives a response that declares 2^64 bytes and has one, and returns it without its body |
| `HttpInversion.AcceptedIsClean` | src/http/http.cpp:108-170 | Every accepted response has a status in 0..999, trimmed fields without colon in the name, at most 16 of them, and a body that is a prefix of the text behind the first blank line |
| `HttpClient.Do` | src/http/http.cpp:172-190 | The result depends only on the received stream cut to the buffer, not on how it was delivered; the request is sent whole or not at all |
| `HttpClient.Receive` | src/http/http.cpp:182-188 | The buffer holds the stream, or its front when the buffer is full first, or the error counts |
| `HttpClient.Socket.Recv` | include/etlx/net/net.hpp:27-34 | Any non-empty piece of what is still to come that fits; 0 or an error at the end |
| `KvImage.ImageLoads` | ports/host/host_kv.cpp:46-112 | Loading the image of a store gives back exactly the store |
| `KvImage.CutImageLoads` | ports/host/host_kv.cpp:52-84 | Loading any strict prefix reports IoError and leaves exactly the entries wholly within it |
| `KvFiles.LoadOkIff` | ports/host/host_kv.cpp:46-84 | Load succeeds if and only if the file begins with the letters EKV1, a count and that many entries of at most 32 and 128 bytes; otherwise it is IoError |
| `KvFiles.LoadsWhatStands` | ports/host/host_kv.cpp:60-83 | Behind a good header the store holds the entries that stand there, up to the count and up to the first place where none stands |
| `KvFiles.ForeignFileIsRefused` | ports/host/host_kv.cpp:53-64 | A file without the four letters and a count is refused and leaves the store empty |
| `KvFiles.ReadEntryIff` | ports/host/host_kv.cpp:66-79 | An entry is read if and only if one within the capacities stands there, least significant byte of its lengths first |
| `KvFiles.StandsLongest` | ports/host/host_kv.cpp:66-81 | No longer list of entries stands there |
| `KvFiles.PutMeans` | ports/host/host_kv.cpp:80 | An entry with a new key is dropped when sixteen are stored; nothing else is lost or changed |
| `KvFiles.Layout` | ports/host/host_kv.cpp:15-21 | The bytes of the file, one by one |
| `Kv.InFile.GetU16` | ports/host/host_kv.cpp:22-27 | Two bytes, least significant first, or a report that the file has ended |
| `Kv.InFile.GetU32` | ports/host/host_kv.cpp:28-37 | Four bytes, least significant first, or a report that the file has ended |
| `Kv.Disk.PutU16` | ports/host/host_kv.cpp:15-18 | Two bytes, least significant first |
| `Kv.Disk.PutU32` | ports/host/host_kv.cpp:19-21 | Four bytes, least significant first |
| `Kv.FileKeyValueStore.Get` | src/storage/kv.cpp:23-37 | Copies the value and returns its size; each error leaves the output alone |
| `Kv.FileKeyValueStore.Has` | src/storage/kv.cpp:39-43 | True exactly for the keys of the map |
| `Kv.FileKeyValueStore.Set` | src/storage/kv.cpp:45-62 | Updates the map at the key, or TooLarge or Full with nothing changed |
| `Kv.FileKeyValueStore.Remove` | src/storage/kv.cpp:64-69 | Removes the key, if it is there |
| `Kv.FileKeyValueStore.Load` | ports/host/host_kv.cpp:46-84 | For every file, whatever is in it: the entries before the first that cannot be read, as far as the store has room for them, and whether there was such an entry; entries beyond the capacity are dropped without a report |
| `Kv.FileKeyValueStore.LoadEntries` | ports/host/host_kv.cpp:66-81 | Sets each of count entries in turn, up to the first that cannot be read |
| `Kv.FileKeyValueStore.LoadEntry` | ports/host/host_kv.cpp:68-79 | One entry, or a report that it is cut or too large |
| `Kv.FileKeyValueStore.WriteEntries` | ports/host/host_kv.cpp:97-102 | Every entry of the map exactly once, in whatever order the map is walked |
| `Kv.FileKeyValueStore.WriteImage` | ports/host/host_kv.cpp:95-102 | Magic, number of entries and the entries, which are exactly those of the map |
| `Kv.FileKeyValueStore.Commit` | ports/host/host_kv.cpp:86-112 | Whatever fails and at whatever step a crash comes, the main file is the previous one or the complete temporary one; Ok exactly when nothing reported a failure |
| `Kv.CommitThenCrash` | ports/host/host_kv.cpp:86-112 | For every file a crash at any step of Commit can leave: a fresh Load finds the whole previous store or the whole committed one, unless a loss went unreported; then Commit succeeds and the next Load finds the entries kept whole, and an error |
| `Kv.CrashLeavesWholeStore` | ports/host/host_kv.cpp:104-112 | The old file and the renamed one, when no byte of it is lost, load as the previous and the committed store |
| `Kv.UnreportedLossTearsStore` | ports/host/host_kv.cpp:104-110 | The committed map comes back if and only if no byte was lost; otherwise the next Load finds the entries kept whole, and an error |

## Left out

- Events.EventLoop.RunOnce: requires that the firing loop ends, because it need not. `EventSettling.DueEndSettles` and
  `EventSettling.ReturnsIffOrRefused` say when it does, and a loop that never ends is a sequence of
  `Events.EventLoop.FireNext`, for which nothing is required.
- Events.EventLoop.FireDue: likewise.
- Events.EventLoop.Turn: likewise.
- Events.EventLoop.Run: requires that the run ends, because a periodic timer makes it endless.
  `EventTermination.AcyclicRunEnds` says when it ends; an endless run is a sequence of `Events.EventLoop.Turn`, and what
  is proved about order and conservation covers it.
- EventSettling.SettlesIffOrRefused: for a clock that stands still while callbacks run; on a moving one an endless chain
  may end or not, depending on how long each callback takes.
- Events.SimulatedClock.SleepUntil: wakes exactly at the time asked for; a host clock may wake later. Time passes only
  while a callback runs or Run sleeps.
- Events.EventLoop.PostAfter: does not model overflow of the 64-bit time point.
- JsonParser.ParseInto: positions are unbounded; the code stores them in 32 bits, so the model is the code for documents
  below 2^31 bytes.
- JsonView.Json.AsInt: requires the digits of a primitive to denote less than 2^63, since the code's signed accumulator
  has no defined value beyond; this shuts out the text of -2^63.
- Sha256.Sha256.Update: the bit length is counted modulo 2^64 as in the code; FIPS 180-4 defines nothing for longer
  messages.
- Streams.Write: the two writers of a tee share no sink; a tee that reaches one sink twice, which the code accepts and
  which delivers twice, is not modelled.
- Streams.WriteBoth: likewise.
- Streams.Copy: likewise.
- HttpRequest.BuildRequest: requires a body length below 2^64, the width of the code's sizes.
- Kv.FileKeyValueStore.Commit: durability across power loss after a successful flush is one number, the bytes kept; the
  260-character path buffer is not modelled.
- Callbacks are fixed lists of posts, armings, stops and time taken; they ignore whether a post was accepted and do not
  call RunOnce or Run.
- The Reader, Writer and Hasher interfaces are datatypes of their implementations instead of virtual dispatch; the
  reader that cuts its stream as it likes stands for all others.
- Bytes of texts are chars; error codes are kept, error messages are not.
- AsBool, is_null, Client::Get, SetString and GetStringInto are one-liners over what is modelled.
- Command line, logging, update state machine, TLS, TCP, secure element and demo code are not part of this model.

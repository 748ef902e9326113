# Verification of pro2call's stateful and arithmetic cores

A Dafny 4.11 model of the components of pro2call whose correctness rests on invariants, whole
runs or exact arithmetic, with proofs of what they promise. `dafny verify dfyconfig.toml` checks
the project. Components whose code changes state are classes and loops proved against a
specification; the theorems are about the specification and hold for every input, run or
reachable state.

| files | component | main results |
|---|---|---|
| `Timers.dfy` | timer heap with generation handles, `net/src/loop.c` | `UsedHandleStaysDead`, `AfterMeans`, `NeverEarly`, `PassInOrder`, `Loop.After`, `Loop.Cancel`, `Loop.TimerPass` |
| `Json*.dfy` | JSON parser, node pool, writer and escapes | `JsonShape.ParseShape`, `WriterRoundTrip`, `WriterAccepts`, `Doc.Parse`, `Preorder`, `SubtreeReparses`, `RunsOutExactly` |
| `SmsPack.dfy`, `SmsText.dfy`, `SmsUserData.dfy`, `SmsSplit.dfy` | septet packing, alphabets, TP-UD, concatenation | `PackedValue`, `DefaultAlphabet`, `UdRoundTrip`, `SplitDelivers`, `SplitWhen` |
| `SmsTime.dfy`, `SmsTpdu.dfy`, `SmsShape.dfy` | timestamps and transfer PDUs | `UnixInverts`, `DaysCount`, `MinusOneExactly`, `DecodeShape`, `SettledWhen`, `TpduRoundTrip`, `TextTravels` |
| `IpAddr.dfy`, `IpPool.dfy` | address pool | `ReuseSweepsAll`, `FreeIsHandedOut`, `Pool.Alloc`, `SlotAddrInverse` |
| `Tlv.dfy`, `Diameter.dfy` | TLV codec and its Diameter binding | `TreeRoundTrip`, `NextShape`, `MessageRoundTrip`, `WriteMessage` |
| `Txq.dfy` | transmit queue and pre-poll hooks | `RunKeeps`, `InOrder`, `Queue.Flush` |
| `Fsm.dfy` | FSM engine, INVITE client and server tables | `RunSafe`, `RunMonotone`, `ClientMoves`, `Machine.Act` |
| `Rtp.dfy` | RTP receiver statistics | `RunTracks`, `RunFraction`, `RunWraps`, `RunJitter` |
| `SipFraming.dfy`, `SipShape.dfy`, `SipShort.dfy`, `SipComplete.dfy` | SIP message framing | `SipShape.ParseShape`, `ParseExtend`, `ParseCut`, `ChunksDeliver`, `ShortExactly` |
| `Arith.dfy`, `Basics.dfy`, `BigEndian.dfy` | shared arithmetic and octet runs | |

## Inputs and conventions

The clock, the kernel's answers to `sendmmsg`, whether `epoll` accepts a new interest, callback
bodies, guards and hooks are parameters. Machine integers are unbounded numbers with their wrap
written out where the code relies on it. A 64-bit bitmap word is the sequence of its bits. A
header field in host byte order is read with the byte order as a parameter of the profile.
Slices into a buffer are index ranges. Allocation succeeds. The left shift of the RTP loss, which C
leaves undefined from 2^23 packets on, wraps. A `sendmmsg` answer of 0 is a push-back or a refusal,
by what `errno` holds; `EINTR` repeats the call and changes nothing.

## Where the code and its documentation part

The model follows the code.

- Timers: firing order needs the stored 64-bit deadline not to wrap (`PassOrderExactly`, `OrderNeedsClockOk`, `OutOfTurn`).
- JSON: the writer lets 32 containers be open, the parser refuses a value inside the 32nd; an accepted text parses exactly when its height is at most 32 (`WriterRoundTrip`, `WrittenButRefused`).
- JSON: `json_nodes_for` suffices for every text that parses, not for every text (`NodesForExactly`, `NodesForCanRunOut`); (len + 33) / 2 nodes do (`RoomyPool`).
- Address pool: a released address is not always the last to go out again (`RestsExactly`, `ReleasedGoesOutAtOnce`); what holds is about two hand-outs (`ReuseSweepsAll`).
- Address pool: a range whose ends are 2^64 or more apart is refused, not clamped (`CreateRange`, `WideRangeRefused`).
- SIP: a folded header line can make a prefix malformed instead of short (`ParseCut`, `FoldedCutFails`), and a short buffer need not be the start of a message (`ShortExactly`, `SpaceIsShort`, `EndlessMessage`).
- SMS: -1 from `sms_ts_unix` is also an instant (`MinusOneExactly`, `MinusOneIsAmbiguous`); decoding and encoding a timestamp is not the identity on minus zero and on out-of-range fields (`TsWritesBack`, `MinusZeroChanges`).
- RTP: the fraction octet wraps once an interval outgrows the 32-bit counters (`RunWraps`, `FractionWraps`), and a loss of 2^24 packets or more does not show (`RunFraction`, `LossHidden`).

## Model

| member | source | states |
|---|---|---|
| `TimerSpec.HandleParts` | net/src/loop.c:36-40 | A handle splits back into the slot and generation it was made from, and is never 0. |
| `TimerSpec.CallIsStep` | net/src/loop.c:281-313 | Every call to after or cancel is a step of the abstract table. |
| `TimerSpec.AfterMeans` | net/src/loop.c:281-302 | Arming gives a nonzero handle that was dead and is live, for a timer with this callback, due ms after the clock, and touches no other timer; it is refused only without a callback or with every one of at least 2^31 slots armed. |
| `TimerSpec.RefusedMeansFull` | net/src/loop.c:260-302 | In every run, a call to after with a callback is refused only while 2^31 timers are armed. |
| `TimerSpec.NeverEarly` | net/src/loop.c:340-347 | A timer armed in a run and fired in a later pass calls its own callback, and not before the deadline asked for. |
| `TimerSpec.PassIsRun` | net/src/loop.c:340-347 | Every timer pass, firing by firing and call by call, carries a run of the table on; so what holds of all runs holds of every sequence of calls and passes. |
| `TimerSpec.UsedHandleStaysDead` | net/src/loop.c:242-257 | In every run, a handle that was live and is dead later does not come alive again until its slot has been released 2^32 - 1 times since the handle was issued. |
| `TimerSpec.HandleRevives` | net/src/loop.c:242-257 | That number is exact: after 2^32 - 1 releases the old handle names whatever timer is armed in the slot. |
| `TimerSpec.PassFiresOnce` | net/src/loop.c:340-347 | No timer fires twice in one pass, whatever the callbacks arm or cancel. |
| `TimerSpec.PassInOrder` | net/src/loop.c:340-347 | While no callback stores a deadline before the clock of the pass, the timers of a pass fire in non-decreasing due order. |
| `TimerSpec.MonotonePassInOrder` | net/src/loop.c:340-347 | So they do under a clock that does not run backwards, with deadlines that fit 64 bits. |
| `TimerSpec.FiredHandleDies` | net/src/loop.c:340-347 | The handle of a timer that fired in a pass is dead at its end, unless its slot was released 2^32 - 1 times on the way. |
| `TimerSpec.PassClearsDue` | net/src/loop.c:340-347 | A timer due at the start of a completed pass is gone at its end: its slot has been released, by firing or by a callback that cancelled it. |
| `TimerSpec.PassOrderExactly` | net/src/loop.c:340-347 | The exact condition for every pass: it fires in order if and only if no callback but the last leaves a timer armed that is due before the one it was called for. |
| `TimerSpec.OrderNeedsClockOk` | net/src/loop.c:281-302 | For a callback that makes one call: it keeps every pass in order if and only if the 64-bit deadline it stores is not before the clock of the pass. |
| `TimerSpec.OutOfTurn` | net/src/loop.c:281-302 | Counterexample, one timer on a new loop of 16 slots: its callback stores a deadline that lies before the clock, and that one fires after a later one. |
| `TimerHeap.Loop.constructor` | net/src/loop.c:94-105 | A new loop is the empty table. |
| `TimerHeap.Loop.Up` | net/src/loop.c:212-222 | Sifting up restores the heap order, keeps every back-pointer and moves no timer to another slot. |
| `TimerHeap.Loop.Down` | net/src/loop.c:224-239 | The same for sifting down from a hole. |
| `TimerHeap.Loop.Remove` | net/src/loop.c:242-257 | Pulls one entry out: the table afterwards is the old one with exactly that slot released, and the slot heads the free list. |
| `TimerHeap.Loop.SlotAlloc` | net/src/loop.c:260-279 | Hands out a slot that is on the free list, growing the table to 16 or to twice its size when the list is empty; refuses exactly when all of at least 2^31 slots are armed; no armed slot changes. |
| `TimerHeap.Loop.After` | net/src/loop.c:281-302 | Refines AfterRel: returns 0 exactly when there is no callback or the table is exhausted, which takes 2^31 armed timers, else the handle of a newly armed timer, live; heap, links and free list stay valid. |
| `TimerHeap.Loop.Cancel` | net/src/loop.c:304-313 | Refines CancelRel: succeeds exactly when the handle names an armed timer, and removes only that one. |
| `TimerHeap.Loop.TimerPass` | net/src/loop.c:340-347 | Refines the abstract pass for every script of callback bodies: each firing is the earliest due timer, and on exit every remaining timer is due after now. |
| `JsonText.EscapeRoundTrip` | json/src/json_str.c:52-104 | Reading an escaped body gives back the bytes, for every byte string. |
| `Basics.Utf8Bits` | json/src/json_str.c:16-39 | The octets of a code point: the lead octet tells the length, the others carry six bits each, the bits spell the code point, in no more octets than it needs. |
| `JsonText.PlainReads` | json/src/json_str.c:52-60 | An octet other than the backslash stands for itself. |
| `JsonText.ShortReads` | json/src/json_str.c:61-77 | The eight two-octet escapes of RFC 8259, by their values, and no others. |
| `JsonText.UnicodeReads` | json/src/json_str.c:79-104 | A u escape, digits in either case, reads as the character its digits spell; a surrogate that stands alone as U+FFFD. |
| `JsonText.PairReads` | json/src/json_str.c:79-104 | A high surrogate and the escape behind it: a low one makes them one character, any other leaves the first standing alone. |
| `JsonText.AstralReads` | json/src/json_str.c:79-104 | Every scalar past the basic plane, written as its two surrogates, reads as its UTF-8. |
| `JsonText.BadUnicode` | json/src/json_str.c:41-81 | Four octets that are not all hexadecimal digits, or fewer than four, make the body malformed. |
| `JsonReads.EscapeShortest` | json/src/json_write.c:99-138 | No body the scanner accepts spells an octet in fewer octets than the writer does. |
| `JsonValue.LineShape` | json/src/json_write.c:46-61 | A compact writer breaks no line; another starts one and indents it by its spaces per level. |
| `JsonReads.BodyExpand` | json/src/json_str.c:129-154 | Expands a body exactly as the reference reading of its escapes says, or overflows when the result does not fit. |
| `JsonReads.BodyEq` | json/src/json_str.c:106-127 | True exactly when the body expands to the given bytes, without expanding it. |
| `JsonReads.AcceptedBodyExpands` | json/src/json.c:160-201 | Every string body the scanner accepts expands; the later read cannot fail. |
| `JsonReads.I64` | json/src/json.c:104-123 | Reads up to nineteen digits exactly when their value fits an int64, and returns that value; the accumulation never wraps. |
| `JsonReads.IntegerReads` | json/src/json.c:104-123 | A number the parser scans as an integer reads as an int64 if and only if its value is one: it has no leading zeros, so the digit limit never decides. |
| `JsonValue.IntRoundTrip` | json/src/json_write.c:147-159 | Every int64, its minimum included, is printed as a decimal that reads back as itself. |
| `JsonPool.Doc.ReadValue` | json/src/json.c:316-352 | The recursive-descent parser with its node pool agrees with the functional grammar: same result, same end, same error code, nodes stored from the next free index. |
| `JsonPool.Doc.ReadContainer` | json/src/json.c:257-314 | Container loop: links each kid behind the last, counts them, and stores the raw slice from bracket to bracket. |
| `JsonPool.Doc.ScanString` | json/src/json.c:160-201 | Scans a string as the grammar does, with the escape flag set exactly when a backslash occurs. |
| `JsonPool.Doc.ScanNumber` | json/src/json.c:205-240 | Scans a number as the grammar does and tells integers from the rest. |
| `JsonPool.Doc.Parse` | json/src/json.c:371-404 | json_parse equals the grammar with its depth and node limits; on success the pool stores the document tree from node 0. |
| `JsonShape.ParseShape` | json/src/json.c:371-404 | json_parse accepts exactly the texts laid out by the grammar of RFC 8259, told without a parser: one value, white space around every token, at most 32 deep, at most cap values, an optional byte order mark; and it returns the one tree with every slice, key, flag and kind where the layout has it. |
| `JsonShape.NumberFound` | json/src/json.c:205-240 | A number the scanner accepts has the parts of section 6 of RFC 8259, is an integer exactly without fraction and exponent, and ends where it could not go on. |
| `JsonShape.NumberRead` | json/src/json.c:205-240 | And every text with those parts is scanned to its end. |
| `JsonPool.Preorder` | json/src/json.c:142-156 | In a stored document the pool is the tree in preorder: first = self + 1, next = self + subtree size, count = number of kids. |
| `JsonPool.At` | json/src/json.c:433-441 | json_at walks first and next to the node of the k-th kid, or nothing when there are fewer. |
| `JsonLocality.ValueNodes` | json/src/json.c:316-352 | A value of n octets uses at most (n + 1) / 2 nodes. |
| `JsonSubtree.RawSliceReparses` | json/src/json.c:257-314 | The raw slice of every container in a parsed document, parsed alone, gives that container with its offsets shifted and its member name gone. |
| `JsonSubtree.SubtreeReparses` | json/src/json.c:142-156 | On the pool: for every container entry i of a parsed document some n entries from i on are its subtree, its raw slice parses in any pool of n nodes or more, and the pool that leaves is those n entries moved to the front. |
| `JsonSubtree.Locate` | json/src/json.c:142-156 | Every pool entry of a document is the place of a value in its tree. |
| `JsonNodes.RunsOutExactly` | json/src/json.c:142-156 | On every text, malformed or not, a pool of c nodes runs out if and only if the parse with an unlimited pool allocates more than c; otherwise the pool makes no difference. |
| `JsonNodes.NeedBound` | json/src/json.c:257-352 | Wherever a parse stops it has allocated at most (len + open + 1) / 2 nodes, for the containers open there, of which there are at most 32; a well-formed text takes at most (len + 1) / 2. |
| `JsonNodes.NodesForExactly` | json/src/json.c:365-369 | A pool of json_nodes_for(len) nodes runs out if and only if the text needs more than len / 2 + 2; then it is malformed, with at least four containers open where the parse stops. |
| `JsonNodes.NodesForSuffices` | json/src/json.c:365-369 | A pool of json_nodes_for(len) nodes never runs out on a text that parses. |
| `JsonNodes.RoomyPool` | json/inc/json.h:142-145 | A pool of (len + 33) / 2 nodes runs out on no text at all. |
| `JsonNodes.FewBrackets` | json/inc/json.h:142-145 | A text with fewer than four opening brackets never exhausts a pool of json_nodes_for nodes. |
| `JsonNodes.FourBrackets` | json/inc/json.h:142-145 | Four is the least: "[[[[0" exhausts its four nodes. |
| `JsonNodes.NodesForCanRunOut` | json/inc/json.h:142-145 | The header promises such a pool never runs out; counterexample: eight opening brackets, which are malformed, exhaust it first. |
| `JsonWriter.Writer.Put` | json/src/json_write.c:23-33 | Appends all of a piece or fails with overflow and appends nothing; a failed writer stays failed. |
| `JsonWriter.Writer.PutEsc` | json/src/json_write.c:99-138 | Writes the escaped form of any byte string, in the runs the code flushes. |
| `JsonWriter.Writer.PutI64` | json/src/json_write.c:147-159 | Writes the decimal of an int64. |
| `JsonWriter.Writer.PreVal` | json/src/json_write.c:78-97 | Writes the separator and line break a value needs where it stands, or fails on a misplaced value. |
| `JsonWriter.Writer.PutKey` | json/src/json_write.c:286-296 | Writes a member name where one is due, and fails elsewhere. |
| `JsonWriter.Writer.OpenCont` | json/src/json_write.c:239-247 | Opens a container unless 32 are open. |
| `JsonWriter.Writer.CloseCont` | json/src/json_write.c:249-264 | Closes the innermost container of the right kind, with no name pending. |
| `JsonWriter.Writer.Calls` | json/src/json_write.c:239-347 | Any sequence of calls leaves buffer, stack and flags as the stack-machine reference says. |
| `JsonWriter.Writer.Finish` | json/src/json_write.c:389-397 | json_end accepts exactly a live writer with nothing open and one value written, and returns its length. |
| `JsonWriteSpec.StepAgrees` | json/src/json_write.c:63-97 | The punctuation machine agrees, call by call, with a reference that keeps the tree under construction. |
| `JsonDocument.AcceptedRun` | json/src/json_write.c:389-397 | Every run json_end accepts is the call sequence of exactly one well-formed value, and the buffer holds the text of that value. |
| `JsonDocument.WriterAccepts` | json/src/json_write.c:239-397 | The converse: json_end accepts the calls of a well-formed value if and only if it nests at most 32 containers and its text fits the buffer, and then the buffer holds that text. |
| `JsonDocument.WrittenButRefused` | json/src/json_write.c:239-247 | 32 arrays around null: the writer accepts them and the parser refuses the text for depth. |
| `JsonRoundTrip.DocumentRoundTrip` | json/src/json.c:371-404 | The text of a value at any indent parses back to that value if its height is at most 32, and is refused for depth otherwise. |
| `JsonDocument.WriterRoundTrip` | json/src/json_write.c:389-397 | An accepted run with at most 31 containers open yields text that parses to exactly the value described; in general it parses if and only if the value is at most 32 levels high. |
| `SmsPack.Pack` | sms/src/sms_ud.c:340-368 | In place: overflow leaves the buffer alone; otherwise succeeds exactly when all are septets, and the buffer is the packed run. |
| `SmsPack.PackedValue` | sms/src/sms_ud.c:340-368 | For n > 0 the run, read as a little-endian number, is its old low 7 * off bits plus the base-128 value of the septets shifted by them; nothing is set above. |
| `SmsPack.PackedBeyond` | sms/src/sms_ud.c:340-368 | Octets past the packed run are untouched. |
| `SmsPack.HeaderUntouched` | sms/src/sms_ud.c:340-368 | A header that ends at or before the septet offset is untouched. |
| `SmsPack.Unpack` | sms/src/sms_ud.c:370-391 | Returns the septets at the offset, or overflow or length errors exactly when the code does. |
| `SmsPack.SeptetIsDigit` | sms/src/sms_ud.c:370-391 | The septet read at position k is the k-th base-128 digit of the run. |
| `SmsPack.UnpackPacked` | sms/src/sms_ud.c:340-391 | Unpacking with the same offset and count undoes packing. |
| `SmsPack.SeptetOffTight` | sms/src/sms_ud.c:333-338 | The text starts at the first septet boundary not inside the header. |
| `SmsText.NextIsCanonical` | sms/src/sms_intl.h:74-108 | The UTF-8 reader accepts only what the writer produces: no overlong form, surrogate or value past U+10FFFF. |
| `SmsText.NextReads` | sms/src/sms_intl.h:74-108 | And all of it: every scalar written reads back, whatever surrounds it. |
| `SmsText.Gsm7Reads` | sms/src/sms_ud.c:244-259 | A character of the default alphabet, escape pairs included, reads back as itself whatever follows. |
| `SmsText.DefaultAlphabet` | sms/src/sms_ud.c:84-259 | Every code point, by the table of TS 23.038 told as the characters in place and the ones moved: one septet, an escape and a septet, or not in the alphabet. |
| `SmsText.SeptetShows` | sms/src/sms_ud.c:237-329 | What every septet shows, and every septet behind an escape; a position without a character there is a space. |
| `SmsText.Utf16Bits` | sms/src/sms_ud.c:601-622 | The octets of a UTF-16 character: the high octet first, ten bits in each surrogate. |
| `SmsText.UnitShows` | sms/src/sms_ud.c:516-542 | A unit that is no surrogate shows as its character. |
| `SmsText.PairShows` | sms/src/sms_ud.c:516-542 | A high surrogate with a low one behind it shows as the character they stand for. |
| `SmsText.LoneShows` | sms/src/sms_ud.c:516-542 | Any other surrogate shows as U+FFFD. |
| `SmsUserData.DcsGroups` | sms/src/sms_ud.c:23-82 | The general data coding groups, from their bits: compressed text and alphabet 3 are reserved, the rest is the alphabet of the two bits. |
| `SmsUserData.DcsHighGroups` | sms/src/sms_ud.c:23-82 | The groups above: reserved, message waiting in the default alphabet or UCS2, data coding with a class. |
| `SmsText.Utf16Reads` | sms/src/sms_ud.c:516-542 | A scalar in UTF-16, surrogate pairs included, reads back as itself whatever follows. |
| `SmsUserData.SeptetsOf` | sms/src/sms_ud.c:268-287 | Converts UTF-8 to septets exactly when every character is in the alphabet and the result fits. |
| `SmsUserData.CountSeptets` | sms/src/sms_ud.c:289-301 | Counts the septets without writing them, with the same errors. |
| `SmsUserData.ShowSeptets` | sms/src/sms_ud.c:303-329 | Shows septets as UTF-8; unknown and trailing escapes as a space; overflow exactly when text and terminator do not fit. |
| `SmsUserData.UdFrom` | sms/src/sms_ud.c:558-638 | Builds a TP-UD exactly when the text is in the alphabet and fits 140 octets and the buffer, and then it is header, fill and code. |
| `SmsUserData.UdTo` | sms/src/sms_ud.c:488-556 | Returns the text a TP-UD shows under its coding scheme, or the length, alphabet and overflow errors of the code. |
| `SmsUserData.UdReadable` | sms/src/sms_ud.c:488-556 | A TP-UD is read exactly when its header is all there and its wire units begin behind the header and end in its octets, with at most 162 septets of text; without units the header is enough. |
| `SmsUserData.CharsText` | sms/src/sms_ud.c:646-674 | Reading a text as characters of an alphabet loses nothing. |
| `SmsUserData.UdRoundTrip` | sms/src/sms_ud.c:488-638 | For every alphabet, header and text that fit, the TP-UD starts with the header and decodes to the text. |
| `SmsUserData.ConcatGet` | sms/src/sms_ud.c:436-459 | Finds the first concatenation element among the header elements. |
| `SmsUserData.ConcatRoundTrip` | sms/src/sms_ud.c:461-484 | A written concatenation header reads back as (ref, total, seq), whatever run it starts; an 8-bit reference is the low octet. |
| `SmsUserData.ConcatAmong` | sms/src/sms_ud.c:416-459 | Among any information elements, and before one the header cuts off, the first concatenation with an 8-bit or 16-bit reference is the one found. |
| `SmsSplit.SplitAt` | sms/src/sms_ud.c:646-674 | Ends a part after the last character that fits the budget, with the errors of the code; 8-bit data by a minimum. |
| `SmsSplit.WireUnits` | sms/src/sms_ud.c:681-693 | Measures a text in wire units. |
| `SmsSplit.CountParts` | sms/src/sms_ud.c:735-746 | The counting walk finds the greedy division, or refuses more than max or 255 parts. |
| `SmsSplit.BuildParts` | sms/src/sms_ud.c:748-770 | The building walk reproduces the boundaries of the counting walk and builds every part. |
| `SmsSplit.Split` | sms/src/sms_ud.c:695-771 | sms_concat_split equals one message when the text fits, the labelled greedy parts otherwise, and its errors exactly. |
| `SmsSplit.GreedyLeast` | sms/src/sms_ud.c:728-733 | No division of the characters into parts of the same budget has fewer parts. |
| `SmsSplit.SplitWhen` | sms/src/sms_ud.c:695-771 | A text too long for one message is split exactly when some division into at most max parts, and at most 255, fits the budget. |
| `SmsSplit.PartReads` | sms/src/sms_ud.c:748-770 | Part i of a long message is at most 140 octets, carries (ref, total, i), and decodes alone to its whole characters. |
| `SmsSplit.SplitDelivers` | sms/src/sms_ud.c:695-771 | For every accepted split: parts within 140 octets, numbered 1..n, headers that read back, decoded parts that concatenate to the text, and no division into fewer parts. |
| `SmsTime.DaysCount` | sms/src/sms.c:234-242 | days_from_civil counts days: 1970-01-01 is 0 and every date is one after the calendar day before it. |
| `SmsTime.DaysOfCivil` | sms/src/sms.c:244-257 | For every day number, civil_from_days gives a real date and days_from_civil gives the number back. |
| `SmsTime.CivilOfDays` | sms/src/sms.c:234-257 | For every real date the two conversions give the date back. |
| `SmsTime.UnixInverts` | sms/src/sms.c:259-291 | sms_ts_unix inverts sms_ts_from_unix if and only if the local year fits the 16-bit field, for every second and offset. |
| `SmsTime.ClampNearest` | sms/src/sms.c:269-291 | An offset within twelve hours is kept, another becomes the nearest such offset. |
| `SmsTime.YearsFit64` | sms/src/sms.c:269-291 | In all those years the sum of instant and offset is far from the ends of int64. |
| `SmsTime.MinusOneExactly` | sms/inc/sms.h:338-339 | The header says -1 only marks fields out of range. For every value the fields can hold: -1 means out of range, or the timestamp is the second before the epoch in its own zone, with the local date named. |
| `SmsTime.MinusOneIsAmbiguous` | sms/inc/sms.h:338-339 | Counterexample at every offset: the second before the epoch. |
| `SmsTime.TsRoundTrip` | sms/src/sms.c:175-229 | A timestamp of 1970 to 2069 survives its seven octets, signed quarter-hour zone included. |
| `SmsTime.TsWritesBack` | sms/src/sms.c:175-229 | Seven octets that decode are written back unchanged if and only if the fields are in range and the zone is not minus zero. |
| `SmsTime.MinusZeroChanges` | sms/src/sms.c:175-229 | 2000-01-01 00:00:00 at minus zero decodes and is not written back. |
| `SmsTime.InstantRoundTrip` | sms/src/sms.c:175-291 | For local years 1970 to 2069 an instant survives the wire and the conversion back. |
| `TpduShape.AddrShape` | sms/src/sms.c:33-81 | sms_addr_decode takes an address exactly when one is laid out there: the count of semi-octets up to 20, type and plan, the digits in their nibbles by the fifteen symbols, or as many septets of text as the octets hold. |
| `TpduShape.AddrReads` | sms/src/sms.c:33-122 | Every address that can be written reads back whatever follows: letters in lower case, and a text of seven septets with an at sign behind it. |
| `TpduShape.AddrWrites` | sms/src/sms.c:83-122 | An address can be written exactly with up to 20 known symbols, or as a text of the default alphabet of up to eleven septets. |
| `TpduShape.TsShape` | sms/src/sms.c:175-205 | sms_ts_decode takes seven octets exactly when each is two decimal digits, low nibble first, and the zone is within twelve hours. |
| `TpduShape.UdCounts` | sms/src/sms.c:375-390 | TP-UDL counts septets under the 7-bit alphabet, the last octet filled up, and octets otherwise; at most 140. |
| `TpduShape.UdShape` | sms/src/sms.c:375-390 | read_ud takes TP-UD exactly when the octets TP-UDL asks for are there. |
| `TpduShape.TailTakes` | sms/src/sms.c:395-414 | The fields TP-PI announces are read, in their order. |
| `TpduShape.TailFound` | sms/src/sms.c:395-414 | And nothing else is: what is read is laid out there. |
| `TpduShape.PiReads` | sms/src/sms_write.c:56-63 | The TP-PI written announces exactly the fields present and keeps the extension bit and nothing else. |
| `TpduShape.DecodeShape` | sms/src/sms.c:416-573 | sms_tpdu_decode accepts exactly the layouts of the six types: what it returns is laid out in the buffer, flag bit by flag bit and field by field, in front of what it leaves, and everything laid out so is returned. |
| `TpduShape.TpduKeeps` | sms/src/sms.c:416-573 | The errors: type 3 is refused as such, and every other refusal is short or a length, short on fewer than 174 octets only; a verdict other than short stands whatever follows. |
| `TpduShape.SettledWhen` | sms/src/sms.c:416-573 | What follows a buffer makes no difference exactly when the verdict is neither short nor a status report that stopped before TP-PI. |
| `TpduShape.EncodeWhen` | sms/src/sms_write.c:96-229 | A TPDU can be written exactly when its address, timestamps and lengths can. |
| `TpduShape.TpduRoundTrip` | sms/src/sms.c:416-573 | For every TPDU of the six types: it can be written and decodes, in its direction, to itself with nothing left over, if and only if it is well formed; then it takes at most 174 octets. |
| `TpduShape.TpduCut` | sms/src/sms.c:416-573 | Every proper prefix of a well-formed TPDU is short; the one exception is a status report cut right after TP-ST, which reads as the report without its tail. |
| `TpduShape.BuiltIsGood` | sms/src/sms_ud.c:558-638 | The user data sms_ud_from_utf8 builds agrees with its length field and shows the text. |
| `TpduShape.TextTravels` | sms/src/sms_ud.c:488-638 | A text put into user data, into a deliver or submit, onto the wire and off it again is the same text, whatever the other fields are. |
| `Tpdu.DigitOctets` | sms/src/sms.c:105-121 | The digit loop writes the semi-octets, or fails on a character that is no address symbol. |
| `Tpdu.Writer.PutUd` | sms/src/sms_write.c:40-51 | Writes TP-UDL and TP-UD or nothing. |
| `Tpdu.Writer.PutTail` | sms/src/sms_write.c:65-78 | Writes the announced optional fields in order. |
| `Tpdu.Encode` | sms/src/sms_write.c:96-229 | sms_tpdu_encode succeeds exactly when every field can be written and all of it fits, and then the buffer starts with the TPDU. |
| `IpAddr.AddrOffset` | task/src/ippool.c:41-53 | The carry loop adds the index to the address as a number, modulo the address width. |
| `IpAddr.AddrDelta` | task/src/ippool.c:57-79 | The borrow loop gives a - b exactly when it is not negative and fits 64 bits. |
| `IpAddr.MaskPrefix` | task/src/ippool.c:145-150 | The mask loop rounds the address down to a multiple of the block size. |
| `PoolSpec.ReuseSweepsAll` | task/inc/ippool.h:25-29 | Between two hand-outs of one slot, every other slot was handed out or found allocated by some sweep. |
| `PoolSpec.FreeIsHandedOut` | task/inc/ippool.h:20-24 | A slot that stays free is handed out within at most size successful allocations. |
| `PoolSpec.RestsExactly` | task/inc/ippool.h:25-29 | The header says a released address waits for the rest of the pool; for a free slot x this holds of slot y if and only if y lies nearer to the cursor than x. |
| `PoolSpec.ReleasedGoesOutAtOnce` | task/inc/ippool.h:25-29 | Counterexample: with two slots a released address goes out again at once while the other, also free, is not looked at. |
| `IpPool.Pool.constructor` | task/src/ippool.c:91-122 | A new pool is empty, at most 2^24 slots, with its padding bits set. |
| `IpPool.Pool.MarkTail` | task/src/ippool.c:85-89 | Sets exactly the bits past size. |
| `IpPool.Lowest` | task/src/ippool.c:26-34 | Counts trailing zeros: the lowest set bit. |
| `IpPool.Pool.Sweep` | task/src/ippool.c:223-240 | The word sweep finds the first free slot in cyclic order from the cursor, never a padding bit, and nothing exactly when all are taken. |
| `IpPool.Pool.Alloc` | task/src/ippool.c:211-241 | Takes the first free slot in cyclic order and moves the cursor past it; full exactly when every slot is taken; the address is base plus slot. |
| `IpPool.Pool.Reserve` | task/src/ippool.c:243-259 | Range, in-use and success exactly as the set of slots says. |
| `IpPool.Pool.Free` | task/src/ippool.c:261-277 | Range, not-allocated and success exactly as the set of slots says; the cursor stays. |
| `IpPool.Pool.Reset` | task/src/ippool.c:279-286 | Back to the empty pool with the cursor at 0. |
| `IpPool.Pool.IsAllocated` | task/src/ippool.c:288-294 | True exactly for addresses of allocated slots. |
| `IpPool.Pool.AddrAt` | task/src/ippool.c:311-319 | The address of a slot, for slots of the pool only. |
| `IpPool.Pool.IndexOf` | task/src/ippool.c:321-329 | The slot of an address, for addresses of the pool only. |
| `IpPool.SlotAddrInverse` | task/src/ippool.c:203-209 | Slots and addresses name each other, with no carry past the address width. |
| `IpPool.Create` | task/src/ippool.c:124-169 | A pool for every prefix of either family: the whole block, or an IPv4 block of four and more without its ends, clamped to 2^24. |
| `IpPool.CreateRange` | task/src/ippool.c:171-191 | A pool for every range whose ends are in order and less than 2^64 apart, clamped to 2^24. |
| `IpPool.WideRangeRefused` | task/src/ippool.c:171-191 | A range in order whose ends are 2^64 apart is refused: from :: to 0:0:0:1::. |
| `TlvWire.LoadField` | task/inc/tlv.h:137-179 | A header field of either byte order reads back. |
| `TlvWire.HeaderRelength` | task/inc/tlv.h:344-345 | Backfilling the length leaves the rest of the header alone. |
| `TlvWire.NextReads` | task/inc/tlv.h:215-240 | An entry that fits its profile reads back with type, meta and value, whatever follows. |
| `TlvWire.NextShape` | task/inc/tlv.h:215-240 | A step finds an entry exactly where its header, length and value are in the buffer, and goes on behind the padding, or at the end when the padding is missing. |
| `TlvWire.DiameterOctets` | task/inc/tlv.h:75-88 | The Diameter profile octet by octet: code, flags, a 24-bit length with the header, value, zeros up to a word. |
| `TlvWire.Gtp2cOctets` | task/inc/tlv.h:61-73 | The GTPv2-C profile octet by octet: type, a 16-bit length of the value, instance, value, no padding. |
| `TlvWire.NetlinkOctets` | task/inc/tlv.h:90-103 | The netlink profile octet by octet, low octet first: length with the header, type, value, zeros up to a word. |
| `TlvWire.TreeRoundTrip` | task/inc/tlv.h:215-240 | For every profile and every tree whose lengths fit, nested iterators over the written stream return exactly the tree. |
| `TlvWire.ProfilesWellFormed` | task/inc/tlv.h:64-103 | The three shipped profiles have disjoint fields inside their headers. |
| `Tlv.Wbuf.Reserve` | task/inc/tlv.h:252-260 | Overflow is sticky and set exactly when the bytes do not fit. |
| `Tlv.Wbuf.Store` | task/inc/tlv.h:159-179 | Writes a field in place and nothing else. |
| `Tlv.Wbuf.Put` | task/inc/tlv.h:263-288 | Appends one whole entry, or refuses a length its field cannot carry, or overflows and appends nothing. |
| `Tlv.Wbuf.Begin` | task/inc/tlv.h:317-330 | Appends a header with its length still to come and returns its offset. |
| `Tlv.Wbuf.End` | task/inc/tlv.h:332-358 | Backfills the length at the handle and pads the stream; every refusal of the code. |
| `Tlv.WriteEntry` | task/inc/tlv.h:262-358 | Writing a tree with put, begin and end succeeds exactly when all lengths fit their fields and all of it fits the buffer, and then appends its wire form. |
| `Tlv.Iter.Step` | task/inc/tlv.h:215-240 | Yields the next entry and moves past its padding, or stops at a malformed or truncated one. |
| `Tlv.ReadTree` | task/inc/tlv.h:200-240 | A walk with nested iterators computes the tree of the stream. |
| `DiamWire.AvpsRoundTrip` | diam/src/diam.c:87-105 | Nested AVP iterators return the tree that was written, vendor ids and flags included, with the V bit set wherever there is a vendor. |
| `DiamWire.AvpsAligned` | diam/src/diam.c:190-210 | AVPs fill whole 32-bit words. |
| `DiamWire.HdrRoundTrip` | diam/src/diam.c:28-80 | A header decodes to itself if and only if its length is a multiple of 4 between 20 and the buffer. |
| `DiamWire.HdrOctets` | diam/src/diam.c:58-80 | The header octet by octet: version 1, length, the R, P, E and T bits, command code, application and the two identifiers. |
| `DiamWire.HdrShape` | diam/src/diam.c:28-56 | A header is accepted exactly when the buffer starts with its octets, up to four bits nobody reads, and holds its length, a multiple of 4 from 20 on; short and a wrong version are told apart. |
| `DiamWire.VendorOctets` | diam/src/diam.c:190-210 | A vendor id stands between AVP header and data, counted in the length, with the V bit set. |
| `DiamWire.MessageRoundTrip` | diam/src/diam.c:291-302 | A finalized message decodes with its own length, a multiple of 4, and its AVP tree. |
| `Diam.HdrEncode` | diam/src/diam.c:58-80 | Writes the twenty octets, or refuses lengths and codes over 24 bits and short buffers. |
| `Diam.AvpPut` | diam/src/diam.c:190-210 | Writes one AVP exactly when flags and vendor agree, the length fits 24 bits and the buffer has room, and says which it was: a length too large is an invalid argument without a vendor id, an overflow with one. |
| `Diam.AvpBegin` | diam/src/diam.c:267-284 | Opens a grouped AVP: header with the length to come, Vendor-ID if any; or the error of the code. |
| `Diam.AvpEnd` | diam/src/diam.c:286-289 | Completes the AVP at the handle; overflow and a bad handle leave everything alone. |
| `Diam.AvpStep` | diam/src/diam.c:87-105 | Yields the next AVP with its vendor id taken off the data. |
| `Diam.HdrFinalize` | diam/src/diam.c:291-302 | Backfills the message length, or refuses as the code does. |
| `Diam.WriteMessage` | diam/src/diam.c:190-302 | Header, AVP tree and finalize succeed exactly when everything fits, and the buffer then holds the finalized message. |
| `TxqSpec.Conservation` | net/src/txq.c:132-232 | Calls to send = sent + dropped + pending. |
| `TxqSpec.InOrder` | net/src/txq.c:171-232 | In every reachable state of such a run, the datagrams the kernel has taken are an order-preserving subsequence of those accepted, all before the pending ones, and as many as were counted as sent. |
| `TxqSpec.RunKeeps` | net/src/txq.c:132-232 | In every run of sends and flushes, against a kernel that takes any nonempty prefix of a batch, pushes back or refuses the head: conservation holds, fates are decided once and in order, what the kernel took is what has that fate, and the bytes waiting are within the cap. |
| `TxqSpec.WholeBatches` | net/inc/net_txq.h:20-21 | A kernel that takes whole batches empties n datagrams, in order, in ceil(n / 64) calls. |
| `TxqSpec.FlushEnds` | net/src/txq.c:171-232 | A flush stops only with the queue empty or where the kernel pushed back or took a batch short: a refused head is dropped and the flush goes on. |
| `TxqSpec.MappedForm` | net/src/addr.c:78-92 | On a dual-stack socket an IPv4 destination is ::ffff:a.b.c.d, octet by octet, at its port; other datagrams go as they are. |
| `PreHooks.Hooks.Add` | net/src/loop.c:155-177 | Registers a hook at most once; the order of the others stays. |
| `PreHooks.Hooks.Del` | net/src/loop.c:182-192 | Removes exactly that hook; the order of the others stays. |
| `PreHooks.Hooks.Compact` | net/src/loop.c:194-201 | Closes the gaps and keeps the order. |
| `Txq.Queue.constructor` | net/src/txq.c:48-65 | A new queue is empty, with the default cap for 0. |
| `Txq.Queue.Detach` | net/src/txq.c:67-73 | Lets go of the loop and keeps the queue. |
| `Txq.Queue.Grow` | net/src/txq.c:110-122 | Doubles the ring and keeps its contents in order. |
| `Txq.Queue.Pop` | net/src/txq.c:124-130 | Takes k datagrams off the front; bytes stays the payload sum of the rest. |
| `Txq.Queue.Send` | net/src/txq.c:132-161 | Refuses exactly over the byte cap, else queues at the end; the ring is the accepted suffix; while attached the hook is registered exactly when the queue is nonempty. |
| `Txq.Queue.Gather` | net/src/txq.c:183-194 | Builds the batch from the ring: its first datagrams in order, IPv4 destinations mapped on a dual-stack socket. |
| `Txq.Queue.Transmit` | net/src/txq.c:183-200 | What the kernel takes of the batch goes out behind what went out before. |
| `Txq.Queue.Turn` | net/src/txq.c:177-225 | One turn of the flush loop is one round of the history: datagrams out, dropped or kept, and whether the flush stops. |
| `Txq.Queue.Flush` | net/src/txq.c:171-232 | Follows the kernel answers as the history says: what went out, sent, dropped and calls are those of the history, the ring is the accepted suffix, and the hook invariant is kept. |
| `Txq.Queue.Retry` | net/src/txq.c:41-46 | The fallback timer flushes. |
| `Fsm.Machine.Act` | task/src/fsm.c:127-195 | The first entry whose state, action and guard match fires; a failing hook or the terminal state ends the machine and calls back once; otherwise nothing changes. |
| `InviteFsm.Feed` | task/src/fsm.c:127-195 | Feeding an event to a machine with a table is a move of the table, or refused with no change. |
| `InviteFsm.ClientMoves` | sip/src/sip_fsm.c:9-57 | The INVITE client moves from a state to another on an event if and only if its rule for the two says so. |
| `InviteFsm.ServerMoves` | sip/src/sip_fsm.c:59-110 | The same for the INVITE server. |
| `InviteFsm.RunSafe` | sip/src/sip_fsm.c:9-110 | Over a network that loses, duplicates and reorders: no run sends both a 2xx and a 3xx-6xx, a confirmed server means the client got to COMPLETED, a client ended by a 2xx means the server never did. |
| `InviteFsm.RunMonotone` | sip/src/sip_fsm.c:9-110 | Neither end ever goes to a lower state number. |
| `InviteFsm.CompletedMeansEntered` | sip/src/sip_fsm.c:9-110 | The history flags of RunSafe say that COMPLETED was entered earlier in the run, and only that. |
| `InviteFsm.ConfirmedReachable` | sip/src/sip_fsm.c:9-110 | A run that confirms the server exists. |
| `RtpSpec.TracksStart` | rtp/src/rtp.c:145-165 | The packet that ends probation is counted and starts the tracking. |
| `RtpSpec.RunTracks` | rtp/src/rtp.c:145-184 | If every packet index is from 99 below to 2999 above the highest so far, cycles + max_seq - base_seq is the true highest index minus the first, modulo 2^32, and every packet counts, wherever reports are taken. |
| `RtpSpec.JumpRestarts` | rtp/src/rtp.c:145-184 | On a jump of 3000 or more that is not up to 99 back: the packet behind one that had jumped starts the source over from itself; any other is not counted and moves nothing, and its successor would. |
| `RtpSpec.ProbationStartsOver` | rtp/src/rtp.c:145-165 | On probation a packet out of turn is not counted and starts the count over: its successor ends the probation. |
| `RtpSpec.LossField` | rtp/src/rtp.c:201-224 | The cumulative loss is held in a signed 24-bit field, cut at its ends. |
| `RtpSpec.RunReport` | rtp/src/rtp.c:201-224 | The report of such a run: cumulative lost is the packets missing from the first to the highest, held in 24 bits, and last_seq is the highest index. |
| `RtpSpec.TalliesNear` | rtp/src/rtp.c:145-184 | In such a run the tally of packets expected and counted is the advance of the highest index and the number of packets. |
| `RtpSpec.RunInterval` | rtp/src/rtp.c:145-184 | In every run of packets and reports the counters hold the tally since the last report or restart, modulo 2^32, and nothing comes to be expected without a packet being counted. |
| `RtpSpec.RunFraction` | rtp/src/rtp.c:201-224 | Every run from a new source: while the tally fits the 32-bit counters the quotient never exceeds the octet, and the octet is floor(256 * lost / expected) if and only if fewer than 2^24 were lost. |
| `RtpSpec.RunWraps` | rtp/src/rtp.c:201-224 | Every run: the quotient exceeds the octet if and only if the low 24 bits of what the counters hold for lost reach what they hold for expected; with a loss below 2^23, if and only if they hold no packet or more than expected. |
| `RtpSpec.Reach` | rtp/src/rtp.c:145-184 | Every tally of r packets that advance by at most 2999 each is that of some run from a new source. |
| `RtpSpec.FractionWraps` | rtp/src/rtp.c:201-224 | Counterexample, a run: one lost of 2^32 + 1 shows as 0 for a quotient of 256. |
| `RtpSpec.LossHidden` | rtp/src/rtp.c:201-224 | Counterexample, a run: 2^24 lost of 2^24 + 6000 shows as 0 for 255. |
| `RtpSpec.ProbationShowsNone` | rtp/src/rtp.c:201-224 | A report on a source still on probation shows no loss, in every run. |
| `RtpSpec.JitterBound` | rtp/src/rtp.c:186-199 | With changes of at most M < 2^27 the estimator never underflows and stays at most 16 M + 7, and a step takes the estimate a sixteenth of the way to the change, to the nearest unit. |
| `RtpSpec.RunJitter` | rtp/src/rtp.c:186-199 | Over every run of packets from a new source, by the true readings of both clocks: if the transit time changes by at most M < 2^27 at a time, the scaled estimate stays within 16 M + 7 and the reported jitter within M. |
| `RtpSpec.RunJitterFloor` | rtp/src/rtp.c:186-199 | And if it changes by at least L at a time, the scaled estimate gains at least one with every packet until it has reached 16 L - 8. |
| `RtpSpec.MagnitudeIs` | rtp/src/rtp.c:186-199 | The 32-bit difference is the true magnitude while the change is below 2^31. |
| `Rtp.Source.constructor` | rtp/src/rtp.c:136-143 | A new source is on probation, expecting the given number. |
| `Rtp.Source.Packet` | rtp/src/rtp.c:145-184 | rtp_source_update, field by field. |
| `Rtp.Source.Jitter` | rtp/src/rtp.c:186-199 | One estimator step; the first sample only seeds the transit time. |
| `Rtp.Source.Snapshot` | rtp/src/rtp.c:201-224 | The report block, with the 32-bit shift and the cut to an octet, and the counters for the next interval. |
| `SipSpec.ParseExtend` | sip/src/sip.c:312-404 | An accepted message with Content-Length is the same message with the same slices and length, whatever follows it. |
| `SipShape.ParseShape` | sip/src/sip.c:312-404 | sip_msg_parse accepts exactly the messages of a shape told without the parser, and finds their parts: start line, header fields with their folds, empty line, body. |
| `SipShape.StartShape` | sip/src/sip.c:270-310 | A start line is a status line or a request line, its parts where the spaces put them. |
| `SipShape.HeaderShape` | sip/src/sip.c:360-388 | A header field: name up to the colon and value, both trimmed, the length it announces, at most 48 fields. |
| `SipShape.SectionShape` | sip/src/sip.c:342-391 | The header section: fields with the lines folded into them, up to an empty line. |
| `SipSpec.ParseCut` | sip/src/sip.c:342-391 | Each proper prefix of such a message is short, if and only if it is not cut at a fold behind something that is no header field of its own. |
| `SipSpec.FlatPrefixShort` | sip/src/sip.c:350-358 | Without folded header lines every proper prefix is short. |
| `SipSpec.FoldedCutFails` | sip/src/sip.c:350-366 | Counterexample: a folded message cut at the fold is refused instead of asked to continue. |
| `SipSpec.StreamSplits` | sip/inc/sip.h:180-186 | Repeated calls split any concatenation of such messages back into them and keep an unfinished tail. |
| `SipSpec.CutStream` | sip/inc/sip.h:180-186 | Every prefix of a stream of messages without folded lines gives the messages that are all there, and asks for more on the rest. |
| `SipSpec.ChunksDeliver` | sip/inc/sip.h:180-186 | However such a stream, of any length, is divided into chunks, a reader that parses after each chunk hands out exactly its messages and holds nothing at the end, as long as what it holds with a chunk fits the parser. |
| `SipComplete.ShortExactly` | sip/inc/sip.h:182-183 | The header says a short buffer holds a prefix of a valid message. For every buffer sip_msg_parse calls short: some continuation parses if and only if nothing in the unfinished line and the fields before it rules that out and the shortest message it can become is at most 2^31 - 1 bytes long. |
| `SipComplete.ShortestExactly` | sip/src/sip.c:312-404 | That length is exact: such a buffer can become a message of at most n bytes if and only if its computed shortest length is at most n. |
| `SipShort.CompletableNeeds` | sip/src/sip.c:312-404 | No message that starts with a short buffer is shorter than the computed length, whatever lines, folds and later Content-Length fields it adds. |
| `SipComplete.CompletableBuild` | sip/src/sip.c:312-404 | A completion of exactly that length exists: a start line, a field name, a number or a body filled up, or a fresh Content-Length put in where it is cheaper. |
| `SipComplete.EndlessIsShort` | sip/src/sip.c:312-316 | A message whose Content-Length takes it past 2^31 - 1 bytes is called short whatever arrives, and never parses. |
| `SipComplete.EndlessMessage` | sip/inc/sip.h:182-183 | Counterexample: 26 octets that announce a body of 2^31. |
| `SipComplete.SpaceIsShort` | sip/inc/sip.h:182-183 | Counterexample: a single space is called short and no continuation makes it a message. |
| `Sip.LineOf` | sip/src/sip.c:262-268 | Finds the end of a line, with or without a carriage return. |
| `Sip.StartLine` | sip/src/sip.c:270-310 | Parses a status or request line, with its refusals. |
| `Sip.AddHeader` | sip/src/sip.c:360-388 | One header field: name and value trimmed, Content-Length read, at most 48. |
| `Sip.MsgParse` | sip/src/sip.c:312-404 | The loop computes exactly the framing function. |

## Left out

- JSON doubles (`json_put_num`, `json_num`): they rest on the C library's conversions and the locale.
- `json_put_frag`, `json_put_str_esc`, `json_get`, `json_ptr`, `json_utf8_valid`: pass-through or lookups over what is modelled.
- The indent of a JSON writer is fixed for a document; changing it in the middle is not modelled.
- The text a failed JSON writer leaves in its buffer: the model keeps only that it has failed.
- Tpdu.Encode: tells success from failure, not which error; when several apply, the one returned depends on the order of the checks within a field.
- Tpdu.Writer.PutUd: tells success from failure, for the same reason.
- Tpdu.Writer.PutTail: tells success from failure, for the same reason.
- Tlv.WriteEntry: tells success from failure; which error a single put, begin or end returns is in their own contracts.
- Diam.WriteMessage: tells success from failure; which error a single call returns is in its own contract.
- The cast of a septet count past 2^31 to `int` in `sms_gsm7_septets`.
- Handles and offsets past 2^31 in `tlv_begin`, and sums past 2^64 in `net_txq_send`: buffers that large do not exist.
- Identifiers of SIP headers other than Content-Length, SIP method numbers, and all name and phrase tables.
- Dispatch of pre-poll hooks and file descriptors in `net_loop_step`; sockets, TLS, DNS and the epoll calls.
- The non-INVITE transaction tables, dialogs, SDP, RTCP packets, SMS relay messages, GTP: the same shapes as what is modelled.
- RTP and SIP packet writing, ISO 8601 rendering and validity periods of SMS.
- TimerHeap.Loop.TimerPass: callbacks past a script of any finite length do nothing, so a pass whose callbacks re-arm without end is not modelled.
- SipSpec.ChunksDeliver: for messages without folded header lines; with them a chunk that ends at a fold can be refused, as ParseCut says.
- Allocation failure and threads.

# A verified model of libbtrfs

libbtrfs reads btrfs send streams, walks and destroys subvolumes, and searches btrfs trees.  This project
models its stateful core in Dafny and proves what callers rely on.  `dafny verify dfyconfig.toml` checks
everything; nothing is executed.

| module | models |
|---|---|
| `Bytes`, `Crc` | little-endian integers; CRC-32C (polynomial of section 12.1 of RFC 3720) with initial value 0 and no final inversion |
| `Frames`, `ReadStream` | header and frames of a send stream; the reader's buffer, position and published progress; the sequential receive loop |
| `BufferedReceive`, `BufferedProperties`, `BufferedProgress`, `BufferedRaces` | the two-thread receive as a state machine: two bounded rings, a pool of `nbuf` buffers, a schedule that says which thread moves next; what every schedule keeps, that fair ones end, and exactly what the race of two steps costs |
| `Tlv`, `Commands`, `WireFormat` | the attribute parsers of both stream versions, the 25 commands, the dispatch to handler methods, and sending a command list as bytes; what a payload means for each command, by the numbers of ids and attributes |
| `HandleFull`, `ReceiveFull` | the path buffers of the file-system handler and the strings its system calls get; from stream bytes to those strings |
| `SubvolIter`, `SubvolOrder`, `SubvolPaths`, `SubvolProperties`, `SubvolFailures` | the coloured-stack subvolume iterator, what its runs amount to, and which failures they report |
| `DestroyAll`, `DestroyProperties` | destroying a subvolume tree while the iterator over it is still running; what is gone, reported and tried |
| `SearchKey`, `TreeSearch`, `Paging` | search keys and their successors; the packed page, its cursor and the drop that moves the lower bound; reading a range page by page |
| `GetPath`, `GetDefault` | the path of a subvolume from its id; the default subvolume |

## How to read it

Code that changes state is a class or a method with a loop, proved against a function of the old state: `SendStream`
against `Receive`, `ParseTlv` against `Parse`, `Iter.Next` against `NextOf` and `Run`, `HandleFull` against
`Handle`, which has no buffers, `GetPath` against `Climb`.  The lemmas are about those functions.

Environment.  Input is a byte string; a short read is an end of file.  A handler is a function of its state, a frame
and the version, and may ask for more, be done, fail or panic.  Panics of the code itself are a result, `Panic`.
Lookups, opens and listings of the iterator succeed or fail as an arbitrary function of the ids (`Env`); in
`SubvolPaths` and `DestroyAll` it may be a different one at every turn.  Destroying succeeds exactly if the subvolume
is there and none is left below it.  The kernel answers a tree search with a non-empty prefix (if anything matches) of
the items whose whole keys are between the bounds, as long as it fits the buffer and the item limit.  System calls of
the handler succeed or fail as `Sys` says.

Interleavings.  `Exec(c, schedule)` is the state after the threads moved in the order of `schedule`; a statement for
all schedules is one for all interleavings.  An empty pop and the check for an abandoned ring are two steps, as in the
code; `atomic` makes them one, to say exactly what that race costs.  `Readable(input)` is the commands of an input up to
and including its first END.

## What does not hold as one might expect

- A buffered receive may return Ok with commands still in the ring.  On a stream the sequential receive accepts, any
  number of last commands below `nbuf` can be lost and no more, and none exactly if the empty pop and the check for an
  abandoned ring were one step (`LostExactly`, `RaceExactly`).
- A handler error may turn into a panic of the reader: exactly if they are two steps and the input has at least `nbuf`
  readable commands (`PanicExactly`).
- `next_type` is documented to carry into the objectid at type 255.  The code calls itself with the same key there and
  never returns (`NextTypeReturns`), so `next_offset` is the successor exactly where the offset or the type has room
  (`NextOffsetExact`).
- Dropping a page before taking anything loses its first item (`UnreadPageLosesFirst`), and dropping the empty page
  that ends a session moves the lower bound back into the page before it (`ReadAll`).
- `get_path` finds a path exactly if no subvolume on the way up has a larger id than the one asked for
  (`FoundExactly`), because the upper bound of its search stays at that id.
- An encoded write outside version 2, and a version 2 write whose payload is whole records and then an attribute cut off
  before its length, are panics and not errors; nothing else is (`PanicsExactly`, with inputs in `PanicExamples`).
- A loop that steps from objectid to objectid, as in the search module's own example, yields the whole range exactly if
  no page is left behind between two items of one objectid (`ObjectsExact`).
- A subvolume command whose path cannot be created (a NUL in it, or 4040 bytes and more) fails before any system call,
  but the handler takes that subvolume for the current one all the same, so no other can be started
  before an END (`FailedSubvolStays`, `RefusedSubvol`).

## Model

| member | source | states |
|---|---|---|
| Crc.VariantsAgree | libbtrfs/src/send_stream/read_stream.rs:386-395 | The two build variants of the checksum (parameterised CRC, or inverted crc32c append) agree on all data |
| Crc.CheckValue | libbtrfs/src/send_stream/read_stream.rs:64-76 | The parameter set's check value: the checksum of "123456789" is 0x58E3FA20 |
| Crc.UpdateInjective | libbtrfs/src/send_stream/read_stream.rs:386-395 | Over any common suffix, different registers stay different |
| Crc.UpdateFourInjective | libbtrfs/src/send_stream/read_stream.rs:386-395 | Different four-byte strings never leave the same register |
| Crc.ByteChangesChecksum | libbtrfs/src/send_stream/read_stream.rs:386-399 | Changing any one byte of any data changes its checksum |
| Crc.BurstChangesChecksum | libbtrfs/src/send_stream/read_stream.rs:386-399 | Changing data inside any window of four bytes changes its checksum |
| Frames.HeaderAccepted | libbtrfs/src/send_stream/read_stream.rs:338-357 | The header is accepted, with a version and a rest, if and only if the input is exactly that header (version at most 2) followed by the rest |
| Frames.HeaderRefused | libbtrfs/src/send_stream/read_stream.rs:338-357 | Too short, not the 13 literal bytes of the magic, or a version above 2: each error exactly when |
| Frames.FrameAccepted | libbtrfs/src/send_stream/read_stream.rs:359-399 | A frame is accepted if and only if the input starts with its one canonical encoding, and exactly that is consumed |
| Frames.FrameRefused | libbtrfs/src/send_stream/read_stream.rs:359-399 | End of file exactly if header or announced payload is not all there, and a checksum error exactly if it is there and the input is no frame's encoding |
| Frames.CorruptByteRejected | libbtrfs/src/send_stream/read_stream.rs:386-399 | Changing any single byte of the command id, checksum or payload of a frame makes it rejected for its checksum |
| Frames.CorruptBurstRejected | libbtrfs/src/send_stream/read_stream.rs:386-399 | So does any change confined to four consecutive payload bytes |
| ReadStream.SendStream.constructor | libbtrfs/src/send_stream/read_stream.rs:81-94 | A fresh reader: zeroed 64 KiB buffer, position 0, no command |
| ReadStream.SendStream.ReadHeader | libbtrfs/src/send_stream/read_stream.rs:338-357 | Consumes the header and sets the version, or fails with the right error and keeps the version |
| ReadStream.SendStream.ReadCmd | libbtrfs/src/send_stream/read_stream.rs:359-413 | Reads exactly one frame into the reused, possibly grown buffer, with the checksum field zeroed and stale bytes behind it; position and published progress move only on success |
| ReadStream.SendStream.ReadAndHandle | libbtrfs/src/send_stream/read_stream.rs:97-117 | The loop is the recursive receive: same result, handler state and handled commands; the position is the summed frame lengths without the header; on success it is what is published and the reader is just after END |
| ReadStream.ReceivePrefix | libbtrfs/src/send_stream/read_stream.rs:97-110 | Frames after which the handler wants more are handled one by one, whatever follows them |
| ReadStream.EndsAtReply | libbtrfs/src/send_stream/read_stream.rs:97-110 | The receive ends at the first frame after which the handler does not want more, with Ok, that very error or the panic as it replied, and nothing behind that frame read |
| ReadStream.EndsUnreadable | libbtrfs/src/send_stream/read_stream.rs:97-110 | Where no frame can be read the receive ends with that error and the handler as it was |
| ReadStream.EndsAtHeader | libbtrfs/src/send_stream/read_stream.rs:338-357 | A refused header is the result, with nothing handled |
| ReadStream.PublishedTrails | libbtrfs/src/send_stream/read_stream.rs:401-409 | After every command the published position is the first frame boundary in the 4 MiB block of the true position, so it is monotone and trails by less than a block |
| ReadStream.MaskComparesBlocks | libbtrfs/src/send_stream/read_stream.rs:361-405 | The bitwise mask of all but the low 22 of 64 bits compares exactly the block numbers that the modelled reader compares by division |
| BufferedReceive.ExecInv | libbtrfs/src/send_stream/read_stream.rs:141-242 | One invariant ties rings, buffers, threads, handler state and unread input together in every state of every interleaving |
| BufferedProperties.Conservation | libbtrfs/src/send_stream/read_stream.rs:149-216 | Until the handler fails, buffers held by the reader, queued, held by the handler and queued back add up to nbuf in every reachable state |
| BufferedProperties.RingsNeverFull | libbtrfs/src/send_stream/read_stream.rs:164-206 | No push ever meets a full ring, so the reader's `expect` cannot fire and the handler never leaves for lack of room |
| BufferedProperties.NoDeadlock | libbtrfs/src/send_stream/read_stream.rs:164-230 | No reachable state has both live threads waiting on empty rings |
| BufferedProperties.Refines | libbtrfs/src/send_stream/read_stream.rs:120-243 | In every interleaving, for every pool size and input, the commands handled are a prefix of those of the sequential receive: same ids, payloads and order |
| BufferedProperties.OkMeansHandled | libbtrfs/src/send_stream/read_stream.rs:201-242 | When the reader returns Ok the input was read up to its first END, and all but the last nbuf - 1 commands are known to be handled without failure |
| BufferedProperties.AcceptsWhatSequentialAccepts | libbtrfs/src/send_stream/read_stream.rs:120-243 | The buffered call never fails or panics on a stream that the sequential call accepts |
| BufferedProperties.ErrorLag | libbtrfs/src/send_stream/read_stream.rs:168-215 | After a handler failure the reader pushes at most nbuf - 1 more commands; it returns Ok only if the failed one is among the last nbuf - 1; an Err is that very failure or the very error of the next read |
| BufferedProperties.NothingAfterFailure | libbtrfs/src/send_stream/read_stream.rs:168-171 | After a failure no later command is ever handled, however the threads go on |
| BufferedProperties.CallMeans | libbtrfs/src/send_stream/read_stream.rs:217-242 | A finished call panics if and only if the reader did or the handler did on its last command; otherwise it returns what the reader returned |
| BufferedProgress.FairEnds | libbtrfs/src/send_stream/read_stream.rs:143-242 | However the threads take turns, as long as both go on doing so, the receive comes to its end |
| BufferedProgress.CanFinish | libbtrfs/src/send_stream/read_stream.rs:143-242 | From every reachable state the receive can still be brought to its end |
| BufferedProgress.PublishedProgress | libbtrfs/src/send_stream/read_stream.rs:202-239 | In every reachable state the position is the input consumed, and the cell, started at 0, holds the first frame boundary in the same block; at Ok it holds the length of all commands read |
| BufferedProgress.PublishedMonotone | libbtrfs/src/send_stream/read_stream.rs:202-239 | No turn of either thread takes the published position back |
| BufferedRaces.AtomicIsSequential | libbtrfs/src/send_stream/read_stream.rs:141-242 | If popping and checking are one step, a finished receive of an accepted stream handled exactly the sequential commands and ends in the same handler state |
| BufferedRaces.AtomicPanicsOnlyWithHandler | libbtrfs/src/send_stream/read_stream.rs:217-222 | If they are one step, the reader panics only after the handler thread did |
| BufferedRaces.EndMayBeLost | libbtrfs/src/send_stream/read_stream.rs:181-186 | With two steps, for every pool size, every stream with an END and every number of last commands below nbuf, a schedule returns Ok with exactly those commands not handled |
| BufferedRaces.LostExactly | libbtrfs/src/send_stream/read_stream.rs:141-242 | On an accepted stream so many last commands can be lost if and only if there are none, or the steps are two and they are fewer than the buffers |
| BufferedRaces.RaceExactly | libbtrfs/src/send_stream/read_stream.rs:181-186 | All finished schedules of an accepted stream handle everything if and only if popping and checking are one step |
| BufferedRaces.ErrorMayBecomePanic | libbtrfs/src/send_stream/read_stream.rs:217-222 | With two steps, whichever command is the first to fail, a schedule panics with the error unread as soon as the input has nbuf readable commands |
| BufferedRaces.PanicExactly | libbtrfs/src/send_stream/read_stream.rs:217-222 | The error of the first failing command can become a panic if and only if the steps are two and the input has at least nbuf readable commands |
| Tlv.ParseTlv | libbtrfs/src/send_stream/handler/command.rs:47-79 | The generated loop over slices is the recursive parse |
| Tlv.SplitExact | libbtrfs/src/send_stream/handler/command.rs:51-71 | A payload splits into records if and only if it is their encoding and fewer than four more bytes |
| Tlv.ParseMeaning | libbtrfs/src/send_stream/handler/command.rs:47-79 | Parsing succeeds if and only if the payload splits, every known fixed-width occurrence has its width and every attribute occurs; each value is that of the last occurrence |
| Tlv.ParseErrors | libbtrfs/src/send_stream/handler/command.rs:47-79 | A missing attribute is reported exactly if the payload splits and all widths are right; a wrong width whenever it splits, and a cut-off record only if it does not |
| Tlv.ParseValueOfBytes | libbtrfs/src/send_stream/handler/command.rs:112-143 | Every value of every attribute type is read back from its encoding, negative seconds included |
| Tlv.MiddleIrrelevant | libbtrfs/src/send_stream/handler/command.rs:58-64 | Replacing part of a payload changes nothing if no known attribute can tell |
| Tlv.UnknownIgnored | libbtrfs/src/send_stream/handler/command.rs:58-64 | Unknown attributes may be inserted anywhere |
| Tlv.OrderIrrelevant | libbtrfs/src/send_stream/handler/command.rs:58-64 | Neighbouring occurrences of different attributes may change places |
| Tlv.ParseOfBytes | libbtrfs/src/send_stream/handler/command.rs:47-79 | Parsing inverts encoding for every schema and all values, with up to three stray bytes behind |
| Tlv.ParseTlv2 | libbtrfs/src/send_stream/handler/command.rs:352-398 | The version 2 loop, its two-step advance and its panic included, is the recursive parse |
| Tlv.Parse2Meaning | libbtrfs/src/send_stream/handler/command.rs:352-398 | A version 2 write parses if and only if it is whole records, then a data attribute without length, with right widths and the required attributes; the data is all that follows |
| Tlv.Parse2Panics | libbtrfs/src/send_stream/handler/command.rs:362-390 | A version 2 parse panics if and only if the payload is whole records of right widths, none of them data, and then two or three bytes of another attribute |
| Tlv.Parse2OfBytes | libbtrfs/src/send_stream/handler/command.rs:540-630 | The version 2 parser inverts the version 2 encoding for data of any length and any subset of the optional attributes |
| Commands.ParseCommandOfPayload | libbtrfs/src/send_stream/handler/mod.rs:172-213 | Every command a version can carry is decoded to itself |
| Commands.AcceptedMeans | libbtrfs/src/send_stream/handler/command.rs:182-511 | Every accepted version 1 payload yields the command of its id with, per attribute, the last value given, and that command can be sent again |
| Commands.AcceptedWriteMeans | libbtrfs/src/send_stream/handler/command.rs:352-630 | Every accepted version 2 write reached a data attribute; its data is all that follows and its other attributes are the last ones given |
| Commands.PanicsExactly | libbtrfs/src/send_stream/handler/mod.rs:172-213 | Decoding panics if and only if it is an encoded write outside version 2, or a version 2 write of the cut-off shape |
| Commands.PanicExamples | libbtrfs/src/send_stream/handler/command.rs:373-538 | An empty payload and a two-byte payload that panic |
| Commands.WriteVersionsAgree | libbtrfs/src/send_stream/handler/mod.rs:189-193 | A plain write whose data fits 16 bits means the same in both versions |
| Commands.ReceiveCommands | libbtrfs/src/send_stream/read_stream.rs:100-110 | Encoded commands are received as themselves, whatever follows END |
| Commands.EndToEnd | libbtrfs/src/send_stream/read_stream.rs:97-117 | For any version, handler methods and command list ending in END, receiving the encoded stream runs the methods on exactly that list and leaves the reader just after END |
| Commands.DeliversExactly | libbtrfs/src/send_stream/handler/mod.rs:172-213 | A handler that records its calls records exactly the list that was sent |
| WireFormat.CommandMeans | libbtrfs/src/send_stream/handler/command.rs:148-179 | For every command id and payload outside the version 2 writes, decoding gives a command if and only if the payload splits into records in which, by literal attribute number and width, the last value of each is the named field (`path` of 15, `path_to` of 16, and so on for all 25); END from any payload |
| WireFormat.WriteMeans | libbtrfs/src/send_stream/handler/command.rs:352-511 | A version 2 payload of id 15 or 25 is decoded to a write if and only if it is records that say each field by number, none of attribute 19, then the bytes of 19 and all the data |
| WireFormat.UnknownCommand | libbtrfs/src/send_stream/handler/command.rs:148-179 | The error for an unexpected command comes exactly for ids 0 and above 25 |
| WireFormat.MalformedEnds | libbtrfs/src/send_stream/handler/mod.rs:172-213 | A command that cannot be decoded ends the receive with that error or panic and no method called |
| WireFormat.LiteralReceived | libbtrfs/src/send_stream/read_stream.rs:97-117 | One literal stream, header, a truncate and END byte by byte, is received as truncate of "a" to 258 and end |
| HandleFull.CStrWhole | libbtrfs/src/send_stream/handler/handle_full.rs:192-195 | The kernel reads a path unchanged if and only if it holds no NUL; otherwise what is before the NUL |
| HandleFull.DoCPath | libbtrfs/src/send_stream/handler/handle_full.rs:185-199 | Writes path and NUL behind the prefix if they fit in PATH_MAX, changing nothing else; otherwise changes nothing |
| HandleFull.BuiltString | libbtrfs/src/send_stream/handler/handle_full.rs:185-199 | Whatever stale bytes are behind it, the buffer then reads as subvolume and path and still starts with the subvolume |
| HandleFull.HandleFull.GetCPath | libbtrfs/src/send_stream/handler/handle_full.rs:169-172 | The first buffer reads as the current subvolume and the path, or the path is too long; the prefix stays either way |
| HandleFull.HandleFull.GetCPathSecondary | libbtrfs/src/send_stream/handler/handle_full.rs:175-182 | The same for the second buffer |
| HandleFull.HandleFull.OnSubvolCmd | libbtrfs/src/send_stream/handler/handle_full.rs:255-276 | Starts a subvolume in both buffers, with a '/' at its end; refused inside another one; panics if the buffers are too small; stays started if its name is refused before any call, or if creating it fails |
| HandleFull.HandleFull.OnEndCmd | libbtrfs/src/send_stream/handler/handle_full.rs:712-726 | Ends the subvolume first, then opens its path with no prefix |
| HandleFull.HandleFull.OnTwoPathsCmd | libbtrfs/src/send_stream/handler/handle_full.rs:351-382 | Both strings are intact at the call, in the order the call takes them |
| HandleFull.HandleFull.OnCloneCmd | libbtrfs/src/send_stream/handler/handle_full.rs:597-640 | Opens the destination, panics for another subvolume's uuid, then opens the source |
| HandleFull.HandleFull.OnXattrCmd | libbtrfs/src/send_stream/handler/handle_full.rs:402-498 | Checks the name length, builds path and name, and falls back to mount point, subvolume and path if the system call is missing |
| HandleFull.HandleFull.HandleCmd | libbtrfs/src/send_stream/handler/handle_full.rs:253-809 | For every command the handler with its reused buffers does what the one without buffers does, and both buffers keep the subvolume |
| HandleFull.KeptThroughout | libbtrfs/src/send_stream/handler/handle_full.rs:255-809 | Inside a subvolume, over any commands, failing or not, only END changes what is remembered |
| HandleFull.StringsRead | libbtrfs/src/send_stream/handler/handle_full.rs:302-760 | Every string given to the system reads as the current subvolume followed by a path the command names, in order; which are given is said exactly, and all are if the command succeeds |
| HandleFull.XattrStringsRead | libbtrfs/src/send_stream/handler/handle_full.rs:402-573 | The same for extended attributes: a call is made exactly if name and path fit, the fallback by way of the mount point exactly if the system does not know that call |
| HandleFull.OutcomeExactly | libbtrfs/src/send_stream/handler/handle_full.rs:276-809 | A command inside a stream succeeds if and only if its paths and names fit, it is not for another subvolume, and every call it makes succeeds; each other ending (panic, snapshot's included, name too long, failed call) is said exactly too |
| HandleFull.InsideSubvolume | libbtrfs/src/send_stream/handler/handle_full.rs:255-276 | After a subvolume command and any others but END, that subvolume is the current one |
| HandleFull.SubvolSucceeds | libbtrfs/src/util/subvolume.rs:12-18 | A subvolume command succeeds if and only if none is current, its path has no NUL and is shorter than 4040 bytes, and creating it works |
| HandleFull.SubvolOutcome | libbtrfs/src/send_stream/handler/handle_full.rs:255-276 | Which error or panic a subvolume command ends in, exactly, and what it then leaves current |
| HandleFull.EndOutcome | libbtrfs/src/send_stream/handler/handle_full.rs:712-726 | Which way an end command ends, exactly; whichever it is, no subvolume is current afterwards |
| HandleFull.FailedSubvolStays | libbtrfs/src/send_stream/handler/handle_full.rs:257-273 | One that fails to create its subvolume leaves it current, so the next subvolume command is refused |
| HandleFull.EndReadsBack | libbtrfs/src/send_stream/handler/handle_full.rs:712-726 | END leaves no subvolume current, and after a subvolume command that succeeded opens exactly that subvolume's path |
| ReceiveFull.BytesToCalls | libbtrfs/src/send_stream/handler/mod.rs:172-213 | A stream of a subvolume that can be created, applicable commands and END, received where calls succeed, makes exactly those commands' calls inside that subvolume and leaves handler and reader as promised |
| ReceiveFull.RefusedSubvol | libbtrfs/src/subvol/mod.rs:363-369 | Otherwise the receive ends at that command, with nothing asked of the system: an error, or a panic if the path does not even fit the buffers |
| ReceiveFull.FirstFailureEnds | libbtrfs/src/send_stream/read_stream.rs:97-110 | Whatever calls fail, the first command that does not simply succeed ends the receive, nothing behind it read: Ok exactly if it ends the stream, an error exactly if it fails, a panic if it panics |
| SubvolIter.TurnLighter | libbtrfs/src/subvol/iterator.rs:121-172 | Every turn of the loop makes the stack lighter: the termination measure of a run |
| SubvolIter.NextOfRun | libbtrfs/src/subvol/iterator.rs:121-172 | One call takes exactly one result off the front of the run |
| SubvolIter.Iter.PushRefs | libbtrfs/src/subvol/iterator.rs:35-114 | Pushes the children found before the first failure, each with its joined path; the string passed to open is exactly the child's own part |
| SubvolIter.Iter.Next | libbtrfs/src/subvol/iterator.rs:121-172 | Returns the next result of the run and leaves the rest of the run on the stack |
| SubvolOrder.RunRoot | libbtrfs/src/subvol/iterator.rs:121-172 | A whole run of the stack machine is a recursion over the tree, failures included |
| SubvolOrder.ChildPathJoins | libbtrfs/src/subvol/iterator.rs:80-96 | Extending the parent's path gives the '/'-joined pieces of the whole chain |
| SubvolOrder.RunIsPartOfWalk | libbtrfs/src/subvol/iterator.rs:35-172 | Whatever fails, what a run returns is the flagged traversal with some left out: same ids, parents, paths and order |
| SubvolPaths.TurnWithin | libbtrfs/src/subvol/iterator.rs:121-172 | Every turn, in any environment, keeps every stack entry's path the full chain of its ancestors' pieces and returns only items of the traversal |
| SubvolPaths.EveryStackWithin | libbtrfs/src/subvol/iterator.rs:121-172 | However the file system changes between calls, every stack an iterator can have stands, with full paths, for parts of its root's traversal, and returns only items of it |
| SubvolPaths.OneNul | libbtrfs/src/subvol/iterator.rs:87-95 | Where pieces hold no NUL, a path has exactly one, at its end |
| SubvolProperties.RunIsWalk | libbtrfs/src/subvol/iterator.rs:121-172 | Without failures a run is exactly the recursive pre-order or post-order traversal with children in the flagged order |
| SubvolProperties.WalkRootExact | libbtrfs/src/subvol/iterator.rs:241-277 | The traversal has exactly the strict descendants, each once, each on the right side of all its ancestors |
| SubvolProperties.FailuresOnlyOmit | libbtrfs/src/subvol/iterator.rs:61-166 | Under arbitrary failures only real descendants are returned, none twice, still on the right side of their returned ancestors |
| SubvolProperties.RunIsFinite | libbtrfs/src/subvol/iterator.rs:121-172 | Errors included, there are at most two results for each subvolume |
| SubvolProperties.OppositeIsReverse | libbtrfs/src/subvol/iterator.rs:53-59 | Without failures, reversing both flags reverses the run: descending pre-order is ascending post-order backwards |
| SubvolFailures.PushedMeans | libbtrfs/src/subvol/iterator.rs:35-114 | A failed listing pushes nothing and is an error; otherwise children are looked up in the flagged order backwards, those found are pushed, and the first that stops it (a failure, or a denial except at the root) makes it an error |
| SubvolFailures.NothingUnreported | libbtrfs/src/subvol/iterator.rs:35-172 | A run has no error if and only if every listing and lookup a complete traversal needs works, and then it is exactly the flagged traversal of what is there, without what a denied lookup at the root hides |
| SubvolFailures.CompleteUnlessReported | libbtrfs/src/subvol/iterator.rs:121-172 | Where all subvolumes are there and none is denied at the root, a run without an error returns the whole traversal |
| DestroyAll.FileSystem.DestroyAll | libbtrfs/src/subvol/mod.rs:381-428 | Each early error, with nothing destroyed; otherwise the loop that destroys while iterating is the recursive sweep, followed by destroying the base |
| DestroyProperties.NextSame | libbtrfs/src/subvol/iterator.rs:121-172 | Whatever fails, as long as nothing that can still come was destroyed, deletions do not change the next result nor any stack entry |
| DestroyProperties.SweepIsApply | libbtrfs/src/subvol/mod.rs:414-425 | Whatever fails, destroying during the traversal comes to the same as traversing first, undisturbed, and destroying what that returned |
| DestroyProperties.DestroyedExactly | libbtrfs/src/subvol/mod.rs:414-425 | Whatever fails, a subvolume is destroyed if and only if it and all below it are returned by the undisturbed traversal; what is tried, and each report, are said exactly |
| DestroyProperties.SilentExactly | libbtrfs/src/subvol/mod.rs:414-427 | Nothing is reported if and only if every needed listing and lookup works; then all below the base is gone, in ascending post-order, except what a denied lookup at the base hides, and the base can be destroyed exactly if that is nothing |
| DestroyProperties.EverythingDestroyed | libbtrfs/src/subvol/mod.rs:414-427 | On any finite tree, where each subvolume is at the joined pieces down to it and lookups work, every destroy succeeds, nothing is reported, exactly the descendants are gone, and the base can then be destroyed |
| DestroyProperties.NothingElseDestroyed | libbtrfs/src/subvol/mod.rs:414-427 | Whatever fails along the way, nothing but subvolumes below the base is destroyed by the loop |
| DestroyProperties.TriedPaths | libbtrfs/src/subvol/mod.rs:417-421 | On any disk, the paths tried are the name, a '/' and the joined pieces down to a descendant; none holds a NUL where name and pieces hold none |
| DestroyProperties.TriedOrReported | libbtrfs/src/subvol/mod.rs:417-424 | On any disk, each path tried took away exactly one subvolume or was reported |
| SearchKey.NextTypeReturns | libbtrfs/src/tree_search/query.rs:103-106 | Unless the low byte of the type is 255 the function returns at once; if it is, it never returns |
| SearchKey.NextOffsetExact | libbtrfs/src/tree_search/query.rs:114-117 | The result is the least key strictly above, over all 32-bit types, if and only if the offset or the type has room |
| SearchKey.NextOffsetStored | libbtrfs/src/tree_search/query.rs:114-117 | For a key with an 8-bit type it is the next one, except that it never returns for type 255 with the last offset |
| SearchKey.NextObjectidSkips | libbtrfs/src/tree_search/query.rs:92-95 | The result separates the keys with a larger objectid from the others; the last objectid stays put |
| SearchKey.NextTypeSkips | libbtrfs/src/tree_search/query.rs:103-106 | Over all 32-bit types, the result separates the keys past this objectid and type from the others if and only if the type is below 255 |
| TreeSearch.ItemAtStart | libbtrfs/src/tree_search/mod.rs:228-233 | Reading where an item starts gives that item, and its total length leads to the next one |
| TreeSearch.Search.Query | libbtrfs/src/tree_search/mod.rs:357-383 | The page is in the buffer; bounds and item limit are what they were, also on failure; an empty page leaves the buffer alone |
| TreeSearch.Iter.Next | libbtrfs/src/tree_search/mod.rs:221-236 | Yields the items of the page one after the other and then nothing |
| TreeSearch.Iter.Drop | libbtrfs/src/tree_search/mod.rs:183-205 | The caller's function gets the key of the last item yielded (the first of an unread page, the stale header of an empty one) and only the lower bound moves |
| Paging.NextPage | libbtrfs/src/tree_search/mod.rs:198-203 | Searching from the successor of the n-th matching key finds exactly what came after it |
| Paging.PagingExact | libbtrfs/src/tree_search/mod.rs:357-456 | Pages of any sizes, each taken to any non-empty prefix, yield every item of the range once and in key order, in at most as many rounds as items |
| Paging.SizesAgree | libbtrfs/src/tree_search/mod.rs:430-456 | Buffer size and item limit do not matter, so the inline and the heap search agree |
| Paging.EveryChoiceEnds | libbtrfs/src/tree_search/mod.rs:188-236 | Whatever pages the kernel makes and however much of each is taken, the queries come to an end, unless the range has a key of type 255 with the last offset |
| Paging.ResumesUnlessLast | libbtrfs/src/tree_search/query.rs:114-117 | A page can be left behind if and only if the last key taken is not type 255 with the last offset |
| Paging.UnreadPageLosesFirst | libbtrfs/src/tree_search/mod.rs:188-203 | A page dropped unread loses its first item |
| Paging.ReadAll | libbtrfs/src/tree_search/mod.rs:19-36 | The loop over queries, with any function to step on, yields what its session says and keeps limit and upper bound; after its last, empty page the lower bound is back behind the first item of the page before |
| Paging.NextObject | libbtrfs/src/tree_search/mod.rs:20 | Stepping to the next objectid skips the rest of the current one, and only that |
| Paging.ObjectsExact | libbtrfs/src/tree_search/mod.rs:19-36 | The example's loop, which steps from objectid to objectid, yields the whole range if and only if no page is left behind between two items of one objectid |
| GetPath.Grow | libbtrfs/src/subvol/mod.rs:529-532 | Doubling the buffer any number of times keeps the path at its end and makes enough room before it |
| GetPath.Place | libbtrfs/src/subvol/mod.rs:533-540 | Copying a piece in front of the path changes nothing behind it |
| GetPath.SuffixIsTopDown | libbtrfs/src/subvol/mod.rs:533-549 | What is built back to front is the pieces joined from the top level down |
| GetPath.GetPath | libbtrfs/src/subvol/mod.rs:497-551 | Every way up gives its joined path, or the error it ends in, in the order the code meets them |
| GetPath.FoundExactly | libbtrfs/src/subvol/mod.rs:505-550 | For any chain of back references to the top level, each the bytes of a directory id and a name, the path is found if and only if no id on it exceeds the one asked for; otherwise the result is not found |
| GetPath.LookMeans | libbtrfs/src/subvol/mod.rs:521-528 | An item with a directory id and a name is read as the directory's path and then the name, in the parent its key names; a NUL in the name is an error before the lookup, a failing lookup after it |
| GetPath.ClimbStops | libbtrfs/src/subvol/mod.rs:511-528 | After any number of good references, the first search or item that fails gives the error of the whole |
| GetPath.MovedNotFound | libbtrfs/src/subvol/mod.rs:505-519 | A concrete file system: a subvolume inside a younger one, its references whole, whose path is not found, and one inside an older one whose path is "h/b/d/c" |
| GetDefault.GetDefault | libbtrfs/src/subvol/mod.rs:442-464 | The search fails if and only if the kernel fails on a key it is started from; otherwise the first item of the whole range with the name is found, however the range is cut into pages, or there is none, or the offset overflows, each exactly when |
| GetDefault.VisitsBefore | libbtrfs/src/subvol/mod.rs:450-463 | Searches are started at the beginning of the range or one past an item before the first match |
| GetDefault.FirstExact | libbtrfs/src/subvol/mod.rs:457-463 | First means: with the name, and none before it has it |
| GetDefault.DirItemMeans | libbtrfs/src/subvol/mod.rs:457-462 | For data written as key, transaction, lengths, type and name, the item is the one looked for exactly if its whole name is "default", and the id is the objectid of its key |

## Left out

- Filesystem effects of handler commands (short writes, clones, attributes, times): only the strings given to system calls are modelled.
- Atomics ordering, thread spawning and spin counters: a thread may check for an abandoned ring after any empty pop, not only after its spin limit, which adds interleavings but hides none.
- A handler that is done before END: the buffered reader goes on until END whatever the handler returns, so `Refines` and what builds on it ask for a handler that is done only at END; `AtomicIsSequential`, `LostExactly` and `RaceExactly` also for one that asks for no more after it.
- Using a reader again after its END: a buffered receive on it would read nothing, because the command is still END.
- Frames.CorruptByteRejected: does not model a changed length field, because the checksum is then taken over other bytes.
- Wrap-around of the 64-bit stream position, 32-bit platforms, and running out of memory for a frame of up to 4 GiB.
- Interrupted and failing reads other than end of file; what is left in the buffer when a read fails.
- The raw system calls for extended attributes pass the path where a directory descriptor belongs; the model takes the string for the path argument and does not say what the kernel makes of it.
- More than 255 child references of one subvolume: the listing is taken to fail or to be complete.
- File descriptors of the iterator and of back references, memory layout and uninitialised memory, except for the header a drop reads from an empty page.
- Heap search buffers under 32 bytes, which the drop would read beyond.
- DestroyAll.FileSystem.DestroyAll: a path the destroy call cannot take (a NUL, or a last part too long) is one that names nothing; paths of descendants are resolved against the current directory and the base against `dir`; the model takes them for the same.
- DestroyProperties.EverythingDestroyed: does not cover other processes that create subvolumes below the base meanwhile.
- GetPath.GetPath: asks for a way up that ends; a tree whose references form a loop would keep the code going for ever.
- Items in the range of `get_path` that are no back references are read as one; the model says Misread where that would leave the item, and otherwise reads it as the code does.
- GetDefault.GetDefault: an offset plus one that overflows is a failure, as in builds with overflow checks; other builds wrap to zero and search again from the start.
- Callbacks that return an integer, for which the library has no behaviour yet.
- Building search keys from ranges, `SendBuilder` and `SendHandle`, info getters, item field accessors, device iteration, flag and profile tables, generated bindings: lookups and plumbing that would add only easy members.

# yabmp, verified in Dafny

yabmp receives the BGP Monitoring Protocol (RFC 7854). This project models its path
from bytes on a socket to numbered lines on disk, and the queue that carries outgoing
messages over reconnections, and proves what they promise.

* `Bytes` holds Python's byte strings: clipping slices, big-endian numbers, and the
  detour through hexadecimal text that the decoders take.
* `Framing` is the pure form of the receive buffer and its drain loop, `Receiver` the
  protocol object proved against it.
* `Tlv`, `Statistics`, `Mirroring`, `RouteDistinguisher`, `PeerHeader`, `PeerUp` and
  `Message` are the decoders. `Bgp` stands for the yabgp library: its parsers are
  arbitrary functions that may fail.
* `LogFile` is the search for the last line of a log file, `Handler` the numbering and
  writing of messages, `Runs` what holds over whole runs with restarts, `Numbering`
  when such runs are numbered 1, 2, ..., n, and `Continuation` the same for runs that
  start on a disk left by others, with several files in a directory. `FileNames` says
  when the greatest file name is the latest time.
* `EndToEnd` composes framing, decoding and logging for one session, `Systems` for any
  number of connections over one handler, and `Wire` follows one encoded message of
  each logged type to its line.
* `Channel` is the outgoing queue.

Conventions. An exception is the value `Raise` (or a Boolean result where the source
catches it at once). `str()` of a record, `eval()` of a line and the readings of the
clock are the fields of `Env`, arbitrary functions; so is `json.dumps`, a field of the
queue's factory. Nothing is assumed of them. Where a result depends on `str` and `eval`,
its condition is on the lines that are written: a `GoodLine` has no line break and
evaluates to a list whose second element is its number. That all lines written are good
makes the files numbered, and if the lines have no breaks it is necessary too
(`FilesNumberedExactly`, `RunsContinueExactly`); `NumberedExactly` gives the condition of
a single run without either. `SystemNumberedExactly` is about all runs together: it
ranges over the lines that receivable bytes can lead to at a given set of times. Histories
(`received`, `cuts`, `journal`, `submitted`, `attempted`, `published`, `built`) are
ghost fields of the objects and, where a specification speaks of them, ordinary
components of its states. Lemmas about handler states and runs switch Dafny's automatic
induction off, because its hypothesis over whole environments is costly.

What the code turned out not to do:

* A header with a length field of 0 takes nothing off the buffer, so the drain loop
  never ends (`yabmp/core/protocol.py:112-137` checks no lower bound, although section
  4.1 of RFC 7854 counts the header in the length). `LoopEndsUnlessZeroLength` is the
  exact condition, `ZeroLengthHangs` the shortest input; `HangLogsNothing` adds that
  the endless passes do nothing to the log.
* The comment at `yabmp/core/protocol.py:93` says that a message has at least 44
  octets; the code waits for 6. The model follows the code.
* The handler's dictionary is keyed by peer address only. A second host that reports
  the same address is written into the first host's file. `OwnDirectoryExactly` is the
  condition, `SharedAddressMisfiles` the smallest run, and by `BytesMisfile` there are
  bytes that lead to it whatever the parsers do.
* A peer whose directory exists without a file, or whose latest file is empty, gets an
  entry that never writes until the process restarts: `HalfInitialisedExactly` and
  `HalfInitialisedNeverWrites`.
* A run is misnumbered as soon as a number read off the disk is not one more than the
  lines there: `NumberedExactly`. That happens exactly when the last line of the file
  does not evaluate to the number of lines there: `ReadsRightExactly`.
* The latest message file is found by name, and names compare as text. Among times with
  equally many digits before the point the greatest name is the latest time
  (`NamesFollowTimes`, `ResumesAtLatestTime`); a time with fewer digits is named first
  exactly if its digits are not above the leading ones of the other
  (`NamesFollowTimesExactly`), so 9.5 is named behind 10.5.
* Nothing but an opening channel connects a broker client, and nothing but its loss
  disconnects it, in whatever order they come: a client lost while it waits for its
  channel is connected if that channel still opens (`LostForGood`). A setup that fails
  leaves the client connected.
* Distinguishers of type 0 and type 2 can have the same text: `SharedText`.
* The two OPEN messages of a Peer Up notification both reach the parser as they are if
  and only if the first carries its own size: `SplitExactly`.
* A queued message that cannot be serialised is dropped without a publish call; the
  calls made are those of the other messages, in order.

## Model

| member | source | states |
|---|---|---|
| Bytes.BeEncode | yabmp/message/bmp.py:60 | a number written big-endian in enough bytes reads back as itself |
| Bytes.EncodeBe | yabmp/message/bmp.py:60 | reading a big-endian field and writing it back gives the same bytes |
| Bytes.HexIntIsBe | yabmp/message/bmp.py:279 | converting to hexadecimal text and reading it in base 16 gives the base-256 value at any length, and raises on no bytes |
| Bytes.FixedNumbers | yabmp/message/bmp.py:403 | two and four bytes are read most significant first |
| Bytes.SliceExactly | yabmp/message/bmp.py:404-405 | a slice holds the bytes at those of its positions that exist, an inverted one none, and never raises |
| Framing.DrainSplit | yabmp/core/protocol.py:78-86 | draining a + b cuts the frames of a, then those of the residue of a followed by b, and ends alike, also at a header error |
| Framing.ChunkingIsIrrelevant | yabmp/core/protocol.py:74-86 | any sequence of receptions cuts the frames, leaves the residue and ends as one reception of the concatenation |
| Framing.Residue | yabmp/core/protocol.py:92-115 | when the loop waits no complete frame is left; when it raised, the bad header is at the front |
| Framing.Conservation | yabmp/core/protocol.py:115-136 | raw frames cut so far followed by the buffer are all bytes received, and every frame takes at least one byte |
| Framing.RejectionIsAbsorbing | yabmp/core/protocol.py:79-111 | after a bad version or unknown type no later reception delivers a frame; the header stays in front and earlier frames stay delivered |
| Framing.LookExactly | yabmp/core/protocol.py:90-118 | in numbers: exactly version 3 and types 0 to 6 pass, the length counts the six header bytes, a longer one waits, and one below 6 offers an empty body |
| Framing.ZeroLengthStays | yabmp/core/protocol.py:78-81 | more bytes never free a stream from a zero length it reaches |
| Framing.LoopEndsUnlessZeroLength | yabmp/core/protocol.py:80-137 | the drain loop ends if and only if no pass finds a header with length field 0 at the front |
| Framing.ZeroLengthHangs | yabmp/core/protocol.py:112-137 | six bytes with which the loop never ends |
| Framing.FrameRoundTrip | yabmp/core/protocol.py:105-136 | any list of messages of types 0 to 6, encoded and sent in any pieces, is offered to the decoder exactly and leaves an empty buffer |
| Framing.RawIsEncoding | yabmp/core/protocol.py:105-118 | a raw frame is the encoding of what was offered exactly when its length field covers the header |
| Framing.CutFramesAreEncodable | yabmp/core/protocol.py:105-118 | every frame cut from any stream is one that could have been encoded |
| Framing.FailingFrameLosesOnlyItself | yabmp/core/protocol.py:120-137 | any frame at a frame boundary of any stream can be taken out with its bytes: all other frames, the residue and the end stay, and the others act on any application from the state it left |
| Receiver.Bmp.ParseBuffer | yabmp/core/protocol.py:88-137 | one pass waits, raises or cuts exactly the frame at the front; decoder and handler exceptions do not stop it |
| Receiver.Bmp.DrainBuffer | yabmp/core/protocol.py:80-81 | the loop leaves the residue of the whole buffer and has offered exactly its frames to the handler, in order |
| Receiver.Bmp.DataReceived | yabmp/core/protocol.py:74-86 | after every reception the object is what draining all bytes received at once leaves; the connection is given up exactly after a header error |
| Receiver.Bmp.constructor | yabmp/core/protocol.py:33-40 | a new session satisfies that invariant |
| Tlv.CutEncoded | yabmp/message/bmp.py:402-405 | cutting inverts encoding for any list of TLVs and any tail |
| Tlv.Grammar | yabmp/message/bmp.py:402-405 | every byte string is encoded TLVs followed by a tail too short for another one |
| Tlv.LeftOver | yabmp/message/bmp.py:402-405 | bytes are left over exactly when 1 to 3 bytes follow complete TLVs |
| Tlv.TlvLayout | yabmp/message/bmp.py:403-405 | byte by byte: two of type, two of length, the value, which only the end of the message may cut short |
| Tlv.LastValueIsLast | yabmp/message/bmp.py:406-409 | the value kept for a type is that of the last TLV of the type |
| Tlv.NoValueExactly | yabmp/message/bmp.py:406-409 | no value is kept for a type exactly if no TLV has it |
| Tlv.KeysExactly | yabmp/common/constants.py:78-87 | types 0, 1, 2 of initiation and 0, 1 of termination have their names as keys, all others their number |
| Tlv.MessagesRoundTrip | yabmp/message/bmp.py:381-448 | for the names of initiation and of termination types: encoded information decodes to the one dictionary that holds the last value of each type |
| Tlv.TakeTlv | yabmp/message/bmp.py:403-405 | type, clipped value and remainder, or an exception below four bytes |
| Tlv.ParseInformation | yabmp/message/bmp.py:402-409 | the loop computes the dictionary of all TLVs or raises on stray bytes |
| Tlv.ParseInitiation | yabmp/message/bmp.py:381-412 | the same with the names of initiation types |
| Tlv.ParseTermination | yabmp/message/bmp.py:415-448 | the same with the names of termination types |
| Tlv.InformationRoundTrip | yabmp/message/bmp.py:402-412 | decoding encoded TLVs gives the last-wins dictionary |
| Tlv.ClippedValueIsAccepted | yabmp/message/bmp.py:404-405 | a final value cut short by the end of the message is accepted as it is |
| Tlv.InformationFailsOnStrayBytes | yabmp/message/bmp.py:402-403 | decoding fails if and only if 1 to 3 bytes follow complete TLVs |
| Statistics.ReadCounters | yabmp/message/bmp.py:275-285 | the counted loop reads exactly that many TLVs with data, or raises |
| Statistics.ParseStatisticReport | yabmp/message/bmp.py:272-286 | the counted loop computes the report or raises as specified, for every byte string |
| Statistics.ReportSucceedsExactly | yabmp/message/bmp.py:272-286 | a report decodes exactly when the count is there and that many TLVs with data follow; then 5 * count bytes follow the count, and at most count keys hold the last value of each type |
| Statistics.ReportRoundTrip | yabmp/message/bmp.py:272-286 | encoded counters decode to the last-wins map of their big-endian values whatever trails them |
| Mirroring.ParseMirrored | yabmp/message/bmp.py:205-232 | one mirrored message extends exactly the list of its BGP type, nothing for others or an update in error, or raises |
| Mirroring.ParseOne | yabmp/message/bmp.py:205-241 | one pass records a message, an information code or an unknown value, or raises |
| Mirroring.ParseRouteMirroring | yabmp/message/bmp.py:196-249 | the loop computes the four lists and the other entries of all TLVs, or raises |
| Mirroring.SuccessDescribes | yabmp/message/bmp.py:196-249 | a result holds the four lists under '0', the last information code under '1', the last value of each unknown type, and no key collides |
| Mirroring.MirrorRoundTrip | yabmp/message/bmp.py:196-249 | encoded acceptable TLVs decode to their lists, last information code and last unknown values |
| Mirroring.MirrorFailsExactly | yabmp/message/bmp.py:201-241 | decoding fails exactly on 1 to 3 stray bytes or on a TLV that raises |
| Mirroring.AcceptableExactly | yabmp/message/bmp.py:205-241 | a TLV raises unless it is a mirrored message of at least 19 bytes that its parser takes, an information code of two bytes, or of another type |
| Mirroring.MirroredMessageIsListed | yabmp/message/bmp.py:205-232 | for every inner type byte: exactly the list of that type gets the parsed body at the place of its TLV; an update in error and other types get no place, and the other lists stay |
| Mirroring.OtherTlvIsNotListed | yabmp/message/bmp.py:233-241 | a TLV of another type can be taken out without a change to the lists |
| Mirroring.MirroredUpdateIsListed | yabmp/message/bmp.py:205-217 | a mirrored update without error stands in the list where its TLV stands, parsed from the bytes behind its 19-byte header |
| Mirroring.SortedConcat | yabmp/message/bmp.py:201-232 | the lists of a concatenation are the concatenated lists: order is kept |
| Mirroring.ListsPartition | yabmp/message/bmp.py:210-232 | every kept message is in exactly one list once, dropped ones in none |
| RouteDistinguisher.RdTextRoundTrip | yabmp/message/bmp.py:60-67 | for types 0, 1 and 2 a parser that knows the type recovers all six value bytes from the text |
| RouteDistinguisher.RdExactly | yabmp/message/bmp.py:59-69 | octet by octet, for every type; above type 2 all eight bytes are kept |
| RouteDistinguisher.DecExample | yabmp/message/bmp.py:61 | numbers are printed as plain decimal text |
| RouteDistinguisher.SharedText | yabmp/message/bmp.py:60-67 | two distinguishers have the same text exactly when both or neither are dotted and both numbers agree |
| PeerHeader.FlagsExactly | yabmp/message/bmp.py:116-126 | the text comparison accepts a flag byte exactly when its low five bits are zero, and gives V, L and A from the top three |
| PeerHeader.AddressExactly | yabmp/message/bmp.py:132-136 | with V the address is any 128-bit value, without V decoding needs the top twelve bytes zero |
| PeerHeader.HeaderExactly | yabmp/message/bmp.py:97-145 | a 42-byte header decodes exactly under the three conditions, and then every field is the number at its offset |
| PeerHeader.HeaderLayout | yabmp/message/bmp.py:109-145 | in offsets and numbers for 39 to 42 bytes: when a header decodes, and every field, with microseconds cut short read from what is there |
| PeerHeader.ShortHeaderFails | yabmp/message/bmp.py:142-143 | below 39 bytes no header decodes |
| PeerHeader.HeaderRoundTrip | yabmp/message/bmp.py:97-145 | re-encoding a decoded header with its distinguisher gives the 42 bytes back |
| PeerHeader.FieldsRoundTrip | yabmp/message/bmp.py:97-145 | decoding an encoded header gives all fields back |
| PeerHeader.DecodeAlike | yabmp/message/bmp.py:128-145 | two headers decode alike exactly when they differ at most in a distinguisher that is ignored or shares text |
| PeerUp.PeerUpSplit | yabmp/message/bmp.py:353-378 | address and ports are recovered and each OPEN body goes to the OPEN parser exactly, when the first message carries its own size |
| PeerUp.PeerUpExactly | yabmp/message/bmp.py:353-378 | every byte string, cut short anywhere: an exception below 38 bytes, else address, ports and the two parser calls by offset |
| PeerUp.SplitExactly | yabmp/message/bmp.py:365-369 | for any two messages with headers, both parser calls get their own body if and only if the first length field is the size of the first message |
| Message.PeerDownExactly | yabmp/message/bmp.py:303-327 | a reason decodes to itself, reason 1 only if its NOTIFICATION parses, an unknown one never |
| Message.RouteMonitoringExactly | yabmp/message/bmp.py:159-182 | an update gives its three parts, or nothing if in error, a route refresh its three fields, other messages nothing; a parser that raises, or no type byte, raises |
| Message.ConsumeAgrees | yabmp/message/bmp.py:450-476 | a result is of the type that was announced and carries the header of the first 42 bytes |
| Message.InformationMessages | yabmp/message/bmp.py:472-476 | on every byte string types 4 and 5 raise exactly on left-over bytes, else give the last values under the names of initiation, and of termination |
| Message.BmpMessage.Consume | yabmp/message/bmp.py:450-476 | per-peer types swallow failures and give None, initiation and termination let them out |
| Message.BmpMessage.Dispatch | yabmp/message/bmp.py:456-465 | each per-peer type goes to its own parser |
| LogFile.LinesAppend | yabmp/handler/default.py:103 | appending a line to a file of complete lines adds one line and changes none |
| LogFile.LinesSplit | yabmp/handler/default.py:141-142 | a line ends behind the first byte 10 or with the file |
| LogFile.ScanBack | yabmp/handler/default.py:130-141 | the block scan ends with the whole file or a suffix of two newlines, in spite of what a short block reads twice |
| LogFile.ScanLastLine | yabmp/handler/default.py:130-143 | for every non-empty file the backward block scan gives the last line of the whole file, with or without final newline; the empty file raises |
| Handler.LeqExactly | yabmp/handler/default.py:91-92 | names are sorted by character: a beginning comes first, else the first difference decides |
| Handler.FirstDifferenceDecides | yabmp/handler/default.py:91-92 | with a greater character at the first difference a name is strictly later |
| Handler.LatestIsUnique | yabmp/handler/default.py:91-93 | the file taken is the one whose name no other exceeds |
| Handler.AppendGrowsOneFile | yabmp/handler/default.py:103 | writing grows the named file at its end and no other |
| Handler.DefaultHandler.constructor | yabmp/handler/default.py:44-47 | a process start has empty memory and the disk as it is |
| Handler.DefaultHandler.GetLastSeq | yabmp/handler/default.py:124-149 | one more than the number in the last line, 1 if that does not evaluate, an exception on an empty file |
| Handler.DefaultHandler.FindLatest | yabmp/handler/default.py:91-94 | name and next number of the latest file, or an exception without files or on an empty one |
| Handler.DefaultHandler.StartPeer | yabmp/handler/default.py:77-95 | the entry is filled from a new or the latest file, or left without number and file by an exception |
| Handler.DefaultHandler.StartNewPeer | yabmp/handler/default.py:81-95 | an unknown peer gets a directory, an empty file named by the time and number 1 |
| Handler.DefaultHandler.StartKnownPeer | yabmp/handler/default.py:88-95 | a peer with a directory goes on after its latest file, or stays without number and file |
| Handler.DefaultHandler.Write | yabmp/handler/default.py:96-121 | one numbered line in the entry's file and the counter one up, or nothing for a half-filled entry |
| Handler.DefaultHandler.OnMessageReceived | yabmp/handler/default.py:71-121 | the whole new state of memory, disk and history for every message and every prior state |
| Runs.NothingIsLost | yabmp/handler/default.py:71-121 | over every run with restarts from an empty write directory the lines written are, one for one and in order, those of the messages of types 0 to 3 that arrived, with their sender, address and content |
| Runs.RunsAreConsistent | yabmp/handler/default.py:71-121 | over every such run every peer directory holds one file made of exactly the lines written to it, and every entry is filled and writes to a file of its own address |
| Runs.EntriesNeverShareFiles | yabmp/handler/default.py:76-95 | in every such run two peer entries never write to the same file |
| Numbering.NumberedExactly | yabmp/handler/default.py:71-149 | any single run is numbered 1 to n in every file if and only if every number read off the disk was one more than the lines there, and then every entry counts on correctly |
| Numbering.ReadsRightExactly | yabmp/handler/default.py:143-149 | in every consistent state a number is read right exactly when the last line of the file evaluates to the number of lines written there |
| Numbering.RunsAreNumbered | yabmp/handler/default.py:71-149 | a run whose written lines are good is numbered, and every entry counts on correctly |
| Numbering.FilesAreNumbered | yabmp/handler/default.py:71-149 | the same read off the disk: each file splits into lines that evaluate to 1 to n, and every entry writes n + 1 next |
| Numbering.FilesNumberedExactly | yabmp/handler/default.py:71-149 | when no line written has a break, the files read back as 1 to n if and only if every line written evaluates back to its own number |
| Numbering.ReceivableRunsAreNumbered | yabmp/handler/default.py:71-149 | when every line that receivable messages can lead to at the times of the clock is good, every run of them is numbered and all its lines are good |
| Numbering.BadLineBreaksNumbering | yabmp/handler/default.py:144-149 | for any single line that a receivable message leads to at one of the given times and that does not evaluate back, there is a clock of these times and a run of receivable messages that is numbered wrongly |
| Numbering.NumberedExactlyWhenLinesEvaluate | yabmp/handler/default.py:71-149 | for any set of times, and lines without breaks: all runs of receivable messages under all clocks of these times are numbered if and only if every line they can cause at them evaluates back |
| Runs.OwnDirectoryExactly | yabmp/handler/default.py:76-80 | every line lies under the host that sent it if and only if no two hosts report one address between restarts |
| Runs.SharedAddressMisfiles | yabmp/handler/default.py:76-80 | two messages that violate it |
| Systems.BytesMisfile | yabmp/handler/default.py:76-80 | for any parsers there are connections and bytes whose second line lands under the first host |
| Runs.ResumesAfterLatest | yabmp/handler/default.py:88-121 | on any disk a known peer goes on in the file with the greatest name, after the number in its last line or at 1; other files, peers and directories stay |
| Runs.GreaterNameGoesOn | yabmp/handler/default.py:88-95 | of two files, listed in any order, the one with the greater character at the first difference of the names goes on; the other stays |
| Runs.StartsNewFile | yabmp/handler/default.py:81-105 | the first message of a peer without a directory makes one file, named by the time with .msg, with one line that has number 1, and nothing else changes |
| Runs.KnownPeerGoesOn | yabmp/handler/default.py:96-121 | a message of a peer in memory adds one line with its number and the time to the end of its file, and nothing else changes |
| FileNames.NamesFollowTimes | yabmp/handler/default.py:86-93 | for times with equally many digits before the point an earlier time has a smaller file name, whatever the digits behind the point |
| FileNames.NamesFollowTimesExactly | yabmp/handler/default.py:86-93 | a time with fewer digits is named first if and only if its digits are not above the leading digits of the other |
| FileNames.NineBehindTen | yabmp/handler/default.py:86-93 | 9.5 is named behind 10.5 |
| FileNames.ResumesAtLatestTime | yabmp/handler/default.py:88-121 | in a directory of files named by such times a known peer goes on in the file of the latest time, after its last number; the others stay |
| Continuation.RunsGrowLatest | yabmp/handler/default.py:71-121 | from any state, on any disk, over every run with restarts and for any str, eval and clock: in a directory that is new or has a latest file with something in it, the other files stay, the latest stays the latest and grows at its end by exactly the records written to the directory |
| Continuation.RunsContinueExactly | yabmp/handler/default.py:71-149 | from any state in step with a directory, over every run with restarts whose lines there have no breaks: the latest file, earlier lines included, stays numbered 1 to n if and only if every line added evaluates back to its number, and then the entry counts on correctly |
| Continuation.DiskContinuesExactly | yabmp/handler/default.py:71-149 | for a process start on a disk of any number of files: all latest files are numbered after a run with unbroken lines if and only if every line written evaluates back |
| Runs.HalfInitialisedExactly | yabmp/handler/default.py:78-95 | when a message leaves an entry without number and file |
| Runs.HalfInitialisedNeverWrites | yabmp/handler/default.py:77-121 | such a peer writes nothing, whatever arrives, until a restart, on any disk |
| Runs.HalfInitialisedReadsClock | yabmp/handler/default.py:96-99 | such a message only reads the clock before the missing number raises |
| Runs.OtherPeersUntouched | yabmp/handler/default.py:76-121 | a message changes no entry, file or line of another address |
| EndToEnd.SessionIgnoresChunking | yabmp/core/protocol.py:74-137 | buffer, memory, disk and lines are one fold of frame, decode and log over the concatenated bytes, for every chunking |
| EndToEnd.ReceiveChunks | yabmp/core/protocol.py:74-137 | a session object fed any chunks ends, with its handler and disk, as that fold says |
| EndToEnd.EncodedSession | yabmp/core/protocol.py:74-137 | encoded messages in any pieces are logged as if handed over directly |
| EndToEnd.LogAgreesWithDecoder | yabmp/core/protocol.py:121-127 | from any state, the lines added for an address are exactly its decoded messages of types 0 to 3, in order, numbered consecutively; none if its entry cannot be filled |
| EndToEnd.FilesGrowByLines | yabmp/handler/default.py:95-121 | where every entry's file exists, from any such state the file of an address grows by exactly its new records, rendered, at its end |
| EndToEnd.RunsKeepFiles | yabmp/handler/default.py:77-95 | every run from an empty write directory keeps the file of every entry in existence and its entries in files of their own address, as the session results ask |
| EndToEnd.EndToEnd | yabmp/core/protocol.py:74-137 | the same bytes in any pieces under any two clocks, from the same state: the same buffer, and for every address the same lines apart from the time |
| EndToEnd.EndToEndOnDisk | yabmp/core/protocol.py:74-137 | the same on the disk: under both clocks the file of an address grows by its new lines, which agree |
| EndToEnd.SilentFrameIsHarmless | yabmp/core/protocol.py:120-137 | a message that fails to decode or is not logged can be taken out of any stream, at any frame boundary and of any length, and memory, disk and lines are the same |
| EndToEnd.HangLogsNothing | yabmp/core/protocol.py:80-137 | when a zero length is reached, any number of passes leaves the log as the frames before it left it |
| Systems.SessionsFollowStreams | yabmp/core/protocol.py:74-137 | every connection's session is where one reception of all its bytes would have left it |
| Systems.LifecycleExactly | yabmp/core/protocol.py:33-40 | a connection starts with an empty buffer, a lost one is gone and its number takes no bytes, a restart forgets connections and peers and keeps the disk; other connections stay |
| Systems.SystemIsRun | yabmp/core/factory.py:28-41 | from any memory and disk, what the system does to the log is the run of the messages its bytes decode to and of its restarts |
| Systems.RunIsSystem | yabmp/core/factory.py:28-41 | from any memory and disk, every run of receivable messages is what some connections and bytes do |
| Systems.SystemLosesNothing | yabmp/core/protocol.py:120-127 | for any connections, bytes, pieces, interleaving and restarts: one line for each decoded message of types 0 to 3, in order, no other line, and files made of exactly these lines |
| Systems.SystemFilesAreNumbered | yabmp/handler/default.py:71-149 | for the same histories, with nothing assumed of str and eval: if every line written is good, every file on disk is numbered 1 to n and every entry goes on with the next number, and when the lines have no breaks only if |
| Systems.SystemContinues | yabmp/handler/default.py:71-149 | the same from any memory and disk: for any connections, bytes and restarts the latest file of a directory grows by exactly the records these bytes lead to there, other files stay, and if it was in step it stays numbered if and only if these lines are good |
| Systems.SystemNumberedExactly | yabmp/handler/default.py:71-149 | for any set of times, and lines without breaks: all histories under all clocks of these times are numbered if and only if every line that bytes can cause at them evaluates back |
| Systems.AddressFollowsItsConnection | yabmp/handler/default.py:71-121 | when no other connection reports an address, its records are those of its own connection's streams decoded by themselves, whatever the chunking, interleaving and restarts |
| Wire.ConsumeEncoded | yabmp/message/bmp.py:450-476 | an encoded per-peer message decodes to its header and the decoding of its body |
| Wire.UpdateIsLogged | yabmp/handler/default.py:96-105 | an encoded route monitoring message with an update, in any pieces, is one line of code 130 with the parsed route and the next number |
| Wire.RefreshIsLogged | yabmp/message/bmp.py:175-182 | an encoded route monitoring message with a route refresh is one line of code 130 with its three fields and the next number |
| Wire.NoRouteIsLogged | yabmp/message/bmp.py:163-174 | with an update in error or any other BGP message it is one line of code 130 without a route |
| Wire.CountersAreLogged | yabmp/handler/default.py:106-110 | an encoded statistics report is one line of code 129 with the last value of each counter type |
| Wire.PeerDownIsLogged | yabmp/handler/default.py:111-115 | an encoded Peer Down with a known reason is one line of code 3 with that reason |
| Wire.PeerUpIsLogged | yabmp/handler/default.py:117-121 | an encoded Peer Up is one line of code 1 with the received OPEN message |
| Wire.OtherTypesLogNothing | yabmp/handler/default.py:74-75 | a message of types 4 to 6, whatever it holds, leaves memory, disk and clock alone |
| Wire.CutShortLogsNothing | yabmp/message/bmp.py:450-471 | a message of types 0 to 3 cut short in its header or in the fixed part of its body leaves memory, disk and clock alone |
| Wire.RejectedLogsNothing | yabmp/message/bmp.py:450-471 | so does one whose BGP message the parser rejects, and a Peer Down with a reason other than 1 to 4 |
| Wire.MirroringIsDecoded | yabmp/message/bmp.py:196-249 | encoded route mirroring decodes to its header and the lists and entries of its TLVs, or to None if a TLV raises |
| Channel.QueueIsConserved | yabmp/channel/protocol.py:59-64 | over every interleaving, messages attempted followed by messages queued are the messages submitted, and a finished, connected current client leaves nothing queued |
| Channel.AttemptsByConnected | yabmp/channel/protocol.py:59-64 | every attempt is made by a client that is connected at that moment |
| Channel.HistoryDecides | yabmp/channel/protocol.py:34-48 | over every history: the client built last is current, a client is connected exactly if its channel opened while it waited for it and it was not lost since, and its coroutine waits for what the history says |
| Channel.FlushesExactly | yabmp/channel/protocol.py:42-64 | told by the history alone: a submission with the last client connected, and the end of the setup of a connected client, send the whole queue in order through that client; every other event leaves queue and attempts as they are |
| Channel.LostClientHolds | yabmp/channel/protocol.py:78-85 | after the loss of the current client a submission waits behind the queue and nothing is attempted |
| Channel.LostForGood | yabmp/channel/protocol.py:36-85 | after its loss a client never attempts anything again, whatever follows, if and only if it was not still waiting for its channel |
| Channel.NewClientHolds | yabmp/channel/factory.py:42-63 | until the channel of a new client opens, submissions wait |
| Channel.SubmitFlushesExactly | yabmp/channel/factory.py:58-63 | a submission empties the queue exactly when the current client is connected |
| Channel.ReconnectFlushes | yabmp/channel/protocol.py:37-48 | building, opening and setting up a client in a row sends everything that piled up, through that client |
| Channel.PikaFactory.constructor | yabmp/channel/factory.py:33-37 | no client, nothing queued |
| Channel.PikaProtocol.Send | yabmp/channel/protocol.py:59-64 | a connected client takes every queued message off the queue in order and attempts it; an unconnected one does nothing |
| Channel.PikaProtocol.SendMessage | yabmp/channel/protocol.py:66-76 | the message is attempted, and a publish call is made exactly when it can be serialised |
| Channel.PublishesExactly | yabmp/channel/protocol.py:66-76 | every attempt in its place is one publish call with the exchange, the key and the serialised body of its message, or none if the body cannot be serialised |
| Channel.PikaFactory.BuildProtocol | yabmp/channel/factory.py:42-48 | a new, unconnected client replaces the current one; old ones stay |
| Channel.PikaFactory.SendMessage | yabmp/channel/factory.py:58-63 | the message is queued under its own or the default key, and sent if the client is connected |
| Channel.PikaFactory.OnChannelOpen | yabmp/channel/protocol.py:39-41 | the client counts as connected before its setup |
| Channel.PikaFactory.OnSetupDone | yabmp/channel/protocol.py:42-48 | the end of setup sends what waits, through this client |
| Channel.PikaFactory.OnFailed | yabmp/channel/protocol.py:36-48 | an exception ends the coroutine and changes nothing else |
| Channel.PikaFactory.OnLost | yabmp/channel/protocol.py:78-85 | the client is no longer connected, the queue stays |

## Left out

- Receiver.Bmp.DataReceived: asks for data with which the drain loop ends, because a method that loops for ever has no end state; the condition is exactly that of `Framing.LoopEndsUnlessZeroLength`, each single pass (`Receiver.Bmp.ParseBuffer`) is specified without it, and `EndToEnd.HangLogsNothing` says what the endless passes do.
- Receiver.Bmp.DrainBuffer: the same condition, for the same reason.
- EndToEnd.ReceiveChunks: the same condition on the whole stream. In `Systems` a connection that reaches a zero length stays at that header while other events go on, where the real process would hang; every history of the process is a history of that model.
- Handler.DefaultHandler.OnMessageReceived: no disk errors and no crashes between two statements; the directory made for a host when it connects is implied by the peer directories below it; the directory of a peer is the pair of host and address, not the joined path text, and the closing and deletion of open files is not modelled.
- The branch for pre-policy routes at yabmp/handler/default.py:100-102, which the test before it never takes.
- The parsers of the yabgp library: arbitrary functions that may fail, with results kept as text.
- The text of IP addresses other than inside distinguishers: an address is its version and value. The text of a distinguisher of unknown type is kept as the bytes it prints.
- Python's `str` and `eval`: arbitrary functions; that they give good lines is a condition of the numbering results, not proved.
- Clock values: the results hold for every clock.
- Logging, configuration, command line, hooks, the reactor and the factory wiring.
- The blocking consumer and publisher of the message broker, and the example handler: connection plumbing with easy facts only.
- What the broker does with a publish call, and an exception out of the call itself, which is only logged: an attempt is a message taken off the queue for publishing, and a call is made when `json.dumps` accepts it.
- The unused options and fields: the maximal file size, the session's own peer dictionary, the message's version.

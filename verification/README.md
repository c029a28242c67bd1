# Wirecat, modelled in Dafny

Wirecat is a stream and session utility. This project models the state machines
its I/O runs on, and proves what every run of them keeps. System calls (`poll`,
`read`, `write`, `accept`, allocation) answer freely inside the models, so a
statement about a run is a statement about every behaviour of the descriptors.

What is proved, by component:

- **Broker** (`Kernel`, `Chat`, `Broker`). The trace of what the descriptors saw is
  the specification, and no step takes anything back from it. In every reachable state,
  for every connection in the table, the octets written to it followed by its queue are,
  in order, the payloads broadcast by the others since it joined; a connection that is
  gone got a prefix. What is broadcast for a client is exactly what it sent, through the
  chat formatter or not, and reads back as what it sent. A client leaves only for a cause,
  and all that a poll reports is acted on. No descriptor is used or closed twice after its close, none leaks, and poll
  events are applied to the connection they were reported for.
- **Relay** (`Relay`). Bytes are conserved in both directions at the loop head and on
  every return of 0, a failed write leaves a proper prefix, and the half-close
  protocol holds at every point of every trace.
- **Multi-session control plane** (`Navigation`, `Commands`, `Sessions`, `Splitter`,
  `LineEditor`, `Typing`, `Attached`, `Echo`, `Console`). Ids never alias until the 32-bit counter wraps,
  and exactly until then; next and previous are a cyclic order; the line splitter, the
  line editor with its history, the hold-back of detach words and the echo filter each
  refine a specification over the whole input stream, independent of how it is cut
  into reads. What the keys of the editor do is proved from the octets typed to the line
  handed on, and what commands do from the text of the line. `Console` puts them together: of all that standard input yields, every octet
  goes once and in order to the lines, which are what the control plane executes, or to an
  attached session, which is sent exactly what attached mode passes on.
  The active id names a live session, exactly until an active session refuses an `:all`.
- **Parsers and codecs** (`Cidr`, `Access`, `Connect`, `Alpn`, `JsonLog`). CIDR
  matching is integer arithmetic; access lists are unions of blocks; a CONNECT request
  and its answer round-trip between the two ends; ALPN selection finds the first
  offered name; JSON logs read back line by line.

`Text` holds the C library routines that several modules share, `Traces` the histories.
An octet of a text buffer is a Dafny `char`; nothing depends on it being below 256. Where
the source keeps a C array of structs, the model keeps a class or an array with the same fields;
buffers that are moved in place stay arrays, except the broker's heap queue, which is
a `seq` whose length is the allocated size.

## Model

| member | source | states |
|---|---|---|
| Broker.Client.QueueBytes | src/broker.c:147-172 | queues all of the payload behind what is pending or none of it; refuses exactly when the limit is exceeded or memory runs out; offsets stay in bounds |
| Broker.Client.Flush | src/broker.c:174-196 | written octets followed by the queue are unchanged as one string; only this connection is written to; unless a write is refused the queue ends up empty |
| Broker.Client.Drop | src/broker.c:38-47 | closes an open descriptor once and resets the slot fully |
| Broker.Client.FormatChatMessage | src/broker.c:90-145 | the message and the new line_start are the formatter's on the whole chunk; it fails only when memory ran out |
| Broker.Broker.TryQueue | src/broker.c:337-341 | the payload is queued exactly when it fits the limit and memory is granted; the delivery invariant holds with or without the slot accordingly |
| Broker.Broker.QueueFor | src/broker.c:347-353 | the receiver has the payload behind its queue, or is dropped because it does not fit or memory ran out; the delivery invariant moves on by one slot |
| Broker.Broker.FanOut | src/broker.c:347-353 | after a broadcast the delivery invariant holds; with memory to spare the queue of every slot is the prescribed one: sender and free slots untouched, receivers extended by all of the payload, dropped exactly when it does not fit |
| Broker.Broker.Compose | src/broker.c:327-336 | what is to be broadcast for a chunk is exactly what extends the client's formatted stream; a refusal only when memory ran out |
| Broker.Broker.Relay | src/broker.c:327-354 | a chunk that was read reaches the queues of all others; a failed format drops the sender with a prefix broadcast |
| Broker.Broker.Receive | src/broker.c:313-354 | end of stream and errors drop the client, a read that would block changes nothing, and what was read reaches the queues of all others, raw or formatted with the line state carried; the invariant holds again, and with no read ended, no payload too large and memory to spare every client keeps its descriptor |
| Broker.Broker.HandleEvents | src/broker.c:305-354 | the events used were reported for the connection in the slot; an error drops it, writable means its queue is written out unless refused, and reported input is taken up; with no error, no read ended or failed, no write failed and nothing refused for size or memory, every client keeps its descriptor, what was read is appended to what this one received and its payload to what every other connection is owed |
| Broker.Broker.ServeSlot | src/broker.c:288-304 | looking a descriptor up in the poll table finds the entry of the same connection; afterwards nothing that was reported for a slot up to this one is left, and without a cause nobody lost the descriptor |
| Broker.Broker.BuildPollSet | src/broker.c:237-252 | every live client is polled exactly once, for output exactly when its queue is not empty |
| Broker.Broker.AcceptPeer | src/broker.c:265-287 | an admitted peer takes the first free slot with the next id and is owed nothing, or is closed when there is none; no other connection changes |
| Broker.Broker.Iterate | src/broker.c:236-355 | a turn polls once, keeps the invariant and only adds to the trace; unless a peer was refused, every waiting peer, error, input and writable queue that was reported has been acted on; without a read that ended or failed, a failed write, an error event, a payload too large or memory refused, every live client keeps its descriptor |
| Broker.Broker.Serve | src/broker.c:236-356 | any number of turns of the event loop keeps the delivery invariant and only adds to the trace, so what a connection got is a prefix of what it gets later; each turn polls, only a failed poll ends it early, and clients leave only for a cause |
| Broker.Broker.Run | src/broker.c:198-364 | at the end of every run the trace extends the one before it, no descriptor is open, every slot is reset and every connection got a prefix of what it was owed; the status is 1 exactly when polling failed |
| Broker.Broker.DeliveredAndQueued | src/broker.c:147-196 | in every reachable state, from the trace alone: octets written to a live client followed by its queue are, in order, the payloads broadcast by others since it joined, and what was broadcast for it is its formatted input |
| Kernel.HistoryGrows | src/broker.c:174-196 | what a connection sent, got and was owed at one moment is a prefix of the same at a later one |
| Broker.ExpectedGrows | src/broker.c:327-346 | reading one more chunk extends what must have been broadcast by the formatted chunk |
| Broker.BroadcastReadsBack | src/broker.c:327-346 | what was broadcast for a client reads back as what it sent, in chat mode but for backslashes |
| Chat.FormatHomomorphism | src/broker.c:90-145 | formatting chunk by chunk with line_start carried is formatting the whole stream |
| Chat.PlainTextPasses | src/broker.c:114-141 | text without control octets but tabs comes through unchanged |
| Chat.ChatReadsBack | src/broker.c:90-145 | a reader that drops the label of each line and undoes the escapes gets back what was typed, for everything without a backslash |
| Chat.BackslashCollides | src/broker.c:114-141 | with a backslash no reader can: a typed backslash and r show as a carriage return does |
| Chat.EveryLineLabelled | src/broker.c:103-119 | every output line begins with the sender's label |
| Chat.LabelsAttribute | src/broker.c:104 | a line cannot begin with the labels of two clients |
| Chat.FormatHasNoControls | src/broker.c:114-141 | no control octet but tab and newline is sent on |
| Chat.FormatKeepsNewlines | src/broker.c:114-119 | the number of newlines is unchanged |
| Chat.FormatLength | src/broker.c:100-143 | at most four octets per octet and one label per started line |
| Chat.LabelShape | src/broker.c:104-106 | a label has no control octet and at most 19 octets |
| Chat.NextCapacity | src/broker.c:66-73 | the doubling loop ends, covers the need, does not pass SIZE_MAX and at most doubles the need |
| Chat.GrowBuffer.Append | src/broker.c:49-83 | appends all or nothing; refuses only on overflow or failed allocation |
| Relay.Relay.FullWrite | src/util.c:42-61 | the octets gone out are the prefix its return value says; a negative return is never a complete write; complete unless a write was refused; the write descriptor is open |
| Relay.Relay.PumpOnce | src/relay.c:133-158 | 1 conserves, 0 ends the source, -1 leaves a proper prefix and only after a refused write; the other direction is untouched |
| Relay.Relay.ShutdownWrite | src/relay.c:32-48 | may be called only once, after the opposite ended and everything was delivered; a separate write descriptor is gone afterwards; -1 exactly when the shutdown call failed |
| Relay.Relay.HandleEnd | src/relay.c:182-190 | the end of one stream half-closes the other once and stops the relay exactly with close_on_eof; the other direction goes on |
| Relay.Relay.Forward | src/relay.c:177-192 | one pump with its end-of-stream handling keeps conservation and the half-close state |
| Relay.Relay.Turn | src/relay.c:170-263 | one turn only adds to the trace, keeps the loop invariant, under which no reported input is left unread, or finishes with the guarantees of its outcome; a broken write, a failed tick, a failed poll and a timeout are the outcome exactly when a write was refused, a tick or poll failed or a poll stood for the timeout; unless a tick failed both streams are ticked and either pending input is forwarded or there is one poll, with the right wait |
| Relay.Relay.Run | src/relay.c:160-265 | every way the relay returns: the trace extends the one before; conservation on 0, proper prefix on a broken write, end only by close_on_eof, both ends, timeout or stop; each early end exactly when its cause came up since the start, -1 exactly for three of them; with no write refused, no tick or poll failed, no timeout and no end of a stream all turns are used; a stream was half-closed exactly when its opposite ended and it can be |
| Relay.UnreportedTimeout | src/relay.c:216-232 | a configured timeout of a second with a TLS stream is reported in no run |
| Relay.PlainRelay | src/relay.c:160-265 | between two plain sockets no tick fails, -1 is returned exactly when a write was refused or a poll failed, and otherwise the relay goes on while both streams do |
| Relay.Relay.CopyStream | src/relay.c:267-278 | 0 delivers everything read up to the end or a stop, -1 a proper prefix after a refused write |
| Relay.ShutAtMostOnce | src/relay.c:182-190 | in every orderly trace a stream is half-closed at most once |
| Relay.HalfCloseIsFinal | src/relay.c:182-190 | of two moments of one run: after a half-close nothing more is written, and all the opposite ever yields was delivered before it |
| Relay.FlowGrows | src/relay.c:133-158 | what was read and written at one moment is a prefix of what is read and written at a later one |
| Splitter.SplitParts | src/main.c:1022-1040 | lines and rest give back the input; each line ends at its only newline or is 8192 octets without one; the rest has no newline and leaves room |
| Splitter.SplitUnique | src/main.c:1022-1040 | no other cut into lines and rest exists |
| Splitter.SplitResumes | src/main.c:1008-1041 | splitting may stop anywhere and resume with the rest |
| Splitter.LineReader.HandleStdin | src/main.c:1008-1041 | after any reads, the lines dispatched and the octets kept are the split of everything read |
| Splitter.LineReader.Feed | src/main.c:1015-1021 | for every partition into reads the result is the same split, and every read has room |
| LineEditor.HistoryFold | src/main.c:1056-1079 | over every key sequence the history is the last 64 submitted non-empty lines, cut at 8191 octets, consecutive repeats collapsed |
| LineEditor.CollapsedIs | src/main.c:1056-1079 | the history fold is the list of kept lines with every element that its like follows left out |
| LineEditor.KeptIs | src/main.c:1056-1070 | of a line all but its line ends is kept, up to 8191 octets, and of line ends nothing |
| LineEditor.UpRecalls | src/main.c:1081-1114 | n times up recalls the n-th latest line, stopping at the oldest |
| LineEditor.TypedLineIsSubmitted | src/main.c:1245-1275 | typing any text and a line end hands on exactly that line |
| LineEditor.PressAllConcat | src/main.c:1181-1276 | key sequences compose |
| LineEditor.DecodeResumes | src/main.c:1184-1243 | decoding octets to keys may stop anywhere and resume in the escape state reached |
| LineEditor.HistoryAfter | src/main.c:1056-1079 | whatever octets were typed, the history is the bounded collapsed fold of the lines submitted |
| LineEditor.InputLine.HistorySave | src/main.c:1056-1079 | the bounded history after one line |
| LineEditor.InputLine.HistoryLoad | src/main.c:1081-1114 | recalling is the abstract editor's up or down; history_pos stays in range |
| LineEditor.InputLine.HandleKey | src/main.c:1116-1160 | each named key is its zipper operation |
| LineEditor.InputLine.InsertChar | src/main.c:1267-1275 | inserting at the cursor is the zipper's insert, refused when the buffer is full |
| LineEditor.InputLine.EraseChar | src/main.c:1259-1266 | erasing is the zipper's erase |
| LineEditor.InputLine.Submit | src/main.c:1247-1258 | the whole text is saved and handed on, and the editor is empty |
| LineEditor.InputLine.HandleEscape | src/main.c:1184-1243 | the escape automaton decodes to the same keys and state |
| LineEditor.InputLine.HandleStdin | src/main.c:1162-1277 | after any octets in any cut into reads, buffer, cursor, escape state and history are those of the abstract editor after the whole stream, and the history is the fold of what was submitted; the new lines are handed on |
| Typing.LeftArrows | src/main.c:1116-1277 | after typing a and b, as many left arrows as b is long, a character c and Enter hand on a, c, b and a newline, however the arrow is spelled |
| Typing.RightArrows | src/main.c:1116-1277 | right arrows undo left ones: a character typed after them goes in where they lead |
| Typing.HomeKeys | src/main.c:1116-1277 | after any spelling of Home what is typed goes to the front of the line |
| Typing.EndKeys | src/main.c:1116-1277 | after any spelling of End it goes to the back |
| Typing.EraseKeys | src/main.c:1116-1277 | octets 8 and 127 take the character before the cursor, at the end or inside the line |
| Typing.FullLine | src/main.c:1247-1275 | a line of 8192 octets takes no more and is handed on without a line end |
| Typing.UpAndDown | src/main.c:1081-1160 | n ups and m fewer downs recall exactly that line of the history |
| Typing.DownPastNewest | src/main.c:1081-1160 | as many downs as ups are an empty line |
| Typing.TypedLineComesBack | src/main.c:1056-1160 | a typed line is handed on, and Up brings it back |
| Typing.EditedLine | src/main.c:1116-1277 | for instance "ac", the left arrow, "b" and Enter at a fresh prompt hand on "abc" and a newline |
| Typing.ControlsIgnored | src/main.c:1245-1275 | other control octets do nothing |
| Typing.OthersIgnored | src/main.c:1184-1243 | an escape that opens no sequence and letters that name no key do nothing |
| Typing.SequencesSkipped | src/main.c:1184-1243 | sequences with other digits or with parameters are skipped whole |
| Attached.DetachMatch | src/main.c:1279-1296 | prefix exactly when the line may become a detach word, exact exactly when it is one |
| Attached.FirstDetachMeaning | src/main.c:1419-1437 | a stream detaches exactly when a complete line of it is a detach word |
| Attached.AttachedInput.Attach | src/main.c:833-836 | the account of typed and sent text starts afresh, and counts exactly from a line boundary |
| Attached.AttachedInput.HandleEol | src/main.c:1419-1449 | a held detach word detaches with nothing sent; otherwise held text and newline go out; in both cases the line, the expected echo and what was sent are the account's |
| Attached.AttachedInput.HandleText | src/main.c:1451-1472 | text is held exactly while it may detach, and nothing is dropped when it no longer can |
| Attached.AttachedInput.HandleControl | src/main.c:1396-1417 | Ctrl-] detaches and clears line and echo, backspace shortens the line, other octets pass |
| Attached.TextStaysRight | src/main.c:1451-1472 | a text octet keeps sent and held text equal to the typed text, or what was sent before the first detach as it was |
| Attached.EolStaysRight | src/main.c:1419-1449 | a line end keeps it so, or detaches with none of its line sent |
| Attached.LinePasses | src/main.c:1419-1472 | a typed line that is no detach word arrives as it is, with a newline for either line end |
| Attached.WordDetaches | src/main.c:1279-1296 | back, :back and :detach detach, and nothing of them is passed on |
| Attached.BreakDetaches | src/main.c:1396-1404 | after any octets Ctrl-] detaches, passes nothing on and forgets the held line and the expected echo |
| Attached.StaysDetached | src/main.c:1393-1477 | nothing typed in the same read attaches again |
| Attached.ErasesHeld | src/main.c:1406-1417 | an erased octet of held text is as if never typed |
| Attached.EchoOctets | src/main.c:1316-1335 | whatever is typed, until something detaches the last 8192 octets of what was passed on are expected as echo |
| Attached.AttachedInput.HandleStdin | src/main.c:1393-1477 | for any octets cut anywhere the account is the one the octets lead to, one by one; for text: sent and held octets are the typed text with CR as LF up to the first detach, held text is a detach word's beginning, no octet of a detach line is sent; until a detach the echo to come is the end of what was sent, and the writes joined are what was sent |
| Echo.AppendsKeepSuffix | src/main.c:1316-1335 | any series of appends leaves the last 8192 octets |
| Echo.EchoPending.Append | src/main.c:1316-1335 | one append keeps the last 8192 octets of old and new |
| Echo.PrintedIsSuffix | src/main.c:1337-1361 | output is a suffix of what was received |
| Echo.SuppressInChunks | src/main.c:1344-1359 | the filter does not depend on chunking |
| Echo.ExactEchoIsHidden | src/main.c:1345-1355 | an echo with LF shown as CR LF prints nothing and empties the buffer |
| Echo.OnlyEchoIsHidden | src/main.c:1345-1355 | what is hidden is, up to CR, a prefix of what was expected, and the rest stays expected |
| Echo.HiddenIsExpected | src/main.c:1345-1355 | every hidden octet is the one expected next, or a CR ahead of an expected newline |
| Echo.ShownIsUnexpected | src/main.c:1345-1355 | the first octet shown is neither |
| Echo.EchoPending.WriteOutput | src/main.c:1337-1361 | the loop prints what the filter prescribes, or a proper prefix when standard output fails |
| Navigation.FindById | src/main.c:461-471 | the first live session with the id, or none when no live session has it |
| Navigation.FirstSessionId | src/main.c:473-483 | the first live id, 0 when there is none |
| Navigation.NextSessionId | src/main.c:485-500 | the cyclic successor among the live ids, the first when the active id is stale |
| Navigation.PrevSessionId | src/main.c:502-522 | the cyclic predecessor among the live ids, the first when the active id is stale |
| Navigation.FirstByPlace | src/main.c:473-483 | the first id is that of the live session lowest in the table |
| Navigation.NextByPlace | src/main.c:485-500 | the next id is that of the next live slot, or of the first after the last |
| Navigation.PrevByPlace | src/main.c:502-522 | the previous id is that of the previous live slot, or of the last before the first |
| Navigation.NextPrevInverse | src/main.c:485-522 | next and previous undo each other |
| Navigation.NextVisitsAll | src/main.c:485-500 | as many steps as there are sessions come back to the start and reach every session |
| Navigation.NextVisitsOnce | src/main.c:485-500 | no session is reached twice on the way |
| Commands.ReadsNumbered | src/main.c:545-563 | blanks, digits and what follows are read as the number and the rest, refused when 0 or beyond an unsigned int |
| Commands.AcceptsOnlyNumbered | src/main.c:545-563 | nothing else is accepted |
| Commands.ParsesUse | src/main.c:795-814 | :use N is read with its number |
| Commands.ParsesAttach | src/main.c:815-832 | :attach N is read with its number |
| Commands.ParsesKill | src/main.c:896-908 | :kill N is read with its number |
| Commands.ParsesSend | src/main.c:932-943 | :send N TEXT is read with its number and text |
| Commands.ParsesAll | src/main.c:959-966 | :all TEXT is read with the raw rest of the line |
| Commands.ParsesQuit | src/main.c:769-772 | :quit and :q, with any line ends, quit |
| Commands.ParsesNext | src/main.c:780-784 | :next and :n are next |
| Commands.ParsesPrev | src/main.c:785-789 | :prev and :p are previous |
| Commands.ParsesDetach | src/main.c:773-779 | :detach detaches |
| Commands.ParsesAttachActive | src/main.c:815-832 | :attach alone attaches the active session |
| Commands.ParsesRename | src/main.c:873-894 | :rename N NAME is read with its number and name |
| Commands.ParsesUseArg | src/main.c:795-814 | :u is :use for every argument |
| Commands.ParsesKillArg | src/main.c:896-908 | :k is :kill |
| Commands.ParsesAttachArg | src/main.c:815-832 | :at is :attach with an argument |
| Commands.ParsesShortAll | src/main.c:959-966 | :a is :all |
| Commands.OthersReport | src/main.c:747-1006 | any other line with a colon only reports something, and a line without one is text |
| Sessions.IdsUniqueIff | src/main.c:1632 | ids are distinct and non-zero exactly for fewer than 2^32 sessions |
| Sessions.ControlPlane.IdsNeverAlias | src/main.c:461-471 | an id resolves to the session that was given it, and live ids are distinct |
| Sessions.ControlPlane.Lookup | src/main.c:461-471 | an id finds its own session or, when it is stale, none |
| Sessions.ControlPlane.HandleInputLine | src/main.c:747-1006 | each command's effect on table, active id, attached id, and what is attempted to whom and who is closed for refusing it; in terms of the typed lines themselves, :next and :prev make the session in the next and previous live slot active, :use N, :attach N, :attach, :detach, :quit, :kill N, :rename N NAME, :send N TEXT, :all TEXT and plain text do what they say; the id invariant is kept |
| Sessions.ControlPlane.SendTo | src/main.c:932-958 | only the named session is sent the payload and, once that was taken, the newline; it is closed exactly when one of them fails, and then a first session replaces it if it was active |
| Sessions.ControlPlane.TypeLine | src/main.c:979-1005 | typed text goes to the active session and no other; it is closed exactly on failure, and the active id moves to the first session exactly when it no longer names one |
| Sessions.ControlPlane.Broadcast | src/main.c:733-745 | every live session gets the text once, in table order, exactly those that refuse it are closed, and a live active id stays one exactly when its session is not among them |
| Sessions.ControlPlane.KillSession | src/main.c:896-931 | exactly the named session leaves the table |
| Sessions.ControlPlane.RenameSession | src/main.c:873-894 | exactly the named session has the new name, cut at 31 octets |
| Sessions.ControlPlane.Join | src/main.c:1625-1640 | admitted exactly when a slot is free; the new session is a peer never seen before, the others stay, and it is active when nothing was |
| Sessions.ControlPlane.Leave | src/main.c:1685-1717 | exactly the closed peer is gone, it is no longer attached, and the active id is replaced by the first exactly when it became stale |
| Sessions.ControlPlane.HandleData | src/main.c:1719-1757 | a session ends, with its ids repaired, exactly when its first read looks like an HTTP request, and otherwise all stays |
| Sessions.ControlPlane.HandleAttached | src/main.c:1377-1384 | the pieces of attached mode go to the attached session in order and to no other, and no session is closed; a stale attached id ends the mode with nothing sent |
| Sessions.ControlPlane.Take | src/main.c:1584-1785 | one step of a run and its whole effect by kind: who joins or leaves and what becomes of the ids, a line's effect in full, and where attached input goes; what is sent reaches sessions in the table only; an active id that names a live session keeps doing so exactly unless the step is an :all that this session refuses |
| Sessions.ControlPlane.Run | src/main.c:1584-1785 | over every run, lines after an :attach in the same read included: exactly the lines of its steps are executed, in order; a session that is gone never comes back under any id still held and is never sent anything; the active id names a live session as long as no active session refused an :all |
| Sessions.RefusedAll | src/main.c:733-745 | the concrete run of one peer and one :all: the active id names a live session exactly when the peer did not refuse |
| Console.Terminal.ReadLines | src/main.c:1008-1041 | the octets that were there, up to what the read asks for, are consumed and go to the lines; the lines they complete are executed, in order |
| Console.Terminal.ReadAttached | src/main.c:1363-1477 | the octets that were there are consumed and typed; what is attempted to the attached session, and to no other, is octet for octet what attached mode makes of them, its echo expected; a stale id ends the mode with nothing read |
| Console.Terminal.Show | src/main.c:1337-1361 | the attached session's output is shown but for the expected echo; an exact echo shows nothing |
| Console.Terminal.HandleData | src/main.c:1698-1772 | output of the attached session is filtered; a first read that is an HTTP request ends its session and repairs the ids, any other leaves them; nothing of standard input is touched |
| Console.Terminal.Take | src/main.c:1584-1785 | the effect of one input: exactly the octets asked for and there are consumed, in the mode in force; a peer that joins is in the table unless that is full, one that leaves is gone with the ids repaired, and neither touches standard input |
| Console.Terminal.Run | src/main.c:1652-1668 | over every run of reads, joins, output and departures: every octet of standard input goes once, in order, to the lines or to an attached session; the lines of the former are exactly what was executed; every read takes something up to the end of input, but for those that find the session gone; no session comes back, and the active id stays live unless refused an :all |
| Console.Terminal.ExecutedIsInput | src/main.c:1652-1668 | the octets read are, in order, those routed to lines and those typed in attached mode, and what was executed is the split, or what the editor submits, of the former |
| Console.Terminal.AttachedIsTransparent | src/main.c:1363-1477 | for text from a line boundary up to a detach, what was passed on and what is held are what was typed |
| Cidr.MaskIsDivision | src/access.c:75-79 | the masked comparison of an octet is equality after division |
| Cidr.MaskIsShift | src/access.c:75-79 | the mask is all ones shifted left in an octet |
| Cidr.MatchIsArithmetic | src/access.c:67-82 | the byte comparison succeeds exactly when the big-endian numbers agree after division by 2^(W-bits) |
| Access.ParsesCidrText | src/access.c:19-65 | ADDRESS/BITS parses to that network, out-of-range lengths to none |
| Access.ParsesAddress | src/access.c:19-65 | ADDRESS alone stands for the single address |
| Access.TokenTrims | src/access.c:109-136 | blanks around an entry do not count |
| Access.MatchesConcat | src/access.c:109-136 | a list joined from two matches what either matches |
| Access.MatchesSomeEntry | src/access.c:109-136 | a list matches exactly when one of its entries does |
| Access.ValidatesIff | src/access.c:138-169 | exactly lists of well-formed entries validate, an empty last one excepted |
| Access.NothingSkipped | src/access.c:126-132 | on a validated list no non-empty entry is skipped |
| Access.ListMatches | src/access.c:109-136 | the loop decides membership in the list |
| Access.ValidateList | src/access.c:138-169 | 0 for no list or a valid one, -1 otherwise |
| Access.DenyIsAntitone | src/access.c:184-187 | more deny entries never admit more |
| Access.AllowIsMonotone | src/access.c:188-191 | more allow entries never admit less |
| Access.AdmitsIff | src/access.c:171-193 | admitted exactly when in no denied block and, given an allow list, in an allowed one |
| Access.WrittenListsDecide | src/access.c:109-193 | on lists of ADDRESS/BITS as users write them, blanks around entries included, a peer is admitted exactly when its address is in no denied block and in an allowed one |
| Access.CheckPeer | src/access.c:171-193 | the decision as the code takes it, failed lookups included |
| Connect.ReadHeader | src/proxy.c:196-220 | reads exactly up to the first blank line; fails exactly when the buffer has none, having read all that came or filled the buffer |
| Connect.MessageIsHeader | src/proxy.c:196-220 | a message's first blank line is its end, whatever follows |
| Connect.SplitsTarget | src/proxy.c:16-33 | host and port are split at the last colon |
| Connect.AcceptsPort | src/util.c:10-24 | blanks, perhaps a plus sign and digits of 1 to 65535 are a port |
| Connect.AcceptsOnlyPorts | src/util.c:10-24 | and nothing else is |
| Connect.AcceptsRequest | src/proxy.c:222-245 | CONNECT, a host and a port that fit, joined by a colon, and a space are taken for that endpoint, whatever follows |
| Connect.AcceptsOnlyRequests | src/proxy.c:222-245 | and nothing else is taken: another method, a bad port, an endpoint that does not fit or has a space are refused |
| Connect.ConnectRoundTrip | src/proxy.c:140-151 | the server takes exactly the client's request from what follows it and recovers host and port, colons and single line breaks in the host included |
| Connect.ParsesBackIff | src/proxy.c:222-245 | the parser recovers the host exactly when it has no space |
| Connect.ComesThroughIff | src/proxy.c:196-245 | the server takes exactly the request and recovers the endpoint exactly when its host has no space and no blank line |
| Connect.ServeRequest | src/proxy.c:270-274 | of every request and tail exactly the request is read and its endpoint recovered, exactly when the host has no space and no blank line |
| Connect.StatusIsRead | src/proxy.c:164-167 | the client's search finds 200 exactly when the status is 200 or the reason phrase has a 200 on its own |
| Connect.MisreadStatus | src/proxy.c:164-167 | a 502 whose phrase mentions 200 is taken for success |
| Connect.AwaitResponse | src/proxy.c:152-168 | the client reads exactly one answer and judges its status; a read that ends, fails or is interrupted early fails it, and a response that fills the buffer is judged by its first 1023 octets |
| Connect.Handshake | src/proxy.c:247-284 | for every request and tails on both sides: the server dials exactly the endpoint asked for, the client succeeds exactly when it was reached and the whole answer was written, and both tails are left unread |
| Alpn.SetAlpn | src/quic.c:42-58 | the encoding of the one configured name, or a refusal |
| Alpn.SelectAlpn | src/quic.c:60-90 | the first complete item with the name, on any octets |
| Alpn.ItemsInBounds | src/quic.c:76-88 | every item the scan considers lies inside the input |
| Alpn.ItemsOfEncoding | src/quic.c:76-88 | decoding an encoded list gives the list |
| Alpn.SelectedIffOffered | src/quic.c:76-88 | selection succeeds exactly when the name is offered |
| Alpn.SelectsFirst | src/quic.c:82-86 | and it is the first occurrence |
| Alpn.Negotiate | src/quic.c:42-90 | an offer is selected exactly by its own name |
| JsonLog.EscapeRoundTrip | src/log.c:24-43 | escaped text in quotes reads back as the original and ends at the closing quote |
| JsonLog.EscapeHasNoControls | src/log.c:24-43 | no raw control octet remains |
| JsonLog.RecordIsOneLine | src/log.c:65-72 | a record's one newline is its last octet |
| JsonLog.RecordRoundTrip | src/log.c:65-72 | a record reads back as its event |
| JsonLog.Logger.EscapeTo | src/log.c:24-43 | the loop emits the escape of the string up to its NUL |
| JsonLog.Logger.Log | src/log.c:51-76 | one record or plain line per event, of any level and time; debug events only when verbose |
| JsonLog.Logger.LogReadsBack | src/log.c:65-72 | a whole JSON log has one line per event and reads back as the events |

## Left out

- Socket creation, name resolution, processes, PTYs, signals and termios: foreign calls only.
- TLS and QUIC sessions: the relay uses a TLS stream through its write contract (all octets, or an error after some prefix) and its pending and tick answers.
- Signals are finitely many in a run, so that loops that retry after EINTR end.
- Liveness of the relay: an error-only poll event changes nothing. A configured timeout is not always reported; `Relay.Relay.Turn` says exactly when it is, and `Relay.UnreportedTimeout` is one that never is.
- SOCKS5 negotiation and proxy URLs: fixed layout, only easy members.
- Prompt drawing, colours, help, listings, hex dumps and the labels of `multi_write_output`: presentation.
- The poll table of the multi-session loop: the lookup is the broker's; inputs come to `Console` in any order.
- Attached mode is transparent for text up to the first detach only: other control octets go out ahead of held text (`Attached.ControlPasses`), and for octets behind a detach in the same read there is their effect one by one, without a law of its own.
- "The active id always names a live session" is false of the code: `:all` can close the active session and leaves the id, which then names no session. `Sessions.RefusedAll` is such a run, and `Sessions.ControlPlane.Take` has the exact condition.
- "Chat text reads back" is false of the code for backslashes, which are not escaped: `Chat.BackslashCollides`; without them it holds of every text, `Chat.ChatReadsBack`.
- "The client succeeds exactly on status 200" is false of the code: it searches the whole response. `Connect.MisreadStatus` is an answer it misreads, and `Connect.StatusIsRead` has the exact condition.
- Connect.ReadHeader: a stream is what reads yield up to the first that ends or fails; the server's retries after an interrupted read leave no trace in it.
- The client's request buffer refuses requests of 512 octets or more; `Connect.ConnectRoundTrip` speaks of those that fit.
- JsonLog.Logger.Log: the message is given as formatted text.
- Access.ParsesCidrText: `inet_pton` is any pair of partial functions to 4 and 16 octets.
- Option parsing and file transfer, with the broker's refusal of client limits outside 1 to 256: one-branch facts; the broker is modelled for any limits.

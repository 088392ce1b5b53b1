# PacketDial verification

A Dafny model of the stateful and the arithmetic parts of the PacketDial softphone, with proofs of what they keep.
Each module follows one part of the program; where the source updates an object or an array in place, a class does
the same and is proved against a specification function, and the theorems are about that function, for all inputs
and all sequences of steps.

| modules | part of the program |
|---|---|
| Bytes, ByteStreams, StandardCodec, CodecRoundTrip, CodecExact, CodecWeight, CodecEnd, CodecFormat, CodecCut, MethodCodec | the Flutter standard message codec and its method envelopes |
| TelnetNegotiation, TelnetLink, TelnetAgreement, TelnetQMethod | telnet option negotiation, one session, two sessions facing each other, and section 7 of RFC 1143 |
| TelnetOutput, TelnetConservation, TelnetInFlight | the bounded output backlog and the bytes in flight |
| TelnetHistory, TelnetLine, TelnetSession, TelnetEntered, TelnetEcho | command history, line editor, the input state machine, what a whole byte stream makes of them, and the terminal row that it echoes to |
| EngineCalls, CallRuns, EngineAccounts, AccountRuns, RecorderSlots, EngineRecording | calls at the granularity of lock sections, accounts, recording slots, and whole runs of them |
| Base64, Base64Text | encoder and decoder of section 4 of RFC 4648 |
| CliKeys, CliIndex, CliTree, CliSuccess, CliRefusal, CliFailure, CliAgreement | the CLI command tree, the flat hash that stands in for it, and what is registered or refused |
| LinkOrder | the link order of pkgconfig.py |
| SipMask, SipMaskLaws, SipMaskText, SipMaskLeaks | masking of passwords and credentials in logs |

What happens outside the program enters as parameters: how the socket answers, what PJSIP returns, how the command
layer answers a line, the clock. Where a natural claim is false of the code, the code is kept, a lemma shows the claim
failing, and its exact condition is proved:

| what fails | lemma | exact condition |
|---|---|---|
| every value round trips | CodecExact.EmptyVectorMisread | CodecExact.RoundTripsExactly |
| option negotiation is the Q method | TelnetQMethod.FollowsExactly | TelnetQMethod.FollowsExactly for one transition, TelnetQMethod.StandsExactly for whole sessions |
| submitted bytes reach the wire in order | TelnetInFlight.FlightOverwritten | TelnetInFlight.IntactExactly |
| an ended call stops counting talk time | EngineCalls.HeldCallKeepsCounting, EngineCalls.ReopenedCallCounts | EngineCalls.EndStopsExactly for one end, EngineCalls.EndedCallsStop for runs |
| the account map is the inverse of the accounts' ids | EngineAccounts.LiveIdTwice, EngineAccounts.StaleId | EngineAccounts.RegisterKeeps, EngineAccounts.ShutdownKeeps |
| an ended call leaves nothing recording | EngineRecording.RevivedCallLeavesRecording | EngineRecording.EndedCallsRecordNothing |
| a failed registration leaves no trace | CliAgreement.FailureLeavesChild | CliFailure.FailureHarmlessExactly |
| the depth cutoff changes no priority | LinkOrder.TwoCycleChains | LinkOrder.CutoffExact |
| masking a log is idempotent | SipMaskLaws.DoubleReturnLost | SipMaskLaws.MaskLogTwice |
| masking removes every password | SipMaskLeaks.SecondUriSurvives, SipMaskLeaks.SipsSurvives | SipMaskLeaks.LeaksExactly, SipMaskLeaks.LineLeaksExactly |
| the terminal shows the line that is edited | TelnetEcho.BackspaceShown | TelnetEcho.KeyShown for one key, TelnetEcho.RunShown for runs |
| the echo of a recalled command fits its array | TelnetEcho.LongLineTooLong | TelnetEcho.RecallFits |

Two branches of the source are never taken, and the model keeps them, as it keeps the three option states that no
session reaches (TelnetAgreement.AnyPeer): the one in `pjsip_on_call_media` that sets the
resume time (`core_rust/src/lib.rs:638`), and the `sips:` branch of `mask_single_uri`, whose caller looks for `sip:`
(`core_rust/src/lib.rs:925`).

## Model

| member | source | states |
|---|---|---|
| ByteStreams.ByteBufferStreamReader.ReadByte | app_flutter/windows/flutter/ephemeral/cpp_client_wrapper/byte_buffer_streams.h:29-35 | reads the byte at the position and moves on by one, or answers 0 at the end and stays; never outside the buffer |
| ByteStreams.ByteBufferStreamReader.ReadBytes | app_flutter/windows/flutter/ephemeral/cpp_client_wrapper/byte_buffer_streams.h:38-45 | copies a block that lies in the buffer, and otherwise leaves both the destination and the position alone |
| ByteStreams.ByteBufferStreamReader.ReadAlignment | app_flutter/windows/flutter/ephemeral/cpp_client_wrapper/byte_buffer_streams.h:48-53 | moves the position up to the next multiple, even past the end |
| ByteStreams.ByteBufferStreamWriter.WriteAlignment | app_flutter/windows/flutter/ephemeral/cpp_client_wrapper/byte_buffer_streams.h:86-93 | appends the zeros that bring the length to the next multiple |
| StandardCodec.StandardCodecSerializer.WriteValue | app_flutter/windows/flutter/ephemeral/cpp_client_wrapper/standard_codec.cc:98-166 | appends exactly the encoding of the value at the present length, for nested lists and maps |
| StandardCodec.StandardCodecSerializer.WriteVector | app_flutter/windows/flutter/ephemeral/cpp_client_wrapper/standard_codec.cc:274-288 | a typed list: size, padding and elements, or the bare size when it is empty; CodecFormat.FormatExactly says in numbers what that is |
| StandardCodec.StandardCodecSerializer.WriteSize | app_flutter/windows/flutter/ephemeral/cpp_client_wrapper/standard_codec.cc:244-257 | the three widths of a size |
| StandardCodec.StandardCodecSerializer.ReadValue | app_flutter/windows/flutter/ephemeral/cpp_client_wrapper/standard_codec.cc:92-96 | terminates on every byte string and from every position, decodes what the specification says and stops where it says, at or after the position it began at |
| StandardCodec.StandardCodecSerializer.ReadValueOfType | app_flutter/windows/flutter/ephemeral/cpp_client_wrapper/standard_codec.cc:168-227 | the same after a type byte, for every type byte, with lengths larger than what is left |
| StandardCodec.StandardCodecSerializer.ReadVector | app_flutter/windows/flutter/ephemeral/cpp_client_wrapper/standard_codec.cc:259-272 | a typed list, with the padding that is read even when the list is empty; CodecFormat.ElementsRead and CodecCut.ListCut say in numbers what is read |
| StandardCodec.StandardCodecSerializer.ReadSize | app_flutter/windows/flutter/ephemeral/cpp_client_wrapper/standard_codec.cc:229-242 | the three widths, with missing bytes read as zero |
| CodecRoundTrip.SizeRoundTrip | app_flutter/windows/flutter/ephemeral/cpp_client_wrapper/standard_codec.cc:229-257 | sizes below 2^32 are read back, across the three widths |
| CodecRoundTrip.RoundTrip | app_flutter/windows/flutter/ephemeral/cpp_client_wrapper/standard_codec.cc:92-288 | a good value that stands encoded at a position of any buffer is read back from there, and reading stops at the end of the encoding, whatever follows |
| CodecRoundTrip.RoundTripItems | app_flutter/windows/flutter/ephemeral/cpp_client_wrapper/standard_codec.cc:139-146 | the same for consecutive values, each encoded at the offset where the one before ended |
| CodecRoundTrip.RoundTripEntries | app_flutter/windows/flutter/ephemeral/cpp_client_wrapper/standard_codec.cc:147-155 | the same for map entries with distinct keys |
| CodecRoundTrip.EncodeMod8 | app_flutter/windows/flutter/ephemeral/cpp_client_wrapper/standard_codec.cc:98-166 | the encoding depends on the offset where it starts only modulo 8 |
| CodecExact.Drift | app_flutter/windows/flutter/ephemeral/cpp_client_wrapper/standard_codec.cc:92-288 | a reader that is ahead of the writer, or meets a value that is not good, and still produces the written value ends strictly ahead of where the writing ended |
| CodecExact.RoundTripsExactly | app_flutter/windows/flutter/ephemeral/cpp_client_wrapper/standard_codec.cc:92-288 | a value round trips at an offset, whatever surrounds it, if and only if it is good there: sizes below 2^32, no custom value, distinct map keys, elements that fit, and an empty list of wide elements only where its element alignment needs no padding; maps are compared as sequences of entries in the order they are written |
| CodecExact.EmptyVectorMisread | app_flutter/windows/flutter/ephemeral/cpp_client_wrapper/standard_codec.cc:259-288 | a concrete list, an empty 64-bit list followed by an integer, that decodes to another list of the same length and ends at the same byte |
| CodecFormat.FormatExactly | app_flutter/windows/flutter/ephemeral/cpp_client_wrapper/standard_codec.cc:92-288 | a value stands at an offset of a buffer in the wire format, written out in numbers (type bytes, sizes of one, three or five bytes, elements of 1, 4, 8, 8 and 4 bytes from the first multiple of that number behind the size, lowest byte first), if and only if its encoding does; and it ends where the encoding does |
| CodecFormat.WrittenInFormat | app_flutter/windows/flutter/ephemeral/cpp_client_wrapper/standard_codec.cc:98-166 | so what is written stands in the format from the offset where it is written to its own end |
| CodecFormat.StandsRead | app_flutter/windows/flutter/ephemeral/cpp_client_wrapper/standard_codec.cc:92-96 | a good value that stands anywhere in the format is read from there, and the read ends where the format says |
| CodecFormat.ElementsRead | app_flutter/windows/flutter/ephemeral/cpp_client_wrapper/standard_codec.cc:259-272 | in any buffer: element i of a typed list is read from the 1, 4, 8, 8 or 4 bytes at i times that number behind the first multiple of it after the size, lowest byte first, whatever the padding holds, and the read ends behind the last element |
| CodecCut.TextRead | app_flutter/windows/flutter/ephemeral/cpp_client_wrapper/standard_codec.cc:185-192 | in any buffer: a text, type byte 7, or an integer written as one, type byte 5, is what stands behind its size, or as many zeros, none of them skipped, if that is not all there |
| CodecCut.ListCut | app_flutter/windows/flutter/ephemeral/cpp_client_wrapper/standard_codec.cc:259-272 | a typed list that is cut off has as many zeros as its size says, and the read stops where its elements start |
| CodecCut.SizeCut | app_flutter/windows/flutter/ephemeral/cpp_client_wrapper/standard_codec.cc:229-242 | a size that is cut off counts as 0, and only its first byte is read: the text, list or map is empty |
| CodecCut.ItemsCut | app_flutter/windows/flutter/ephemeral/cpp_client_wrapper/standard_codec.cc:201-209 | a list has as many items as its size says, null where the buffer has ended |
| CodecCut.EntriesCut | app_flutter/windows/flutter/ephemeral/cpp_client_wrapper/standard_codec.cc:210-219 | a map that is cut off before its first entry has one, null for null |
| MethodCodec.StandardMethodCodec.EncodeMethodCall | app_flutter/windows/flutter/ephemeral/cpp_client_wrapper/standard_codec.cc:384-396 | the encoding of a name and its arguments, null when absent |
| MethodCodec.StandardMethodCodec.DecodeMethodCall | app_flutter/windows/flutter/ephemeral/cpp_client_wrapper/standard_codec.cc:367-382 | the call that the bytes hold, or none when the name is not a string |
| MethodCodec.StandardMethodCodec.DecodeAndProcessResponseEnvelope | app_flutter/windows/flutter/ephemeral/cpp_client_wrapper/standard_codec.cc:434-466 | the outcome that the bytes hold: success, error, an unknown flag, or a value of the wrong type |
| CodecWeight.EncodeWeight | app_flutter/windows/flutter/ephemeral/cpp_client_wrapper/standard_codec.cc:98-166 | an encoding has the same number of bytes that are not zero wherever it is written: alignment adds only zeros |
| CodecWeight.DecodeWeight | app_flutter/windows/flutter/ephemeral/cpp_client_wrapper/standard_codec.cc:92-227 | on any bytes: the value that a read gives has at most as many such bytes in its encoding as the read took, where its maps have fewer than 254 entries |
| CodecEnd.EmptyListRead | app_flutter/windows/flutter/ephemeral/cpp_client_wrapper/standard_codec.cc:259-288 | an empty typed list is read back wherever it is written, and the read ends on its element alignment |
| CodecEnd.TightItems | app_flutter/windows/flutter/ephemeral/cpp_client_wrapper/standard_codec.cc:92-288 | when a reader that skips only zeros gives back what was written, the values are good as last values; and it ends where the writer did with good values, or has passed it and gives only null from there |
| CodecEnd.LastItemsExactly | app_flutter/windows/flutter/ephemeral/cpp_client_wrapper/standard_codec.cc:92-288 | values at the end of a buffer come back if, and with maps of fewer than 254 entries only if, they are good, except that one empty list of wide elements may stand out of alignment where everything written after it is null |
| MethodCodec.MessageRoundTrip | app_flutter/windows/flutter/ephemeral/cpp_client_wrapper/standard_codec.cc:319-336 | a message comes back if, and with such maps only if, it is good as a last value |
| MethodCodec.MethodCallRoundTrip | app_flutter/windows/flutter/ephemeral/cpp_client_wrapper/standard_codec.cc:367-396 | a decoded method call is the encoded one, with an absent argument read as null, if and with such maps only if the name has a size below 2^32 and the arguments are good as the last value |
| MethodCodec.SuccessRoundTrip | app_flutter/windows/flutter/ephemeral/cpp_client_wrapper/standard_codec.cc:398-449 | a success envelope gives its result back if and with such maps only if it is good as the last value from offset 1; absent and null coincide |
| MethodCodec.ErrorRoundTrip | app_flutter/windows/flutter/ephemeral/cpp_client_wrapper/standard_codec.cc:412-466 | an error envelope gives code, message and details back if and with such maps only if the texts have sizes below 2^32 and the details are good as the last value; an empty message and a null one coincide |
| MethodCodec.TrailingEmptyList | app_flutter/windows/flutter/ephemeral/cpp_client_wrapper/standard_codec.cc:398-449 | so a result need not be good to come back: an empty list of wide elements, alone or between nulls in a list, is not good behind the flag byte and is read back |
| MethodCodec.EnvelopesNeverConfused | app_flutter/windows/flutter/ephemeral/cpp_client_wrapper/standard_codec.cc:398-466 | a success envelope is never read as an error, nor an error as a success, whatever was put in, good or not |
| TelnetNegotiation.TelnetOptions.SendEnableOption | engine_pjsip/pjproject/pjlib-util/src/pjlib-util/cli_telnet.c:479-513 | the six states on an offer: new state and command |
| TelnetNegotiation.TelnetOptions.ReceiveEnableOption | engine_pjsip/pjproject/pjlib-util/src/pjlib-util/cli_telnet.c:532-578 | the six states on DO or WILL, with and without permission |
| TelnetNegotiation.TelnetOptions.ReceiveDisableOption | engine_pjsip/pjproject/pjlib-util/src/pjlib-util/cli_telnet.c:580-617 | the six states on DONT or WONT |
| TelnetNegotiation.TelnetOptions.Open | engine_pjsip/pjproject/pjlib-util/src/pjlib-util/cli_telnet.c:1672-1690 | exactly the options that a session permits and the four it offers at the start |
| TelnetLink.ReceivePossible | engine_pjsip/pjproject/pjlib-util/src/pjlib-util/cli_telnet.c:479-617 | one delivery keeps the states of both ends and the commands under way among those possible for the permissions and the numbers of offers, keeps the ons in front of the offs, and lowers the deliveries still to come |
| TelnetLink.SilentAgrees | engine_pjsip/pjproject/pjlib-util/src/pjlib-util/cli_telnet.c:479-617 | once nothing is under way both ends are on or both are off, as permissions and parities of offers say |
| TelnetLink.AgreedOnce | engine_pjsip/pjproject/pjlib-util/src/pjlib-util/cli_telnet.c:479-617 | with at most one offer each: on exactly when both offered or one permits what the other offered |
| TelnetAgreement.AnyPeer | engine_pjsip/pjproject/pjlib-util/src/pjlib-util/cli_telnet.c:479-617 | after any offers and against any peer: every option stays in disabled, enabled or expecting to be enabled, at most one reply per command received, and on only where permitted or offered an odd number of times |
| TelnetAgreement.StepLinked | engine_pjsip/pjproject/pjlib-util/src/pjlib-util/cli_telnet.c:479-617 | one delivery between two sessions keeps the joint state of every option and both channels among those possible |
| TelnetAgreement.StepDecreases | engine_pjsip/pjproject/pjlib-util/src/pjlib-util/cli_telnet.c:479-617 | one delivery lowers the deliveries still to come, summed over all options, so two sessions cannot loop |
| TelnetAgreement.EveryRunAgrees | engine_pjsip/pjproject/pjlib-util/src/pjlib-util/cli_telnet.c:479-617 | two sessions with FIFO channels that make any offers at the start, any number of times: at most two deliveries per offer; a delivery is possible until the channels are empty; then both ends agree on every option, on exactly when both offer an odd number of times, one does and the other permits, or both permit and one offered at all |
| TelnetAgreement.OnOffNeverSettles | engine_pjsip/pjproject/pjlib-util/src/pjlib-util/cli_telnet.c:532-617 | a channel that an outsider wrote into: an on and an off for an option that both ends permit, which the two sessions never put there, come back to the same system after four deliveries |
| TelnetQMethod.FollowsExactly | engine_pjsip/pjproject/pjlib-util/src/pjlib-util/cli_telnet.c:479-617 | the six states are those of the Q method (section 7 of RFC 1143), and each transition is the Q method's if and only if it is none of: an offer while the answer to an offer is awaited or an offer is queued, an on while an offer is queued, an off while an off is queued |
| TelnetQMethod.EveryRunFollows | engine_pjsip/pjproject/pjlib-util/src/pjlib-util/cli_telnet.c:479-617 | so a session is, for every option that it offers never or an odd number of times, in the state of the Q method, whatever it receives |
| TelnetQMethod.StandsExactly | engine_pjsip/pjproject/pjlib-util/src/pjlib-util/cli_telnet.c:479-617 | and whatever it receives if and only if the option is offered never or an odd number of times: a second offer cancels the first |
| TelnetQMethod.EveryReplyFollows | engine_pjsip/pjproject/pjlib-util/src/pjlib-util/cli_telnet.c:479-617 | about such an option it answers every command as the Q method does |
| TelnetQMethod.FirstAnswer | engine_pjsip/pjproject/pjlib-util/src/pjlib-util/cli_telnet.c:1672-1690 | in numbers: of its own options an opened session can turn on 0, 1, 3, 5, 6, 24 and 32, of the peer's 0, 1, 3, 5 and 6; what it answers to the first DO and WILL of each option |
| TelnetQMethod.OpenedAgree | engine_pjsip/pjproject/pjlib-util/src/pjlib-util/cli_telnet.c:1672-1690 | two sessions that face each other, both opened so, end with the options 1, 3 and 5 on in both directions and no other |
| TelnetOutput.Outbox.SessSend | engine_pjsip/pjproject/pjlib-util/src/pjlib-util/cli_telnet.c:1234-1277 | what goes out, what the socket keeps the address of, what stays in the buffer and when the truncation marker replaces the rest, for a socket that takes all, takes later, takes a part, fails, or is still busy |
| TelnetOutput.Outbox.OnDataSent | engine_pjsip/pjproject/pjlib-util/src/pjlib-util/cli_telnet.c:1443-1474 | the waiting bytes are handed to the socket in place, from a buffer that counts as empty; a part taken or an error ends the session |
| TelnetConservation.CopyConservation | engine_pjsip/pjproject/pjlib-util/src/pjlib-util/cli_telnet.c:1234-1277 | with a socket that copies what it is given: every submitted byte was sent directly, queued, cut behind a backlog of exactly 256 bytes in favour of one marker, or dropped by a partial send |
| TelnetConservation.LossAnswered | engine_pjsip/pjproject/pjlib-util/src/pjlib-util/cli_telnet.c:1234-1277 | a submission is answered with an error exactly if some of its bytes are neither sent nor waiting and no marker stands behind 256 waiting bytes |
| TelnetConservation.LossEndsSession | engine_pjsip/pjproject/pjlib-util/src/pjlib-util/cli_telnet.c:1455-1467 | a flush ends the session exactly if some of what waited is neither sent nor waiting after it |
| TelnetConservation.WaitsBehind | engine_pjsip/pjproject/pjlib-util/src/pjlib-util/cli_telnet.c:1234-1262 | what has to wait stands in a buffer of 281 bytes behind what waited, whole, or cut at 256 bytes with the truncation marker in place of the rest |
| TelnetInFlight.IntactExactly | engine_pjsip/pjproject/pjlib-util/src/pjlib-util/cli_telnet.c:1455-1466 | the bytes sent and in flight are those of a socket that copies if and only if no block was written over other bytes in flight |
| TelnetInFlight.QuietIntact | engine_pjsip/pjproject/pjlib-util/src/pjlib-util/cli_telnet.c:1455-1466 | so they are if nothing is submitted between a flush that has to wait and its completion |
| TelnetInFlight.FlightOverwritten | engine_pjsip/pjproject/pjlib-util/src/pjlib-util/cli_telnet.c:1256-1259 | otherwise a block submitted while a flush waits takes the place of what it should follow: its first byte goes out in place of the first byte that waited |
| TelnetInFlight.Conservation | engine_pjsip/pjproject/pjlib-util/src/pjlib-util/cli_telnet.c:1234-1277 | over every session in which nothing in flight was overwritten: what was sent and is in flight, followed by the backlog, is the submitted bytes in order, except that what comes behind a backlog of exactly 256 bytes gives way to one marker and a partial send drops the end of its block; the backlog is at most 256 bytes or exactly 256 and the marker |
| TelnetHistory.CommandHistory.InsertHistory | engine_pjsip/pjproject/pjlib-util/src/pjlib-util/cli_telnet.c:382-422 | a blank line changes nothing; a known command moves to the front; the seventeenth pushes out the last |
| TelnetHistory.CommandHistory.GetPrevHistory | engine_pjsip/pjproject/pjlib-util/src/pjlib-util/cli_telnet.c:424-449 | moves round the ring in either direction, past the sentinel, and shows the entry |
| TelnetHistory.TrimLeftResult | engine_pjsip/pjproject/pjlib-util/src/pjlib-util/cli_telnet.c:391-394 | trimming removes exactly the leading spaces |
| TelnetHistory.TrimRightResult | engine_pjsip/pjproject/pjlib-util/src/pjlib-util/cli_telnet.c:391-394 | trimming removes exactly the trailing spaces |
| TelnetHistory.HistoryIsMostRecent | engine_pjsip/pjproject/pjlib-util/src/pjlib-util/cli_telnet.c:382-422 | over any lines entered, the list is the first 16 distinct non-blank trimmed commands in the order of last use |
| TelnetHistory.UpShows | engine_pjsip/pjproject/pjlib-util/src/pjlib-util/cli_telnet.c:424-449 | after a command was entered, the k-th press of up shows entry (k-1) mod n |
| TelnetHistory.UpDown | engine_pjsip/pjproject/pjlib-util/src/pjlib-util/cli_telnet.c:424-449 | up and down undo each other away from the sentinel |
| TelnetLine.RecvBuf.InsertByte | engine_pjsip/pjproject/pjlib-util/src/pjlib-util/cli_telnet.c:321-350 | the array with its memmove is the two-sequence editor: insert at the cursor, or at the end for tab, question mark and CR; refuses at 511 bytes; keeps the terminating NUL |
| TelnetLine.RecvBuf.BackspaceByte | engine_pjsip/pjproject/pjlib-util/src/pjlib-util/cli_telnet.c:352-369 | removes the byte before the cursor and closes the gap |
| TelnetLine.RecvBuf.Replace | engine_pjsip/pjproject/pjlib-util/src/pjlib-util/cli_telnet.c:1171-1174 | a recalled command replaces the line and puts the cursor at its end |
| TelnetLine.BackspaceUndoesInsert | engine_pjsip/pjproject/pjlib-util/src/pjlib-util/cli_telnet.c:321-369 | backspace after an insert that fits gives the line back, cursor included |
| TelnetLine.EndInsertAppends | engine_pjsip/pjproject/pjlib-util/src/pjlib-util/cli_telnet.c:326-340 | tab, question mark and CR go to the end of the text from any cursor position |
| TelnetLine.CursorKeys | engine_pjsip/pjproject/pjlib-util/src/pjlib-util/cli_telnet.c:1108-1133 | left and right undo each other and never change the text |
| TelnetLine.TypedInOrder | engine_pjsip/pjproject/pjlib-util/src/pjlib-util/cli_telnet.c:321-350 | characters typed one after another stand in that order at the cursor, up to the limit |
| TelnetSession.TelnetSess.OnDataRead | engine_pjsip/pjproject/pjlib-util/src/pjlib-util/cli_telnet.c:1476-1598 | one byte of the stream: the whole input state machine with its line, history and options |
| TelnetSession.FeedCommand | engine_pjsip/pjproject/pjlib-util/src/pjlib-util/cli_telnet.c:1561-1590 | a negotiation command at a point between keys acts on its option alone |
| TelnetSession.FeedKey | engine_pjsip/pjproject/pjlib-util/src/pjlib-util/cli_telnet.c:1514-1560 | a key acts on line, cursor, history and escape state alone |
| TelnetEntered.EveryByteKeeps | engine_pjsip/pjproject/pjlib-util/src/pjlib-util/cli_telnet.c:1476-1598 | for every byte stream from a fresh session: line, cursor, the key under way, the command shown and the end of the session are those that the bytes make of a desk that keeps only the lines entered; the history is the first 16 distinct trimmed commands among those lines, most recent first |
| TelnetEntered.ReturnEnters | engine_pjsip/pjproject/pjlib-util/src/pjlib-util/cli_telnet.c:1060-1100 | when CR NUL or CR LF completes, the line up to its first NUL is the latest one entered, its trimmed command heads the history unless it is blank, and the session has ended or the line is empty, as running the command says |
| TelnetEcho.PutTogether | engine_pjsip/pjproject/pjlib-util/src/pjlib-util/cli_telnet.c:1144-1168 | where the echo of a recalled command fits the 512 bytes, the array gets it: backspaces to the start, blanks over a longer line and the way back, and the command |
| TelnetEcho.RecallFits | engine_pjsip/pjproject/pjlib-util/src/pjlib-util/cli_telnet.c:1144-1168 | it fits if and only if the cursor position, the command and, over a longer line, twice the line's length add up to at most 512 |
| TelnetEcho.LongLineTooLong | engine_pjsip/pjproject/pjlib-util/src/pjlib-util/cli_telnet.c:1144-1168 | with the cursor at the end of a line of more than 170 bytes no shorter command fits |
| TelnetEcho.BackspaceShown | engine_pjsip/pjproject/pjlib-util/src/pjlib-util/cli_telnet.c:925-945 | the terminal row shows the line after a backspace if and only if the cursor was at its end or the terminal steps to the left on byte 127 |
| TelnetEcho.RecallShown | engine_pjsip/pjproject/pjlib-util/src/pjlib-util/cli_telnet.c:1135-1179 | after a recall the row shows the command in place of the line, with the cursor at its end and blanks behind it |
| TelnetEcho.KeyShown | engine_pjsip/pjproject/pjlib-util/src/pjlib-util/cli_telnet.c:1514-1560 | a key that edits the line leaves the row showing it if and only if it is none of: an unprintable byte that goes into the line, a byte typed without the echo option, a backspace inside the line on a terminal that does nothing on byte 127, a recalled command with unprintable bytes |
| TelnetEcho.Rings | engine_pjsip/pjproject/pjlib-util/src/pjlib-util/cli_telnet.c:925-1179 | the bell rings for a key that has nothing to act on, for a byte that a line of 511 has no room for, and for a printable one where echo is off |
| TelnetEcho.RunShown | engine_pjsip/pjproject/pjlib-util/src/pjlib-util/cli_telnet.c:1476-1598 | however long a line is edited, the row shows it after every key if and only if none is one of these |
| TelnetEcho.PrintableNoneLost | engine_pjsip/pjproject/pjlib-util/src/pjlib-util/cli_telnet.c:1514-1560 | with the echo option on, a terminal that steps to the left on byte 127 and printable commands in the history, no printable byte, backspace or cursor key is one of these |
| TelnetSession.StreamSplits | engine_pjsip/pjproject/pjlib-util/src/pjlib-util/cli_telnet.c:1502-1590 | however DO, DONT, WILL and WONT commands are mixed between the keys, line, cursor and history are those of the keys alone, and options and replies those of the commands alone |
| EngineCalls.StepSound | core_rust/src/lib.rs:507-594 | each lock section of incoming call, outgoing call, call state, media and hold keeps the call-map invariant |
| EngineCalls.StepTalkTime | core_rust/src/lib.rs:573-586 | no step counts more talk time than has passed since the call was created |
| EngineCalls.EveryRunSound | core_rust/src/lib.rs:507-651 | in every interleaving of lock sections by any number of threads, with fewer than 2^32 calls: the PJSIP call map is injective, each entry leads to a call with that PJSIP id that has not ended, and accumulated time plus the open interval is at most the call's age |
| EngineCalls.TalkTimeKept | core_rust/src/lib.rs:573-650 | no update changes the talk time up to now, except that a resume while an interval is open drops that interval |
| EngineCalls.MediaNeverResumes | core_rust/src/lib.rs:633-641 | media going active leaves the interval as it is: the branch that would open one is dead |
| EngineCalls.EndStopsExactly | core_rust/src/lib.rs:573-586 | the end of a call stops its count, for all time after, if and only if no interval is open or the call is in call |
| EngineCalls.HeldCallKeepsCounting | core_rust/src/lib.rs:573-586 | a call put on hold before it is answered goes on counting after its end |
| EngineCalls.StepCloses | core_rust/src/lib.rs:573-650 | after one lock section no ended call has an open interval, if none had before, if and only if the section neither ends a call with an open interval that is not in call, nor answers one after its end, nor resumes one after its end |
| EngineCalls.StoppedMeans | core_rust/src/lib.rs:1109-1120 | the talk time of every ended call stands still however the clock moves on if and only if none has an open interval |
| EngineCalls.EndedCallsStop | core_rust/src/lib.rs:573-650 | in every interleaving: the talk time of a call never changes after its end, at any moment of a run or from one to the next, if and only if no step of the run ends a call with an open interval that is not in call, answers one after its end, or resumes one after its end |
| EngineCalls.ReopenedCallCounts | core_rust/src/lib.rs:1977-1991 | a call that is resumed after its end counts again, and so does one that a late thread answers |
| CallRuns.EveryRunViews | core_rust/src/lib.rs:507-651 | in every interleaving: what each thread is in the middle of, where each PJSIP id leads, and each call's state, hold and counted seconds are what the steps about that thread, that id and that call make of them, with PJSIP's state codes 0 to 3 as ringing, 4 and 5 as in call and 6 as ended |
| CallRuns.LeadsExactly | core_rust/src/lib.rs:526-529 | by those steps a PJSIP id leads to a call exactly if a step registered the call for it and no later step shut the engine down, looked up the end of that id or registered another call for it |
| CallRuns.EveryCallLeads | core_rust/src/lib.rs:526-529 | the call map is complete: in every interleaving a call in the table that no thread is still about to register, and whose entry no later step took away, is what its PJSIP id leads to |
| CallRuns.HoldIs | core_rust/src/lib.rs:1964-2003 | hold and resume on the record are those of a stopwatch: a resume starts a stretch and loses one that runs |
| EngineAccounts.Engine.AccountUpsert | core_rust/src/lib.rs:1266-1319 | creates an unregistered account or changes the settings only |
| EngineAccounts.Engine.AccountRegister | core_rust/src/lib.rs:1321-1535 | releases the old PJSIP id, then fails on a NUL byte, fails in pd_acc_add, or maps the new id; with its result code |
| EngineAccounts.Engine.AccountUnregister | core_rust/src/lib.rs:1537-1565 | releases the id and marks the account unregistered, or reports an unknown account |
| EngineAccounts.Engine.AccountDeleteProfile | core_rust/src/lib.rs:2944-2966 | removes the account and releases its id |
| EngineAccounts.Engine.RegistrationCallback | core_rust/src/lib.rs:415-476 | sets the state of the mapped account, or does nothing for an unknown id |
| EngineAccounts.RegisterKeeps | core_rust/src/lib.rs:1349-1527 | registering, failed or not, keeps the map the exact inverse of the accounts' ids if and only if pd_acc_add returns no live id |
| EngineAccounts.LiveIdTwice | core_rust/src/lib.rs:1520-1527 | an id given out twice: both accounts have it, and the map leads to the second only |
| EngineAccounts.EveryRunKeepsMap | core_rust/src/lib.rs:1266-1565 | in every sequence of commands, callbacks and shutdowns the map leads only to accounts with that id and PJSIP holds exactly the mapped ids; without a shutdown the map is the inverse of the accounts' ids |
| EngineAccounts.IdsDistinct | core_rust/src/lib.rs:1520-1527 | two accounts never share a PJSIP id |
| EngineAccounts.CallbackReaches | core_rust/src/lib.rs:438-463 | a registration callback changes the account with that PJSIP id and no other |
| AccountRuns.CallbackSets | core_rust/src/lib.rs:438-463 | after the callback the mapped account is registered exactly if expires is positive and the code is 200 or 0, failed exactly if it is not that and the code is at least 400 or expires is 0 with another code, and otherwise unregistered |
| AccountRuns.EveryRunBecomes | core_rust/src/lib.rs:415-1565 | in every run between a start and a shutdown in which PJSIP gives out no live id, an account changes as its own commands and the callbacks for its own PJSIP id say and with nothing else that happens: settings, state and id after each of them |
| AccountRuns.CodeMeans | core_rust/src/lib.rs:1266-1565 | what each result code says about the request and the account after it |
| EngineAccounts.ShutdownKeeps | core_rust/src/lib.rs:3360 | after a shutdown the map is the inverse of the accounts' ids exactly if no account had an id |
| EngineAccounts.StaleId | core_rust/src/lib.rs:1537-1558 | an id kept over a shutdown and given out again: unregistering its old owner releases the new owner's PJSIP account |
| RecorderSlots.Recording.Reset | core_rust/src/shim/pjsip_shim.c:152-160 | every slot is free |
| RecorderSlots.Recording.StartRecording | core_rust/src/shim/pjsip_shim.c:1992-2049 | fills the slot, or leaves slots and recorders as they were at each of the ways to fail |
| RecorderSlots.Recording.StopRecording | core_rust/src/shim/pjsip_shim.c:2051-2080 | destroys the slot's recorder and frees the slot, or reports that nothing is recording |
| RecorderSlots.Recording.Shutdown | core_rust/src/shim/pjsip_shim.c:934-943 | destroys the recorder of every slot and frees the slots |
| RecorderSlots.StartedExact | core_rust/src/shim/pjsip_shim.c:1992-2049 | starting keeps the live recorders exactly the pairwise distinct ids of the recording slots |
| RecorderSlots.StoppedExact | core_rust/src/shim/pjsip_shim.c:2051-2080 | so does stopping |
| RecorderSlots.StartLeaves | core_rust/src/shim/pjsip_shim.c:1992-2049 | a start that succeeds leaves the slot with the path, cut at 511 characters, the new recorder and its port, and no other slot changed; any other leaves everything as it was |
| RecorderSlots.ShutdownExact | core_rust/src/shim/pjsip_shim.c:934-943 | after a shutdown no recorder is live |
| EngineRecording.Engine.StartRecordingForCall | core_rust/src/lib.rs:2257-2309 | result code, slot, stored path and event for every call state and every failure |
| EngineRecording.Engine.StopRecordingForCall | core_rust/src/lib.rs:2311-2375 | result code, slot and the Stopped and Saved events |
| EngineRecording.Engine.CallStateCallback | core_rust/src/lib.rs:541-608 | state, map, and the stop of a recording when the call ends |
| EngineRecording.EveryRunCounted | core_rust/src/lib.rs:2257-2375 | in every sequence of commands and callbacks, live recorders are exactly the distinct ids of recording slots, and in each slot RecordingStarted minus RecordingSaved is 1 while it records and 0 otherwise |
| EngineRecording.StartAnswers | core_rust/src/lib.rs:2257-2309 | which start is answered with which code: no such call or ended, ringing or on hold, a NUL in the path, and success exactly if the slot was free and records now |
| EngineRecording.StartTells | core_rust/src/lib.rs:2257-2309 | the event of a start, or of its error, comes with such a request alone and says what the slot does |
| EngineRecording.StopTells | core_rust/src/lib.rs:2311-2375 | a recording is told to have stopped and been saved if and only if its call is asked to stop or disconnected while the slot records, and the slot is free after a stop |
| EngineRecording.StepOwned | core_rust/src/lib.rs:596-607 | no command or callback but a start lets a slot record without a live call that will stop it, holds of ended calls included; a start does exactly if its PJSIP id is not mapped, or is mapped to another call that has no path stored |
| EngineRecording.OwnedMeans | core_rust/src/lib.rs:596-607 | that is: every recording slot is that of a live mapped call, now and after any disconnect |
| EngineRecording.EndedCallsRecordNothing | core_rust/src/lib.rs:596-607 | if PJSIP reuses a call id only after its disconnect: an ended call never leaves its slot recording, in a run and by any disconnect after it, if and only if every recording of the run is started for a mapped call or in the slot of one with a path stored |
| EngineRecording.UnheldStartsMapped | core_rust/src/lib.rs:1964-2003 | which is the case while no ended call is held |
| EngineRecording.DisconnectStops | core_rust/src/lib.rs:596-607 | the disconnect of a mapped call leaves its slot recording exactly when no recording path was stored for it |
| EngineRecording.RevivedCallLeavesRecording | core_rust/src/lib.rs:1964-2003 | resuming an ended call breaks that: a recording started through it on a reused PJSIP id outlives the call that uses the id |
| Base64.EncodeBuffer | engine_pjsip/pjproject/pjlib-util/src/pjlib-util/base64.c:80-120 | checks the capacity and writes exactly the encoding, nothing behind it |
| Base64.DecodeBuffer | engine_pjsip/pjproject/pjlib-util/src/pjlib-util/base64.c:123-169 | strips the padding, checks the capacity and writes exactly the decoded bytes, for any input |
| Base64.EncodeLength | engine_pjsip/pjproject/pjlib-util/src/pjlib-util/base64.c:92-118 | 4*ceil(n/3) characters, within n*4/3+3 |
| Base64Text.EncodedAt | engine_pjsip/pjproject/pjlib-util/src/pjlib-util/base64.c:36-64 | character k of the encoding is the letter, of the alphabet written out, for six bits of the 24-bit number of its three bytes, or an equals sign where no byte reaches them |
| Base64Text.DecodedIs | engine_pjsip/pjproject/pjlib-util/src/pjlib-util/base64.c:123-169 | for any text and any number of equals signs behind it, the decoded bytes are those of the 24-bit numbers of the letters' values in fours, one byte for two values left over and two for three; other characters count for nothing, but for one at the very end, which counts as a value of 63 |
| Base64.DecodeLength | engine_pjsip/pjproject/pjlib-util/src/pjlib-util/base64.c:133-166 | at most len*3/4 bytes for any input, so the capacity check suffices |
| Base64.RoundTrip | engine_pjsip/pjproject/pjlib-util/src/pjlib-util/base64.c:36-169 | decoding the encoding gives every byte sequence back |
| Base64.GroupsFiltered | engine_pjsip/pjproject/pjlib-util/src/pjlib-util/base64.c:141-163 | the decoding loop is blind to foreign characters exactly when the text ends inside the alphabet or holds whole groups |
| Base64.ForeignIgnored | engine_pjsip/pjproject/pjlib-util/src/pjlib-util/base64.c:133-163 | decoding equals decoding with all foreign characters removed if and only if, after the padding, the last character is in the alphabet or the alphabet characters come in fours |
| CliKeys.KeyInjective | engine_pjsip/pjproject/pjlib-util/src/pjlib-util/cli.c:492-533 | with letter-first names a key tells its group and its name |
| CliKeys.DigitsCollide | engine_pjsip/pjproject/pjlib-util/src/pjlib-util/cli.c:504-509 | without that, names of two groups meet in one key |
| CliIndex.Commands.ScanAttrs | engine_pjsip/pjproject/pjlib-util/src/pjlib-util/cli.c:668-732 | names, ids and shortcuts checked against the hashes in order, with the status of the first failure |
| CliIndex.Commands.AddCmdNode | engine_pjsip/pjproject/pjlib-util/src/pjlib-util/cli.c:650-812 | a registration with its children, its failures, both hashes and the child lists |
| CliKeys.DigitsRead | engine_pjsip/pjproject/pjlib-util/src/pjlib-util/cli.c:504-509 | the id in a key is written in decimal, without zeros in front |
| CliTree.AddMirrors | engine_pjsip/pjproject/pjlib-util/src/pjlib-util/cli.c:668-812 | a successful registration adds the tree of its element at the end of its group's list or of the top: last name and id given, all shortcuts, every child command in order, at every depth; every other command stays as it was |
| CliAgreement.KeyFree | engine_pjsip/pjproject/pjlib-util/src/pjlib-util/cli.c:675-679 | a name that was free when it was checked is still free after the command's children were registered |
| CliAgreement.ShortcutFree | engine_pjsip/pjproject/pjlib-util/src/pjlib-util/cli.c:714-717 | so is a shortcut |
| CliAgreement.AddAgrees | engine_pjsip/pjproject/pjlib-util/src/pjlib-util/cli.c:650-812 | a successful registration keeps hash and tree in agreement, also inside commands that are still being registered |
| CliFailure.FailureHarmlessExactly | engine_pjsip/pjproject/pjlib-util/src/pjlib-util/cli.c:650-812 | a failed registration never changes the tree, and leaves both hashes as they were if and only if no command in its element was registered before it failed |
| CliSuccess.AddAccepted | engine_pjsip/pjproject/pjlib-util/src/pjlib-util/cli.c:650-812 | an element is registered if and only if it is a command with a name, an id other than 0, at most four shortcuts and eight arguments, nothing that it says is taken, and its commands can be registered one after the other; then exactly its names and ids are taken as well |
| CliRefusal.AddRefused | engine_pjsip/pjproject/pjlib-util/src/pjlib-util/cli.c:650-812 | one that is refused is refused for the first thing in it that cannot be registered: an attribute, then a child at any depth, then a missing name, then a missing id, each with its status |
| CliAgreement.EveryRunAgrees | engine_pjsip/pjproject/pjlib-util/src/pjlib-util/cli.c:650-812 | hash and tree agree after every sequence of registrations that succeed or leave nothing behind |
| CliAgreement.HashAgreesWithTree | engine_pjsip/pjproject/pjlib-util/src/pjlib-util/cli.c:492-511 | after it, a letter-first name is found under a group if and only if it is that of a child, with no group if and only if of a top-level command, under the root if and only if it is a shortcut; an id if and only if a command has it |
| CliAgreement.FailureLeavesChild | engine_pjsip/pjproject/pjlib-util/src/pjlib-util/cli.c:737-762 | a failed registration that leaves a child behind: the child of a command without an id answers as a shortcut under its name, a shortcut that no command has |
| LinkOrder.CalculatePkgPriority | engine_pjsip/pjproject/pkgconfig.py:83-94 | the recursive sum with its cutoff |
| LinkOrder.InLinkOrder | engine_pjsip/pjproject/pkgconfig.py:133-139 | priorities of all packages, then the sort |
| LinkOrder.CutoffExact | engine_pjsip/pjproject/pkgconfig.py:84-86 | the cutoff leaves a package's priority as any deeper recursion gives it if and only if no chain of that many requirements starts there; cycles are such chains |
| LinkOrder.PrioritiesCount | engine_pjsip/pjproject/pkgconfig.py:83-139 | the priority of a package is the number of chains of at most nine requirements that start there |
| LinkOrder.TwoCycleChains | engine_pjsip/pjproject/pkgconfig.py:83-94 | two packages that require each other: chains of every length, and the cutoff as their priority |
| LinkOrder.TwoCycleOrder | engine_pjsip/pjproject/pkgconfig.py:133-139 | they stay in the order of the command line, so the second stands behind the first that it requires |
| LinkOrder.AboveRequirement | engine_pjsip/pjproject/pkgconfig.py:88-93 | a priority exceeds that of each requirement from which no long chain starts |
| LinkOrder.AboveOnlyRequirement | engine_pjsip/pjproject/pkgconfig.py:83-94 | for a package with one requirement it does so if and only if the cutoff does not reach it |
| LinkOrder.SortedSame | engine_pjsip/pjproject/pkgconfig.py:139 | the sort permutes the packages |
| LinkOrder.SortedDescending | engine_pjsip/pjproject/pkgconfig.py:139 | highest priority first |
| LinkOrder.SortedStable | engine_pjsip/pjproject/pkgconfig.py:139 | packages of one priority keep the order of the command line |
| LinkOrder.RequirersFirst | engine_pjsip/pjproject/pkgconfig.py:83-139 | a package from which no chain of ten requirements starts stands before everything it requires |
| SipMask.MaskSipUriPasswords | core_rust/src/lib.rs:922-938 | terminates, and masks each URI in turn |
| SipMask.MaskSipLog | core_rust/src/lib.rs:894-919 | masks line by line and gives the last line feed back only if it was there |
| SipMaskText.CredentialsMasked | core_rust/src/lib.rs:894-919 | wherever in a log a line starts with authorization: or proxy-authorization:, in any case, the masked log has the characters up to that colon, the text " ***MASKED***" and nothing of what stood behind, with the log before and behind masked by itself |
| SipMaskText.CredentialsDropped | core_rust/src/lib.rs:894-919 | so two logs that differ only behind such colons have one masked log |
| SipMaskText.PasswordStarred | core_rust/src/lib.rs:922-964 | where the first sip: of a text, in any case, starts a URI with a password, up to white space, an angle bracket or a quotation mark, three stars stand in its place and the rest of the text is masked in turn |
| SipMaskText.UriStarred | core_rust/src/lib.rs:940-964 | the same for a URI by itself, sip: or sips: |
| SipMaskLaws.PasswordReplaced | core_rust/src/lib.rs:940-964 | whatever the password, the result is the URI with three stars between the first colon of the user part and its at sign |
| SipMaskLaws.Masked | core_rust/src/lib.rs:940-964 | a URI that changes is of that form; every other stays as it is |
| SipMaskLaws.PasswordsMasked | core_rust/src/lib.rs:922-938 | the same for the first URI of a text, with the rest of the text masked in turn |
| SipMaskLaws.UntouchedExactly | core_rust/src/lib.rs:922-938 | masking leaves a text alone if and only if in every word, of its first "sip:" and what stands before the first at sign behind it, there is no password left to mask; what a word holds elsewhere does not count |
| SipMaskLaws.SipsUntouched | core_rust/src/lib.rs:922-938 | a sips: URI is left alone, password and all, where no sip: follows its scheme |
| SipMaskLaws.MaskUrisTwice | core_rust/src/lib.rs:922-938 | masking URIs is idempotent |
| SipMaskLaws.MaskLineTwice | core_rust/src/lib.rs:896-913 | masking a line is idempotent, credentials headers included |
| SipMaskLaws.LineCountKept | core_rust/src/lib.rs:894-919 | the log keeps its number of lines |
| SipMaskLaws.MaskLogTwice | core_rust/src/lib.rs:894-919 | masking a log is idempotent if and only if no line other than a credentials header ends in two carriage returns before its line feed |
| SipMaskLeaks.LeaksExactly | core_rust/src/lib.rs:922-964 | a masked text still holds a sip: or sips: URI with a password, wherever it stands, if and only if some word of the text holds one that starts before the word's first "sip:", or anywhere if it has none, or that stands behind the first at sign after that "sip:" |
| SipMaskLeaks.LineLeaksExactly | core_rust/src/lib.rs:896-913 | a masked line keeps a password if and only if it is no credentials header and one of its words does |
| SipMaskLeaks.LineMaskedAsText | core_rust/src/lib.rs:906-910 | the tests for sip:, an at sign and a colon before masking change no line |
| SipMaskLeaks.SecondUriSurvives | core_rust/src/lib.rs:922-964 | where the first URI of a word has no password, a second one behind its at sign keeps its password and the text stays as it is |
| SipMaskLeaks.SipsSurvives | core_rust/src/lib.rs:922-938 | a sips: URI keeps its password where no sip: follows its scheme |
| SipMaskLaws.DoubleReturnLost | core_rust/src/lib.rs:894-919 | a plain line that ends in two carriage returns and a line feed loses one of them each time |

## Left out

- CodecExact.RoundTripsExactly: numbers are the unsigned bit patterns of the C++ integers and floats, a map is the sequence of its entries in the container's order with the first of equal keys kept, so the only-if half does not rule out that a map which is not good is read back with its entries in another order; sizes do not wrap at 64 bits.
- CodecEnd.LastItemsExactly: that nothing else comes back is proved for values whose maps have fewer than 254 entries, so that a map's size is one byte; a larger map could announce more entries in fewer bytes and drop repeated keys. That the good ones come back needs no such bound.
- CodecWeight.DecodeWeight: the same bound on the maps, for the same reason.
- MethodCodec.MessageRoundTrip: the same bound, for the only-if half.
- MethodCodec.MethodCallRoundTrip: the same bound, for the only-if half.
- MethodCodec.SuccessRoundTrip: the same bound, for the only-if half.
- MethodCodec.ErrorRoundTrip: the same bound, for the only-if half.
- Custom value types and codec extensions, memory exhaustion when a huge length is reserved, and the typed integer reads of byte_streams.h on other than little-endian machines.
- WriteValue and ReadValueOfType are split into a method for each loop; their payload switch is otherwise as in the source.
- TelnetInFlight.Conservation: a flush that is cut short ends the session and is left out; a pending send of a caller's own bytes is taken to find them unchanged, since who owns them is outside the session.
- TelnetSession.TelnetSess.OnDataRead: completion and the running of a command are functions of the line; completion fits the line buffer. What is written back for the editing keys is modelled apart, in TelnetEcho; prompt, messages and the echo of completion are not, and none of it is tied to the output backlog.
- TelnetEcho.KeyShown: tab, question mark and return, which write hints and a prompt, are not editing keys; the row is long enough not to wrap; a recalled command whose echo does not fit its array is outside the lemma.
- TelnetHistory.CommandHistory.InsertHistory: the linked nodes with their sentinel are a sequence with a position, and strings are not copied into buffers.
- TelnetNegotiation.TelnetOptions.Open: each command goes out whole; a failed send of three bytes is not modelled.
- EngineCalls.EveryRunSound: mute, media statistics, account and URI of a call are left out; the clock does not go back; a created-at time is added to each call.
- EngineAccounts.EveryRunKeepsMap: commands and callbacks are atomic. Settings that do not decide whether a registration fails, events, and the account lock held while an event is pushed are left out.
- EngineRecording.EveryRunCounted: commands and callbacks are atomic, between engine_init and engine_shutdown; times, durations, file sizes and the conference bridge are left out, and events carry their slot.
- Base64.RoundTrip: masks and shifts are written as quotients and remainders; null arguments and the width of int are left out.
- CliIndex.Commands.AddCmdNode: the XML tree comes parsed, with names trimmed, ids read and shortcuts split; arguments are counted only; keys are not cut to the 512-byte buffer.
- CliAgreement.HashAgreesWithTree: names and shortcuts start with a letter, and a command shares its id or a shortcut with no command inside it; ids and shortcuts of separate registrations are checked by the code itself.
- LinkOrder.RequirersFirst: reading .pc files, version operators and the filtering of options are left out; requirements come as lists.
- SipMask.MaskSipLog: ASCII text; lower-casing of other characters, which can change their length, is left out.
- PJSIP, sockets, threads, pools and audio; event payloads; the IPC loop; FFI wrappers; getters and setters for forwarding, DTMF, codecs and auto-answer; device lists; error tables; the log ring; hmac_md5.c; the Flutter window and runner: their bodies are either not in the repository or would add only single-branch facts.

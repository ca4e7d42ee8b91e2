# Verified models of a remote-driving stack

This project models the parts of the remote-driving repository that keep state, run loops or do
exact integer arithmetic, and proves what each is for. `dafny verify dfyconfig.toml` checks all of
it. Code that updates fields or buffers is modelled by classes, arrays and loops, each proved
against a specification function; the protocol-level results are lemmas about every run of those
functions.

**Packet layer** (`packet_format`, `sender`, `packetizer`, `receiver`, `depacketizer`,
`end_to_end`, `shared_number`, `wakeup`). Messages are cut into 1162-byte slices with an 8-byte
header. A congested data channel sends a packet to the resend queue, which the worker drains before
it cuts up the next message. The sender's invariant is that the wire is one contiguous block of
packets per message, in message order, with only the last block unfinished, and that what is
missing from it is exactly the resend queue. The receiver files slices in nested maps; its
invariant ties what is filed to the packets still in flight, for any interleaving of messages.
Together: at any moment a peer given the packets of any set of channels has been handed exactly the
messages of those channels, in order, but for the last one while packets of it wait, and once the
channel opens everything arrives. Three exact conditions come out: no run loses a packet to a full
resend queue if and only if every message has at most 66651158 bytes; a message survives the 16-bit
counters of the header if and only if it has between 1 and 65535 * 1162 bytes; and two messages in
flight under one number both survive every interleaving if and only if each fits into one packet.
The worker and its semaphore are a separate machine of single queue tests, lock steps and signals,
in which no interleaving loses a wake-up and the queues drain when producers stop.

**Signalling rooms** (`rooms`, `room_server`). Every handler is one step over rooms, connections and
what each session was sent. Rooms stay consistent over all runs, leaving a room terminates from any
room map, and a client that replays its notices holds exactly the directory of rooms.
The handlers do not ask whether a session is connected, so members can be unknown sessions;
the exact condition under which they are not is proved, with the failing request beside it.

**Resolution limit** (`fit_frame_size`). Euclid's loop and the rounding to even multiples give the
largest even size of exactly the input's ratio in the box, which needs coprimality. Two limits in a
row are compared with one limit by the smaller box, exactly.

**SHA-1** (`sha1_spec`, `sha1_words`, `sha1`). The routine that makes up its padding while reading
refines FIPS 180-4 (sections 5.1.1 and 6.1.2), and that padding is injective.

**Stereo interleave** (`nearest_index`, `interleave`). The nested raster loops write the picture a
pure function describes; at native size it can be undone byte for byte.

**Local detector** (`tiles`, `yolo_scheduler`, `local_yolo`). Tiles partition the frame, mapped
boxes stay in their tile's share, and the scheduler's log shows no stale report, no double
processing and no selection of a key before its period is over.

**Audio capture** (`audio_capture`). Packets handed to the callback are related to a ghost record of
everything taken from the device's stream.

**Gamepad actions** (`gamepad`). The lateral command and the two buttons are compared with the log
of sends the link accepted.

Where the code is not what a reader might expect, the model follows the code:

- The audio loop's second limit, which skips whole pending packets, can never take effect: the first
  limit already keeps the unread part below one packet more than the limit
  (`AudioCapture.Capture.ReadAndDeliver`).
- `LeaveRoom`'s two branches marked "cannot be" that continue the loop are unreachable. The third
  such branch, a room that lists a session twice, is harmless.
- Limiting a frame twice is not always limiting it once (`FrameFit.TwoLimitsCanDiffer`): when only
  one of the two boxes has room for twice the reduced ratio, the results can differ
  (`FrameFit.TwoStagesAreOne`).
- `Reset` of the gamepad state forgets an accepted lateral command, after which a disconnect stop
  reports success without sending one (`Gamepad.ResetForgetsMotion`). All reports of a run are right
  exactly when `lateral_active()` is false at each reset (`Gamepad.AllReportsRightIff`).
- The depacketizer files slices by main number alone, so the packets of two peers can displace each
  other (`SharedNumber.FirstMessageLost`).
- A message over 65535 slices is not refused: the receiver hands over a prefix of it as a message, or nothing
  (`EndToEnd.PrefixHandedOver`, `EndToEnd.NothingHandedOver`).

## Model

| member | source | states |
|---|---|---|
| PacketFormat.PacketRoundTrip | vtsrtc/src/packet/packetizer.cpp:108-145 | Decoding a packet gives back version 1, every 16-bit field and the payload; version and payload size share two bytes without overlap |
| PacketFormat.WireFormat | vtsrtc/src/packet/packetizer.cpp:120-142 | Where each number of a packet lies on the wire, high byte first, and where the payload starts |
| PacketFormat.SlicesJoin | vtsrtc/src/packet/packetizer.cpp:191-256 | The slices of a message, one after the other, are the message |
| PacketFormat.JoinedIsPrefix | vtsrtc/src/packet/packetizer.cpp:195-255 | The first n slices are the first n * 1162 bytes, or the whole message |
| PacketFormat.SliceSizes | vtsrtc/src/packet/packetizer.cpp:191-255 | Every slice but the last has 1162 bytes and the last is what is left |
| Sender.RunKeepsInv | vtsrtc/src/packet/packetizer.cpp:147-169 | In every run with messages of safe length the wire is one block per message in order, only the last unfinished, its missing packets are exactly the resend queue, and nothing was lost |
| Sender.StepKeepsInv | vtsrtc/src/packet/packetizer.cpp:147-169 | One submission or worker round keeps that invariant for any buffered amounts the channel reports |
| Sender.SendKeepsInv | vtsrtc/src/packet/packetizer.cpp:171-263 | Cutting up a message when nothing waits to be resent adds exactly its packets to wire and resend queue |
| Sender.ResendKeepsInv | vtsrtc/src/packet/packetizer.cpp:265-295 | Retrying a packet moves it to the wire or back into the queue, which always has room for it |
| Sender.NoLoss | vtsrtc/src/rtc_connection.cpp:109-127 | For any run and congestion, each packet of each message cut up so far is on the wire or in the resend queue exactly once and none was dropped |
| Sender.MessagesDoNotMix | vtsrtc/src/packet/packetizer.cpp:147-169 | For every i some prefix of the wire holds all packets of the first i messages and nothing else |
| Sender.BlocksInOrder | vtsrtc/src/packet/packetizer.cpp:158-167 | The blocks of the first i messages end at one place of the wire |
| Sender.SafeLength | vtsrtc/src/packet/packtype.h:8-15 | 66651158 bytes is exactly the length up to which all packets but the last fit below the queue limit |
| Sender.AtMostLimitIsSafe | vtsrtc/src/packet/packtype.h:8-15 | Messages whose packets total at most 64 MiB are of safe length |
| Sender.NoLossIffSafe | vtsrtc/src/packet/packetizer.cpp:79-101 | Sending a message loses nothing under every congestion exactly when it is of safe length |
| Sender.LongMessageLoses | vtsrtc/src/packet/packetizer.cpp:171-263 | A run from the start that loses a packet: one message over the bound and a channel that admits nothing |
| Sender.NoRunLosesIff | vtsrtc/src/packet/packetizer.cpp:147-169 | For any set of messages, no run that submits some of them loses a packet exactly when each is of safe length |
| Sender.TotalOfPermutation | vtsrtc/src/packet/squeue.h:21-41 | The byte count of a queue depends on what it holds, not on the order |
| Sender.SentIffBelowBound | vtsrtc/src/rtc_connection.cpp:109-127 | A packet goes out at once while it keeps the channel below 16 MiB; else it is queued again, or lost when 64 MiB are |
| Sender.OpenChannelSends | vtsrtc/src/rtc_connection.cpp:118-126 | A message's packets all go out, in order, when the channel has room for each |
| Sender.FullChannelSendsNothing | vtsrtc/src/rtc_connection.cpp:113-117 | Nothing goes out when it has room for none |
| Sender.OpenChannelSendsMessage | vtsrtc/src/packet/packetizer.cpp:171-263 | On an open channel the front message goes out whole, under the next number |
| Sender.OpenChannelResends | vtsrtc/src/packet/packetizer.cpp:265-295 | On an open channel the oldest refused packet goes out |
| Sender.OpenChannelDrains | vtsrtc/src/packet/packetizer.cpp:147-169 | While the channel stays open, as many rounds as packets wait and messages are queued put all of them on the wire, refused packets first, oldest first |
| Sender.AcceptedIffBelowLimit | vtsrtc/src/packet/packetizer.cpp:55-77 | A message is queued last exactly when less than 64 MiB are queued before it |
| Sender.StartedInOrder | vtsrtc/src/packet/packetizer.cpp:55-77 | When less than 64 MiB are submitted in all, the messages started and queued are those submitted, in order |
| Packetizing.SafeQueue.Push | vtsrtc/src/packet/squeue.h:21-27 | Appends, and keeps count and byte count exact |
| Packetizing.SafeQueue.Pop | vtsrtc/src/packet/squeue.h:35-41 | Removes the front, and keeps count and byte count exact |
| Packetizing.SafeQueue.Capacity | vtsrtc/src/packet/squeue.h:54-57 | The running count is the sum of the sizes of the queued buffers |
| Packetizing.Packetizer.Split | vtsrtc/src/packet/packetizer.cpp:55-77 | Queues the message, signals once and reports success exactly when the queue is below its byte limit |
| Packetizing.Packetizer.Resend | vtsrtc/src/packet/packetizer.cpp:79-101 | Queues the packet again and signals once exactly when that queue is below its byte limit; otherwise it is lost |
| Packetizing.Packetizer.PacketsCallback | vtsrtc/src/rtc_connection.cpp:109-127 | Sends below 16 MiB; at or above that bound sends nothing and queues again with a signal |
| Packetizing.Packetizer.DoPacketize | vtsrtc/src/packet/packetizer.cpp:108-145 | The header bytes written are those of the packet format for the current registers |
| Packetizing.Packetizer.SendSlice | vtsrtc/src/packet/packetizer.cpp:195-256 | One pass of the loop sends slice i under number i and moves on by one |
| Packetizing.Packetizer.SendSlices | vtsrtc/src/packet/packetizer.cpp:191-256 | The loop over the remaining length hands every packet of the message to the callback, in order and once, with one signal for each packet queued again |
| Packetizing.Packetizer.SendPacket | vtsrtc/src/packet/packetizer.cpp:171-263 | Refines sending all packets of the front message under the next main number |
| Packetizing.Packetizer.ResendPacket | vtsrtc/src/packet/packetizer.cpp:265-295 | Refines retrying the oldest refused packet |
| Packetizing.Packetizer.ProcessOnce | vtsrtc/src/packet/packetizer.cpp:147-169 | One round refines the worker step, resend queue first; with both queues empty it takes a count of the semaphore or blocks when there is none |
| Receiver.Reassembly | vtsrtc/src/packet/depacketizer.cpp:154-230 | Packets of any messages of 1 to 65535 * 1162 bytes under distinct numbers, once each, in any order and interleaving: each completed message is handed over once and unchanged, only messages in flight have entries, and when all have arrived no entry is left and every message was handed over |
| Receiver.EffectKeepsInv | vtsrtc/src/packet/depacketizer.cpp:185-226 | One arrival keeps what is filed equal to what arrived, for the message and for all others |
| Receiver.ReceiveArrival | vtsrtc/src/packet/depacketizer.cpp:185-226 | An arrival files its slice, and exactly the last missing one hands over the message and erases its entry |
| Receiver.JoinComplete | vtsrtc/src/packet/depacketizer.cpp:192-212 | All slices of a message, joined in ascending order, are the message |
| Receiver.CompletedPermutation | vtsrtc/src/packet/depacketizer.cpp:216-224 | Completing each message once hands over each as often as it was sent |
| SharedNumber.FirstMessageLost | vtsrtc/src/packet/depacketizer.cpp:185-226 | Under one main number: one packet of a message of several slices, then a second message, then the rest; the second is handed over and the first is lost |
| SharedNumber.SharedNumberIff | vtsrtc/src/packet/depacketizer.cpp:185-226 | Two messages sharing a main number are both handed over in every interleaving exactly when each fits into one packet |
| Depacketizing.Depacketizer.Combine | vtsrtc/src/packet/depacketizer.cpp:54-65 | Queues the packet and signals once |
| Depacketizing.Depacketizer.DoDepacketize | vtsrtc/src/packet/depacketizer.cpp:104-152 | Fills the registers with the decoded header and returns as many bytes as it announces; an empty packet and another version are refused, the latter without touching the other registers |
| Depacketizing.Depacketizer.Assemble | vtsrtc/src/packet/depacketizer.cpp:192-212 | The buffer sized from packet count and last slice is filled exactly, with the slices in ascending order |
| Depacketizing.Depacketizer.ProcessOnce | vtsrtc/src/packet/depacketizer.cpp:154-230 | One round refines the receiver step on any packet whose entry, if completed, can be put together; an empty queue takes a count of the semaphore or blocks |
| Depacketizing.InFlightReceivable | vtsrtc/src/packet/depacketizer.cpp:185-195 | Every packet of a message in flight, repeated ones included, is such a packet |
| Depacketizing.LongMessageReceivable | vtsrtc/src/packet/depacketizer.cpp:185-195 | So is every packet of a message over 65535 slices up to its first hand-over |
| EndToEnd.BlockDelivers | vtsrtc/src/packet/depacketizer.cpp:185-226 | All packets of one message in any order hand over exactly that message and leave nothing behind |
| EndToEnd.BlocksDeliver | vtsrtc/src/packet/packetizer.cpp:147-169 | A wire of complete blocks hands over the messages of the chosen channels in order |
| EndToEnd.WireDeliversMessages | vtsrtc/src/rtc_connection.cpp:109-127 | After any run and congestion, a receiver given the wire's packets of any channels was handed exactly those channels' nonempty messages in order, but for the last message while packets of it wait to be resent; then it holds that message's sent slices and nothing else |
| EndToEnd.EverythingArrives | vtsrtc/src/packet/packetizer.cpp:147-169 | After any run of messages of safe length and any congestion, once the channel stays open the next rounds bring every message started or queued to the peer, in order |
| EndToEnd.SubmittedArrives | vtsrtc/src/packet/packetizer.cpp:55-77 | So everything submitted arrives, when it is less than 64 MiB in all |
| EndToEnd.PrefixHandedOver | vtsrtc/src/packet/packetizer.cpp:192-193 | A message of 65536 slices or more whose truncated count is not zero has its first that many slices, a proper prefix, handed over as if it were the message |
| EndToEnd.NothingHandedOver | vtsrtc/src/packet/packetizer.cpp:192-193 | A message whose truncated slice count is zero is never handed over |
| EndToEnd.RoundTripIff | vtsrtc/src/packet/packetizer.cpp:191-260 | Splitting and reassembling is the identity exactly for messages of 1 to 65535 * 1162 bytes |
| WakeUp.RunKeepsInv | vtsrtc/src/packet/semaphore.h:12-21 | In every interleaving of pushes, signals, spurious wake-ups and worker steps, each message queued since the worker looked is matched by a count or a signal still due |
| WakeUp.NoLostWakeUp | vtsrtc/src/packet/packetizer.cpp:147-156 | A parked worker has nothing to resend, and each queued message has a producer whose signal is still due |
| WakeUp.Drains | vtsrtc/src/packet/packetizer.cpp:147-169 | With no signal due, no producer active and the channel open, the worker empties both queues and parks |
| WakeUp.OneSignalPerItem | vtsrtc/src/packet/semaphore.h:12-21 | Every message or packet queued brings exactly one signal, and only a wait takes one |
| WakeUp.CongestedQueuesAgain | vtsrtc/src/rtc_connection.cpp:113-117 | A packet is queued again exactly when the channel is congested |
| Rooms.RoomsStayConsistent | signaling-server/src/http_controller.cpp:131-263 | Over all runs a session is in at most one room and at most once, no room is empty, each is stored under its own id, and a broadcasting room contains its broadcaster |
| Rooms.StepKeepsRoomInv | signaling-server/src/http_controller.cpp:163-190 | Each handler keeps those room invariants, forced reopening included |
| Rooms.OpeningRooms | signaling-server/src/http_controller.cpp:163-190 | When opening is refused, and why; else the new room has the requested id, type, one member and broadcaster, and all other rooms stay |
| Rooms.JoiningRoom | signaling-server/src/http_controller.cpp:245-262 | When joining is refused, and why; else the session is the last member, and type, broadcaster, all other members and all other rooms stay |
| Rooms.ClosingRoom | signaling-server/src/ws_controller.cpp:186-199 | Closing removes that room and no other |
| Rooms.NoticesSent | signaling-server/src/ws_controller.cpp:171-199 | One notice for an opened or closed room, once to every connected session and to no other |
| Rooms.DeletesSent | signaling-server/src/ws_controller.cpp:233-241 | One "delete" for each room that leaving closes, in order, to every connected session |
| Rooms.ConnectionsChange | signaling-server/src/ws_controller.cpp:252-263 | Leaving keeps all connections, losing one drops that session only, a new one gets a fresh id |
| Rooms.LeavingRooms | signaling-server/src/ws_controller.cpp:201-250 | Of the rooms the session is in, leaving closes exactly those of the broadcasting type that it broadcasts in and those with no other member; it is taken out of the others, and other members and rooms stay |
| Rooms.ClosesMeans | signaling-server/src/ws_controller.cpp:224-226 | The closing test in terms of type, broadcaster and other members |
| Rooms.LeavingTwice | signaling-server/src/ws_controller.cpp:201-250 | Leaving again changes nothing |
| Rooms.WithoutConcat | signaling-server/src/ws_controller.cpp:244-247 | Removing a member keeps the order and number of the others |
| Rooms.StepKeepsConnectedIff | signaling-server/src/http_controller.cpp:144-189 | A handler keeps all members connected exactly when the session it admits, if any, is connected |
| Rooms.MembersStayConnected | signaling-server/src/ws_controller.cpp:252-263 | If opens and joins name connected sessions only, every member and every broadcaster is connected in every run |
| Rooms.UnknownSessionBecomesMember | signaling-server/src/http_controller.cpp:144-190 | One open request for a session nobody holds breaks that |
| Rooms.StepAgrees | signaling-server/src/ws_controller.cpp:171-199 | A step's notices turn the room ids before it into those after it, for every session connected throughout |
| Rooms.DirectoryAgrees | signaling-server/src/ws_controller.cpp:171-250 | Replaying everything received since a query gives exactly the room ids after any run |
| SignalingServer.WsController.OnOpen | signaling-server/src/ws_controller.cpp:16-34 | The connection gets a fresh session |
| SignalingServer.WsController.IsSessionidExisted | signaling-server/src/ws_controller.cpp:159-169 | Finds a room holding the session exactly when there is one |
| SignalingServer.WsController.OpenRoom | signaling-server/src/ws_controller.cpp:171-184 | Stores the room and tells every connected session |
| SignalingServer.WsController.CloseRoom | signaling-server/src/ws_controller.cpp:186-199 | Erases the room and tells every connected session |
| SignalingServer.WsController.LeaveOne | signaling-server/src/ws_controller.cpp:204-248 | One round deals with one room, and strictly shrinks the set of rooms that hold the session |
| SignalingServer.WsController.LeaveRoom | signaling-server/src/ws_controller.cpp:201-250 | Terminates from any room map, duplicates included, and amounts to leaving every room with one notice for each closed one |
| SignalingServer.WsController.CloseConnectionAndTimer | signaling-server/src/ws_controller.cpp:252-263 | Amounts to dropping sessions of that connection only, each of which is in no room afterwards |
| SignalingServer.HttpController.OpenRoom | signaling-server/src/http_controller.cpp:144-190 | Status and new state of an open request, forced or not; a refusal names a room the session is in |
| SignalingServer.HttpController.CloseRoom | signaling-server/src/http_controller.cpp:205-219 | Status and new state of a close request |
| SignalingServer.HttpController.JoinRoom | signaling-server/src/http_controller.cpp:234-262 | Status and new state of a join request; a missing room is reported before a double membership |
| SignalingServer.HttpController.LeaveRoom | signaling-server/src/http_controller.cpp:277-284 | Always succeeds and is one leave step |
| FrameFit.FitFrameSize | vtsrtc/src/rtc_videosource.hpp:20-43 | The largest even size of exactly the input's ratio inside the box; the input itself when no limit applies or no such size exists |
| FrameFit.ReducedRatio | vtsrtc/src/rtc_videosource.hpp:26-34 | Euclid's loop yields the greatest common divisor and the reduced ratio |
| FrameFit.GcdCombines | vtsrtc/src/rtc_videosource.hpp:26-32 | The divisor divides both sides and is a combination of them |
| FrameFit.ReducedIsCoprime | vtsrtc/src/rtc_videosource.hpp:33-34 | The reduced sides are coprime, in Bezout's form |
| FrameFit.EvenMultiple | vtsrtc/src/rtc_videosource.hpp:35-38 | The largest even multiple of the ratio in the box |
| FrameFit.CandidateIsEvenMultiple | vtsrtc/src/rtc_videosource.hpp:33-42 | Every exact-ratio even size is an even multiple of the reduced ratio |
| FrameFit.MultipleBoundsCandidates | vtsrtc/src/rtc_videosource.hpp:35-42 | No candidate is larger than the multiple chosen |
| FrameFit.FitIsUnique | vtsrtc/src/rtc_videosource.hpp:20-43 | The contract of the limiter determines its result |
| FrameFit.BoxIsMetIffFeasible | vtsrtc/src/rtc_videosource.hpp:39-41 | The result is inside the box exactly when the input was or a candidate exists |
| FrameFit.FeasibleIffRoom | vtsrtc/src/rtc_videosource.hpp:33-41 | An even size of the exact ratio exists in a box exactly when the box has room for twice the reduced ratio, the test that the multiple is not zero |
| FrameFit.Idempotent | vtsrtc/src/rtc_videosource.hpp:20-43 | Limiting again with the same box changes nothing |
| FrameFit.FitKeepsRatio | vtsrtc/src/rtc_videosource.hpp:33-42 | The result is positive, of the input's exact ratio and no side is enlarged |
| FrameFit.TwoStagesKeepRatio | vtsrtc/src/rtc_videosource.hpp:58-61 | The configured limit followed by the adapter's keeps the exact ratio and enlarges no side |
| FrameFit.TwoStagesAreOne | vtsrtc/src/rtc_connection_manager.cpp:1391-1398 | When the two limits in a row give what one limit by the smaller box gives, exactly, in terms of which boxes have that room |
| FrameFit.TwoLimitsCanDiffer | vtsrtc/src/rtc_videosource.hpp:58-61 | 64x48 for the boxes 32x32 and 6x6: the two limits give 32x24, the smaller box alone leaves 64x48 |
| FrameFit.FirstStageShrinks | vtsrtc/src/rtc_connection_manager.cpp:1391-1398 | After a first limit that found a size the two agree exactly when the second box has that room |
| Sha1Compat.SHA1 | signaling-server/src/openssl_sha1_compat.cpp:11-99 | The first 20 bytes written are the FIPS 180-4 digest of any input below 2^61 bytes, the rest is untouched, and no buffer gives no result |
| Sha1Compat.AbsorbBlock | signaling-server/src/openssl_sha1_compat.cpp:25-88 | One pass of the block loop is one compression of the padded message's next block |
| Sha1Compat.LoadBlock | signaling-server/src/openssl_sha1_compat.cpp:26-43 | The sixteen words shifted together are those of the padded message's block |
| Sha1Compat.ByteAt | signaling-server/src/openssl_sha1_compat.cpp:30-41 | The byte made up for an index is the byte of the padded string of section 5.1.1 |
| Sha1Compat.PadLength | signaling-server/src/openssl_sha1_compat.cpp:22-23 | The padded length is the least multiple of 64 with room for message, marker and length, which never collide |
| Sha1Compat.PaddedString | signaling-server/src/openssl_sha1_compat.cpp:22-43 | The padded string is the message, a byte 0x80, zeros, and the message's length in bits as a 64-bit number |
| Sha1Compat.PadInjective | signaling-server/src/openssl_sha1_compat.cpp:22-43 | Different messages never have one padded string |
| Sha1Compat.LengthByte | signaling-server/src/openssl_sha1_compat.cpp:38-41 | Shifting the bit count gives the big-endian length field |
| Sha1Block.ExpandSchedule | signaling-server/src/openssl_sha1_compat.cpp:45-47 | The in-place loop computes the 80-word message schedule |
| Sha1Block.RunRounds | signaling-server/src/openssl_sha1_compat.cpp:49-81 | The rotating variables are those of the standard after 80 rounds |
| Sha1Block.WriteDigest | signaling-server/src/openssl_sha1_compat.cpp:90-96 | Writes the five words big-endian and nothing else |
| Sha1Words.WordReadsBack | signaling-server/src/openssl_sha1_compat.cpp:90-96 | Bytes written for a word, read as message bytes are, give back the word |
| Sha1Spec.RoundConstants | signaling-server/src/openssl_sha1_compat.cpp:58-73 | The four constants are the square roots of 2, 3, 5 and 10 in units of 2^-30, rounded down |
| Sha1Words.ChForm | signaling-server/src/openssl_sha1_compat.cpp:59-59 | The routine's inclusive "or" computes the standard's Ch |
| Sha1Words.MajForm | signaling-server/src/openssl_sha1_compat.cpp:67-67 | The routine's inclusive "or" computes the standard's Maj |
| Sha1Words.Rotate5 | signaling-server/src/openssl_sha1_compat.cpp:6-8 | Shifting both ways and joining is a rotation, by 5 |
| Sha1Words.Rotate30 | signaling-server/src/openssl_sha1_compat.cpp:6-8 | The same, by 30 |
| NearestIndex.Nearest | client/apps/rtc_console/main.cpp:247-256 | The result is the source index nearest to the scaled position, despite 64-bit arithmetic |
| NearestIndex.Monotone | client/apps/rtc_console/main.cpp:247-256 | A later destination never gets an earlier source |
| NearestIndex.Ends | client/apps/rtc_console/main.cpp:247-256 | First and last index are fixed |
| NearestIndex.InRange | client/apps/rtc_console/main.cpp:247-256 | Every result is a source index |
| NearestIndex.NoSkip | client/apps/rtc_console/main.cpp:247-256 | Enlarging never skips a source index |
| NearestIndex.Identity | client/apps/rtc_console/main.cpp:247-256 | Equal counts change nothing |
| NearestIndex.OntoIffNotShrinking | client/apps/rtc_console/main.cpp:247-256 | Every source index is used exactly when there are at least as many destinations |
| Interleave.RasterizeFrameToRenderedHorizontalInterleave | client/apps/rtc_console/main.cpp:258-301 | Accepts exactly an output, sides and dimension above zero, an even width and a long enough buffer; then the output vector is resized and holds the interleaved picture row by row |
| Interleave.RasterizeRow | client/apps/rtc_console/main.cpp:281-298 | One pass of the outer loop completes one row and disturbs no earlier one |
| Interleave.RasterizePixel | client/apps/rtc_console/main.cpp:289-296 | One pass of the inner loop appends the picture's pixel to what is written |
| Interleave.ReadsInBounds | client/apps/rtc_console/main.cpp:282-296 | Every source read is inside the frame's buffer |
| Interleave.SourceOffset | client/apps/rtc_console/main.cpp:282-296 | The byte offset computed in two steps is that of the source pixel |
| Interleave.EyesStaySeparate | client/apps/rtc_console/main.cpp:289-295 | Even columns show the left half, odd columns the right half |
| Interleave.GatherAt | client/apps/rtc_console/main.cpp:286-296 | Each pixel can be read back from the written buffer at its place |
| Interleave.RoundTrip | client/apps/rtc_console/main.cpp:258-301 | At native size de-interleaving gives back the frame byte for byte |
| Interleave.CompleteIffNotShrinking | client/apps/rtc_console/main.cpp:277-297 | Every frame pixel is shown exactly when each eye has as many output columns as source columns and no rows are dropped |
| Tiles.TilesPartition | client/apps/rtc_console/local_yolo.cpp:55-63 | Every pixel is in exactly one tile, for every frame size and tiling |
| Tiles.CutsAreEven | client/apps/rtc_console/local_yolo.cpp:60-63 | Cuts lie at equal parts of a side, rounded down |
| Tiles.TileCounts | client/apps/rtc_console/local_yolo.cpp:55-57 | Which sources are cut into how many rows and columns |
| Tiles.MappedBoxExact | client/apps/rtc_console/local_yolo.cpp:91-94 | Each number of a mapped box is the exact rational one, rounded down |
| Tiles.WholeFrameKeepsBoxes | client/apps/rtc_console/local_yolo.cpp:91-94 | With one tile no box changes |
| Tiles.MappedBoxInShare | client/apps/rtc_console/local_yolo.cpp:91-94 | A box inside its tile maps, despite three floor divisions, to a box inside the tile's share of the scale, never past 65535 |
| Tiles.MapStaysInShare | client/apps/rtc_console/local_yolo.cpp:91-94 | The same for one side |
| Tiles.DetectTiles | client/apps/rtc_console/local_yolo.cpp:55-98 | The loops collect the first 64 mapped boxes of all tiles in row order, and succeed exactly when no tile fails |
| Tiles.DetectTile | client/apps/rtc_console/local_yolo.cpp:60-96 | One tile adds its mapped boxes up to the limit; an empty tile is skipped, a failure does not end the frame |
| Tiles.TileBoxesMeans | client/apps/rtc_console/local_yolo.cpp:75-96 | A tile with pixels whose detection succeeds contributes every one of its boxes, in order; any other none |
| Tiles.RowMajor | client/apps/rtc_console/local_yolo.cpp:58-60 | The tiles' boxes come row by row, from left to right |
| Tiles.SucceedsMeans | client/apps/rtc_console/local_yolo.cpp:81-84 | A frame succeeds exactly when detection does on every tile with pixels |
| Tiles.OneTileReportsBoxes | client/apps/rtc_console/local_yolo.cpp:55-98 | A frame that is one tile reports the first 64 of the detector's own boxes |
| Tiles.FrameBoxesMapped | client/apps/rtc_console/local_yolo.cpp:86-96 | Every detection is a detector box of some tile, inside that tile's share if it was inside the tile |
| YoloScheduler.RunKeepsInv | client/apps/rtc_console/local_yolo.cpp:23-133 | The scheduler's state agrees with its log in every interleaving of calls and worker steps |
| YoloScheduler.NoStaleReport | client/apps/rtc_console/local_yolo.cpp:99-103 | No callback runs for a frame submitted before a Clear or Stop that has returned |
| YoloScheduler.FinishReports | client/apps/rtc_console/local_yolo.cpp:99-103 | A finished frame is reported exactly when no Clear or Stop came since it was accepted: to the result callback on success, to the failure callback, if there is one, else |
| YoloScheduler.ProcessedOnce | client/apps/rtc_console/local_yolo.cpp:43-44 | Each accepted frame is taken at most once and reported at most once, after it was taken |
| YoloScheduler.TakesNewest | client/apps/rtc_console/local_yolo.cpp:109-117 | The frame taken for a key is the newest accepted for it, with no Clear or Stop since |
| YoloScheduler.SubmitAccepts | client/apps/rtc_console/local_yolo.cpp:109-117 | Which frames are accepted, by their numbers; one for a pending key always is, and replaces the older one |
| YoloScheduler.DueIff | client/apps/rtc_console/local_yolo.cpp:33-33 | In terms of the log a pending key is due exactly when the worker took none of its frames, or the last at least a period before |
| YoloScheduler.TakesOldest | client/apps/rtc_console/local_yolo.cpp:29-46 | A selection takes a due frame than which no due frame was received earlier, and bars its key only |
| YoloScheduler.ClearAndStop | client/apps/rtc_console/local_yolo.cpp:119-133 | Both drop what is pending; only Stop ends the loop |
| YoloScheduler.SelectionsSpaced | client/apps/rtc_console/local_yolo.cpp:29-46 | Two selections of a key by one worker are at least its period apart |
| YoloScheduler.PeriodFromStart | client/apps/rtc_console/local_yolo.cpp:14-46 | The period is 1000000 / max_fps microseconds for an accepted max_fps |
| YoloScheduler.PendingBounded | client/apps/rtc_console/local_yolo.cpp:109-117 | At most 32 keys are ever pending |
| LocalDetection.LocalYolo.Start | client/apps/rtc_console/local_yolo.cpp:11-107 | Stops the previous worker, then starts exactly with valid options and a detector, else is left stopped |
| LocalDetection.LocalYolo.Submit | client/apps/rtc_console/local_yolo.cpp:109-117 | Accepts, replaces or ignores a frame as the scheduler machine does |
| LocalDetection.LocalYolo.Clear | client/apps/rtc_console/local_yolo.cpp:119-123 | One clear step |
| LocalDetection.LocalYolo.Stop | client/apps/rtc_console/local_yolo.cpp:125-133 | Drops what is pending, waits for the worker, which reports nothing more, and leaves none |
| LocalDetection.LocalYolo.Search | client/apps/rtc_console/local_yolo.cpp:29-38 | The loop finds the oldest-received frame among the due keys, or that no key is due, and the earliest time a pending key is due |
| LocalDetection.LocalYolo.Select | client/apps/rtc_console/local_yolo.cpp:29-46 | Takes an oldest-received due frame and bars its key for a period, or changes nothing when no key is due |
| LocalDetection.LocalYolo.Finish | client/apps/rtc_console/local_yolo.cpp:99-103 | Reports to the right callback exactly when neither stopped nor cleared since and there is one to report to |
| AudioCapture.DiscardAudioStreamData | client/modules/audio/src/audio_device.cpp:110-129 | Succeeds exactly when all bytes asked for were dropped, never drops more, and fails only when a read does |
| AudioCapture.Capture.constructor | client/modules/audio/src/audio_device.cpp:272-287 | Valid options give packets of at least one byte and as a limit the most packets that last 20 ms, but at least one |
| AudioCapture.Capture.DropOldest | client/modules/audio/src/audio_device.cpp:297-308 | Drops what is pending and all but the newest allowed bytes of the stream, or on failure the whole stream, and counts each dropped byte |
| AudioCapture.Capture.Read | client/modules/audio/src/audio_device.cpp:317-326 | Appends exactly what it took from the stream, at most four packets |
| AudioCapture.Capture.Deliver | client/modules/audio/src/audio_device.cpp:335-348 | Hands over whole packets until less than one is left or a stop is seen |
| AudioCapture.Capture.ReadAndDeliver | client/modules/audio/src/audio_device.cpp:317-353 | One read of all that is available, or of four packets; nothing is dropped, and of all bytes taken less than a packet is left undelivered; the limit on pending packets is never exceeded |
| AudioCapture.Capture.CaptureLoop | client/modules/audio/src/audio_device.cpp:289-355 | Over any number of rounds and any device, packets are whole runs of the captured stream, in order and disjoint, consumed stays within the buffer, the buffer stays below nine packets, and each answer how much is available is followed by the read or discard it calls for, until a stop is seen |
| AudioCapture.Accounted | client/modules/audio/src/audio_device.cpp:289-355 | Every byte taken was delivered, dropped or is pending; with nothing dropped the packets and the pending bytes are the whole stream taken |
| AudioCapture.NothingMissing | client/modules/audio/src/audio_device.cpp:335-348 | Packets that account for all bytes read are those bytes, so a gap needs a dropped byte |
| Gamepad.RunKeepsInv | client/apps/rtc_console/vehicle_control_sender.cpp:64-129 | The state agrees with the log of accepted sends in every run |
| Gamepad.LateralCommand | client/apps/rtc_console/vehicle_control_sender.cpp:75-93 | An update sends the lateral command the buttons ask for, at the given speed, exactly when it is not the one in effect or a heartbeat has passed since a command to move |
| Gamepad.PressMoves | client/apps/rtc_console/vehicle_control_sender.cpp:75-93 | From rest, left alone sends LateralLeft first, right alone LateralRight |
| Gamepad.ReleaseStops | client/apps/rtc_console/vehicle_control_sender.cpp:75-93 | Both or neither held stops a moving dog |
| Gamepad.ButtonCommand | client/apps/rtc_console/vehicle_control_sender.cpp:95-106 | A pressed button not yet held sends its command, a held one nothing, a released one is let go of |
| Gamepad.LateralIsLastAccepted | client/apps/rtc_console/vehicle_control_sender.cpp:64-129 | In runs whose resets find the lateral state inactive, so in all runs without a reset, the lateral state is the direction of the last accepted lateral command |
| Gamepad.LateralIsLastAcceptedIff | client/apps/rtc_console/vehicle_control_sender.cpp:64-129 | With resets this holds exactly when no reset made the client forget a command that was not a stop |
| Gamepad.StepKeepsAgreementIff | client/apps/rtc_console/vehicle_control_sender.cpp:64-129 | One call keeps the lateral state and the last accepted lateral command in agreement exactly when it is not a reset of an active lateral state |
| Gamepad.AlwaysAgreesIff | client/apps/rtc_console/vehicle_control_sender.cpp:64-129 | They agree throughout a run exactly when each reset finds the lateral state inactive |
| Gamepad.SuccessfulStopHasStopped | client/apps/rtc_console/vehicle_control_sender.cpp:109-122 | In such runs a disconnect stop reports success exactly when the last accepted lateral command is then a stop or there is none |
| Gamepad.ReportIsRightIff | client/apps/rtc_console/vehicle_control_sender.cpp:109-129 | After any calls, resets included, a report of success is right exactly when no reset made the client forget a command that was not a stop |
| Gamepad.AllReportsRightIff | client/apps/rtc_console/vehicle_control_sender.cpp:109-129 | Every report at every point of a run, whatever the link answers, is right exactly when each reset finds the lateral state inactive |
| Gamepad.ResetForgetsMotion | client/apps/rtc_console/vehicle_control_sender.cpp:124-129 | A press and a reset are enough for a wrong report |
| Gamepad.HeartbeatsSpaced | client/apps/rtc_console/vehicle_control_sender.cpp:77-92 | Consecutive accepted commands of one direction are at least a heartbeat apart, whatever the clock does, and a stop is never repeated |
| Gamepad.HeartbeatSent | client/apps/rtc_console/vehicle_control_sender.cpp:77-92 | In any run a direction held for a heartbeat since its last accepted command is sent again |
| Gamepad.OncePerPress | client/apps/rtc_console/vehicle_control_sender.cpp:95-106 | Two accepted sends of a button are separated by its release, a disconnect stop or a reset |
| Gamepad.GamepadDogActionState.constructor | client/apps/rtc_console/vehicle_control_sender.cpp:58-62 | The heartbeat is the one given, or 100 ms for zero |
| Gamepad.GamepadDogActionState.Update | client/apps/rtc_console/vehicle_control_sender.cpp:64-107 | Refines one update; when all its sends are accepted the command in effect is the one left and right ask for, and each button is held as pressed |
| Gamepad.GamepadDogActionState.StopForDisconnect | client/apps/rtc_console/vehicle_control_sender.cpp:109-122 | Always lets go of both buttons, and reports success exactly when the lateral state is then a stop |
| Gamepad.GamepadDogActionState.Reset | client/apps/rtc_console/vehicle_control_sender.cpp:124-129 | Keeps the state in agreement with the last accepted lateral command exactly when it was not active |

## Left out

- Malformed packets, failed allocations, null callbacks and the shutdown flag of the packet workers: the results concern packets the packetizer made.
- Packetizing.Packetizer.SendPacket: the source's two branches, for a full and for a short slice, differ only in the slice size and are one branch here.
- Packetizing.Packetizer.PacketsCallback: the counter `resend_times_` is kept for a log line only and is not modelled.
- Packetizing.Packetizer.ProcessOnce: a blocked worker is one that found no count; how it parks and wakes is in WakeUp.
- Depacketizing.Depacketizer.DoDepacketize: a packet shorter than its header or than the length it announces is read past its end by the source.
- Depacketizing.Depacketizer.ProcessOnce: packets of another version, which the source retries without end, and entries whose slices do not fill the buffer they are copied to.
- Receiver.Receive: after the first hand-over of a message over 65535 slices its remaining packets form entries without a last slice, for which the source's `[size() - 1]` creates an uninitialised buffer; the model joins what is there, and no result reaches that far.
- Packetizing.Packetizer.Split: the capacity test and the push are one step; with several producers the source may exceed the limit by a message each.
- Byte counts and lengths of the queues are unbounded integers; the source's 32-bit `unsigned int` lengths and its `unsigned long` count do not wrap here.
- WakeUp.NoLostWakeUp: the semaphore's wait blocks, so it is a step per test under the lock, with parking and notification as states of the worker. The depacketizer's worker waits on the same semaphore with one queue and no resends and has no machine of its own.
- WakeUp.Drains: fairness of the operating system's scheduler is not modelled; the worker is assumed to run.
- Sender.RunKeepsInv: congestion is whatever amounts the channel reports; the channel's own delivery, and its loss on disconnection, are WebRTC's.
- Receiver.Reassembly: main numbers of messages in flight are distinct, as one peer's packetizer provides; SharedNumber says what happens otherwise.
- Parsing of HTTP and WebSocket requests, replies' JSON, ping timers: a request is its parsed parameters, a timeout is a call of CloseConnectionAndTimer.
- SignalingServer.WsController.OnOpen: session ids are fresh, the wrap-around of the generator at 2^32 is not modelled, and neither are the login message and the ping timer.
- SignalingServer.WsController.CloseConnectionAndTimer: cancelling the ping timer.
- SignalingServer.WsController.IsSessionidExisted: which of several rooms is found first is left open instead of following map order, so the results hold for any order.
- Rooms.DirectoryAgrees: sends succeed as long as the session is connected.
- NearestIndex.Nearest: counts up to 2^32, beyond which the source's 64-bit product wraps; the function itself models the wrap.
- Interleave.RasterizeFrameToRenderedHorizontalInterleave: sides up to 2^32; the source's `size_t` products of sides are not cut to 64 bits.
- Sha1Compat.SHA1: inputs of 2^61 bytes and more, where the bit count overflows.
- Colour conversion, the detector itself, frame pixels and class and confidence of a box: a tile's outcome is an input, a box is its rectangle.
- YoloScheduler.SelectionsSpaced: speaks of one worker; a restarted worker has no memory of earlier selections, in the source too.
- LocalDetection.LocalYolo.Stop: other threads' calls between the flag and the end of the join are left out of the method; the scheduler machine has them. `wait_until` is a repetition of the selection.
- LocalDetection.LocalYolo.Start: the same for the Stop it begins with.
- AudioCapture.Capture.CaptureLoop: `fuel` says how many device calls a modelled run makes before it may be left, since the source's loops end only when the device and the caller let them; nothing else depends on it.
- The playback side of the audio module, device selection and the 64-bit range of packet sizes.
- Gamepad.GamepadDogActionState.Update: whether each send would be accepted is an input of the call; 64-bit wrap of the clock cannot occur as the code compares before subtracting.
- Steering angle, throttle and drive command calculations, acknowledgement tracking, float overlays and layout, option parsing, logging, SDP and ICE exchange: easy or bound to libraries.

# Verified model of the tracker platform's backend

The backend receives GPS trackers over TCP, decodes their protocols, stores what they report, raises
events, and sends them commands, among them the one that cuts an engine. This project models the parts
whose correctness does not show in any single function and proves what they promise together.

| files | part of the system |
|---|---|
| `Bytes`, `Wrappers`, `Text`, `Tracker` | bytes, big-endian integers, BCD, trimming, shared validations |
| `Crc`, `Gt06Frame`, `Gt06Codec`, `Gt06Login`, `Gt06Commands` | the gt06 wire format, both ends of it |
| `Gt06Packets`, `Gt06Texts` | its packets and commands byte by byte, in figures and letters |
| `Framing`, `TcpSession`, `Gt06Session` | the session loop, and why the cutting of a gt06 stream cannot matter |
| `Server`, `Detection` | which protocol a stream is taken for, under every cut |
| `Chunking`, `TextFramer`, `H02Framer`, `TextStreams` | the framers for which the cut can matter, exactly when, and what arrives |
| `H02Binary`, `H02Bytes` | the H02 BCD cursor against a flat string of digits, and the frame byte by byte |
| `Simplify`, `Positions` | Douglas-Peucker, sampled history, cursor pages |
| `CommandStore`, `CommandService`, `CommandRuns` | the life cycle of commands under every interleaving |
| `StateStore`, `Ingestor`, `IngestorRuns`, `IngestorSteps` | state transitions, events and their replay |
| `Registry` | the live sessions by IMEI |

## How things are modelled

- A byte is an integer below 256 and a stream a sequence of bytes. Truncations (`byte(x)`, `uint16(x)`)
  are written out. The checksum register is a string of 16 bits.
- Objects that change are classes; each method is proved against a function of the old state, and the
  lemmas over runs are about those functions. A run is a sequence of atomic steps of any number of
  actors in any order. A database table is the sequence of its rows in creation order, a statement one
  step; a row's id is its index among commands, and an increasing number among positions.
- Parsing, acknowledging and handing a frame over is one verdict per dispatched frame, an arbitrary
  function of all the frames so far.
- Coordinates, speeds and distances are reals. `Simplify` compares squares of distances and takes the
  shrinking of a degree of longitude as an arbitrary function of latitude; the guarantees hold for each.
- Clocks, random keys, positions read back from the database, and whether a send succeeds are inputs.
- The zero-padding of `BuildLoginFrame` follows the `%016s` of its format string.
- `CommandRuns` also has an event `Again`, a second dispatch of a command already dispatched. Nothing in
  the code does that today; the event shows that the lock, and not the caller, prevents double sending.

## Where the code departs from its comments

The model follows the code.

- A reply with a key that matches no open command closes the oldest open one instead, and the audit
  entry still calls it exact (`backend/internal/commands/service.go:315`, `:354`); `ExactMatchHonestIff`
  says when the entry is truthful.
- The reason of a rejected command is never stored: the INSERT has no error column and the later update
  excludes rejected rows (`backend/internal/commands/command.go:85`, `:144`).
- The engine acknowledgement event is recorded for failed replies too
  (`backend/internal/commands/service.go:357`).
- History can return one point more than its limit (`backend/internal/tracking/position.go:211`).
- A session that re-identifies keeps its old registry key (`backend/internal/tracking/ingestor.go:116`).
- A registered session that was replaced is not restored when its successor is cleaned up first.
- `ValidCoordinates` says it refuses the point 0,0 and accepts it
  (`backend/internal/protocols/coordinates.go:58-66`).
- The tkstar and H02 framers give up on an unfinished unit when a read leaves more than 1024 bytes of it,
  but the comparison is made per read: a unit of 1026 to 3072 bytes is kept whole by some cuts and torn by
  others. `Chunking` defines the calm streams, on which no cut shows. Units of at most 1025 bytes are calm;
  a longer one is calm only if no cut can complete it and every place to give it up leads to the same frames.
- The engine-cut rule looks at the type of a command only; a free-text command can carry the cut's text.
- H02 claims a text whose first comma has not arrived, as its comment says, but not one whose identifier is
  still arriving: a first read of at least eight bytes that ends within the first ten digits of the identifier
  closes the connection (`backend/internal/protocols/h02/h02.go:84-93`); `H02FirstRead` says exactly when.

## Model

| member | source | states |
|---|---|---|
| Tracker.NullIslandPasses | backend/internal/protocols/coordinates.go:58-66 | the point 0,0 is accepted |
| Tracker.IdentifierIff | backend/internal/protocols/tracker.go:236-254 | blanks around it aside, an identifier passes if and only if it has 10 to 20 digits that are not all zero |
| Crc.MixByte | backend/internal/protocols/gt06/frame.go:25-34 | the inner loop's eight shifts leave the register the eight-turn specification gives |
| Crc.ComputeCrcITU | backend/internal/protocols/gt06/frame.go:23-36 | the two nested loops compute the checksum that SumInNumbers gives in plain integers and the other lemmas are about |
| Crc.SumInNumbers | backend/internal/protocols/gt06/frame.go:23-36 | the checksum is 0xFFFF less an integer register that starts at 0xFFFF and turns by halving, adding 0x8408 where a one falls out |
| Crc.CheckValue | backend/internal/protocols/gt06/frame.go:23-36 | the checksum of the text 123456789 is 0x906E |
| Crc.ResidueIsGood | backend/internal/protocols/gt06/frame.go:23-36 | from sixteen ones, any data followed by its own checksum, low byte first, leaves 0xF0B8, the good final value of Appendix C.2 of RFC 1662; the frames themselves carry the high byte first |
| Crc.RegisterFeedsBits | backend/internal/protocols/gt06/frame.go:23-36 | the byte-wise register is the bit-serial one: each byte enters least significant bit first |
| Crc.FeedXor | backend/internal/protocols/gt06/frame.go:23-36 | feeding is linear over exclusive or, in register and message together |
| Crc.SumDifference | backend/internal/protocols/gt06/frame.go:23-36 | the checksums of two inputs of one length differ by exactly what the difference of the inputs feeds to a zero register |
| Crc.CollisionIff | backend/internal/protocols/gt06/frame.go:23-36 | two inputs of one length collide if and only if their difference feeds a zero register back to zero |
| Crc.BurstChangesCrc | backend/internal/protocols/gt06/frame.go:23-36 | inputs that differ only inside some window of 16 consecutive bits never share a checksum |
| Crc.OddDamageChangesCrc | backend/internal/protocols/gt06/frame.go:23-36 | inputs that differ in an odd number of bits, anywhere, never share a checksum |
| Framing.DrainConserves | backend/internal/tcp/session.go:83-134 | dispatched frames, discards and leftover spell out the received stream, byte for byte |
| Framing.DrainExhausts | backend/internal/tcp/session.go:83-134 | the loop stops only when the framer asks for more or consumes nothing |
| Framing.DrainSame | backend/internal/tcp/session.go:83-134 | how earlier discards were grouped cannot influence what is dispatched later |
| Framing.DrainForetold | backend/internal/tcp/session.go:83-134 | a step-by-step description of a stream's frames and rest is what the loop delivers and leaves |
| Framing.FeedGated | backend/internal/tcp/session.go:104-128 | a dispatch that ends the session only cuts the sequence of frames short, however the stream was cut |
| Gt06Frame.IndexOfStart | backend/internal/protocols/gt06/frame.go:88-95 | the scan returns the first position at which a doubled delimiter starts, or -1 |
| Gt06Frame.NextFrame | backend/internal/protocols/gt06/frame.go:39-86 | never claims more bytes than it was shown, always advances on a non-empty buffer unless it waits, and waits on at most 4101 bytes; AnswerAtDelimiter and AnswerOtherwise give its answers |
| Gt06Frame.AnswerAtDelimiter | backend/internal/protocols/gt06/frame.go:54-86 | behind a short or a long delimiter: waits, two bytes dropped or a frame of length plus 5 or 6, from the one-byte or the big-endian two-byte length, 5 to 4096, and the closing 0D 0A |
| Gt06Frame.AnswerOtherwise | backend/internal/protocols/gt06/frame.go:39-53 | without a delimiter at the front: drop up to the first doubled 78 or 79, or all but a lone last one |
| Gt06Frame.AssembleFrame | backend/internal/protocols/gt06/frame.go:133-141 | appending piece by piece builds the specified frame, checksum included |
| Gt06Frame.BuiltShape | backend/internal/protocols/gt06/frame.go:133-141 | where each field of a built frame stands, and that the checksum covers length to serial number |
| Gt06Frame.DecodeBuilt | backend/internal/protocols/gt06/frame.go:105-141 | decoding a built frame returns its type, content and serial number, for every content of any length |
| Gt06Frame.FramerSeesBuiltIff | backend/internal/protocols/gt06/frame.go:54-141 | the framer hands a built frame out whole, whatever follows, if and only if its content is at most 250 bytes |
| Gt06Frame.FramerSeesLongIff | backend/internal/protocols/gt06/frame.go:54-86 | a long frame, 79 79 and a two-byte length, is handed out whole, whatever follows, if and only if length of content plus 5 is at most 4096 |
| Gt06Frame.DecodeLong | backend/internal/protocols/gt06/frame.go:105-130 | decoding a long frame returns its type, content and serial number, for every content its length field can count |
| Gt06Frame.BurstRejected | backend/internal/protocols/gt06/frame.go:105-130 | a valid frame damaged inside a 16-bit window of its covered bytes is refused with a checksum error |
| Gt06Frame.OddDamageRejected | backend/internal/protocols/gt06/frame.go:105-130 | so is a valid frame with any odd number of covered bits flipped |
| Gt06Frame.ChecksumDamageRejected | backend/internal/protocols/gt06/frame.go:105-130 | a valid frame with any damage to its checksum field is refused with a checksum error |
| Gt06Frame.DamageAcceptedIff | backend/internal/protocols/gt06/frame.go:105-130 | a valid frame damaged anywhere behind its first byte, checksum included, is accepted if and only if the change of its covered bytes feeds a zero register to the change of its checksum |
| Gt06Frame.BurstAcrossBorder | backend/internal/protocols/gt06/frame.go:133-141 | two valid frames that differ only in bit 7 of the serial number's low byte and in three checksum bits, all within 13 consecutive bits: bursts across the border can pass |
| TcpSession.Detect | backend/internal/protocols/tracker.go:204-211 | the adapter found recognises the front of the stream; none is found exactly when none does |
| TcpSession.Session.Process | backend/internal/tcp/session.go:83-134 | the re-slicing loop leaves the buffer, log and verdict of the drain specification |
| TcpSession.Session.Read | backend/internal/tcp/session.go:50-167 | one read appends, checks the size bound, detects once and processes; the whole new session state is given |
| Gt06Session.StepStable | backend/internal/protocols/gt06/frame.go:39-86 | a step that knew where its frame starts does not change when more bytes arrive |
| Gt06Session.GarbageDropsEither | backend/internal/protocols/gt06/frame.go:39-59 | bytes in which no delimiter starts may be dropped early or late with the same result |
| Gt06Session.DrainSplits | backend/internal/tcp/session.go:83-134 | draining a prefix and then the rest is the same as draining everything at once |
| Gt06Session.LeftoverBound | backend/internal/tcp/session.go:83-134 | an open gt06 session keeps at most 4101 bytes between reads |
| Gt06Session.ChunkingDoesNotMatter | backend/internal/tcp/session.go:83-134 | however a gt06 stream is cut into reads of up to 2048 bytes, the session dispatches the frames, takes the verdict and keeps the leftover of one undivided drain; with a packet limit of at least 6149 bytes the cut-off never fires |
| Gt06Session.TwoChunkingsAgree | backend/internal/tcp/session.go:83-134 | any two ways of cutting one stream agree |
| Gt06Session.DetectionIff | backend/internal/tcp/session.go:146-167 | a stream that starts with a gt06 delimiter is recognised as gt06 under every cut if and only if no adapter claims its first byte alone |
| Gt06Session.ProtocolSticks | backend/internal/tcp/session.go:83-167 | once detected, the protocol of a session never changes |
| Gt06Session.BuiltFramesArrive | backend/internal/tcp/session.go:83-134 | any sequence of short frames with up to 250 and long frames with up to 4091 content bytes, mixed and with delimiter-free noise between them, cut anyhow, arrives as exactly those frames, each decoding to its packet |
| Gt06Session.UnknownStream | backend/internal/tcp/session.go:146-167 | a stream no adapter recognises stays open under eight bytes and ends the session from eight on, its bytes recorded |
| Server.ServerIsSane | backend/cmd/server/main.go:89-95 | each of the five registered framers consumes only what it was shown, and gt06 is tried first |
| Server.LoneDelimiter | backend/internal/protocols/h02/h02.go:76-97 | half a gt06 delimiter is claimed by none of the five adapters, unless the capture of unknown protocols is on |
| Server.DetectsGt06Iff | backend/cmd/server/main.go:89-95 | the server recognises a gt06 stream as gt06 under every cut if and only if the capture of unknown protocols is off |
| Server.Gt06StreamsAgree | backend/cmd/server/main.go:89-95 | with capture off, any two ways of cutting a gt06 stream leave the server's session with the same frames, verdict and leftover |
| Detection.Order | backend/cmd/server/main.go:89-95 | gt06, H02, tkstar and, if on, the capture adapter are asked in this order |
| Detection.H02Claims | backend/internal/protocols/h02/h02.go:76-97 | a dollar sign at once; a star while fewer than 32 bytes hold no comma, and from the first comma on exactly with a valid identifier in the second field |
| Detection.GapIsSkipped | backend/internal/protocols/tkstar/protocol_v1.go:94-98 | leading line ends and blanks do not change what tkstar claims |
| Detection.V1ClaimsIdentifiers | backend/internal/protocols/tkstar/protocol_v1.go:102-110 | an identifier closed by a semicolon, and every beginning of one, is claimed by tkstar |
| Detection.DollarIsH02 | backend/internal/tcp/session.go:146-167 | a stream that begins with a dollar sign is taken for H02 under every cut |
| Detection.LineIsTkstar | backend/internal/tcp/session.go:146-167 | a stream that begins with a tkstar login or report is taken for tkstar under every cut, while the capture is off |
| Detection.IdentifierIsTkstar | backend/internal/tcp/session.go:146-167 | so is one that begins with a bare identifier and a semicolon, whether the capture is on or off |
| Detection.H02FirstRead | backend/internal/protocols/h02/h02.go:84-93 | what the first read of an H02 text decides: H02 up to the first comma and again from ten identifier digits on; in between the session waits under eight bytes and is closed from eight on |
| Detection.H02TextDependsOnCut | backend/internal/tcp/session.go:146-167 | every H02 text has a first read that is recognised and one that loses the connection |
| Chunking.SessionIsFeed | backend/internal/tcp/session.go:83-134 | with room for one read beyond what a framer waits on, the size limit never closes the session, which then is the drain loop and keeps at most 1024 bytes |
| Chunking.Splits | backend/internal/tcp/session.go:83-134 | on a calm stream, draining what one read brings loses and splits nothing |
| Chunking.CalmSession | backend/internal/tcp/session.go:83-134 | however a calm stream is cut into reads of up to 2048 bytes, the session dispatches its canonical frames, shortened by the verdict |
| Chunking.RestlessReads | backend/internal/tcp/session.go:83-134 | every stream that is not calm has reads, each of up to 2048 bytes, that change its frames |
| Chunking.CutProofIff | backend/internal/tcp/session.go:83-134 | any two ways of cutting a stream into such reads dispatch the same frames, under every verdict, if and only if the stream is calm |
| Chunking.ShortUnitsAreCalm | backend/internal/tcp/session.go:83-134 | units of at most 1025 bytes make a calm stream, and for units of at most 3072 bytes there is no other way |
| Chunking.LimitShows | backend/internal/tcp/session.go:84-95 | bytes that two reads deliver in full are lost when a read breaks the packet limit before they are complete |
| TextFramer.NextTextFrame | backend/internal/protocols/tkstar/parser.go:39-66 | the two scans of the text framer give the specified step |
| TextFramer.TextIsLawful | backend/internal/protocols/tkstar/parser.go:39-66 | what later bytes can and cannot change about the front of a text stream, and what the framer delivers and keeps of any buffer |
| TextFramer.ChunkingIff | backend/internal/protocols/tkstar/parser.go:39-66 | with a packet limit of at least 3072 bytes, the frames of a tkstar session are independent of the cut into reads if and only if the stream is calm |
| TextFramer.ShortLinesIff | backend/internal/protocols/tkstar/parser.go:39-66 | for streams of lines of at most 3072 bytes that is: if and only if every line has at most 1025 bytes |
| TextFramer.LongLineCanBeCalm | backend/internal/protocols/tkstar/parser.go:39-66 | beyond 3072 bytes a line can be harmless: 1025 characters, 2048 or more blanks and the terminator come out the same under every cut |
| TextFramer.RoomIsNeeded | backend/internal/tcp/session.go:84-95 | for every packet limit from 512 to 3071 bytes, which the configuration accepts, the frames of some calm tkstar stream depend on the cut |
| TextStreams.LinesArrive | backend/internal/protocols/tkstar/parser.go:39-66 | lines of up to 1025 bytes with line ends and blanks between them, cut anyhow: exactly those of up to 1024 bytes are dispatched, in order and whole |
| TextStreams.ItemsArrive | backend/internal/protocols/h02/h02.go:113-157 | H02 texts of up to 1025 bytes and binaries of the configured size with marker-free noise between them, cut anyhow: all are dispatched, in order and whole, and none of the noise |
| H02Framer.IndexOfMarker | backend/internal/protocols/h02/h02.go:182-189 | the scan returns the first '$' or '*', or -1 |
| H02Framer.NextH02 | backend/internal/protocols/h02/h02.go:113-157 | never claims more bytes than it was shown, and advances unless it waits |
| H02Framer.H02IsLawful | backend/internal/protocols/h02/h02.go:113-157 | what later bytes can and cannot change about the front of an H02 stream, and what the framer delivers and keeps of any buffer |
| H02Framer.ChunkingIff | backend/internal/protocols/h02/h02.go:113-157 | with a fixed binary length of 1 to 1024 and a packet limit of at least 3072 bytes, the frames of an H02 session are independent of the cut into reads if and only if the stream is calm |
| H02Framer.ShortTextsIff | backend/internal/protocols/h02/h02.go:113-157 | for streams of texts of at most 3072 bytes that is: if and only if every text has at most 1025 bytes |
| Gt06Codec.DecodeGPS | backend/internal/protocols/gt06/decode.go:56-92 | an accepted block has 18 bytes and a position on the globe |
| Gt06Codec.CopyLowHalves | backend/internal/protocols/gt06/decode.go:180-184 | the stepping loop copies the low half of every UTF-16 unit |
| Gt06Codec.ReadReplyText | backend/internal/protocols/gt06/decode.go:178-187 | ASCII and UTF-16BE replies are told apart and trimmed |
| Gt06Codec.TextEnd | backend/internal/protocols/gt06/gt06.go:172-175 | the end computed from a reply's own length byte lies inside every content of at least 5 bytes |
| Gt06Codec.ReadLocation | backend/internal/protocols/gt06/gt06.go:138-164 | the message filled in step by step is the specified one: cell block skipped, status applied, alarm named |
| Gt06Codec.UnitsClose | backend/internal/protocols/gt06/simulate.go:169-170 | encoding a coordinate in units of 1/1800000 degree and back moves it by at most 1/3600000 degree and never across zero |
| Gt06Codec.FlagsDecode | backend/internal/protocols/gt06/simulate.go:180-191 | course, hemispheres and validity come back out of the flag word |
| Gt06Codec.GPSRoundTrip | backend/internal/protocols/gt06/decode.go:56-92 | a GPS block encoded from a fix on the globe in the years 2000 to 2255 is accepted and faithful to it |
| Gt06Codec.StatusRoundTrip | backend/internal/protocols/gt06/decode.go:114-140 | the terminal byte, battery and signal levels come back with the stated clamping, and raise no alarm |
| Gt06Codec.PositionRoundTrip | backend/internal/protocols/gt06/simulate.go:98-107 | the server accepts every position frame of such a fix; place, time, speed, course, satellites, ignition and relay survive up to the stated rounding |
| Gt06Codec.AlarmRoundTrip | backend/internal/protocols/gt06/simulate.go:110-121 | an alarm frame carries the position and its code's label, and is acknowledged with its own serial number |
| Gt06Codec.HeartbeatRoundTrip | backend/internal/protocols/gt06/gt06.go:86-91 | a heartbeat reports the whole status, raises no alarm, and its acknowledgement decodes to an empty heartbeat of the same serial number |
| Gt06Packets.GpsAcceptedIff | backend/internal/protocols/gt06/decode.go:57-92 | a GPS block is accepted if and only if it has 18 bytes, month 1 to 12, day 1 to 31, and at most 162000000 and 324000000 units of latitude and longitude |
| Gt06Packets.GpsReads | backend/internal/protocols/gt06/decode.go:57-92 | each field of an accepted block from its own bytes: date, satellites, signed coordinates, speed, course, hemispheres and validity by flag bit |
| Gt06Packets.TerminalInfoReads | backend/internal/protocols/gt06/decode.go:114-130 | relay, ignition, charging, armed and alarm by bit of the status byte, and nothing else changed |
| Gt06Packets.AlarmTable | backend/internal/protocols/gt06/decode.go:144-175 | the labels of the alarm codes |
| Gt06Packets.LocationReads | backend/internal/protocols/gt06/gt06.go:138-164 | a location packet is its place, a cell block of eight or nine bytes by its first bit, three bytes of status and an alarm code, each only if it is there |
| Gt06Packets.ReadByType | backend/internal/protocols/gt06/gt06.go:62-121 | which types are read as places, logins and replies, and that any other carries nothing |
| Gt06Packets.AnswerByType | backend/internal/protocols/gt06/gt06.go:62-121 | logins, heartbeats and alarms are always acknowledged, replies never, a time request with the clock in six bytes, every other type on request |
| Gt06Packets.RefusedByType | backend/internal/protocols/gt06/gt06.go:62-121 | exactly which frames are refused: undecodable ones, and by type a bad IMEI, a short heartbeat or reply, a bad GPS block |
| Gt06Packets.HeartbeatReads | backend/internal/protocols/gt06/gt06.go:123-136 | status, battery percentage and signal of a heartbeat, and that an alarm in its status makes it an alarm |
| Gt06Packets.ReplyReads | backend/internal/protocols/gt06/gt06.go:168-180 | key and text of a reply, cut by its length byte when that fits |
| Gt06Packets.PlaceSurvives | backend/internal/protocols/gt06/gt06.go:138-164 | a fix and a status survive in each of the seven location types, behind either form of cell block, and an alarm code where the type carries one |
| Gt06Login.BuildLoginFrame | backend/internal/protocols/gt06/simulate.go:58-84 | writing the eight BCD bytes in place builds the specified frame, or fails on length or on the first non-digit |
| Gt06Login.LoginBytes | backend/internal/protocols/gt06/simulate.go:58-76 | the eighteen bytes of a 15-digit login: a padding nibble, then two digits a byte |
| Gt06Login.DecodePacked | backend/internal/protocols/gt06/decode.go:45-51 | reading a packed identifier drops its first digit and nothing else |
| Gt06Login.PackDecoded | backend/internal/protocols/gt06/decode.go:45-51 | a login content with a zero padding nibble and digits only is the packing of the IMEI it decodes to |
| Gt06Login.LoginArrives | backend/internal/protocols/gt06/gt06.go:76-84 | what the server makes of any built login: 15 digits and an acknowledgement, or an invalid-IMEI error if they are all zero |
| Gt06Login.LoginExactIff | backend/internal/protocols/gt06/simulate.go:58-76 | of the valid IMEIs of at most 16 digits, exactly those of 15 digits arrive unchanged |
| Gt06Commands.PositiveInt | backend/internal/protocols/gt06/commands.go:137-146 | an accepted number is the one the text spells and lies within its bounds |
| Gt06Commands.Encoder.NextSerial | backend/internal/protocols/gt06/commands.go:19-21 | the counter wraps at 32 bits and the serial number is its low 16 |
| Gt06Commands.Encoder.EncodeCommand | backend/internal/protocols/gt06/commands.go:38-59 | the frame or refusal of the specification; a refusal draws no serial number |
| Gt06Commands.CommandRoundTrip | backend/internal/protocols/gt06/simulate.go:136-154 | every accepted command passes the framer whole and is read by the tracker with exactly its key and text |
| Gt06Commands.TextIsWords | backend/internal/protocols/gt06/commands.go:61-135 | a generated text is its fields joined by commas and closed by one '#' |
| Gt06Commands.GeneratedReadsBack | backend/internal/protocols/gt06/commands.go:61-135 | no parameter can add a field or a second command: cutting at the only '#' and splitting at commas gives exactly the intended fields |
| Gt06Commands.TextTellsType | backend/internal/protocols/gt06/commands.go:80-135 | commands of different types never generate the same text |
| Gt06Commands.CutTextIsRawIff | backend/internal/protocols/gt06/commands.go:61-64 | a command of another type carries the text of an engine cut if and only if that text is its override |
| Gt06Commands.RawCutIsSent | backend/internal/commands/service.go:133-139 | a free-text command with the override DYD# passes the encoder and is byte for byte the engine cut, for which the position rule, keyed on the type, is not asked |
| Gt06Commands.NumberReadsAs | backend/internal/protocols/gt06/commands.go:96-130 | a numeric parameter is written so that its decimal reading is the accepted value |
| Gt06Commands.AcceptedIff | backend/internal/protocols/gt06/commands.go:38-59 | exactly which commands are sent: safe overrides, and every command whose text could be generated |
| Gt06Commands.ReplyRoundTrip | backend/internal/protocols/gt06/gt06.go:168-180 | a reply of up to 251 bytes is read with its key and cut at its own length |
| Gt06Commands.ReplyFramedIff | backend/internal/protocols/gt06/simulate.go:126-134 | a reply frame passes the framer if and only if its text has at most 243 bytes |
| Gt06Commands.PrintableReplyArrives | backend/internal/protocols/gt06/simulate.go:126-134 | a printable reply of at most 243 bytes passes the framer and is parsed with its key and trimmed text |
| Gt06Commands.Utf16Reply | backend/internal/protocols/gt06/decode.go:178-187 | a UTF-16BE reply reads the same as its ASCII form |
| Gt06Texts.PlainTexts | backend/internal/protocols/gt06/commands.go:61-94 | the texts of the commands without a number, letter by letter, with and without a password |
| Gt06Texts.PasswordRule | backend/internal/protocols/gt06/commands.go:66-69 | a password other than up to 16 letters and digits is refused |
| Gt06Texts.IntervalTexts | backend/internal/protocols/gt06/commands.go:96-107 | TIMER, the password if any, and the seconds, 5 to 18000, or the error |
| Gt06Texts.HeartbeatTexts | backend/internal/protocols/gt06/commands.go:109-116 | HBT and the minutes, 1 to 360, or the error |
| Gt06Texts.ServerTexts | backend/internal/protocols/gt06/commands.go:118-128 | SERVER, mode 1, a safe host and a port from 1 to 65535, or the error |
| Gt06Texts.AtoiReads | backend/internal/protocols/gt06/commands.go:137-146 | a number is an optional sign and digits within 64 bits |
| Gt06Texts.NumberSentIff | backend/internal/protocols/gt06/commands.go:96-130 | a number written in decimal is sent if and only if it is in the range of its command |
| Gt06Texts.OverrideSentIff | backend/internal/protocols/gt06/commands.go:38-64 | an override is sent if and only if it has 1 to 200 printable characters, whatever the type of the command |
| Gt06Texts.CommandBytes | backend/internal/protocols/gt06/commands.go:50-58 | every byte of a command frame but its checksum: lengths, type 0x80, key, text, language, serial number |
| H02Binary.Cursor.ReadByte | backend/internal/protocols/h02/binary.go:32-39 | returns the next byte and advances, or fails at the end of the frame without moving |
| H02Binary.Cursor.ReadBCD | backend/internal/protocols/h02/binary.go:52-81 | reads the number spelled by the next nibbles of the flat string, leaving an odd last nibble's byte unconsumed |
| H02Binary.Cursor.ReadCoordinate | backend/internal/protocols/h02/binary.go:114-162 | reads degrees and minutes as consecutive digits of the flat string and consumes four bytes, for latitude and longitude alike |
| H02Binary.Cursor.ReadUint32 | backend/internal/protocols/h02/binary.go:84-92 | reads four bytes big-endian, or fails without moving |
| H02Binary.ReadBinaryTime | backend/internal/protocols/h02/binary.go:338-355 | the loop over six two-digit fields gives the specified time or error, six bytes further on |
| H02Binary.ReadPlace | backend/internal/protocols/h02/binary.go:255-291 | position, battery and flags in exactly ten bytes, as the flat layout has them |
| H02Binary.ReadMotion | backend/internal/protocols/h02/binary.go:293-320 | speed and course in exactly three bytes |
| H02Binary.DecodeBinary | backend/internal/protocols/h02/binary.go:220-334 | the cursor decodes what the flat layout at fixed offsets says, with the same error, no read past the end, and everything after 29 bytes (32 in a 42-byte frame) left as trailing |
| H02Binary.ScanIff | backend/internal/protocols/h02/binary.go:52-81 | nibbles read as a number if and only if they are its decimal digits |
| H02Binary.TimeIff | backend/internal/protocols/h02/binary.go:338-355 | twelve nibbles read as a time if and only if they are that time written out and the time is plausible |
| H02Binary.MotionIff | backend/internal/protocols/h02/binary.go:293-320 | six nibbles read as speed and course if and only if they are those written out; the unchecked hundreds nibble is at most 3 |
| H02Binary.PlaceRead | backend/internal/protocols/h02/binary.go:255-291 | every accepted position is the writing of its own fields |
| H02Binary.RoundTrip | backend/internal/protocols/h02/binary.go:220-334 | the frame written nibble by nibble from any record of in-range fields decodes to exactly those fields |
| H02Binary.AcceptedIsWritten | backend/internal/protocols/h02/binary.go:220-334 | every accepted frame is the writing of the record it decodes to |
| H02Bytes.AcceptedIff | backend/internal/protocols/h02/binary.go:220-334 | a frame is accepted if and only if it has 29 bytes, its identifier, time, coordinates and motion are decimal digits where the layout wants them, and each is in range |
| H02Bytes.AcceptedReads | backend/internal/protocols/h02/binary.go:220-334 | what an accepted frame reports, in arithmetic on its bytes: clock, both signed coordinates, fix, battery, speed in knots and km/h, course, trailing bytes |
| H02Bytes.AcceptedStatus | backend/internal/protocols/h02/binary.go:198-217 | alarm and ignition by bit of the four status bytes, a clear bit being the alarm |
| H02Bytes.WrittenReads | backend/internal/protocols/h02/binary.go:280-292 | a written record reads back with plus or minus its units over 600000, north and east exactly when flag bits 2 and 3 are up |
| H02Bytes.WritableIff | backend/internal/protocols/h02/binary.go:220-334 | which records can be written, in bounds on their numbers |
| Simplify.DistanceIsLeast | backend/internal/tracking/simplify.go:70-90 | for all positions, no point of the segment, its offsets written out in degrees scaled to metres, is closer than the distance the code computes |
| Simplify.DistanceIsAttained | backend/internal/tracking/simplify.go:70-90 | and some point of the segment has exactly that distance |
| Simplify.FarthestIsFirstMaximum | backend/internal/tracking/simplify.go:47-55 | the search returns the greatest distance, at the first point that has it |
| Simplify.SimplifySegment | backend/internal/tracking/simplify.go:43-65 | the recursive in-place marking sets exactly the specified marks and leaves all others |
| Simplify.SimplifyTrack | backend/internal/tracking/simplify.go:24-41 | the whole method returns the recursion on point sequences, which is the marked subsequence |
| Simplify.Reduce | backend/internal/tracking/simplify.go:24-41 | both ends are kept and nothing is added |
| Simplify.KeptIsReduce | backend/internal/tracking/simplify.go:43-65 | marking by index and recursing on sequences keep the same points of every segment |
| Simplify.DroppedWithinTolerance | backend/internal/tracking/simplify.go:43-65 | every dropped point has a point within the tolerance on the segment joining its two neighbouring kept points |
| Simplify.KeptIsFar | backend/internal/tracking/simplify.go:43-65 | no inner point is kept for nothing: it is farther than the tolerance from every point of some segment between two kept points around it |
| Simplify.OnlyEndsIff | backend/internal/tracking/simplify.go:43-65 | a track shrinks to its two ends if and only if every point is within the tolerance of the segment joining them |
| Simplify.KeptMonotone | backend/internal/tracking/simplify.go:43-65 | a point kept at a larger tolerance is kept at every smaller one |
| Simplify.SimplifyIdempotent | backend/internal/tracking/simplify.go:24-65 | simplifying twice at one tolerance is simplifying once |
| CommandStore.Repository.Insert | backend/internal/commands/command.go:83-90 | one new row behind the old ones, with the given status and without the error text the caller put into the command |
| CommandStore.Repository.Lock | backend/internal/commands/command.go:119-124 | PENDING becomes SENDING, or nothing happens |
| CommandStore.Repository.SetSent | backend/internal/commands/command.go:126-131 | PENDING or SENDING becomes SENT with its deadline, or nothing happens |
| CommandStore.Repository.SetAcknowledged | backend/internal/commands/command.go:133-139 | an open row becomes ACKNOWLEDGED, or nothing happens |
| CommandStore.Repository.SetFinal | backend/internal/commands/command.go:141-147 | a row that is not final gets the final status and reason, or nothing happens |
| CommandStore.FindOpenByCorrelation | backend/internal/commands/command.go:149-157 | a hit is an open row of the device with the key; a miss means there is none |
| CommandStore.FirstInFlight | backend/internal/commands/command.go:159-164 | the oldest SENDING or SENT row of the device |
| CommandStore.Repository.Expire | backend/internal/commands/command.go:167-187 | exactly the rows in flight whose deadline is set and past become TIMEOUT and are returned, oldest first; every other row stays as it is |
| CommandStore.StatementsAdvance | backend/internal/commands/command.go:119-147 | no statement lowers a status or touches a final row |
| CommandStore.StatementsExactly | backend/internal/commands/command.go:119-147 | for each status of a row, what each statement makes of it and whether it hits |
| CommandStore.NewestOpenIff | backend/internal/commands/command.go:149-157 | a keyed reply finds a row if and only if it is the newest open one of the device with that key |
| CommandStore.OldestInFlightIff | backend/internal/commands/command.go:159-164 | a reply without a match finds a row if and only if it is the oldest in flight of the device |
| CommandService.Service.Reject | backend/internal/commands/service.go:266-300 | the row is REJECTED from creation and its reason is never stored |
| CommandService.Service.Prepare | backend/internal/commands/service.go:127-201 | an unsafe cut leaves only a rejected row; an unencodable command leaves none; any other leaves one locked row |
| CommandService.Service.Conclude | backend/internal/commands/service.go:203-237 | the sender's answer turns the row into SENT or FAILED under the guards |
| CommandService.Service.HandleAck | backend/internal/commands/service.go:307-366 | table, audit entry and engine event after a reply; the entry calls every keyed reply exact |
| CommandService.BlockedIffUnsafe | backend/internal/commands/service.go:243-264 | a cut is let through if and only if a position is known, recent enough and slow enough |
| CommandService.ReplyTouchesOneRow | backend/internal/commands/service.go:307-337 | a reply changes at most one row, of its own device, and makes it final |
| CommandService.UniqueKeyCloses | backend/internal/commands/service.go:312-317 | a non-zero key carried by exactly one open command closes that command |
| CommandService.ExactMatchHonestIff | backend/internal/commands/service.go:310-354 | the audit's exact-match flag is truthful if and only if the key is zero or some open row carries it |
| CommandService.KeylessRepliesCloseOldest | backend/internal/commands/service.go:312-337 | k replies without a key close the k oldest in-flight commands in creation order and nothing else |
| CommandRuns.RunKeepsInv | backend/internal/commands/service.go:196-386 | the invariant of every interleaving of requests, dispatches, replies and sweeps |
| CommandRuns.RowsOnlyAdvance | backend/internal/commands/command.go:119-187 | over any run ranks never fall and final rows never change |
| CommandRuns.SentAtMostOnce | backend/internal/commands/service.go:196-220 | the bytes of one command reach the sender at most once, however often it is dispatched |
| CommandRuns.CutOnlyWhenSafe | backend/internal/commands/service.go:133-186 | whenever an engine cut reached the sender, its own Send saw a known, recent and slow position |
| CommandRuns.RefusedForever | backend/internal/commands/service.go:266-300 | a refused cut is rejected from creation, never sent, never revived, and keeps no reason |
| CommandRuns.EarlyReplyStands | backend/internal/commands/service.go:222-230 | a reply that arrives before MarkSent is not overwritten by it |
| CommandRuns.CommandIsSent | backend/internal/commands/service.go:196-237 | an undisturbed command, safe if it is a cut, ends as one SENT row with its key, time and deadline, its bytes handed over once |
| CommandRuns.CommandIsAnswered | backend/internal/commands/service.go:307-366 | its own reply, with its key or none, then closes it with the response, marked as matched by order if it had no key |
| CommandRuns.SweepLeavesNoneOverdue | backend/internal/commands/command.go:167-187 | right after a sweep no SENT row is past its deadline |
| CommandRuns.SweepExactly | backend/internal/commands/command.go:167-187 | over any run, one more sweep times out a row if and only if it is in flight with a deadline set and before the clock, and leaves every other row equal |
| CommandRuns.TimeoutWasOverdue | backend/internal/commands/command.go:167-187 | every timed-out row was closed by a sweep of the run whose clock was past the deadline of the row |
| CommandRuns.TimeoutWasSent | backend/internal/commands/command.go:167-187 | a row times out only after having been SENT earlier in the run |
| CommandRuns.LookupsAreMatchReply | backend/internal/commands/service.go:312-317 | with nothing in between, the two lookups of a reply find what the sequential rule says |
| CommandRuns.ReplyKeepsToItsDevice | backend/internal/commands/service.go:307-337 | whatever happens between a reply's lookups and its update, it settles a command of its own device |
| CommandRuns.ForeignKeySettles | backend/internal/commands/service.go:310-354 | a reachable state in which a reply with one key settles a command with another, which the audit then calls exact |
| StateStore.Store.Update | backend/internal/tracking/state.go:143-167 | one atomic replacement of the device's state, returning the old and the new one |
| Ingestor.Ingestor.EmitStateEvents | backend/internal/tracking/ingestor.go:314-358 | the transitions of ignition, relay, fix and coverage are logged in order |
| Ingestor.Ingestor.EvaluateOverspeed | backend/internal/tracking/ingestor.go:390-430 | the state and log after one overspeed evaluation, the default limit and the absent limit included |
| Ingestor.Ingestor.EvaluateGeofences | backend/internal/tracking/ingestor.go:433-470 | the state and log after one geofence evaluation, entries before exits |
| Ingestor.Ingestor.ProcessTelemetry | backend/internal/tracking/ingestor.go:214-274 | a message runs its telemetry, speed and fence steps in order, the last two only with a stored position |
| IngestorRuns.StepSignals | backend/internal/tracking/ingestor.go:314-430 | one step logs exactly the change it made to a watched condition |
| IngestorRuns.DetectorReplays | backend/internal/tracking/ingestor.go:314-430 | over any interleaving, the events of ignition, relay, fix and overspeed alternate and the last one is the present state |
| IngestorRuns.CoverageReplays | backend/internal/tracking/ingestor.go:348-357 | the same for network coverage, whose first known level raises nothing |
| IngestorRuns.StartsAreSeparated | backend/internal/tracking/ingestor.go:399-409 | between two overspeed starts there is a sample at or below its limit less the hysteresis |
| IngestorRuns.FencesReplay | backend/internal/tracking/ingestor.go:433-470 | replaying a device's entries and exits from its initial fences never fails and gives its present fences |
| IngestorRuns.FenceCrossingsAlternate | backend/internal/tracking/ingestor.go:433-470 | entries and exits of each fence alternate |
| IngestorRuns.DevicesAreIndependent | backend/internal/tracking/ingestor.go:214-470 | steps of other devices, wherever they fall in between, change neither a device's state nor its events: both are those of its own steps alone |
| IngestorSteps.StoredIsLastTold | backend/internal/tracking/ingestor.go:214-240 | over any run, each stored reading is the last one the device reported, or the initial one if it reported none |
| IngestorSteps.StateEventsIff | backend/internal/tracking/ingestor.go:314-358 | telemetry raises each event if and only if its transition happened, reading by reading |
| IngestorSteps.FenceEventsIff | backend/internal/tracking/ingestor.go:433-470 | a fence is entered if and only if it is present and was not before, and left the other way round |
| IngestorSteps.SampleExactly | backend/internal/tracking/ingestor.go:390-430 | one sample: state and event for each case of limit, speed and hysteresis |
| IngestorSteps.SampleDecides | backend/internal/tracking/ingestor.go:399-409 | after any run, a sample above the limit leaves the device overspeeding, one at or below the limit less the hysteresis does not |
| IngestorSteps.MessageLeaves | backend/internal/tracking/ingestor.go:214-274 | what a whole message leaves of readings, overspeed and fences, with and without a stored position |
| IngestorSteps.MessageRaises | backend/internal/tracking/ingestor.go:214-274 | and every event it raises, in order: transitions, the device alarm, the speed verdict, the fences |
| Registry.Connection.Send | backend/internal/tcp/connection.go:106-118 | an empty payload or a closed connection is an error; otherwise the payload is written |
| Registry.Manager.Register | backend/internal/tcp/connection.go:172-188 | the newest session takes the key, and the one it replaces, and no other, is closed |
| Registry.Manager.UnregisterConn | backend/internal/tcp/connection.go:201-220 | the key is removed only if it still leads to this session |
| Registry.Manager.Send | backend/internal/tcp/connection.go:229-235 | only the registered session of the IMEI is written to |
| Registry.RegistryFollows | backend/internal/tcp/connection.go:172-220 | after any interleaving at all, a key leads to the newest session registered under it until that one is cleaned up under it |
| Registry.NewestWins | backend/internal/tcp/connection.go:172-220 | for sessions that keep one IMEI: a key leads to the last session registered for it as long as that one has not been cleaned up |
| Registry.EmptyWhenAllReturned | backend/internal/tcp/server.go:125-135 | for such sessions the registry is empty once every handler has returned |
| Registry.LeftoverIff | backend/internal/tcp/server.go:125-135 | in general, with every handler returned, a key remains if and only if its newest session returned under another IMEI |
| Registry.ReidentifiedLeavesItsKey | backend/internal/tracking/ingestor.go:116-116 | a session that re-identifies leaves its first key behind for good |
| Positions.CeilAtLeastOne | backend/internal/tracking/position.go:200-202 | the sampling step is the least one that fits the rows into the limit |
| Positions.History | backend/internal/tracking/position.go:173-240 | the result of the two statements, the sampling and the optional simplification |
| Positions.ByTimeSorts | backend/internal/tracking/position.go:207-217 | the sampled rows are exactly the filtered ones, in time order |
| Positions.FilterExactly | backend/internal/tracking/position.go:178-181 | the filter yields each row of the device and period with a position, and a valid one if asked, as often as the table has it, and no other |
| Positions.SampleExactly | backend/internal/tracking/position.go:207-217 | a sample is every step-th row from the first on, short of the last, and then the last |
| Positions.SampleIsFaithful | backend/internal/tracking/position.go:207-217 | the sample is ascending, keeps the first and the last row, and consecutive rows are at most one step apart |
| Positions.SampleSizeIff | backend/internal/tracking/position.go:207-217 | a sample of n rows at a step stays within limit + 1 if and only if n - 1 is at most limit times step |
| Positions.SampleSize | backend/internal/tracking/position.go:199-217 | for the rows counted: at most limit + 1 points, and exactly limit + 1 if and only if the last row lies beyond the last counted multiple |
| Positions.LimitExceeded | backend/internal/tracking/position.go:199-217 | four rows with a limit of two give three points |
| Positions.HistoryKeepsEnds | backend/internal/tracking/position.go:173-240 | whatever table the count saw, the history starts and ends at the true first and last rows of the table listed, simplified or not; the sample stays within limit + 1 if and only if the rows listed less one are at most limit times step |
| Positions.HistoryWithinLimit | backend/internal/tracking/position.go:173-240 | so it does whenever the second statement saw no more rows than the first |
| Positions.HistoryFigures | backend/internal/tracking/position.go:173-240 | total, step, flags and defaults: 2000 rows and 5 metres |
| Positions.LateRowsExceedLimit | backend/internal/tracking/position.go:173-240 | one row counted, four listed, a limit of two: four points |
| Positions.ReadPage | backend/internal/tracking/position.go:259-291 | one row more than the limit decides whether there is a next cursor |
| Positions.PageHolds | backend/internal/tracking/position.go:259-291 | the first rows behind the cursor, 500 unless 1 to 1000 are asked for, and a cursor exactly when more follow |
| Positions.CursorSkips | backend/internal/tracking/position.go:259-291 | the cursor after a row leaves exactly the rows behind it |
| Positions.PagesAreComplete | backend/internal/tracking/position.go:259-291 | following the cursor terminates and yields, in id order and each once, all matching rows of the last table read, however rows with larger ids were added meanwhile |
| Positions.PagesYieldEverything | backend/internal/tracking/position.go:259-291 | without insertions, starting at zero yields exactly the rows of the device and period, each once by ascending id |

## Left out

- Sockets, deadlines, keep-alive, goroutine scheduling, logging, metrics, tracing, Redis and HTTP: I/O around the modelled logic.
- PostgreSQL itself, and the asynchronous saving of device states, which may land out of order: only the in-memory state is claimed.
- H02 framing with an unset binary length, and with one above 1024, are in `NextH02` but not in `ChunkingIff`: the first hands over whole buffers and the second drops them by design, so cutting matters. So are packet limits below 3072 bytes, for which `RoomIsNeeded` shows the claim false, and below 6149 for gt06.
- The H02 and tkstar text decoders: field-by-field parsing without state. Of tkstar_v4 only detection and framing are modelled.
- Haversine distance, the cosine, and floating-point rounding, including that of the sampling step: reals and exact integers are used, and fence membership is an arbitrary predicate.
- Calendar normalisation by `time.Date`: a decoded time is the six numbers handed to it.
- Unicode: trimming is that of ASCII blanks, and texts are bytes.
- Aliasing of stored device states: the code replaces them and never changes one in place, so they are values here. Time stamps of heartbeats and updates are omitted.
- Events carry their device, detector and type only; their time, position and metadata are copied through by the code.
- Websocket hub, authentication, token rotation, roles, device and vehicle administration, geocoding, trips and statistics: easy one-step facts.
- The frontend, deployment files and the interactive simulator.
- `Unregister` by IMEI, which nothing calls, and the listing of sessions.
- SessionIsFeed: starts from a session whose protocol is known; the lemmas of `Detection` say when that is.
- SentAtMostOnce: speaks of calls to the sender; whether a tracker received the bytes is outside the server.

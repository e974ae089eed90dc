# A model of the Towitoko smartcard driver

This project models the protocol engines of the Unix driver for Towitoko smartcard readers and proves what
they do with every card: the T=0 and T=1 transports, the memory-card stack from the interindustry commands
down to the reader's 15-byte blocks, the BER-TLV directory walk, the answer to reset, the reader's frame
checksum, and the registry of open card-terminals. `dafny verify dfyconfig.toml` checks all of it.

The world outside the driver is an adversary:

- A processor card (`IccAsync.Icc`) is any finite sequence of bytes it will send; when they run out a read
  times out.
- A memory card (`MemoryCard.Device`) is an array of cells whose writes run around inside a page of 64 or 256
  bytes. It may store something else than it is told (`flaws`), and it locks itself when it loses power.
- Any reader operation may fail (`faults`). Contracts say what holds whatever fails, and what holds when
  nothing does (`Healthy`).

Code that updates state is modelled by classes and loops (`ProtocolT0.T0`, `ProtocolT1.T1`, `IccSync.Card`,
`ProtocolSync.Sync`, `AtrParser.Answer`, `CtRegistry.List`, `CtRegistry.Api`). Each method is tied to a
function of what the card holds or sends, and the laws are proved about those functions.

| file | contents |
|---|---|
| Bytes | bytes, exclusive or, inverse convention, and their bits |
| Machine | the masks, shifts and exclusive ors of the driver on eight-bit registers, equal to the arithmetic of the model for every byte |
| Apdu | command and response APDUs |
| IccAsync | the link to a processor card |
| T0Wire | one T=0 exchange as a function of the card's bytes; procedure-byte schedules |
| T0Mapping | which TPDUs an APDU becomes and how their answers are joined |
| T0Dialogue | what a sequence of exchanges hears from the card and says to it |
| T0Script | whole T=0 commands against a card that follows a script |
| ProtocolT0 | the T=0 handler |
| T0Card | a card by the bytes that it sends, and what the driver makes of them |
| T0Cases | what each case of command comes to against such a card |
| T0Commands | whole commands of every case, from bytes to bytes |
| T1Block | the block codec |
| T1Wire | a T=1 command as a function of the card's bytes; block scripts |
| ProtocolT1 | the T=1 handler |
| IfdFrame | the frame checksum and the transmit frames |
| MemoryCard | the memory card in the reader |
| IccSync | reading, page-split writing, and the PIN |
| Tlv | BER-TLV objects |
| Directory | what SELECT FILE looks for |
| ProtocolSync | SELECT FILE, READ BINARY, UPDATE BINARY, VERIFY, CHANGE VERIFY DATA |
| SyncCommands | the same commands from bytes and cells to the answer |
| Atr, AtrParser | the answer to reset, and the two parsers and the printer |
| CtRegistry | the list of card-terminals, CT_init and CT_close |

## What the code does differently

- The case numbers 2 and 3 are swapped against the comments in src/driver/apdu.h:38-43: 2S and 2E send data,
  3S and 3E receive it. The model follows the code.
- A T=0 card may deliver more than Le bytes one by one (~ACK). An ACK after that drops the surplus
  (`T0Wire.LateAckLosesByte`), and 257 bytes leave no room for the status (`T0Wire.CrowdedReplyFails`). The
  delivered bytes are returned with the status exactly if no ACK comes late and there are at most 256 of them
  (`T0Wire.ReplyIsPayloadIff`).
- A T=0 case 1 command gets P3 = 00, which the transport decodes as case 3S with Le = 256.
- A T=0 card may answer a sending command 9000 without taking its data (`T0Script.StatusAlone`). A card that
  answered every envelope 90xx has the whole command exactly if it sent, for every envelope, an ACK or a ~ACK for
  each byte of it (`T0Script.EnvelopeTakenIff`).
- A T=0 card that announces data with 61xx and then answers GET RESPONSE with a status alone, even 9000, gets an
  error (`T0Mapping.EmptyChainRefused`, `ProtocolT0.ReceiveEmptyChain`): a GET RESPONSE chain answered to its end is
  OK exactly if no append met a total of 0 bytes or of more than 65536 (`T0Mapping.ShortReceiveJoins`,
  `T0Mapping.LongReceiveJoins`).
- The T=1 byte counter has 16 bits, and a response has at least two bytes: an answer is returned whole exactly if
  it has 2 to 65535 bytes (`T1Wire.AnswerIffFits`, `T1Wire.LongAnswerLost`, `ProtocolT1.Transact`).
- A T=1 waiting time request without information field makes the driver follow a null pointer; the model
  answers `Undefined`. This happens exactly if the card sends such a request after blocks that the driver
  answers (`T1Wire.UndefinedIff`, `T1Wire.UndefinedExists`).
- An ATR makes the parsers write behind their seven rows of interface bytes exactly if seven rows follow T0, each
  announcing another, and the bytes that the parser looks for in the eighth are there: all of them in an array, TA8
  in a stream, and none in a stream from a card of inverse convention, because ATR_GetNextByte inverts the place of
  a byte that did not arrive (`Atr.OverrunIff`, `Atr.OverrunExists`, `Atr.InverseOverrun`); the model answers
  `Overrun`.
- ATR_GetRaw prints into 33 bytes. The printed form of an accepted ATR fits exactly if the recorded length does
  (`Atr.PrintFitsIff`), and the stream parser accepts longer ones (`AtrParser.LongStream`).
- IFD_Towitoko_Transmit makes every frame as long as the first: it sends exactly the buffer if and only if it
  is at most 255 bytes long or a multiple of 255 (`IfdFrame.ReachExact`).
- A cached PIN is left unpresented on a powered 2-wire card exactly if an operation of the reader fails after the one
  that powered the card up (`IccSync.Card.EnterPin`, `IccSync.Card.Read`, `IccSync.Card.Prepare`; an instance is
  `IccSync.LeaveStalePin`), and a write then reaches the card while it is locked (`IccSync.Card.Write`).
  ICC_Sync_ChangePin leaves the driver with a wrong belief exactly if no PIN was verified before
  (`IccSync.Card.ChangePin`, `IccSync.ChangeUnverified`).
- The directory search of SELECT FILE cuts the wanted application identifier to the shortest one that it has met, and
  lowers the length that it reads of a path to the shortest path of a hit, starting from an uninitialised variable.
  It selects the application that the first template with the wanted identifier names exactly if no template before
  leads it astray and that path fits the buffer and is not misread (`Directory.SearchRightIff`); when a template is a
  hit, how much of a path is read, and when it is misread is told by `Directory.HitExactly`,
  `Directory.RoomExactly` and `Directory.ShortPathGarbled`. Memories where it selects another application, or the
  directory itself, are those of `Directory.WrongApplication`, `Directory.ShortRoom` and `Directory.LoweredRoom`.
- A path of more than two bytes, with as much length left, is written behind the two-byte buffer; the model answers
  `Undefined` (`Directory.LongPath`).
- Walking into an empty constructed TLV object yields the object after it as a child (`Tlv.ChildrenStartInside`,
  `Tlv.EmptyParent`), and the last child may end behind its parent (`Tlv.ChildrenInside`, `Tlv.OverlongChild`).
- SELECT FILE by identifier takes two bytes, and CHANGE VERIFY DATA six, without looking at Lc. An Le field that
  follows the data is taken along (`ProtocolSync.LeCompletesFile`); only if the command ends before those bytes is the
  driver undefined, and the model answers `Undefined`.

## Model

| member | source | states |
|---|---|---|
| `Bytes.XorInjective` | src/driver/ifd_towitoko.c:1609-1625 | exclusive or with a fixed byte is injective |
| `Bytes.FlipInvolution` | src/driver/defines.h:76-85 | reversing and complementing the bits of a byte twice gives the byte back |
| `Bytes.XorBit` | src/driver/t1_block.c:236-249 | a bit of an exclusive or is set if just one of the two bits is |
| `Bytes.FlipBit` | src/driver/defines.h:76-85 | bit k of a byte of an inverse card is the complement of bit 7 - k |
| `Machine.EveryByte` | src/driver/defines.h:76-85 | every byte is the value of an eight-bit register |
| `Machine.XorIsMachine` | src/driver/t1_block.c:236-249 | the exclusive or of the model is that of registers |
| `Machine.FlipIsMachine` | src/driver/defines.h:76-85 | Flip is the complement of INVERT_BYTE with its shifts and masks |
| `Machine.ProcedureClass` | src/driver/protocol_t0.c:785-894 | NULL, SW1, ACK and ~ACK are told apart by the masks F0 and 0E of the procedure byte and the instruction, for every byte and instruction |
| `Machine.ProcedureByte` | src/driver/protocol_t0.c:777-931 | what the loop does with every procedure byte, by those masks, the 200th NULL and the full buffer included |
| `Machine.BlockFields` | src/driver/t1_block.c:171-199 | type, N(S), M and N(R) are the masked and shifted bits of the protocol control byte |
| `Machine.LrcIsMachine` | src/driver/t1_block.c:236-249 | the LRC of any bytes is the loop over registers |
| `Machine.MixIsMachine` | src/driver/ifd_towitoko.c:1609-1625 | one byte enters the checksum by exclusive or, shift, and setting or clearing the low bit |
| `Machine.ChecksumIsMachine` | src/driver/ifd_towitoko.c:1609-1625 | the checksum of any bytes is that loop over registers |
| `Machine.FormatByte` | src/driver/atr.c:116-165 | TA, TB, TC, TD and the number of historical bytes are the masked bits of a format byte |
| `Machine.DirectoryReference` | src/driver/atr_sync.h:61-62 | whether and where there is a directory are the masked bits of the reference |
| `Apdu.NewCmd` | src/driver/apdu.c:40-69 | a command object exists unless the input is too long, and starts with the input, padded to a header with zero bytes |
| `Apdu.DecodeEncode` | src/driver/apdu.c:78-263 | for every header, data and Le, short or extended, decoding the encoding recovers case, Lc, Le and data, 256 and 65536 coded as zero included |
| `Apdu.EncodeDecode` | src/driver/apdu.c:78-263 | every command that is not malformed is the encoding of what is decoded from it |
| `Apdu.ShortForms` | src/driver/apdu.c:78-263 | case, data and Le of the four short forms, byte by byte |
| `Apdu.ExtendedForms` | src/driver/apdu.c:78-263 | the same for the three extended forms |
| `Apdu.LeAvailableIff` | src/driver/apdu.c:206-240 | a command asks for everything if and only if its Le is 256, or 65536 in the extended form |
| `Apdu.DataTail` | src/driver/apdu.c:242-263 | from the data pointer to the end of a command there are Lc bytes, starting with the data, and one or two more if an Le field follows |
| `Apdu.Response.TruncateData` | src/driver/apdu.c:345-354 | keeps the first bytes and the status |
| `Apdu.Response.AppendData` | src/driver/apdu.c:356-387 | succeeds exactly for totals of 1 to 65536 data bytes, and then the other response follows the data |
| `IccAsync.Icc.Transmit` | src/driver/icc_async.c:173-199 | bytes go out in order, or none on failure |
| `IccAsync.Icc.Receive` | src/driver/icc_async.c:201-216 | exactly the next bytes of the card, or nothing is taken |
| `T0Wire.Run` | src/driver/protocol_t0.c:777-931 | the procedure-byte loop consumes the card's bytes and never sends more than Lc |
| `T0Wire.SendReadsBounded` | src/driver/protocol_t0.c:777-905 | against any card, even an endless one, sending takes at most 200 * (Lc + 1) procedure bytes and one SW2 |
| `T0Wire.RunRender` | src/driver/protocol_t0.c:777-931 | for any schedule of NULL, ACK and ~ACK the loop goes through exactly the states of the schedule |
| `T0Wire.ScheduleCompletes` | src/driver/protocol_t0.c:801-820 | any schedule that leaves room and ends in SW1 SW2 is answered with what was kept and that status |
| `T0Wire.CompleteIsSchedule` | src/driver/protocol_t0.c:777-946 | conversely, whatever a card sent, an exchange that completes followed a schedule |
| `T0Wire.ReceiveScheduleIndependent` | src/driver/protocol_t0.c:777-946 | any schedule delivering at most Le bytes gives exactly those bytes in order and SW1 SW2; no procedure byte survives |
| `T0Wire.SendAnswersStatus` | src/driver/protocol_t0.c:801-850 | a sending exchange that completes answers exactly SW1 SW2 |
| `T0Wire.CompleteHasStatus` | src/driver/protocol_t0.c:777-946 | a completed exchange has at least two reply bytes, read from the card |
| `T0Wire.KeptIffNoLateAck` | src/driver/protocol_t0.c:852-922 | all delivered bytes are kept if and only if no ACK follows a surplus |
| `T0Wire.ReplyIsPayloadIff` | src/driver/protocol_t0.c:801-922 | for every schedule and status the reply is the delivered bytes and the status if and only if no ACK comes late and at most 256 bytes were delivered |
| `T0Wire.LateAckLosesByte` | src/driver/protocol_t0.c:862-922 | with Le = 1, of any two bytes delivered one by one an ACK drops the second from the reply |
| `T0Wire.CrowdedReplyFails` | src/driver/protocol_t0.c:801-807 | with Le = 1 and no ACK at all, 257 bytes delivered one by one make the exchange fail |
| `T0Card.AckSends` | src/driver/protocol_t0.c:822-850 | for every instruction that is no status, the instruction byte takes all the data of a sending exchange |
| `T0Card.AckReceives` | src/driver/protocol_t0.c:852-880 | and delivers all the data of a receiving one |
| `T0Card.SinglesReceive` | src/driver/protocol_t0.c:884-922 | and its complement delivers the data one by one |
| `T0Card.CardServes` | src/driver/protocol_t0.c:777-931 | a card that delivers data by any mix of NULL, instruction byte and its complement, and ends with a status, gets just the command and has its bytes and status returned, whatever follows |
| `T0Card.CardTakes` | src/driver/protocol_t0.c:777-931 | a card that takes data by any such mix gets the header and just the bytes that it asks for, and has its status returned |
| `T0Mapping.ReceiveTpduLe` | src/driver/protocol_t0.c:505-514 | P3 = Le modulo 256 is classified 3S and asks for exactly Le bytes |
| `T0Mapping.SendTpdu` | src/driver/protocol_t0.c:419-430 | header, length and data is classified 2S with that data |
| `T0Mapping.ShortenedSends` | src/driver/protocol_t0.c:419-430 | the TPDU of an extended command with short data carries that data |
| `T0Mapping.DropLe` | src/driver/protocol_t0.c:335-341 | the sending TPDU of case 4S carries the data of the command |
| `T0Mapping.LongGetResponseLe` | src/driver/protocol_t0.c:682-698 | the extended GET RESPONSE asks for exactly Le bytes, 65536 coded 0000 |
| `T0Mapping.EveryTpduTransportable` | src/driver/protocol_t0.c:184-730 | no case handler, on any run, builds a TPDU that is not 2S or 3S |
| `T0Mapping.EnvelopeTransfer` | src/driver/protocol_t0.c:439-491 | the envelope payloads are a prefix of the raw command, the whole of it in ceil(n / 255) exchanges if all are answered 90xx; otherwise sending stopped at the first other status, which is returned, or at a failure |
| `T0Wire.SentByDemand` | src/driver/protocol_t0.c:822-850 | a schedule of a sending command takes all its data if and only if it has an ACK, or a ~ACK for every byte |
| `T0Script.TakenIfAcknowledged` | src/driver/protocol_t0.c:777-905 | whatever a card sent, a completed sending exchange took all its data if and only if the card's bytes follow a schedule with an ACK, or with a ~ACK for every byte |
| `T0Script.EnvelopeTakenIff` | src/driver/protocol_t0.c:439-491 | a card that answered every envelope 90xx has taken the whole raw command if and only if it sent for every envelope an ACK, or a ~ACK for every byte of it |
| `T0Script.StatusAlone` | src/driver/protocol_t0.c:801-820 | any exchange completes with a status alone, and only the header went out |
| `T0Mapping.ShortReceiveJoins` | src/driver/protocol_t0.c:269-311 | a short GET RESPONSE chain answered to its end is OK if and only if no append met a total of 0 or more than 65536 bytes; then it returns the first min(Le, total) bytes of all answers in order and the last status; each GET RESPONSE asked for what was announced |
| `T0Mapping.EmptyChainRefused` | src/driver/protocol_t0.c:269-311 | 61xx and then a status alone is not OK |
| `T0Script.EmptyChainFails` | src/driver/protocol_t0.c:217-325 | a card that sends just that makes case 3S fail after both exchanges were answered |
| `T0Mapping.LongReceiveJoins` | src/driver/protocol_t0.c:568-617 | the same if and only if for the extended chain, which then returns all the data and the last status |
| `T0Mapping.AppendLimit` | src/driver/apdu.c:356-387 | an append is refused exactly for totals of 0 and of more than 65536 bytes |
| `T0Cases.TalkHeard` | src/driver/protocol_t0.c:217-325 | case 3S against a card that answers at once, with 6Cxx and then that length, or with 61xx and a chain of GET RESPONSE: the response cut to Le, and all that is sent |
| `T0Cases.LongTalkHeard` | src/driver/protocol_t0.c:523-627 | the same for more than 256 bytes |
| `T0Cases.ShortBothHeard` | src/driver/protocol_t0.c:327-409 | case 4S: the data, and then nothing, GET RESPONSE for the smaller of Le and the announced length, or GET RESPONSE for Le, by the first status |
| `T0Cases.EnvelopesHeard` | src/driver/protocol_t0.c:433-491 | envelopes of 255 bytes go out until one is not answered 90xx, and its status is the response |
| `T0Cases.UploadHeard` | src/driver/protocol_t0.c:411-494 | case 2E: one TPDU up to 255 bytes, envelopes above |
| `T0Cases.WideBothHeard` | src/driver/protocol_t0.c:632-730 | case 4E: the data as in case 2E, and then as in case 4S for up to 65536 bytes |
| `T0Mapping.FetchAsks` | src/driver/protocol_t0.c:585-592 | each GET RESPONSE of the extended loop asks for exactly the smaller of what is missing and what was announced |
| `T0Mapping.FetchProgress` | src/driver/protocol_t0.c:585-614 | with at least one and at most the requested bytes per answer the total grows strictly and never passes Le |
| `T0Mapping.LongReceiveExact` | src/driver/protocol_t0.c:568-617 | so the extended loop ends within Le answers, never meets the append limit, and returns exactly Le bytes in order with the last status |
| `ProtocolT0.T0.ExchangeTPDU` | src/driver/protocol_t0.c:732-946 | the response, the code, the bytes read and the bytes sent are those of the exchange function of the card's bytes; with reader failures still only the header and a prefix of the data go out |
| `ProtocolT0.T0.Converse` | src/driver/protocol_t0.c:766-931 | the loop over the reply buffer computes the run of the card's bytes, inside 258 bytes |
| `ProtocolT0.T0.NextProcedureByte` | src/driver/protocol_t0.c:777-931 | one pass of the loop is one step of the run |
| `ProtocolT0.T0.Acknowledged` | src/driver/protocol_t0.c:822-923 | after an acknowledgement the next byte or all remaining bytes change hands |
| `ProtocolT0.T0.Ask` | src/driver/protocol_t0.c:732-946 | an exchange as the handlers see it is heard and spoken on the line; without reader errors a failing one returns its own code |
| `T0Dialogue.Conversation` | src/driver/protocol_t0.c:184-730 | exchanges one after another hear and say what the first ones and then the others do, from where the first ones stopped |
| `T0Dialogue.DialogueJoin` | src/driver/protocol_t0.c:184-730 | a dialogue that goes on after answered exchanges is one dialogue, and its code that of the last exchange |
| `ProtocolT0.T0.Case1Handler` | src/driver/protocol_t0.c:184-204 | one exchange with P3 = 00; its answer is the reply that the card's bytes make, and it is all that is sent |
| `ProtocolT0.T0.Case2SHandler` | src/driver/protocol_t0.c:206-215 | one exchange of the command itself, heard and spoken on the line |
| `ProtocolT0.T0.Case3SHandler` | src/driver/protocol_t0.c:217-325 | every run follows the short receive mapping (6Cxx repeats with the indicated length, 61xx collects, no more than Le bytes), and all its exchanges are heard and spoken on the line |
| `ProtocolT0.T0.Case4SHandler` | src/driver/protocol_t0.c:327-409 | every run sends the data and then fetches the answer unless the data was refused, heard and spoken on the line |
| `ProtocolT0.T0.Case2EHandler` | src/driver/protocol_t0.c:411-494 | every run sends one TPDU, or envelopes from 256 bytes on, heard and spoken on the line |
| `ProtocolT0.T0.Case3EHandler` | src/driver/protocol_t0.c:496-630 | every run follows the extended receive mapping, heard and spoken on the line |
| `ProtocolT0.T0.Case4EHandler` | src/driver/protocol_t0.c:632-730 | every run sends as case 2E and then fetches with an extended GET RESPONSE, heard and spoken on the line |
| `ProtocolT0.T0.Command` | src/driver/protocol_t0.c:122-164 | the exchanges and the response of a command of any case follow its mapping; every answer is the reply that the card's bytes make of the TPDU, the TPDUs as far as the card took them are all that goes out, and the code is that of the failing exchange; with reader errors this holds of the answered exchanges, and of a broken one a prefix goes out |
| `T0Script.ScheduleServes` | src/driver/protocol_t0.c:777-946 | any schedule that delivers at most Le bytes serves a receiving TPDU, whatever follows |
| `T0Script.LongReceiveServed` | src/driver/protocol_t0.c:523-627 | a long receive against a card that serves every GET RESPONSE with at least one byte returns exactly Le bytes in order and the last status, reads nothing more, and sends just the command and those GET RESPONSE commands |
| `ProtocolT0.ReceiveLongAnswer` | src/driver/protocol_t0.c:122-164 | end to end: a command for more than 256 bytes to such a card gets exactly Le bytes and the last status |
| `ProtocolT0.ReceiveBySchedule` | src/driver/protocol_t0.c:732-946 | end to end: against any schedule only the header goes out and the response is the delivered bytes and the status |
| `ProtocolT0.ReceiveEmptyChain` | src/driver/protocol_t0.c:122-164 | end to end: a case 3S command answered 61xx and then a status alone ends in an error |
| `T0Commands.Bare` | src/driver/protocol_t0.c:184-204 | end to end: a case 1 command goes out with P3 = 00 |
| `T0Commands.Send` | src/driver/protocol_t0.c:206-215 | end to end: a case 2S command goes out as far as the card takes it, and its status is the response |
| `T0Commands.Receive` | src/driver/protocol_t0.c:217-325 | end to end: case 3S with an answer at once, after 6Cxx, or by a chain |
| `T0Commands.Both` | src/driver/protocol_t0.c:327-409 | end to end: case 4S with each sequel |
| `T0Commands.SendExtended` | src/driver/protocol_t0.c:411-494 | end to end: case 2E |
| `T0Commands.ReceiveExtended` | src/driver/protocol_t0.c:496-630 | end to end: case 3E |
| `T0Commands.BothExtended` | src/driver/protocol_t0.c:632-730 | end to end: case 4E with each sequel |
| `T0Commands.Malformed` | src/driver/protocol_t0.c:122-164 | end to end: a command of no case is refused before anything is sent |
| `T0Commands.FetchAnswer` | src/driver/protocol_t0.c:384-400 | by the card's bytes: after data answered 9xxx, [CLA C0 00 00 Le] goes out and what the card delivers is the response |
| `T0Commands.PassRefusal` | src/driver/protocol_t0.c:376-381 | by the card's bytes: data answered 62xx to 6Fxx gives that status, and nothing more goes out |
| `T0Commands.FetchAnnounced` | src/driver/protocol_t0.c:350-373 | by the card's bytes: after 61xx [CLA C0 00 00] with the smaller of Le and xx goes out |
| `T0Commands.SendInEnvelopes` | src/driver/protocol_t0.c:433-491 | by the card's bytes: a command of 256 data bytes or more goes out in envelopes of 255, whole and in order |
| `T1Block.SealedParity` | src/driver/t1_block.c:236-249 | a block with its LRC has exclusive or zero |
| `T1Block.EncodedFields` | src/driver/t1_block.c:72-211 | every block the driver builds is at most 255 bytes long, has parity zero, and the accessors give back its type, number, M bit and information field |
| `T1Block.EncodedBytes` | src/driver/t1_block.c:72-169 | the bytes of every block that is sent, up to the LRC |
| `T1Block.XorAllParity` | src/driver/t1_block.c:236-249 | each bit of the LRC is the parity of that bit over all bytes |
| `T1Block.Lrc` | src/driver/t1_block.c:236-249 | the loop computes the exclusive or of the bytes |
| `T1Block.New` | src/driver/t1_block.c:72-169 | the three constructors lay out the encoding |
| `T1Wire.PiecesChain` | src/driver/protocol_t1.c:178-256 | for every command and IFSC in 1..251 the blocks form a chain whose information fields are the command |
| `T1Wire.ChainNumbers` | src/driver/protocol_t1.c:178-256 | in a chain the k-th block has the k-th number modulo 2, and only the last has M clear |
| `T1Wire.PiecesFull` | src/driver/protocol_t1.c:178-235 | every block of the chain but the last carries IFSC bytes |
| `T1Wire.ReadLine` | src/driver/protocol_t1.c:404-456 | a card block of any address, unused bits and check byte is read as it was written |
| `T1Wire.ReceiveCollects` | src/driver/protocol_t1.c:258-349 | the receive phase follows any script of I-blocks and WTX requests block by block |
| `T1Wire.ReceiveScript` | src/driver/protocol_t1.c:258-349 | for any script of up to 65535 bytes the answer is the information fields in order, each chained block is acknowledged with the next number, each WTX request answered with its multiplier |
| `T1Wire.AnswerIffFits` | src/driver/protocol_t1.c:282-355 | for any script the response is the whole answer if and only if it has 2 to 65535 bytes |
| `T1Wire.LongAnswerLost` | src/driver/protocol_t1.c:282-306 | an answer of 258 blocks is not returned |
| `T1Wire.ReceiveIsScript` | src/driver/protocol_t1.c:258-349 | conversely, whatever bytes the card sends, the receive phase follows a script: to its end if it succeeds, otherwise through blocks it answers up to the one that stops it |
| `T1Wire.UndefinedIff` | src/driver/protocol_t1.c:318-323 | the driver follows a null pointer if and only if a WTX request without information field comes after blocks that it answers |
| `T1Wire.UndefinedExists` | src/driver/protocol_t1.c:318-323 | four bytes are enough for that |
| `T1Wire.CommandCompletes` | src/driver/protocol_t1.c:169-355 | a card that acknowledges the chain and then answers by any script is followed to the end of the script |
| `T1Wire.CollectPays` | src/driver/protocol_t1.c:258-349 | following a script of any length every debt is paid in order and nothing more is read |
| `T1Wire.LineBytes` | src/driver/t1_block.h:37-48 | the bytes of the card's blocks |
| `T1Wire.DebtBytes` | src/driver/protocol_t1.c:282-343 | the bytes that are owed: the acknowledgement of the other number, and the multiplier of a WTX request |
| `T1Wire.WaitsScript` | src/driver/protocol_t1.c:262-275 | for any script every block is awaited for BWT, after a WTX request for BWT times its multiplier, and the bytes behind the first four for CWT |
| `ProtocolT1.T1.Init` | src/driver/protocol_t1.c:74-167 | IFSC from TA3, at most 251, N(S) set so that the first block has number 0, block timeout equal to BWT |
| `ProtocolT1.T1.UpdateBwt` | src/driver/protocol_t1.c:471-483 | the block timeout of the card is the 16-bit argument, the other timings are kept |
| `ProtocolT1.T1.SendBlock` | src/driver/protocol_t1.c:375-402 | exactly the encoding of the block goes out as one transmission |
| `ProtocolT1.T1.ReceiveBlock` | src/driver/protocol_t1.c:404-456 | exactly the block at the head of the card's bytes; the timeout is what it was, or BWT |
| `ProtocolT1.T1.SendPhase` | src/driver/protocol_t1.c:178-256 | the chain goes out block by block, or a beginning of it, and succeeds exactly if every chained block is acknowledged |
| `ProtocolT1.T1.TakeNext` | src/driver/protocol_t1.c:258-337 | one block: buffer, 16-bit counter, answer, and the timeouts it was read with; the timer is restored after a WTX request on every path |
| `ProtocolT1.T1.ReceivePhase` | src/driver/protocol_t1.c:258-349 | the loop computes the receive function of the card's bytes, sends its answers, and reads with the timeouts of the waiting function |
| `ProtocolT1.T1.Command` | src/driver/protocol_t1.c:169-355 | code, response, blocks sent and bytes read are those of the outcome function; on every path N(S) alternates over all I-blocks since Init and the card's timings are what they were, the block timeout equal to BWT |
| `ProtocolT1.Transact` | src/driver/protocol_t1.c:169-355 | end to end: just the chained command and the owed answers went out, the answer was awaited as long as the card asked for, and the response is the information fields of the answer if and only if there are 2 to 65535 bytes of them |
| `IfdFrame.ComputeChecksum` | src/driver/ifd_towitoko.c:1609-1625 | the loop computes the rotating checksum |
| `IfdFrame.ChecksumComposes` | src/driver/ifd_towitoko.c:1582-1607 | the checksum of a concatenation goes on from that of the first part |
| `IfdFrame.InitialInjective` | src/driver/ifd_towitoko.c:1609-1625 | equal checksums of one command mean equal initial values, for every length |
| `IfdFrame.OneByteDetected` | src/driver/ifd_towitoko.c:1609-1625 | changing any one byte of a command of any length changes the checksum |
| `IfdFrame.PrepareCommand` | src/driver/ifd_towitoko.c:1582-1607 | the frame, at 115200 bps with its length byte, is one that its slot accepts; the command is otherwise unchanged |
| `IfdFrame.CorruptionRefused` | src/driver/ifd_towitoko.c:1582-1625 | an accepted frame with any one byte changed is refused |
| `IfdFrame.SlotsDistinct` | src/driver/ifd_towitoko.c:1582-1607 | a frame for slot A is refused by slot B |
| `IfdFrame.ReachExact` | src/driver/ifd_towitoko.c:659-686 | a transmission reads exactly the buffer if and only if it fits one frame or fills all of them |
| `IfdFrame.Transmit` | src/driver/ifd_towitoko.c:631-732 | the frames join to the memory reached, one frame up to 255 bytes, each announced by an accepted header |
| `MemoryCard.PageWriteIsFlat` | src/driver/icc_sync.c:245-258 | inside one page a write that runs around is a flat write |
| `MemoryCard.ReadBackIsSplice` | src/driver/icc_sync.c:300-307 | a change confined to a range that reads back as the data is the flat write |
| `IccSync.ReadBuffer` | src/driver/ifd_towitoko.c:1021-1070 | blocks of 15 and a remainder read exactly the asked bytes, if and only if none of the ceil(length / 15) read commands fails |
| `IccSync.BlocksOf15` | src/driver/ifd_towitoko.c:1021-1070 | that is the number of read commands |
| `IccSync.WriteBuffer` | src/driver/ifd_towitoko.c:1072-1125 | inside a page blocks of 15 and a remainder change nothing else, and an unlocked obedient card holds the data |
| `IccSync.ChunkInPage` | src/driver/icc_sync.c:253-258 | every chunk is as long as 256 bytes, what is left and its page allow |
| `IccSync.Card.Read` | src/driver/icc_sync.c:193-223 | an OK read gives the memory's bytes and keeps the belief about the PIN true; a cached PIN is left unpresented exactly if the card was powered up and one of the 2 + ceil(length / 15) operations after that fails |
| `IccSync.Card.Prepare` | src/driver/icc_sync.c:264-279 | powers the card up and presents the cached PIN; it is left unpresented exactly if the reader fails after powering the card up |
| `IccSync.Card.Put` | src/driver/icc_sync.c:264-298 | a chunk changes nothing outside its range, and reaches an active card that is locked as a locked write |
| `IccSync.Card.WriteChunk` | src/driver/icc_sync.c:260-310 | the retries end in OK, with the chunk flat in memory, or read-only; with fewer spoiled writes than attempts in OK; a chunk of one block is read-only if and only if every attempt is spoiled |
| `IccSync.Card.Write` | src/driver/icc_sync.c:225-327 | an OK write is the flat write even if the card does not obey; nothing outside the range ever changes; without reader errors it ends in OK or read-only, and only with a reader error can the belief about the PIN become wrong; with the PIN cached no write reaches a locked card and one that spoils fewer writes than there are attempts (two on an I2C card for more than one byte, otherwise one) is written, and what fits one block is read-only exactly if every attempt is spoiled; a PIN left unpresented on an active card lets a write reach it while it is locked |
| `IccSync.Card.EnterPin` | src/driver/icc_sync.c:329-378 | the answer is the card's; only a reader error can make the belief about the PIN wrong; a cached PIN is left unpresented exactly if the card was powered up and one of the three operations after that fails |
| `IccSync.LeaveStalePin` | src/driver/icc_sync.c:329-378 | a verified PIN, a read and one reader error leave an active card with a cached PIN unpresented |
| `IccSync.Card.ChangePin` | src/driver/icc_sync.c:380-416 | the belief about the PIN stays true if and only if the PIN was verified before |
| `IccSync.ChangeUnverified` | src/driver/icc_sync.c:380-416 | changing the PIN of a card to which none was presented is OK and leaves the driver with a wrong belief |
| `Tlv.Decode` | src/driver/tlv_object.c:33-144 | an object starts at its address, its value at least two bytes on, and ends inside the data, so no 16-bit sum wraps |
| `Tlv.WalkAdvances` | src/driver/tlv_object.c:191-248 | the objects of a walk lie in the data, each starting where the one before it ends |
| `Tlv.ChildrenStartInside` | src/driver/tlv_object.c:203-248 | children start inside their parent if and only if the parent is not empty or nothing follows it |
| `Tlv.ChildrenInside` | src/driver/tlv_object.c:203-248 | children lie wholly inside their parent if and only if the last one does not end behind it |
| `Tlv.EmptyParent` | src/driver/tlv_object.c:203-226 | in 30 00 53 01 xx the empty object has the one behind it as its child |
| `Tlv.OverlongChild` | src/driver/tlv_object.c:203-226 | in 30 03 53 04 and four more bytes the child ends three bytes behind its parent |
| `Tlv.FirstWithIsFirst` | src/driver/tlv_object.c:228-248 | the object found has the tag and no earlier one has it |
| `Tlv.DecodeEncode` | src/driver/tlv_object.c:33-144 | an encoded item of one- or two-byte tag and nonempty value is decoded to its tag and value |
| `Tlv.EncodeBytes` | src/driver/tlv_object.c:33-144 | the bytes of an item, with lengths up to 127, in 81 and in 82 form |
| `Tlv.WalkFindsItems` | src/driver/tlv_object.c:191-226 | walking over encoded items finds exactly those items in order |
| `Tlv.ChildrenOfEncoded` | src/driver/tlv_object.c:203-226 | an encoded constructed object has exactly the encoded items as children |
| `Tlv.New` | src/driver/tlv_object.c:33-144 | what is found is really there, and on a healthy reader it is found |
| `Tlv.Shift` | src/driver/tlv_object.c:191-201 | the object right after this one |
| `Tlv.Iterate` | src/driver/tlv_object.c:203-226 | gives the children one by one, at increasing addresses, and then nothing |
| `Tlv.GetObjectByTag` | src/driver/tlv_object.c:228-248 | the first child with the tag, or none |
| `Tlv.GetObjectBySec` | src/driver/tlv_object.c:250-271 | the child with the number, or none |
| `Tlv.GetValue` | src/driver/tlv_object.c:164-173 | the first bytes of the value, as many as there is room for |
| `Tlv.CompareValue` | src/driver/tlv_object.c:175-189 | agreement as far as both go; the given value is cut to that length |
| `Directory.FileSection` | src/driver/protocol_sync.c:152-228 | a file identifier selects a section inside the memory |
| `Directory.FilesOfCard` | src/driver/protocol_sync.c:152-228 | on a card that holds its ATR, a description, the directory and the rest, 3F00, 2F01 and 2F00 select the whole, the description and the directory |
| `Directory.NoOtherFile` | src/driver/protocol_sync.c:152-228 | other identifiers select nothing, and only 3F00 does without a directory |
| `Directory.ApplicationSection` | src/driver/protocol_sync.c:230-409 | an application identifier selects a section inside the memory, none, or breaks the path buffer, whatever the uninitialised variables hold |
| `Directory.OneIdentifier` | src/driver/protocol_sync.c:242-275 | with an encoded identifier as directory the object after it is selected if and only if the two identifiers agree |
| `Directory.OneTemplate` | src/driver/protocol_sync.c:278-327 | the same with the first identifier of an encoded template |
| `Directory.HitExactly` | src/driver/protocol_sync.c:334-357 | an identifier agrees with the cut one if and only if it agrees with the wanted one, or an earlier one is no longer than what the two have in common |
| `Directory.TakesExactly` | src/driver/protocol_sync.c:334-357 | a template is taken if and only if it is a hit and the path as read leads to an object, and breaks the search if and only if it is a hit whose path and the length left for it are both more than two |
| `Directory.RoomExactly` | src/driver/protocol_sync.c:341-351 | no more than n bytes of a template's path are read if and only if the uninitialised length was at most n or an earlier hit had a path of at most n bytes |
| `Directory.ShortPathGarbled` | src/driver/protocol_sync.c:341-351 | a path of one or two bytes never breaks the buffer, and is misread if and only if less than it is read and its bytes are not by chance those that the driver takes |
| `Directory.SearchFindsFirst` | src/driver/protocol_sync.c:334-373 | for any directory and any leftover variables the search ends at the first template that stops it, with the application it leads to or broken, or without one |
| `Directory.SearchRightIff` | src/driver/protocol_sync.c:334-373 | the search selects the application named by the own path bytes of the first template with the wanted identifier, or nothing if there is none, if and only if no template before it leads astray (a hit whose path breaks the buffer, or that leads somewhere with another identifier or a misread path) and its own path neither breaks the buffer nor is misread |
| `Directory.WrongApplication` | src/driver/protocol_sync.c:334-373 | in a memory with the identifiers B0, A0 02 and A0 01 a search for A0 01 selects the section of A0 02, although that of A0 01 is there |
| `Directory.MisleadingMemory` | src/driver/protocol_sync.c:334-373 | 40 bytes that are such a memory |
| `Directory.ShortRoom` | src/driver/protocol_sync.c:341-351 | with an uninitialised length of 1 the path 00 0C selects the directory itself, although the application at 12 is there |
| `Directory.LoweredRoom` | src/driver/protocol_sync.c:341-351 | with a length of 2 the one-byte path FF of an earlier template makes the path 00 15 select the directory itself, although the application at 21 is there |
| `Directory.LongPath` | src/driver/protocol_sync.c:341-351 | a path of more than two bytes to an application that is there, with a length of more than two, breaks the buffer |
| `Directory.SingleMemory` | src/driver/protocol_sync.c:334-373 | a memory with one template and a path of any length, as ShortRoom and LongPath ask for |
| `Directory.LoweringMemory` | src/driver/protocol_sync.c:334-373 | 24 bytes as LoweredRoom asks for |
| `ProtocolSync.ReadStaysInside` | src/driver/protocol_sync.c:423-490 | two memories equal on the section are read alike |
| `ProtocolSync.UpdateStaysInside` | src/driver/protocol_sync.c:492-542 | an update changes nothing outside the section |
| `ProtocolSync.ReadExactly` | src/driver/protocol_sync.c:423-490 | READ BINARY in short or extended form answers the slice of the memory that it asks for and 9000, what there is and 6282 if the section ends before, and all from the offset on and 9000 if Le is zero |
| `ProtocolSync.UpdateExactly` | src/driver/protocol_sync.c:492-542 | UPDATE BINARY in short or extended form replaces the slice of the memory, as far as the section goes |
| `ProtocolSync.ReadAfterUpdate` | src/driver/protocol_sync.c:423-542 | reading the written length at the written offset gives the written bytes and 9000, in any forms of the commands |
| `ProtocolSync.ReadElsewhere` | src/driver/protocol_sync.c:423-542 | a read that does not meet the written bytes is not changed by the update |
| `ProtocolSync.Sync.constructor` | src/driver/protocol_sync.c:82-92 | the master file is selected |
| `ProtocolSync.LeCompletesFile` | src/driver/protocol_sync.c:153-164 | 00 A4 00 00 01 3F 00, with Lc = 1, selects the master file by its Le byte |
| `ProtocolSync.Sync.SelectFile` | src/driver/protocol_sync.c:144-421 | the wanted section is selected and 9000 answered, or 6A82 and the selection unchanged; the selection stays inside the memory; undefined exactly if fewer than two bytes of the command are left for a file identifier, or the search breaks the path buffer |
| `ProtocolSync.Sync.FindInSequence` | src/driver/protocol_sync.c:329-357 | the loop over the templates is the directory search, for any leftover path length |
| `ProtocolSync.Sync.ReadBinary` | src/driver/protocol_sync.c:423-490 | the expected bytes of the section and 9000, or those there are and 6282, or 6501 on a card error |
| `ProtocolSync.Sync.UpdateBinary` | src/driver/protocol_sync.c:492-542 | 9000 means that all the data is in memory; nothing outside the section changes; an unlocked obedient card answers 9000 if and only if the data fits |
| `ProtocolSync.Sync.Verify` | src/driver/protocol_sync.c:544-589 | 9000, 63Cx with the trials left, or 6983, as the card decides |
| `ProtocolSync.Sync.ChangeVerifyData` | src/driver/protocol_sync.c:591-652 | the PIN changes exactly if the current one was right, and the belief about it stays true; undefined exactly if the command has fewer than six bytes from its data on, an Le field included |
| `ProtocolSync.Sync.Command` | src/driver/protocol_sync.c:94-124 | only a successful SELECT FILE moves the selection, only UPDATE BINARY changes the memory, inside the section; unknown instructions are answered 6E00; undefined exactly for commands that end before the bytes taken from them, and for searches that break the path buffer |
| `ProtocolSync.Sync.Session` | src/driver/protocol_sync.c:94-124 | over every command history, whatever the uninitialised variables hold at each command, the selection stays inside the memory, and while the PIN is verified and no PIN command fails no write reaches a locked card |
| `ProtocolSync.Sync.UpdateThenRead` | src/driver/protocol_sync.c:423-542 | end to end: after UPDATE BINARY answered 9000, READ BINARY of that length gives the written bytes and 9000, through sections, pages and reader blocks |
| `SyncCommands.ReadBytes` | src/driver/protocol_sync.c:423-490 | end to end: the bytes of READ BINARY, the cells of the section, and the answer |
| `SyncCommands.UpdateBytes` | src/driver/protocol_sync.c:492-542 | end to end: UPDATE BINARY on a card that obeys changes just those cells, 9000 if all was written and 6200 if not |
| `SyncCommands.VerifyPin` | src/driver/protocol_sync.c:544-589 | end to end: 9000 for the card's PIN, 63Cx with the trials left, 6983 if there were none |
| `SyncCommands.ChangePin` | src/driver/protocol_sync.c:591-652 | end to end: the card has the new PIN exactly if the current one was right |
| `SyncCommands.SelectOne` | src/driver/protocol_sync.c:230-275 | end to end: the first 16 bytes of the identifier select the only application or are answered 6A82 |
| `SyncCommands.SelectFile` | src/driver/protocol_sync.c:152-228 | end to end: a file identifier selects its section or is answered 6A82 |
| `SyncCommands.OtherSelection` | src/driver/protocol_sync.c:411-417 | any other P1 finds nothing |
| `Atr.PrintParse` | src/driver/atr.c:89-200 | printing a parsed ATR gives the parsed prefix of the input, of the recorded length |
| `Atr.ParsePrint` | src/driver/atr.c:531-568 | parsing a printed record, whatever follows, gives the record |
| `Atr.ParseBuilt` | src/driver/atr.c:89-322 | an ATR put together from any rows of interface bytes, protocol types, up to 15 historical bytes and, exactly if the last TD tells another type than T=0, a check byte, is recorded as exactly those parts |
| `Atr.ParsersAgree` | src/driver/atr.c:89-322 | an array and a stream of either convention give the same outcome, except that a truncated eighth row is malformed for one and an overrun for the other |
| `Atr.OverrunIff` | src/driver/atr.c:121-174 | the parsers write behind their seven rows if and only if seven rows follow T0, each announcing another, and of the eighth the bytes looked for are there: all from an array, TA8 from a direct stream, none from an inverse stream |
| `Atr.OverrunExists` | src/driver/atr.c:121-174 | nine bytes are enough, with any TS, if and only if of what the last one announces nothing is looked for |
| `Atr.InverseOverrun` | src/driver/atr.c:597-610 | if the last one announces TA8 and the stream ends, a card of inverse convention, and only that, makes the driver write behind the rows |
| `Atr.TrailingBytesIgnored` | src/driver/atr.c:198-200 | bytes after an accepted ATR have no part in it |
| `Atr.PrintFitsIff` | src/driver/atr.c:531-568 | the printed form of an accepted ATR fits a size if and only if the recorded length does, and always if it was accepted from no more bytes |
| `AtrParser.LongStream` | src/driver/atr.c:202-322 | 34 bytes that the stream parser accepts and whose printed form does not fit 33 |
| `AtrParser.SameAcceptance` | src/driver/atr.c:89-322 | with TS 3B, 3F or 03 both parsers accept the same inputs and build the same record |
| `AtrParser.ByInitial` | src/driver/atr.c:210-224 | TS 3B and 3F are direct, 03 is inverse, and no other is known |
| `AtrParser.PrintedIsSent` | src/driver/atr.c:100-107 | the printed form is the accepted prefix, bit-reversed and complemented for inverse convention, and doing that again gives what the card sent |
| `AtrParser.Answer.InitFromArray` | src/driver/atr.c:89-200 | the array parser computes the parse of the logical bytes, every error case included |
| `AtrParser.Answer.InitFromStream` | src/driver/atr.c:202-322 | the stream parser computes the parse of the logical bytes for the convention of the card, the write behind the rows included, and on success has taken just the bytes of the ATR |
| `AtrParser.Answer.GetRaw` | src/driver/atr.c:531-568 | the front of the buffer holds the printed record and the rest of it is unchanged, if and only if the buffer is long enough; otherwise it is overrun |
| `CtRegistry.List.Add` | src/ct-api/ct_list.c:45-73 | a new node follows the old ones; the list stays linked from first to last, without a cycle, whatever terminal it holds |
| `CtRegistry.List.Get` | src/ct-api/ct_list.c:75-89 | the terminal of the first node with the number, or null |
| `CtRegistry.List.Remove` | src/ct-api/ct_list.c:100-140 | takes out just the first node with the number, and frees it and its terminal |
| `CtRegistry.List.Delete` | src/ct-api/ct_list.c:142-158 | frees every node and terminal, each once |
| `CtRegistry.AddEntry` | src/ct-api/ct_list.c:45-73 | adding a node is adding an entry to the map |
| `CtRegistry.RemoveEntry` | src/ct-api/ct_list.c:100-140 | removing a node is removing its entry from the map |
| `CtRegistry.OpenIff` | src/ct-api/ctapi.c:50-158 | after any history a number is open if and only if the reader opened it and it was not closed since |
| `CtRegistry.AnswerByHistory` | src/ct-api/ctapi.c:50-158 | a call is refused exactly if it opens an open number or closes one that is not, and otherwise answered with the reader's code |
| `CtRegistry.Api.NullIffNoneOpen` | src/ct-api/ctapi.c:138-143 | the global list is null exactly if no terminal is open |
| `CtRegistry.Api.Lookup` | src/ct-api/ctapi.c:127-130 | looking a number up in the list is looking it up in the map |
| `CtRegistry.Api.Init` | src/ct-api/ctapi.c:50-115 | the map gains the entry exactly if the number was free and the reader opened |
| `CtRegistry.Api.Close` | src/ct-api/ctapi.c:117-158 | the map loses the entry; its terminal is closed and deleted and its node freed |
| `CtRegistry.Api.Run` | src/ct-api/ctapi.c:50-158 | after any history of calls the list stands for the map the calls make, and every answer is that of the map |

## Left out

- src/driver/io_serial.c, and the vendor command bytes of src/driver/ifd_towitoko.c: replaced by reader operations that succeed or fail.
- Floating-point timings (work, block and character waiting times, baud rates) and src/driver/pps.c: BWT, CWT and BGT are given numbers.
- Card type and memory length probing in src/driver/icc_sync.c: the kind and the length of the card are given; a memory is at most 65535 bytes long and fits the address bytes of its kind.
- src/ct-api/cardterminal.c, src/ct-api/ct_slot.c, src/ifd-handler/ifdhandler.c: they choose a slot and translate status codes between interfaces; no data passes through them changed.
- Mutexes, allocation failure and debug output. A terminal's own initialisation and closing are given codes.
- The build without PROTOCOL_T0_ISO.
- The pointer that case 3S uses after freeing it (src/driver/protocol_t0.c:283) is read as the last status of the collected response, which has the same SW2.
- `path_length` and `path` of SELECT FILE are uninitialised in the source; they are a parameter here, of any value.
- After a command that the model answers `Undefined` or `Overrun` nothing is said of what the broken memory holds; a session goes on as if the command had been answered with nothing.
- IccSync.Card.Write: says that only a reader error can leave a cached PIN unpresented, but not at which of its operations, because their number depends on what the card stores and so on the retries.
- T=1 error blocks, resynchronisation, IFS requests and CRC: the driver answers all of them as not implemented, and so does the model.
- IccAsync.Icc.Transmit: speaks of the bytes as the protocols mean them; for a card of inverse convention each is reversed and complemented on the line.
- IccAsync.Icc.Receive: speaks of the bytes as the protocols mean them, as Transmit does, and a read that fails takes nothing from the card.
- T1Block.New: builds the blocks that the driver sends, I, R without error and the WTX response; the constructors are never called for others.
- ProtocolT1.T1.Init: takes BWT, CWT and BGT as given and leaves out the choice between LRC and CRC, which the driver does not act on.
- T0Mapping.LongReceiveExact: asks that each answer brings at least one byte and no more than requested; otherwise the source's loop need not end on Le bytes.
- IfdFrame.Transmit: leaves out the delays, write errors and the two fixed bytes above 9600 bps.
- CtRegistry.List.Delete: asks that no terminal is in the list twice, because deleting it twice would be undefined; CT_init always adds a new one.
- The memory card: an operation of the reader that fails has no effect on the card.

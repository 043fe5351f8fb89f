# Jcamsys: a model of its core and proofs about it

Jcamsys is a set of programs that move JPEG pictures and sensor states from cameras through a server to viewers.
This project models the parts of it that hold algorithms or state, version 0.61 of the server and the shared code in
`jcamsys_common`, and proves what they compute.

- `Rfc1321.dfy` is the message digest of sections 3.1 to 3.5 of RFC 1321, word for word; `Md5.dfy` is the streaming
  implementation with its partial block, its counter in 29 and 32 bits and its rewritten round functions.
- `Crc32.dfy` has division of polynomials over GF(2), the same division in a register (section 8 of RFC 1952) and the
  table-driven checksum.
- `Scaling.dfy` scales and flips RGB24 images in the buffer that holds them.
- `Wire.dfy` has the framing of messages, `Reader.dfy` the resumable reader on a non-blocking socket,
  `Sender.dfy` the writing side and the request ids.
- `Cipher.dfy`, `Images.dfy` and `Relay.dfy` follow an image from a camera through the server to a viewer:
  encryption, checksum, framing, and damage on the way.
- `KeyFile.dfy` prints and parses the key file; `Auth.dfy` is the login with a password under the shared key.
- `SensorRuns.dfy` is the change notification between processes as a state machine in which each access to the shared
  array and to the shared counter is a step, also the load and the store of an increment; `Sensors.dfy` has the same
  operations when nothing runs in between.
- `IpBar.dfy` is the table of addresses that failed to log in, `CameraSlots.dfy` the assignment of camera numbers,
  `Archiver.dfy` the limit on the rate of archiving. `Jcamsys.dfy` has the numbers that these modules share.

Everything outside the programs is a parameter: a socket is a string of octets under an arbitrary schedule of arrivals,
interruptions and short writes, the clock is a number that the caller passes in or a field of the socket, files are strings.

Where the code does not do what its comments or its design promise, the code is modelled and the exact condition is proved:

- A write that is taken in part is followed by the same buffer from its start (`Sender.WriteIsExactIff`), and what a write
  leaves of a header is never sent (`Sender.WholeMessageIsFramedIff`).
- The server keeps an image before it checks it, and serves it with a fresh checksum (`Relay.ShownIsSentIff`).
- An image is flagged as encrypted even when the key could not be used (`Relay.FlagIsHonestIff`), and the viewer leaves the
  flag set on an image that it has decrypted (`Relay.ViewedFlagIsHonestIff`).
- The archive gets pictures as they came, encrypted, unless a checksum was looked at (`Relay.ArchivedIsPlainIff`).
- The header of an image has 81 octets where the limits allow for 64 (`Relay.ImageIsSendableIff`).
- A change goes unnoticed when two increments of the counter overlap, or while it is not counted (`SensorRuns.MissesIff`);
  when increments do not overlap, after a full turn of 65536 of them (`SensorRuns.MissesInTurnIff`).
- A barred address is let in again when a connection that was open before succeeds (`IpBar.BarredForGoodIff`).
- A stored time that is ahead of the clock counts as long ago (`Archiver.DueIff`).
- The search for a camera slot goes one past the settings (`CameraSlots.SlotIsCameraIff`); the search for a free slot among
  the barred addresses answers a time when there is none (`IpBar.FreeSlotIff`, `IpBar.IpBarList.AddFail`).
- A request id of 0 is handed out once in 65536 requests, and is not echoed (`Sender.AnswerCarriesIdOfRequest`).

## Model

| member | source | states |
|---|---|---|
| `Md5.FIsStandard` | jcamsys_common/md5x.c:48 | the rewritten F is the F of the standard for all words |
| `Md5.GIsStandard` | jcamsys_common/md5x.c:49 | the rewritten G is the standard's |
| `Md5.HIsStandard` | jcamsys_common/md5x.c:50-51 | H and H2, which differ in grouping, are both the standard's H |
| `Md5.IIsStandard` | jcamsys_common/md5x.c:52 | I is the standard's |
| `Md5.StepIsStandard` | jcamsys_common/md5x.c:57-60 | add, rotate and add give the new register of operation i of the standard |
| `Md5.NextOperation` | jcamsys_common/md5x.c:116-186 | one step with the registers in turn is the next of the 64 operations |
| `Md5.Load` | jcamsys_common/md5x.c:77-81 | four octets are read as a word, low-order octet first |
| `Md5.Round1` | jcamsys_common/md5x.c:116-132 | the sixteen unrolled steps are operations 1 to 16 |
| `Md5.Round2` | jcamsys_common/md5x.c:134-150 | the next sixteen are operations 17 to 32, with the standard's word order and shifts |
| `Md5.Round3` | jcamsys_common/md5x.c:152-168 | with H and H2 in turn: operations 33 to 48 |
| `Md5.Round4` | jcamsys_common/md5x.c:170-186 | operations 49 to 64 |
| `Md5.BodyOnce` | jcamsys_common/md5x.c:111-194 | one pass of the loop compresses one block as the standard does |
| `Md5.Context.Body` | jcamsys_common/md5x.c:97-202 | any number of whole blocks is compressed in order, from wherever the registers stand |
| `Md5.Context.constructor` | jcamsys_common/md5x.c:205-214 | an empty input with the initial registers |
| `Md5.CounterCarries` | jcamsys_common/md5x.c:222-225 | after the carry and the added high part the counter in 29 and 32 bits again holds all octets fed modulo 2^61 |
| `Md5.Context.Count` | jcamsys_common/md5x.c:222-225 | the two fields after an update, for any size |
| `Md5.BlocksOfFeed` | jcamsys_common/md5x.c:227-248 | compressing the kept tail with the new piece continues what was compressed before |
| `Md5.TailOfConcatenation` | jcamsys_common/md5x.c:227-248 | the tail to keep after a piece depends on the old tail and the piece only |
| `Md5.Context.Update` | jcamsys_common/md5x.c:217-249 | keeps, for pieces of any length including none: registers are the digest of all whole blocks so far, the buffer is the tail, the counter counts |
| `Md5.BitCount` | jcamsys_common/md5x.c:276-278 | the shifted low part and the high part are the 64-bit bit count of section 3.2, although both drop bits |
| `Md5.Context.OutCounter` | jcamsys_common/md5x.c:251-255 | four octets of the counter, least significant first |
| `Md5.OneFinalBlock` | jcamsys_common/md5x.c:261-280 | with room for the length the tail is padded to one block exactly as section 3.1 and 3.2 say |
| `Md5.TwoFinalBlocks` | jcamsys_common/md5x.c:267-280 | without room it takes two blocks, the same padding |
| `Md5.Context.CompressPadding` | jcamsys_common/md5x.c:261-280 | for every length the registers end as the digest of the padded input |
| `Md5.Context.Final` | jcamsys_common/md5x.c:257-288 | the RFC 1321 digest of everything fed, and a cleared context |
| `Md5.DigestOfPieces` | jcamsys_common/md5x.c:205-288 | for every way of cutting an input into pieces: the digest of their concatenation |
| `Crc32.TableStep` | jcamsys_common/jcamsys_common.c:502 | a table lookup and a shift by eight are eight single-bit steps |
| `Crc32.Checksum.FillTable` | jcamsys_common/jcamsys_common.c:484-494 | entry i is the register i after eight single-bit steps |
| `Crc32.Checksum.Compute` | jcamsys_common/jcamsys_common.c:472-505 | the bit-at-a-time checksum of every buffer from every start, whether the table is there already or not |
| `Crc32.RegisterIsRemainder` | jcamsys_common/jcamsys_common.c:485-504 | the register holds the remainder of the polynomial division of start and message |
| `Crc32.FlipInverts` | jcamsys_common/jcamsys_common.c:498-504 | the complement before and after the loop inverts each of the 32 bits |
| `Crc32.CrcIsRemainder` | jcamsys_common/jcamsys_common.c:472-505 | a word is the checksum if and only if its inverted bits are the remainder of the message times x^32, with the inverted bits of the start added in front, divided by the polynomial |
| `Crc32.CrcContinues` | jcamsys_common/jcamsys_common.c:498-504 | the checksum of a and then b is the checksum of their concatenation |
| `Crc32.RegisterInjective` | jcamsys_common/jcamsys_common.c:500-503 | two registers that differ stay different under any common rest |
| `Crc32.BurstDetected` | jcamsys_common/jcamsys_common.c:472-505 | different buffers that agree outside 32 consecutive bits have different checksums |
| `Crc32.WindowDetected` | jcamsys_common/jcamsys_common.c:472-505 | so have buffers that differ within four consecutive octets |
| `Scaling.MoveLine` | jcamsys_common/jcamsys_images.c:330-338 | one line is moved down within the buffer, also when the places overlap |
| `Scaling.Deinterlace` | jcamsys_common/jcamsys_images.c:313-341 | the buffer starts with every other line of the old image, the rest is as before |
| `Scaling.HalvePixel` | jcamsys_common/jcamsys_images.c:409-428 | two neighbours become their mean, or the left one |
| `Scaling.HalveLine` | jcamsys_common/jcamsys_images.c:407-429 | one line is halved in place; no sample is read after it was overwritten |
| `Scaling.HalfLineAt` | jcamsys_common/jcamsys_images.c:407-429 | component k of pixel c is half the sum of those of pixels 2c and 2c + 1, rounded down, or that of pixel 2c |
| `Scaling.HalfWidth` | jcamsys_common/jcamsys_images.c:391-432 | all lines are halved in place, for odd widths too |
| `Scaling.ScaleOnce` | jcamsys_common/jcamsys_images.c:446-449 | both steps together, on one buffer |
| `Scaling.ScaleImage` | jcamsys_common/jcamsys_images.c:438-453 | the buffer holds the image scaled s times, and width and height are divided by 2^s |
| `Scaling.HalvedTimesIsQuotient` | jcamsys_common/jcamsys_images.c:438-453 | a size halved s times is the size divided by 2^s |
| `Scaling.ScaledAt` | jcamsys_common/jcamsys_images.c:438-453 | each sample of the result is the s-fold nested mean of 2^s columns of one line of the original, and which; all places are inside the original |
| `Scaling.OriginalLineInside` | jcamsys_common/jcamsys_images.c:322-339 | the line it comes from is a line of the original |
| `Scaling.RoundingBounded` | jcamsys_common/jcamsys_images.c:412-414 | 2^s times the nested mean falls short of the sum of its columns by at most s * 2^(s-1) and never exceeds it |
| `Scaling.NestedMeanBetween` | jcamsys_common/jcamsys_images.c:412-414 | it lies between any bounds of its columns |
| `Scaling.ImgWh` | jcamsys_common/jcamsys_images.c:25-51 | the announced size of image number s is the size that scaling s times gives, or an error |
| `Scaling.ImageFlipV` | jcamsys_common/jcamsys_images.c:345-361 | the lines in reverse order |
| `Scaling.FlipTwice` | jcamsys_common/jcamsys_images.c:345-361 | flipping twice changes nothing |
| `Scaling.FlipThenKeep` | jcamsys_common/jcamsys_images.c:313-361 | flipping and then keeping one half of the lines is keeping the other half and then flipping, for even heights; and what it is for odd ones |
| `Wire.HeaderFields` | jcamsys_common/jcamsys_protocol.h:86-93 | magic, type, id, time and length at the places 0, 4, 6, 8 and 16, least significant octet first |
| `Wire.HeaderSurvives` | jcamsys_common/jcamsys_protocol.h:86-93 | the packed header is read back as it was written |
| `Reader.NextFrame` | jcamsys_common/jcamsys_protocol.c:358-384 | whoever finds a header's worth of octets at the start of a frame finds that frame's header, and its payload behind it |
| `Reader.Socket.Peek` | jcamsys_common/jcamsys_network.c:265-281 | the number of octets that have arrived, or an error exactly at the end of the stream |
| `Reader.MessageReader.Drain` | jcamsys_common/jcamsys_protocol.c:315-323 | only octets from the front are thrown away; without interruptions all that are there, or 1024 times 1024 |
| `Reader.MessageReader.ReadHeader` | jcamsys_common/jcamsys_protocol.c:349-395 | for any stream: nothing is taken, or a header is; the errors say exactly what is wrong with it, and throw away what stands behind it; of the buffer only the last octets of the place for the payload are cleared |
| `Reader.MessageReader.FollowHeader` | jcamsys_common/jcamsys_protocol.c:349-395 | on a stream of well-formed frames: never a bad header, and an error only after the last frame |
| `Reader.MessageReader.ReadMore` | jcamsys_common/jcamsys_protocol.c:412-424 | octets read and octets missing add up to the length in the header, and the buffer holds the start of the payload |
| `Reader.MessageReader.ReadChunks` | jcamsys_common/jcamsys_protocol.c:403-427 | the same over any number of short reads and interruptions; the overrun exit is never reached; it ends before the payload is complete only at the end of the stream or when the time limit has passed since it began, and begins no read but the first after that |
| `Reader.MessageReader.ReadPayload` | jcamsys_common/jcamsys_protocol.c:401-443 | complete, out of time with everything kept for the next call, or closed; out of time only when the limit has passed; an empty payload is taken for a closed connection |
| `Reader.MessageReader.ReadMessage` | jcamsys_common/jcamsys_protocol.c:338-445 | the invariant holds for any stream, a timeout is answered only when the limit has passed, and the end of the stream is answered as an error; on well-formed frames each delivery is the next message with its type, id, time and payload, a frame that is there is delivered, and an error without loss means all were |
| `Reader.ReceiveAll` | jcamsys_server/jcamsysserver_v0.61/jcamsys_server.c:476-744 | for every schedule the messages delivered are a prefix of those sent, in order and once each; all of them when the stream ends without loss; and all of them, for every time limit and also when it starts within a payload, after as many calls as there are interruptions and delays in the schedule and messages, if everything arrives some time |
| `Sender.Outlet.SockWrite` | jcamsys_common/jcamsys_protocol.c:277-310 | for every schedule of short writes: what goes out are the beginnings of the buffer that the writes take, up to the first write that brings them to its length or finds the peer gone; the answer counts them, for a buffer that is not empty at least its length and less than twice that, or is -1 |
| `Sender.WrittenIsPortions` | jcamsys_common/jcamsys_protocol.c:283-308 | the same for any number of octets still missing, and which outcomes are used up |
| `Sender.WrittenCounts` | jcamsys_common/jcamsys_protocol.c:303-309 | what was out before stays, and an answer other than -1 counts what went out, which is at least what was missing and exceeds it by less than the buffer |
| `Sender.WriteIsExactIff` | jcamsys_common/jcamsys_protocol.c:283-308 | the octets that go out are the buffer, for all buffers of a length, if and only if the first write that takes anything takes everything |
| `Sender.Peer.SendHeader` | jcamsys_common/jcamsys_protocol.c:481-504 | a header with the id that is answered, written once, whatever becomes of the write |
| `Sender.SendMessage` | jcamsys_common/jcamsys_protocol.c:511-523 | header and payload on the wire for any schedule, with the request id or -1 as the answer |
| `Sender.TransmittedIsPortions` | jcamsys_common/jcamsys_protocol.c:481-523 | for every schedule: the part of the header that its one write takes, and portions of the payload behind it, whatever became of the header |
| `Sender.WholeMessageIsFramed` | jcamsys_common/jcamsys_protocol.c:481-523 | without short writes exactly one frame goes out |
| `Sender.WholeMessageIsFramedIff` | jcamsys_common/jcamsys_protocol.c:481-523 | a message is one frame on the wire, for all payloads of a length, if and only if the header goes out in one piece and no short write of the payload comes first |
| `Sender.WholeMessagesAreTheStream` | jcamsys_common/jcamsys_protocol.c:481-523 | several messages without short writes are the stream that the reader expects |
| `Sender.Peer.NextReqId` | jcamsys_common/jcamsys_protocol.c:122-134 | the caller's id, which leaves the counter alone, or the counter plus one modulo 65536 |
| `Sender.IssueAll` | jcamsys_common/jcamsys_protocol.c:122-134 | in any mix of requests the n-th automatic id is n modulo 65536 from the start |
| `Sender.AutomaticIdsRepeat` | jcamsys_common/jcamsys_protocol.c:127-131 | two automatic ids are equal if and only if a multiple of 65536 automatic ids lies between them |
| `Sender.AnswerCarriesIdOfRequest` | jcamsys_common/jcamsys_protocol.c:122-134 | the header on the wire of an answer shows the id of its request if and only if that is not 0 or the answering side's counter happens to wrap |
| `Cipher.CryptBuf` | jcamsys_common/jcamsys_cipher.c:450-465 | octet i in place exclusive-or octet i modulo the key length of the key, or nothing at all, and the answer tells which and why |
| `Cipher.CryptedAt` | jcamsys_common/jcamsys_cipher.c:459-463 | the first octets meet the octets of the key in turn, and the stream repeats with the length of the key |
| `Cipher.CryptedTwice` | jcamsys_common/jcamsys_cipher.c:450-465 | decryption is encryption, for every key |
| `Images.FrontFields` | jcamsys_common/jcamsys_protocol.h:157-176 | the members up to the encryption flag at their places |
| `Images.BackFields` | jcamsys_common/jcamsys_protocol.h:157-176 | and those from the checksum on |
| `Images.ImageHeaderSurvives` | jcamsys_common/jcamsys_protocol.h:157-176 | the 81 octets before the picture are read back as they were written |
| `Images.ImageSurvives` | jcamsys_common/jcamsys_protocol.h:157-176 | so is the whole image |
| `Images.ImageBuffer.ForceCrypted` | jcamsys_common/jcamsys_protocol.c:563-569 | encrypted unless the flag says so already |
| `Images.ImageBuffer.ForceUncrypted` | jcamsys_common/jcamsys_protocol.c:572-578 | decrypted if the flag says encrypted |
| `Images.ForcedShowsTheSame` | jcamsys_common/jcamsys_protocol.c:563-578 | both change the flag and nothing else in the header, and the picture that is shown stays |
| `Images.ImageBuffer.Prepare` | jcamsys_common/jcamsys_protocol.c:612-623 | whatever state the image is in, it leaves with the flag set, its plain octets encrypted, and their checksum or 0 |
| `Relay.MsgImage` | jcamsys_common/jcamsys_protocol.c:605-631 | the message that goes out holds that image under the right id |
| `Relay.Server.OnImage` | jcamsys_server/jcamsysserver_v0.61/jcamsys_server.c:604-637 | an image in range is kept with the address of its sender and the time, whether its checksum is right or not, and no other changes; it is accepted if and only if the checksum is right, absent or not wanted; the message buffer then holds, with the same time, what goes to the archiver |
| `Relay.KeptParts` | jcamsys_server/jcamsysserver_v0.61/jcamsys_server.c:610-615 | what is kept is the image with the time of arrival and, as a C string over the old octets, the address; nothing else differs |
| `Relay.HandedParts` | jcamsys_server/jcamsysserver_v0.61/jcamsys_server.c:610-635 | what goes to the archiver has the time of arrival, and its plain picture and a cleared flag exactly when a checksum was looked at |
| `Relay.Server.OnRequest` | jcamsys_server/jcamsysserver_v0.61/jcamsys_server.c:517-533 | a copy of what is kept is served and what is kept stays; the header on the wire shows the id of the request if and only if that is not 0 or the counter wraps |
| `Relay.OnImageViewed` | jcamsys_viewers/xforms/jcamsys_xviewer_basic/jcamsys_xviewer_basic_v0.41/jcamsysxviewer.c:498-543 | the viewer decrypts in place, leaves the flag, and accepts if and only if the checksum is right or absent |
| `Relay.OutgoingShowsTheSame` | jcamsys_common/jcamsys_protocol.c:605-631 | however often an image is sent on, its plain picture stays and its checksum fits |
| `Relay.FlagIsHonestIff` | jcamsys_common/jcamsys_protocol.c:563-569 | all images that are sent are flagged as encrypted, and they all are if and only if the key is usable |
| `Relay.ViewedFlagIsHonestIff` | jcamsys_viewers/xforms/jcamsys_xviewer_basic/jcamsys_xviewer_basic_v0.41/jcamsysxviewer.c:513-543 | the flag is true of what the viewer holds afterwards, for all pictures, if and only if there was nothing to decrypt |
| `Relay.ArchivedIsPlainIff` | jcamsys_server/jcamsysserver_v0.61/jcamsys_server.c:617-635 | the archiver gets plain pictures, for all pictures, if and only if a checksum was looked at or there was nothing to decrypt |
| `Relay.ImageIsSendableIff` | jcamsys_common/jcamsys_protocol.c:378-382 | the receiver takes the message if and only if header and data together stay below the limit |
| `Relay.ImageInBuffer` | jcamsys_server/jcamsysserver_v0.61/jcamsys_server.c:604-613 | the image is found at the start of a receive buffer, whatever is behind it |
| `Relay.EndToEnd` | jcamsys_server/jcamsysserver_v0.61/jcamsys_server.c:517-637 | from camera through server to viewer, for every key and every choice of checksums: all checks pass, and the viewer has the camera's picture and header but for the address that the server noted, time, numbers, flag and checksum |
| `Relay.ReceiveOne` | jcamsys_common/jcamsys_protocol.c:338-445 | one frame under any arrivals, interruptions and time limits gives its payload |
| `Relay.FromCamera` | jcamsys_common/jcamsys_protocol.c:605-631 | sending, reading and laying the structure over the buffer give the server the image as it goes out |
| `Relay.FromServer` | jcamsys_server/jcamsysserver_v0.61/jcamsys_server.c:517-533 | the same from the server's copy to the viewer |
| `Relay.Journey` | jcamsys_server/jcamsysserver_v0.61/jcamsys_server.c:476-637 | camera, wire, reader, server, wire, reader and viewer in a row: with header and data below the limit, no short write and everything arriving some time, both checks pass and the viewer shows the picture that the camera took |
| `Relay.CryptedKeepsBurst` | jcamsys_common/jcamsys_cipher.c:459-463 | damage to encrypted data is damage to the plain data at the same bits |
| `Relay.BurstPassesIff` | jcamsys_server/jcamsysserver_v0.61/jcamsys_server.c:617-631 | an image hit by a burst of up to 32 bits is accepted if and only if the checksum is absent or not wanted |
| `Relay.RejectedImageIsServed` | jcamsys_server/jcamsysserver_v0.61/jcamsys_server.c:613-629 | what the server has kept of any image, rejected or not, passes the viewer's check as it is |
| `Relay.ShownIsSentIff` | jcamsys_server/jcamsysserver_v0.61/jcamsys_server.c:613-629 | the viewer accepts what comes from the server in any case, and shows the picture that was sent if and only if its data reached the server undamaged |
| `KeyFile.WriteKeyfile` | jcamsys_common/jcamsys_cipher.c:279-307 | the file: heading and date, the length in four digits, 32 octets to a line, a last line end |
| `KeyFile.KeyRecord.ReadHex` | jcamsys_common/jcamsys_cipher.c:344-368 | pairs of characters become octets until the key is complete |
| `KeyFile.KeyRecord.ReadKeyfile` | jcamsys_common/jcamsys_cipher.c:312-380 | for any file: the answer, the key as far as it was read, and the mark of a complete key only when it is |
| `KeyFile.LinesAreConclusive` | jcamsys_common/jcamsys_cipher.c:326-380 | for any file: a positive answer is a length from 1024 to 2048 and exactly as many octets were read; all other answers are errors |
| `KeyFile.OnlyCountingCharacters` | jcamsys_common/jcamsys_cipher.c:347-366 | characters outside the range from 0 to F may stand anywhere in a line |
| `KeyFile.OddPair` | jcamsys_common/jcamsys_cipher.c:354 | of a pair that is not two digits the first counts alone, or the variable keeps its value |
| `KeyFile.Dec4Survives` | jcamsys_common/jcamsys_cipher.c:293-330 | the four digits of the length are read back, whatever stands behind them |
| `KeyFile.SignAndThreeDigits` | jcamsys_common/jcamsys_cipher.c:330 | a length may have a sign, which takes the place of one of four digits |
| `KeyFile.SignAndOneDigit` | jcamsys_common/jcamsys_cipher.c:330 | one digit is enough |
| `KeyFile.SpacesAreSkipped` | jcamsys_common/jcamsys_cipher.c:330 | and white space in front |
| `KeyFile.ReadHexOf` | jcamsys_common/jcamsys_cipher.c:344-368 | the digits of any octets are read back to those octets |
| `KeyFile.LineOfHex` | jcamsys_common/jcamsys_cipher.c:294-304 | the folded text is full lines of 32 octets and a rest |
| `KeyFile.ReadHexLines` | jcamsys_common/jcamsys_cipher.c:326-371 | the folded lines of a key are read back to the key, whatever its length is modulo 32 |
| `KeyFile.KeySurvives` | jcamsys_common/jcamsys_cipher.c:279-380 | a key that was written is read back, length and octets, if and only if it has at least 1024 octets; the date may be anything that one read takes |
| `Auth.DigestOf` | jcamsys_common/jcamsys_cipher.c:80-92 | hashing in pieces of 512 octets gives the digest of the whole string |
| `Auth.Str2md5` | jcamsys_common/jcamsys_cipher.c:73-99 | its 32 hexadecimal digits |
| `Auth.CryptReadPass` | jcamsys_common/jcamsys_cipher.c:172-238 | the answer for any sequence of octets, empty reads and hang-ups; behind a password the buffer is cleared, and the connection is closed exactly when the answer is a hang-up |
| `Auth.PasswordReadIff` | jcamsys_common/jcamsys_cipher.c:207-237 | the rest of a password is read if and only if it comes before a hang-up and before the time is up; otherwise the answer is the hang-up, if that comes in time, or the timeout |
| `Auth.LengthReadIff` | jcamsys_common/jcamsys_cipher.c:181-237 | a password is read if and only if a length of 8 to 64 and that many octets come in time; then it is what was sent, decrypted; otherwise which of the three errors is answered |
| `Auth.PasswordArrivesIff` | jcamsys_common/jcamsys_cipher.c:172-238 | a password of 8 to 64 octets that a client encrypts and sends behind its length is recovered by the server if and only if it comes in time; otherwise the answer is the timeout |
| `Auth.StoredPasswordArrivesIff` | jcamsys_common/jcamsys_cipher.c:172-519 | the same from the client's obfuscated copy of the password on |
| `Auth.ReadComparePassphrase` | jcamsys_common/jcamsys_cipher.c:636-661 | success if and only if the file is there, a password arrives and its hash is the first 32 characters; errors are passed on and none of them is success; otherwise the answer is an error |
| `Auth.LocallyObfuscatePassword` | jcamsys_common/jcamsys_cipher.c:495-519 | octet i of one buffer becomes octet i of the other exclusive-or octet i modulo the length, 32 at most, of the identity of the machine, in the direction asked for, unless too short |
| `Auth.ObfuscatedTwice` | jcamsys_common/jcamsys_cipher.c:512-517 | the way back gives the password |
| `SensorRuns.WritersKeepGood` | jcamsys_common/jcamsys_sensors.c:97-118 | what checking, writing, loading the counter and storing it keep: a child that is behind has something left to notice |
| `SensorRuns.ChildrenKeepGood` | jcamsys_server/jcamsysserver_v0.61/jcamsys_server.c:320-324 | what comparing, copying the counter, copying the elements and sending keep |
| `SensorRuns.RunsAreGood` | jcamsys_server/jcamsysserver_v0.61/jcamsys_server.c:302-331 | this holds in every run of any number of writers and children |
| `SensorRuns.EqualCountersMeanUpToDate` | jcamsys_server/jcamsysserver_v0.61/jcamsys_server.c:302-331 | in every run: equal counters, at most one store since the copy and no half-done writer mean that the array last sent is the array |
| `SensorRuns.RunsAreInStep` | jcamsys_common/jcamsys_sensors.c:105-117 | when increments do not overlap, the counter and all copies of it are numbers of stores modulo 65536 |
| `SensorRuns.EqualCountersMeanUpToDateInTurn` | jcamsys_server/jcamsysserver_v0.61/jcamsys_server.c:302-331 | when increments do not overlap, fewer than 65536 stores since the copy are enough |
| `SensorRuns.PollDelivers` | jcamsys_server/jcamsysserver_v0.61/jcamsys_server.c:318-324 | a child that finds a difference and is left alone sends the array as it is |
| `SensorRuns.Change` | jcamsys_common/jcamsys_sensors.c:97-118 | a writer that is left alone changes the sensor and adds one to the counter |
| `SensorRuns.MarkedIsItsSteps` | jcamsys_common/jcamsys_sensors.c:97-118 | marking that is left alone is its steps in a row |
| `SensorRuns.TurnMisses` | jcamsys_server/jcamsysserver_v0.61/jcamsys_server.c:320 | for every whole number of turns of the counter a run without overlap after which a child takes an outdated array for current |
| `SensorRuns.UncountedMisses` | jcamsys_common/jcamsys_sensors.c:103-105 | the same, also without any turn, between a change and its store |
| `SensorRuns.MissesInTurnIff` | jcamsys_server/jcamsysserver_v0.61/jcamsys_server.c:320 | a run without overlap in which this happens after n stores exists, for any number of writers and children, if and only if n is a whole number of turns, and not 0 unless a change is not counted yet |
| `SensorRuns.OverlapMisses` | jcamsys_common/jcamsys_sensors.c:105 | for every n from 2 on a run in which a late store turns the counter back to what a child has copied |
| `SensorRuns.MissesIff` | jcamsys_common/jcamsys_sensors.c:105 | a run in which this happens after n stores exists, for any number of writers and children, if and only if n is at least 2 or a change is not counted yet |
| `Sensors.SensorState.Mark` | jcamsys_common/jcamsys_sensors.c:70-118 | for any numbers: exactly that sensor takes the value; the counter of its type goes up by one modulo 65536 and the times move, only when it had another; nothing at all changes outside the ranges of the check |
| `Sensors.SensorState.MarkTime` | jcamsys_common/jcamsys_sensors.c:88-92 | the old time of change is kept beside the new one |
| `Sensors.Poller.PollSensorChange` | jcamsys_server/jcamsysserver_v0.61/jcamsys_server.c:302-331 | exactly the types whose counter differs are sent, once and in order, and the copies are brought up to date |
| `Sensors.MsgSensActive` | jcamsys_common/jcamsys_protocol.c:654-655 | the sensors of one type, element by element |
| `IpBar.IpBarList.FindOlest` | jcamsys_common/ipbar.c:22-40 | the time of the most recent failure |
| `IpBar.IpBarList.FindFree` | jcamsys_common/ipbar.c:43-54 | the first free slot, or a time |
| `IpBar.IpBarList.FailedConnections` | jcamsys_common/ipbar.c:58-68 | the failures of the address in the map, or -1, as the table shows them |
| `IpBar.IpBarList.FindIp` | jcamsys_common/ipbar.c:72-82 | the slot of the address, or a free one |
| `IpBar.IpBarList.ClearEntry` | jcamsys_common/ipbar.c:86-94 | the address leaves the map, the others stay; in a full table nothing happens to the table, or another address leaves it |
| `IpBar.IpBarList.AddFail` | jcamsys_common/ipbar.c:98-107 | the count of the address in the map goes up by one, the others stay; in a full table nothing happens to the table, or a new address takes over the slot and count of another |
| `IpBar.CountedOn` | jcamsys_common/ipbar.c:98-107 | the table still stands for the map: no address twice, none missing, counts in 16 bits, free slots without count |
| `IpBar.CountedInAt` | jcamsys_common/ipbar.c:98-107 | with a slot for it the address is found afterwards with one failure more and the time of this one, and no other slot changes |
| `IpBar.Forgotten` | jcamsys_common/ipbar.c:86-94 | so it does after an address is cleared |
| `IpBar.TakenOver` | jcamsys_common/ipbar.c:98-107 | so it does when a slot goes over to another address |
| `IpBar.FreeSlotIff` | jcamsys_common/ipbar.c:43-54 | a slot is free if and only if fewer addresses than slots have failed |
| `IpBar.Admit` | jcamsys_server/jcamsysserver_v0.61/jcamsys_server.c:1072-1077 | a connection goes on to authentication if and only if its address is not barred, by the map and by the table |
| `IpBar.Finish` | jcamsys_server/jcamsysserver_v0.61/jcamsys_server.c:1090-1105 | the whole table afterwards, full or not: a failure is counted, a success forgets the address; in a full table the slot at which a time points changes, or none does |
| `IpBar.BarredForGood` | jcamsys_server/jcamsysserver_v0.61/jcamsys_server.c:1072-1105 | a barred address with no connection left in authentication stays barred in every run |
| `IpBar.BarredForGoodIff` | jcamsys_server/jcamsysserver_v0.61/jcamsys_server.c:1072-1105 | a barred address stays barred in every run if and only if it has no connection left in authentication |
| `IpBar.OthersKeep` | jcamsys_common/ipbar.c:72-107 | with times of a clock, the end of an authentication does not touch the count of any other address, even in a full table |
| `IpBar.TableFollows` | jcamsys_server/jcamsysserver_v0.61/jcamsys_server.c:1072-1105 | as long as there is room, what happens on the table and to the open connections is a step of these runs |
| `IpBar.TableBarredForGoodIff` | jcamsys_server/jcamsysserver_v0.61/jcamsys_server.c:1072-1105 | on the table itself, with room or full: a barred address stays barred in every run if and only if it has no connection left in authentication |
| `IpBar.FailuresAreLimited` | jcamsys_server/jcamsysserver_v0.61/jcamsys_server.c:1072-1105 | with at most k connections at a time an address has at most max_fails - 1 + k chances between two logins |
| `IpBar.LimitIsReached` | jcamsys_server/jcamsysserver_v0.61/jcamsys_server.c:1072-1105 | and some run uses that many |
| `IpBar.AdmittedIff` | jcamsys_server/jcamsysserver_v0.61/jcamsys_server.c:1072-1077 | in every such run an address is let in if and only if it failed fewer than max_fails times since its last login, or never |
| `CameraSlots.Settings.FindFreeSlot` | jcamsys_server/jcamsysserver_v0.61/jcamsys_server.c:134-144 | the first free cell, or an error |
| `CameraSlots.Settings.FindSlot` | jcamsys_server/jcamsysserver_v0.61/jcamsys_server.c:148-160 | the cell of the id, else the first free one |
| `CameraSlots.Settings.Register` | jcamsys_server/jcamsysserver_v0.61/jcamsys_server.c:686-694 | the number, and the id in its cell |
| `CameraSlots.SlotIsCameraIff` | jcamsys_server/jcamsysserver_v0.61/jcamsys_server.c:138-156 | the answer is a camera number, not the cell behind the settings, if and only if the id has a slot, or a slot is free and the cell behind does not hold the id |
| `CameraSlots.RefusedIff` | jcamsys_server/jcamsysserver_v0.61/jcamsys_server.c:148-160 | a registration is refused if and only if every cell belongs to another id |
| `CameraSlots.DistinctForGood` | jcamsys_server/jcamsysserver_v0.61/jcamsys_server.c:686-694 | in every run no two cameras have one id |
| `CameraSlots.SameNumberForGood` | jcamsys_server/jcamsysserver_v0.61/jcamsys_server.c:686-694 | in every run a camera keeps its number and no other id gets it |
| `CameraSlots.FirstRegistration` | jcamsys_server/jcamsysserver_v0.61/jcamsys_server.c:686-694 | the number of the first registration is the number of every later one |
| `Archiver.Archive.AddImage` | jcamsys_server/jcamsysserver_v0.61/jcamsys_archiver.c:103-176 | for every image number that the server lets through: a write is attempted if and only if the archiver is configured and switched on and the rate is 0 or less than the time since the last one; what it leaves in the flags and counters for each outcome; and that only its own time changes |
| `Archiver.Archive.ArState` | jcamsys_server/jcamsysserver_v0.61/jcamsys_archiver.c:45-56 | the switch follows the first report of a change |
| `Archiver.DueIff` | jcamsys_server/jcamsysserver_v0.61/jcamsys_archiver.c:118 | a write is due if and only if more than the rate has passed or the stored time is ahead of the clock by less than the rest of the 64-bit range |
| `Archiver.AddImages` | jcamsys_server/jcamsysserver_v0.61/jcamsys_archiver.c:118-176 | the attempts of a run for one size of one camera do not depend on the others |
| `Archiver.AttemptIsOffer` | jcamsys_server/jcamsysserver_v0.61/jcamsys_archiver.c:103-118 | in every run each attempt is made when an image of that size of that camera is offered, configured and switched on |
| `Archiver.Spaced` | jcamsys_server/jcamsysserver_v0.61/jcamsys_archiver.c:118-174 | n attempts later at least n * (rate + 1) milliseconds have passed |
| `Archiver.RateLimited` | jcamsys_server/jcamsysserver_v0.61/jcamsys_archiver.c:118-174 | within T milliseconds one server process makes at most T / (rate + 1) + 1 attempts, failed ones included |
| `Archiver.NewProcessIsDue` | jcamsys_server/jcamsysserver_v0.61/jcamsys_archiver.c:41-118 | a process that has just begun, as for a camera that connects again, is due at once |
| `Archiver.LimitIsReached` | jcamsys_server/jcamsysserver_v0.61/jcamsys_archiver.c:118-174 | and that many can be made |

## Left out

- MD5 on machines other than x86: the block is read from the data itself, as the x86 branch of SET and GET does.
- Messages of length 0: the reader takes an empty payload for a closed connection (`Reader.MessageReader.ReadPayload`); the statements about deliveries are for messages of length 1 and more.
- `Reader.ReceiveAll`: the loop of the server reduced to its calls of the reader; what is done with a message is modelled elsewhere.
- The clock of the reader is a whole number of milliseconds without the truncation to int of the original.
- `IpBar.IpBarList.AddFail`: what the original overwrites when a time points outside the table is not part of the model; the value that stands there is a parameter. The address 0.0.0.0, which marks free slots, is not covered.
- `IpBar.AdmittedIff`: as long as the table has room; each look at the table and each change of it is one step; two children that change the counter of one address at the same time are not modelled.
- `CameraSlots.Settings.Register`: registrations are one step each; the random id that a blank one is replaced by, and settings messages that change an id, are not modelled.
- The image number 4, one past the last, passes the range check of the server; the images and the times of the archive have a row of its own for it instead of the memory behind the arrays.
- A message whose header claims more data than it carries: the original reads on in its receive buffer.
- A key file in which a second length line follows data: the model stops with a code of its own where the original would write past the key.
- `SensorRuns.EqualCountersMeanUpToDate`: for one sensor type; types do not share counters or arrays. A load or store of the 16-bit counter or of one element is not divided further, and processors see the steps in one order. The times of changes are left out of the runs. The copy loop of the original reads one element more than the message has, which is not sent.
- Sensor types from 4 to 32, which the check lets through although the arrays end at 3, have rows of their own in the model instead of the memory behind the arrays.
- Sensor values, which are polled next to the sensor states in the same way.
- `Archiver.RateLimited`: for one server process, whose table of times is its own; for a clock that never goes back and a rate that stays the same; with a rate of 0 every image is attempted.
- The client's wait for the server's answer to a login, the search for the password file and the plain-text login.
- Terminal password entry, random keys, date formatting and file access.
- Horizontal flipping, which is off by one pixel as written, YUV conversion, text on images, JPEG coding.
- The locks around image data, which return at once in the original.
- Viewers and consoles but for decryption and checksum; video capture, GPIO, ffmpeg, HTTP, discovery.
- The older copies of the same files under `jcamsys/`.

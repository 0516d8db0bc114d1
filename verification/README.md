# Verified models of the network programming labs

Dafny models of the programs in this repository whose correctness is not obvious from reading one
function, with proofs of what they promise. Verify everything with `dafny verify dfyconfig.toml`.

**File transfer over a lossy datagram link (Lab 8).** `Archive` is the packing and splitting of files,
`Chunks` the cutting of the compressed blob and its reassembly, `Transfer` the protocol as a
transition system. The network is the set of all messages ever sent in each direction: nothing
forces a message to arrive, and a message that was sent can arrive at any later time, any number of
times, in any order, so stale acknowledgements overwrite newer ones as they do in the client.
`TransferSafety` proves the invariant of every run and, from it, that the files written are the
client's files; `TransferProgress` proves that two rounds without loss end the client under any
interleaving, and that every run can still be finished. `TransferServer` and `TransferClient` are the
programs' variables as objects updated in place, each method proved equal to its step of the system.
`TransferHistory` says what every message of a run reports about the steps before it.

**Sudoku solver (Lab 9).** `Sudoku` says what a valid board and a solution are, by pairs of cells in a
common row, column or box. `SudokuSolver` has the counting check and the backtracking search on one
board in place; the search's contract fixes its answer and the board it leaves.

**Base64 (Lab 7, and the identical copy in PoW).** `Base64` defines encoding and decoding by the 24-bit
groups of section 4 of RFC 4648; `Base64Codec` has the byte-at-a-time loops, with decoding into the
input buffer itself. `|` is bitwise OR (`Bits`), `>>`, `<<` and `&` are written as division,
multiplication and remainder.

**Job queue (Lab 7).** `JobQueue` is the mutex and condition variable protocol for any number of
workers, with waiting, notification, spurious wakeups, do_job's status reports and process exit as
separate steps.

**Checksums (Lab 10).** `InternetChecksum` relates `cksum` to the one's complement sum of RFC 1071;
`PacketChecksum` has the Adler-like packet checksum and the header that `send` fills in.

**DNS server (Homework 2).** `DnsNames`, `DnsMessage` and `DnsHeader` are names and messages with their
text and wire forms, `DnsZone` the indexed zone, `DnsServer` the server from query bytes to response
bytes, `DnsDemo` its demo zone from lines to answers.

Where the code differs from what it or its documentation suggests, the model follows the code and the
difference is stated exactly:

- `dfs` never checks a board without an empty cell. Its answer is right if and only if the board is
  valid or has an empty cell (`Sudoku.AnswerRightIff`, `Sudoku.FullBoardUnseen`).
- `b64decode` writes one byte too many when no character, or one more than a multiple of four, is in
  the alphabet; the round trip holds for every string but the empty one (`Base64.RoundTrip`). For an
  empty input it leaves the length unset, which `pow` then uses (`Base64Codec.DecodeInPlace`).
- `send` does not clear `ip_sum` before summing. The sent header re-checks to zero if and only if the
  caller left 0 or 0xffff there (`PacketChecksum.SentHeaderRechecks`); both callers leave 0.
- The name server sets RCODE 3 also when it found records but the zone has no NS record at its own
  name, and leaves the records in the answer (`DnsServer.ZoneAnswer`, with an input in
  `DnsServer.FoundAndNameError`).
- Homework/2/README.md wants any number of labels between an address and the zone; the code takes
  exactly one (`DnsZone.NipAgainstDescription`, `DnsZone.NipDirectlyBelowZone`).
- Lab/8/Design.md describes checksums, sessions and status flags that the code does not have.

## Model

| member | source | states |
|---|---|---|
| Archive.Pack | Lab/8/src/client.cpp:114-124 | the two packing loops fill the buffer with exactly the archive of the files: for each file its name, its size and its contents, in order |
| Archive.Extract | Lab/8/src/extract.cpp:37-50 | the splitting loop terminates and lists the files of the archive in order, or stops where the original would read past the buffer |
| Archive.SplitIffBlob | Lab/8/src/extract.cpp:37-50 | for every byte string and file list: splitting yields the list if and only if the string is the list's archive and all sizes fit 32 bits |
| Archive.DirectoryMatches | Lab/8/src/client.cpp:90-112 | files numbered from 0 never replace each other: the directory ends up with exactly those names and their contents |
| Archive.LastFileStays | Lab/8/src/server.cpp:104-118 | of several files of one name the last one written stays |
| Archive.FileInBlob | Lab/8/src/client.cpp:114-124 | where each file lies in the archive, byte by byte: behind 8 bytes and the contents of each file before it, its name and its size, least significant byte first, and its contents |
| Chunks.Cut | Lab/8/src/client.cpp:145-158 | the chunking loop builds packet 0 with the size and chunks 1..n of the blob |
| Chunks.PayloadBytes | Lab/8/src/client.cpp:145-158 | every byte of every packet: 1168 bytes of the blob from 1168 * (k - 1) on, filled up with zeros; in packet 0 the size, least significant byte first |
| Chunks.ChunksTile | Lab/8/src/client.cpp:149-158 | the chunks tile the blob: joined in order they are the blob, with no overlap and no gap |
| Chunks.SizeFieldOfPayload | Lab/8/src/server.cpp:169-173 | the size that the server reads out of packet 0 and narrows to 32 bits is the blob's size |
| Chunks.SizeFieldBytes | Lab/8/src/server.cpp:169-173 | any packet 0, genuine or not, is read as its first four bytes, least significant first |
| Chunks.Assemble | Lab/8/src/server.cpp:75-79 | every fragment is copied to its place in the rounded-up buffer, in any order of the copies, and no copy leaves the buffer |
| Chunks.PlacedIsBlob | Lab/8/src/server.cpp:76-79 | once all chunks are placed, the first comp_size bytes are the blob, whatever else the memory held |
| TransferSafety.FilesArrive | Lab/8/src/server.cpp:163-203 | end to end: in every run over a network that loses, repeats and reorders, when the server has left its loop, splitting the decompressed blob yields exactly the client's files in order |
| TransferSafety.AckSafety | Lab/8/src/client.cpp:163-198 | a key leaves the client's map, or counts as done, only if the server has it; a client that exits leaves a server that has everything; FIN is in flight only after the save |
| TransferSafety.CounterIsSet | Lab/8/src/server.cpp:184-188 | the byte counter never wraps, and the loop's counter test fails exactly when packet 0 and every chunk have arrived |
| TransferSafety.CounterNeverWraps | Lab/8/src/server.cpp:163-188 | in every reachable state recv_size is DATA_SIZE times the number of chunks held, each chunk has the right bytes, and the loop is left exactly when nothing is missing |
| TransferSafety.WritesInside | Lab/8/src/server.cpp:76-79 | every reassembly write of a reachable server stays inside the rounded-up buffer |
| TransferSafety.NoGroundLost | Lab/8/src/client.cpp:184-198 | no step enlarges what the server misses or what the client still holds, and what the server misses is always among what the client still holds |
| TransferSafety.NewestAckDecides | Lab/8/src/client.cpp:172-197 | whichever acknowledgement arrived last alone decides which keys are erased and sent next, and whether the client exits |
| TransferSafety.StepInv | Lab/8/src/server.cpp:163-214 | every client, server and network step keeps the invariant that links both ends and the messages in flight |
| TransferHistory.AckTellsHistory | Lab/8/src/server.cpp:161-199 | in every run: the reply that a step of the receive loop sends has number 0 and the bits of exactly those keys of which some step up to this one took a packet |
| TransferHistory.FinTellsAll | Lab/8/src/server.cpp:207-213 | FIN carries the number 2^32 - 1 and a bit for packet 0 and every chunk |
| TransferHistory.OtherStepsAreSilent | Lab/8/src/server.cpp:163-214 | nothing else is ever sent to the client |
| TransferHistory.TurnSends | Lab/8/src/client.cpp:186-189 | the client sends the packet of a key, with its bytes, if and only if the key is in the map and its bit is clear; nothing else is sent to the server |
| TransferHistory.AckErases | Lab/8/src/client.cpp:163-198 | if an acknowledgement is the last reply heard before a round ends, exactly the keys that had arrived when it was sent leave the map, and the client exits just when none is left |
| TransferProgress.TwoLossFreeRounds | Lab/8/src/client.cpp:184-198 | from any reachable state at the top of a round, two consecutive rounds whose packets and replies all arrive make the client exit, whatever else arrives in between |
| TransferProgress.RoundDelivers | Lab/8/src/client.cpp:186-189 | after a round without loss the server has every chunk |
| TransferProgress.CanAlwaysFinish | Lab/8/src/server.cpp:163-214 | every run, whatever it lost, can go on so that the server saves the right blob and the client exits |
| TransferServer.Receiver.Receive | Lab/8/src/server.cpp:165-188 | one received packet changes bit set, size, chunk map and counter exactly as the transition system says |
| TransferServer.Receiver.ReceiveLoop | Lab/8/src/server.cpp:163-201 | the loop takes packets as long as its counter test holds; after each packet at which the timer was due it sends one reply, numbered 0, with the bits of exactly the keys that had arrived by then, and no other |
| TransferServer.AcceptAllHolds | Lab/8/src/server.cpp:163-188 | after any packets, genuine or not, a server that started afresh holds of each chunk the first that arrived, the size of the last packet 0, and 1168 times the number of chunks, in 32 bits |
| TransferServer.DoneIffCovered | Lab/8/src/server.cpp:163-188 | on the client's packets, in any order and with repetitions, the loop is left exactly when every key has occurred |
| TransferServer.Receiver.SaveToFile | Lab/8/src/server.cpp:75-124 | reassembles, decompresses and splits; clears the map and switches to FIN |
| TransferServer.Receiver.Serve | Lab/8/src/server.cpp:150-214 | the whole server on one arrival order: it finishes exactly when every key has arrived, and then the files written are the client's |
| TransferClient.WrapSend | Lab/8/src/client.cpp:59-70 | a packet carries its sequence number and its data padded with zeros to the fixed size |
| TransferClient.Sender.SendRound | Lab/8/src/client.cpp:186-189 | a round sends the open keys in key order |
| TransferClient.RoundSends | Lab/8/src/client.cpp:186-189 | the packets of a round are exactly those of the keys in the map whose bit is clear |
| TransferClient.RoundIsOrdered | Lab/8/src/client.cpp:186-189 | each key at most once, in increasing order |
| TransferClient.Sender.ReadResps | Lab/8/src/client.cpp:163-180 | each reply replaces the bit set; FIN ends the process and nothing after it is read |
| TransferClient.HeardUntilFin | Lab/8/src/client.cpp:163-180 | the first reply numbered 2^32 - 1 ends the process with its bits, whatever comes after it |
| TransferClient.HeardWithoutFin | Lab/8/src/client.cpp:163-180 | without one, the client goes on with the bits of the last reply |
| TransferClient.Sender.EndRound | Lab/8/src/client.cpp:184-198 | erases every key whose bit is set and leaves when the map is empty |
| Sudoku.AntiMonotone | Lab/9/UNIX Domain Sudoku/solver.cpp:61-93 | a board with a repetition cannot be repaired by filling cells |
| Sudoku.ValidIffNoClash | Lab/9/UNIX Domain Sudoku/solver.cpp:61-93 | a board is valid if and only if no two cells with equal row, equal column, or equal r / 3 and c / 3 hold the same digit |
| Sudoku.AnswerRightIff | Lab/9/UNIX Domain Sudoku/solver.cpp:95-106 | the answer says whether a solution exists if and only if the board is valid or has an empty cell |
| Sudoku.LeastSolution | Lab/9/UNIX Domain Sudoku/solver.cpp:97-103 | on such a board success leaves the least solution in row-major order |
| Sudoku.OutcomeUnique | Lab/9/UNIX Domain Sudoku/solver.cpp:95-106 | the search's contract determines its answer and the board it leaves |
| Sudoku.FullBoardUnseen | Lab/9/UNIX Domain Sudoku/solver.cpp:96-98 | a full invalid board is reported solved although it has no solution |
| SudokuSolver.IsValid | Lab/9/UNIX Domain Sudoku/solver.cpp:61-93 | the counting check is true exactly when no row, column or box repeats a digit |
| SudokuSolver.UnitOkIffCounts | Lab/9/UNIX Domain Sudoku/solver.cpp:62-70 | a unit repeats no digit exactly when each digit is counted at most once |
| SudokuSolver.Dfs | Lab/9/UNIX Domain Sudoku/solver.cpp:95-106 | terminates; with an empty cell ahead it succeeds exactly when a solution exists, leaving the least one, and on failure restores the board; without one it succeeds and changes nothing |
| SudokuSolver.Solve | Lab/9/UNIX Domain Sudoku/solver.cpp:108-112 | returns the search's board, working on a copy of the givens |
| Base64.CodeIsInverse | Lab/7/Web Crawler/base64.c:40-48 | the decoding table inverts the alphabet in both directions, and '=' is in neither |
| Base64.AlphabetIsTable | Lab/7/Web Crawler/base64.c:9-9 | the alphabet is the 64-character table, character for character |
| Base64.EncodedLength | Lab/7/Web Crawler/base64.c:33-36 | n bytes give 4 * ceil(n / 3) characters |
| Base64.PaddingIsEqualsSigns | Lab/7/Web Crawler/base64.c:33-34 | the text ends with two characters 61 after a single last byte, with one after two, with none otherwise, and has no other |
| Base64.EqualsSignEnds | Lab/7/Web Crawler/base64.c:57-57 | the first character 61 ends the text, whatever follows |
| Base64.RoundTrip | Lab/7/Web Crawler/base64.c:51-85 | decoding an encoding, with any bytes outside the alphabet and '=' strewn in, gives the original if and only if it is not empty |
| Base64.DecodedFits | Lab/7/Web Crawler/webcrawler.cpp:195-195 | decoding a non-empty input never yields more bytes than it read, so a buffer with one byte to spare can be decoded in place |
| Base64Codec.Encode | Lab/7/Web Crawler/base64.c:8-38 | the loop writes the RFC's encoding, a NUL and nothing else, with the early returns for a null buffer and an empty input |
| Base64Codec.Decode | Lab/7/Web Crawler/base64.c:51-85 | the loop writes the decoding, a NUL and nothing else, also when output and input are the same buffer; the length is at most inlen |
| Base64Codec.DecodeInPlace | Lab/7/Web Crawler/webcrawler.cpp:195-195 | the in-place call decodes the old contents and puts the NUL at index inlen at the latest; for an empty line it writes only the NUL and leaves the length as it was |
| Base64Codec.EncodedIsTextOf | Lab/7/Web Crawler/base64.c:14-34 | the characters written per input byte are the RFC's groups |
| Base64Codec.EncodedFew | Lab/7/Web Crawler/base64.c:8-38 | the texts of one, two and three bytes, character by character |
| Base64Codec.EncodedAppends | Lab/7/Web Crawler/base64.c:8-38 | three bytes at a time: with the texts of up to three bytes this leaves no choice about any text |
| Base64Codec.DecodedIsBytesOf | Lab/7/Web Crawler/base64.c:56-81 | the bytes written per code, and the final flush, are those of the groups |
| Base64Codec.DecodedFew | Lab/7/Web Crawler/base64.c:51-85 | what one to four codes decode to, the byte of six bits that a single code leaves included |
| Base64Codec.DecodedAppends | Lab/7/Web Crawler/base64.c:51-85 | four codes at a time: with DecodedFew this leaves no choice about any codes |
| JobQueue.FifoAndExclusion | Lab/7/Web Crawler/webcrawler.cpp:101-135 | in every interleaving the jobs added are the jobs taken followed by those pending, at most MAX_ATTEMPTS are accepted, and at most one thread is in a locked section |
| JobQueue.NoLostWakeup | Lab/7/Web Crawler/webcrawler.cpp:107-134 | if a worker is blocked and no notification is due, at least as many workers as there are pending jobs are on their way to the queue |
| JobQueue.QuietIsDone | Lab/7/Web Crawler/webcrawler.cpp:101-135 | when no thread can move, every worker waits or has left, and all jobs are taken unless all workers have left |
| JobQueue.StretchIsBounded | Lab/7/Web Crawler/webcrawler.cpp:44-135 | every stretch of every run, status reports included, is no longer than the rank of its first state and 19 steps per request, 3 per spurious wakeup, 2 per view and 1 to quit |
| JobQueue.RunIsBounded | Lab/7/Web Crawler/webcrawler.cpp:44-135 | under no scheduling do n workers go round for ever on their own: a run has at most 2n steps more than its inputs and spurious wakeups allow for |
| JobQueue.DrainsUnderAnySchedule | Lab/7/Web Crawler/webcrawler.cpp:44-135 | from every point of every run, without new input and spurious wakeups, the threads rest after at most Rank steps whoever takes them, and wherever they rest the process has ended or every job was taken |
| JobQueue.QuietHasTakenAll | Lab/7/Web Crawler/webcrawler.cpp:219-227 | with the menu's non-empty tokens and at least one worker, a system at rest has taken every job |
| JobQueue.WakeupStep | Lab/7/Web Crawler/webcrawler.cpp:113-134 | every step keeps the wakeup invariant |
| JobQueue.HaltedIff | Lab/7/Web Crawler/webcrawler.cpp:126-133 | in every run the process has ended if and only if the user has quit or more than 16 jobs were added |
| JobQueue.RequestsAreAdded | Lab/7/Web Crawler/webcrawler.cpp:126-134 | what is added is what was requested, in order, but for the one job in the producer's hand |
| JobQueue.TakenAreAccounted | Lab/7/Web Crawler/webcrawler.cpp:101-124 | every job taken is in the hands of exactly one worker or was finished, and each empty job sends exactly one worker away |
| JobQueue.JobIsKept | Lab/7/Web Crawler/webcrawler.cpp:101-124 | a worker works on the job that it took |
| JobQueue.DoneAfterReports | Lab/7/Web Crawler/webcrawler.cpp:44-99 | do_job has made one, two or four status reports on its job when it returns |
| JobQueue.OutsideIsFree | Lab/7/Web Crawler/webcrawler.cpp:44-135 | what can come from outside is possible whenever the producer is at the menu, and any blocked worker can wake up |
| JobQueueShared.Shared.Push | Lab/7/Web Crawler/webcrawler.cpp:126-133 | the locked section of add_job does to the queue and the count what the protocol's push step does, and ends the process if and only if the new count is more than 16 |
| JobQueueShared.Shared.TakeFront | Lab/7/Web Crawler/webcrawler.cpp:108-116 | the worker's test takes the oldest job, or waits |
| InternetChecksum.Cksum | Lab/10/Broadcast-XDP-File-Transfer/src/utils.hpp:142-149 | the loops terminate and yield the complement of the one's complement sum of the words, also for odd and non-positive lengths |
| InternetChecksum.ChecksumIs | Lab/10/Broadcast-XDP-File-Transfer/src/utils.hpp:142-149 | the checksum of any buffer as a number: 65535 for a sum of 0, otherwise what is missing from the sum to the next multiple of 65535, where every second byte counts 256 times |
| InternetChecksum.OnesSumIsRep | Lab/10/Broadcast-XDP-File-Transfer/src/utils.hpp:145-147 | the one's complement sum, carry by carry, is the representative of the plain sum modulo 65535, and 0 only for all zeros |
| InternetChecksum.FoldStep | Lab/10/Broadcast-XDP-File-Transfer/src/utils.hpp:147-147 | a folding step keeps the representative and makes the sum smaller |
| InternetChecksum.RecheckIff | Lab/10/Broadcast-XDP-File-Transfer/src/utils.hpp:164-164 | words re-check to zero after one is overwritten by their checksum if and only if that word was zero, or all ones beside a word that is not zero |
| InternetChecksum.SwappedBuffer | Lab/10/Broadcast-XDP-File-Transfer/src/utils.hpp:142-149 | exchanging the bytes of every word of a buffer exchanges the bytes of its checksum (section 2(B) of RFC 1071) |
| PacketChecksum.Adler32 | Lab/10/Broadcast-XDP-File-Transfer/src/utils.hpp:98-116 | the loop with its 32-bit additions yields the two running sums modulo MOD_ADLER, joined by shift and OR |
| PacketChecksum.AdlerHalves | Lab/10/Broadcast-XDP-File-Transfer/src/utils.hpp:98-116 | for any data the lower half is the plain sum modulo 1000000007, the upper half the weighted sum ORed with what of the plain sum is wider than 16 bits |
| PacketChecksum.PacketHalves | Lab/10/Broadcast-XDP-File-Transfer/src/utils.hpp:98-121 | the same for up to 1464 bytes, without the modulus |
| PacketChecksum.ZeroPacket | Lab/10/Broadcast-XDP-File-Transfer/src/utils.hpp:98-121 | 1464 zero bytes give 95944705 |
| Bits.OrBits | Lab/10/Broadcast-XDP-File-Transfer/src/utils.hpp:115-115 | OR bit by bit, whether or not the operands overlap |
| PacketChecksum.ChecksumBits | Lab/10/Broadcast-XDP-File-Transfer/src/utils.hpp:118-121 | the checksum is the bitwise XOR with sess_seq |
| PacketChecksum.Checksum | Lab/10/Broadcast-XDP-File-Transfer/src/utils.hpp:118-121 | the packet's Adler sum XORed with its session and sequence number, as the detection results below take it |
| PacketChecksum.AdlerClosedForm | Lab/10/Broadcast-XDP-File-Transfer/src/utils.hpp:98-121 | for a packet's data neither modulus takes effect, and the sums are the plain and the weighted sum of the bytes |
| PacketChecksum.ByteChangeDetected | Lab/10/Broadcast-XDP-File-Transfer/src/utils.hpp:118-121 | packets that differ in exactly one data byte have different checksums |
| PacketChecksum.SeqChangeDetected | Lab/10/Broadcast-XDP-File-Transfer/src/utils.hpp:118-121 | packets that differ only in sess_seq have different checksums |
| PacketChecksum.Fill | Lab/10/Broadcast-XDP-File-Transfer/src/utils.hpp:151-166 | send fills in the packet checksum and the IP header, whose checksum covers the ip_sum it was given |
| PacketChecksum.HeaderFields | Lab/10/Broadcast-XDP-File-Transfer/src/utils.hpp:151-165 | the header's fields by offset: version 4, 5 words, 1492 bytes, 64 hops, protocol 153, the destination twice |
| PacketChecksum.SentHeaderRechecks | Lab/10/Broadcast-XDP-File-Transfer/src/utils.hpp:151-165 | the sent header re-checks to zero if and only if ip_sum was 0 or 0xffff before |
| DnsNames.IsUnder | Homework/2/dnsd/src/dn.cpp:12-20 | true exactly when the second name's labels are the first labels of the first name |
| DnsNames.Minus | Homework/2/dnsd/src/dn.cpp:22-30 | drops the labels of an ancestor, and nothing for any other name |
| DnsNames.TextRoundTrip | Homework/2/dnsd/src/dn.cpp:32-50 | writing a name as text and reading it back gives the name if and only if no label holds a dot |
| DnsNames.TrailingDot | Homework/2/dnsd/src/dn.cpp:32-43 | a trailing dot does not change the name a text denotes |
| DnsNames.TextOfLabels | Homework/2/dnsd/src/dn.cpp:32-43 | labels with a dot (46) behind each are read as the name of these labels, the most general first |
| DnsNames.ToText | Homework/2/dnsd/src/dn.cpp:45-50 | the text is every label followed by a dot, most specific first |
| DnsNames.ToData | Homework/2/dnsd/src/dn.cpp:52-60 | the wire form is every label behind its length, most specific first, and a zero byte |
| DnsNames.ParseIffName | Homework/2/dnsd/src/dn.cpp:52-72 | a buffer decodes to a name and a rest if and only if it is the name's encoding followed by the rest and all labels have 1 to 255 bytes |
| DnsNames.FromData | Homework/2/dnsd/src/dn.cpp:62-72 | the cursor stops right behind the encoded name, or the read would leave the buffer |
| DnsMessage.HeadRoundTrip | Homework/2/dnsd/include/header.hpp:9-36 | every header field is read back from the 12 header bytes |
| DnsMessage.HeadLayout | Homework/2/dnsd/include/header.hpp:9-36 | the twelve bytes of the header, bit fields included |
| DnsMessage.QuestionLayout | Homework/2/dnsd/src/record.cpp:18-23 | the bytes of a question |
| DnsMessage.RecordLayout | Homework/2/dnsd/src/record.cpp:42-50 | the bytes of a record by offset from the end of its name |
| DnsMessage.MessageRoundTrip | Homework/2/dnsd/src/header.cpp:26-74 | parsing a dump gives the same fields with QR set, Z clear and counts of the sections; the questions come back if and only if all labels have 1 to 255 bytes and there are at most 65535 |
| DnsMessage.RecordsDecodeUniquely | Homework/2/dnsd/src/record.cpp:42-50 | record lists of equal length with the same bytes agree on every name, type, class, ttl and rdata |
| DnsMessage.MessageReadsBack | Homework/2/dnsd/src/header.cpp:61-74 | a reader of all sections gets back from a dump its header, every question and every record's name, type, class, ttl and rdata, and nothing is left over |
| DnsMessage.ParseMessageExtends | Homework/2/dnsd/src/header.cpp:26-59 | bytes behind a complete message do not change what is parsed |
| DnsMessage.MessagesDecodeUniquely | Homework/2/dnsd/src/header.cpp:61-74 | two messages with the same bytes agree on header, questions and the wire content of every section |
| DnsHeader.Header.Parse | Homework/2/dnsd/src/header.cpp:26-59 | reads header and questions from a readable buffer, clears the record sections, and fails only where it would leave the buffer |
| DnsHeader.Header.Dump | Homework/2/dnsd/src/header.cpp:61-74 | writes header, questions and the three sections in order, with QR, Z and the counts set |
| DnsHeader.DumpQuestion | Homework/2/dnsd/src/record.cpp:18-23 | name, type and class in wire form |
| DnsHeader.DumpRecord | Homework/2/dnsd/src/record.cpp:42-50 | name, type, class, ttl, length and rdata in wire form |
| DnsZone.Zone.Add | Homework/2/dnsd/src/zone.cpp:44-51 | adding a record of the zone appends it to the file's records and keeps the index in agreement with them; any other record is refused |
| DnsZone.LoadedRecord | Homework/2/dnsd/src/zone.cpp:26-37 | line i of a zone file becomes record i: its name below the zone, its type, class, time to live and text as they stand |
| DnsZone.DataNameIs | Homework/2/dnsd/src/record.cpp:25-35 | what a record points at, by type number: for NS and CNAME its data, for MX what stands behind the first space |
| DnsZone.SupportedAre | Homework/2/dnsd/include/enum.hpp:13-21 | the type numbers that the server knows |
| DnsZone.Zone.Get | Homework/2/dnsd/src/zone.cpp:53-70 | the indexed lookup yields what the file's records, filtered by name, type and class in file order, determine |
| DnsZone.MatchingInOrder | Homework/2/dnsd/src/zone.cpp:44-70 | the records found are those of that name, type and class at growing positions of the file, each exactly once |
| DnsZone.Zone.GetIP | Homework/2/dnsd/src/zone.cpp:80-87 | a name's A records, then its AAAA records, in file order |
| DnsZone.AddressesAre | Homework/2/dnsd/src/zone.cpp:80-87 | type 1 before type 28, both of class 1 |
| DnsZone.NipLike | Homework/2/dnsd/src/record.cpp:68-88 | recognises exactly the names with four digit labels and one label below the zone, and makes the record of the address they spell |
| DnsZone.NipShapedIs | Homework/2/dnsd/src/record.cpp:68-80 | the recognised names by positions and character codes |
| DnsZone.NipTextInName | Homework/2/dnsd/src/record.cpp:81-86 | the address is the front of the queried name as it is written |
| DnsZone.NipAgainstDescription | Homework/2/dnsd/src/record.cpp:68-80 | on names from the wire: of the described names the code recognises exactly those with one label between address and zone, and of the names it recognises exactly those are described in which that label is alphanumeric |
| DnsZone.NipDirectlyBelowZone | Homework/2/dnsd/src/record.cpp:71-71 | an address directly below the zone is described but not recognised |
| DnsServer.WalkIsLongest | Homework/2/dnsd/src/server.cpp:97-99 | the walk finds the longest configured zone that is an ancestor of the name |
| DnsServer.ForwardIff | Homework/2/dnsd/src/server.cpp:92-119 | a query is forwarded if and only if it has one question and no configured ancestor; SERVER_FAILURE never occurs |
| DnsServer.ZoneAnswer | Homework/2/dnsd/src/server.cpp:97-114 | answer, authority, additional and RCODE of every supported, not address-like query, with the exact condition for RCODE 3 |
| DnsServer.NipAnswer | Homework/2/dnsd/src/server.cpp:63-83 | an address-like name is answered with its address whatever records the zone has for it, with the zone's NS records as authority, or RCODE 3 and its SOA record when it has none and the type is not NS; with RCODE 1 and no records if the address does not parse |
| DnsServer.NotOneQuestion | Homework/2/dnsd/src/server.cpp:92-94 | a message without exactly one question comes back with RCODE 4 and no records |
| DnsServer.UnknownType | Homework/2/dnsd/src/zone.cpp:53-63 | so does a question for a type other than 1, 2, 5, 6, 15, 16 and 28 in a configured zone, with AA set, unless the name spells an address |
| DnsServer.NotImplementedOnWire | Homework/2/dnsd/src/server.cpp:63-83 | both from query bytes to reply bytes: reading the reply yields the questions, RCODE 4 and no record in any section |
| DnsServer.ThrownCodes | Homework/2/dnsd/src/server.cpp:70-90 | the response code of everything that answering can throw |
| DnsServer.FoundAndNameError | Homework/2/dnsd/src/server.cpp:103-113 | a zone file and a query for which the reply holds the record that was asked for and RCODE 3 |
| DnsServer.AdditionalIsAddresses | Homework/2/dnsd/src/server.cpp:104-107 | the additional section holds exactly the zone's addresses of the names that the answers point at |
| DnsServer.AdditionalInOrder | Homework/2/dnsd/src/server.cpp:104-107 | the additional section in order: for each answer in turn its A records before its AAAA records |
| DnsServer.ReplyOnWire | Homework/2/dnsd/src/server.cpp:63-83 | the reply's bytes parse back to the query's id, opcode and questions with QR set, Z clear and the right count, and when its records fit the wire they read back as every record of every section |
| DnsServer.ZoneAnswerOnWire | Homework/2/dnsd/src/server.cpp:63-119 | from query bytes to reply bytes: reading the reply yields the zone's records of the name, type and class in file order, the authority and RCODE that go with them, and the addresses of the names they point at |
| DnsServer.ZoneReaction | Homework/2/dnsd/src/server.cpp:63-119 | and these bytes are what the server sends back |
| DnsServer.CStrOfQuery | Homework/2/dnsd/src/server.cpp:65-65 | the NUL behind the query, which may be read, changes no complete query |
| DnsServer.NulCompletes | Homework/2/dnsd/src/server.cpp:65-65 | a query whose last byte is a zero may be sent without it |
| DnsServer.Server.FindZone | Homework/2/dnsd/src/server.cpp:97-99 | the loop over ever shorter names returns the zone of the walk |
| DnsServer.Server.Query | Homework/2/dnsd/src/server.cpp:92-119 | leaves the header as the response function says, or throws what it says |
| DnsServer.Server.QueryBytes | Homework/2/dnsd/src/server.cpp:63-90 | query bytes and their terminating NUL to response bytes or forwarding, with the response code of each exception |
| DnsDemo.DemoLoads | Homework/2/dnsd/conf/demo/zone-demo1.org.txt:1-6 | the lines of the demo zone, for any labels, as records: '@', names below the zone, the mail host behind the space, types and times to live |
| DnsDemo.AsksForMx | Homework/2/dnsd/src/server.cpp:92-119 | the demo zone's MX record, its name server and the mail host's address, RCODE 0 |
| DnsDemo.AsksForMissing | Homework/2/dnsd/src/server.cpp:92-119 | a type that a host does not have: RCODE 3 and the SOA record |
| DnsDemo.AsksForPtr | Homework/2/dnsd/src/server.cpp:63-83 | a PTR query and its reply, byte for byte |

## Left out

- Sockets, files, timers, printing, command lines: who sends when is nondeterministic, file contents and packets are arguments.
- zstd: `decompress(compress(x)) == x` for all x is the only assumption, and a blob is not empty.
- `DnsServer.ReplyOnWire`: a section of more than 65535 records, or rdata of more than 65535 bytes, does not fit the wire and is not read back.
- Transfer blobs of more than 9343 chunks: the code then sets bits outside its bit set; `Transfer.Carried` excludes them.
- Packet corruption in Lab 8: the UDP checksum turns it into loss; the code under `USE_CHECKSUM` is switched off.
- The byte layout of the acknowledgement bit set: replies carry the bits themselves.
- `do_reponse` sends each reply three times over: here it is sent once, and the network may repeat it.
- `Archive.Extract`: an archive that ends inside a header or a file is undefined behaviour in the original; here it is reported.
- `DnsNames.FromData`: so is a name that runs past the end of the message; the NUL that `c_str()` puts behind a query is part of the buffer.
- Reassembly order: the original copies chunks in key order, here any order is allowed.
- `valid` in the Sudoku solver has its counting loop written out three times; here the three loops share one method.
- Sudoku input and output over the socket, and boards with cells above 9, for which `valid` indexes out of its array.
- Integer widths of `coff`, `i` and `optr` in base64.c: they are bounded by the input length.
- do_job's fetching, the status texts, the proof of work: a working worker makes one, two or four status reports under the mutex and returns.
- `JobQueue` is a transition system over values, not threads with objects: blocking and interleaving are steps; the locked sections are objects in `JobQueueShared`.
- Lab 10 as a protocol: data and acknowledgements share one packet type on one broadcast socket, so the code does not decide who hears what.
- Reading zone and configuration files, `inet_pton`, the rdata of SOA and MX records, the class and type names: parsed lines, a function from type and text to rdata, and a function for `inet_pton` are arguments.
- `DnsNames.FromText`: std::ranges split is taken to yield no empty piece after a trailing dot, which is what makes the zone files' names equal to those in queries.
- Forwarding to the upstream server: the answer is whatever it says.
- A zone without an SOA record: loading asserts that there is one.
- Homework 1, Lab 1 to 6 and the oracles of Lab 7: input and output, floating point, or claims that one function's body shows.

# A verified model of the MiniFtpServer core

MiniFtpServer is a small FTP server in C. This project models the parts of it that carry real
algorithms and protocols, and proves what they are for:

- **Address text** (`Numerals`, `Ipv4Text`, `Ipv6Text`, `Ipv6Parse`, `Ipv6Case`, `Ipv6Print`): the hand-written
  printer and parser of IPv4 and IPv6 addresses. The printer's two passes over `runpos`, its third
  pass over the buffer, and the parser's cursor jump past "::" are loops over arrays. The parser is
  shown to accept exactly a described set of texts, each with one meaning, and to invert the printer.
- **Client accounting** (`HashTable`, `ClientLimits`, `ClientAccounting`): the chained hash table as
  heap nodes relinked in place, refining a map from keys to stacks; the accept, fork, check and reap
  events as a state machine whose counters and limits are invariants over every run; and the parent's
  procedures over two such tables, each proved to take the step of the machine.
- **Private channel** (`PrivFrames`, `PrivChannel`, `PrivInvariant`, `PrivRuns`, `PrivProgress`): the protocol thread
  and the nobody thread as interleaved steps over two byte queues, every read and write cut into
  arbitrary pieces, with the PORT and PASV modes and which transfers they grant; and progress: with
  sockets that do what they are asked for no thread stops and such transfers are granted.
- **Byte streams and commands** (`ByteStream`, `CommandReader`): exact-length reads and writes, the
  peeking line reader and the command loop over a socket that splits its data arbitrarily, is
  interrupted, or fails.
- **Transfers** (`Transfer`, `Throttle`): storing in pieces, sending from a restart position, sending
  ranges by callback, and the rate limit over real arithmetic.
- **Growable vector** (`CVector`): contents, capacities and the amortised cost of reallocation.

Objects the server updates in place are classes; loops of the source are loops with invariants; each
such method is tied to a function of its inputs or of the old state, and the lemmas are about those
functions. The concurrent parts are state machines over their steps.

## Reading guide

- A C string is the sequence of its characters before the terminating NUL; a character buffer is an
  array. An IPv6 address is sixteen bytes in network order (`Bytes`), or its eight words after
  conversion to host order (`Words`).
- `INET6_ADDRSTRLEN` is a parameter of at least 46, the value of `MiniFtpServer/netutils.h` where no
  platform header comes first (the Windows headers say 65); `INET_ADDRSTRLEN`, which the repository does
  not define, is 22, its larger usual value.
- The private channel stops at the first failed operation, which the source says is meant to end the
  session (`MiniFtpServer/ftp_nobody.c:37`). A transfer with neither PORT nor PASV active, or with both,
  is no failed operation: it is refused and the session goes on.
- The accounting machine takes each event as one step. In the source the signal handler can also
  interrupt the parent inside `++num_of_clients` or a table update; that is not modelled.
- Where the code does not do what it is evidently for, the model follows the code, a lemma or contract
  gives the exact condition under which it does, and another an input on which it does not:
  - no NUL is written behind a text that ends in "::" (`Ipv6Print.TerminatedExactly`; `NotTerminated`, and
    `ReadAsOther`, where the buffer is read back as another address);
  - a child that exits before its pid is recorded fails an assertion of the signal handler
    (`ClientLimits.ReapAsserts`; `EarlyExitFails`, `EarlyExitInstance`);
  - without `ftruncate` the end of a longer file stays, and an APPE lands behind it (`Transfer.UncutStore`,
    `UncutPiecesExactly`; `StoreInstances`);
  - REST is never reset (`Transfer.StickyRestart`, `UncutStickyRestart`; `StoreInstances`);
  - the size of a transfer by callback is not reduced by the restart position (`Transfer.FakeCoversTheRest`;
    `FakeInstance`);
  - splitting a command needs zeroed buffers (`CommandReader.SplitNeedsReset`; `SplitInstance`);
  - PORT and PASV do not replace one another, and a session with both active never gets a data connection
    again (`PrivRuns.TransferOutcome`, `BothForever`; `PortThenPasv`);
  - removing from a vector reads one slot behind the elements, inside the buffer unless the vector is full
    (`CVector.Vector.RemoveAt`).
- What the parser accepts beyond RFC 4291 is part of its described set: a colon in front of the first
  group, a "::" that stands for no group, other characters between "ffff" and its colon, and whatever
  `sscanf` takes for a group, which may start with white space, a sign and "0X"
  (`Ipv6Parse.BeyondDigits`: "::-1" is the address ::ffff); and in IPv4 text leading zeros and one final dot.
- The conversions of `sscanf` and `atoll` are those of section 7.21.6.2 of ISO/IEC 9899:2011: a "0X"
  without a digit behind it fails, and a negative number wraps around.
- `limit_num_clients` only replies to a refused session and logs it, and `session_thread` goes on with it
  (`MiniFtpServer/main.c:53-72`, `MiniFtpServer/main.c:147`). The limits are about the sessions that passed:
  a refused session is taken to have ended, as its reply says.

## Model

| member | source | states |
|---|---|---|
| `Numerals.ValueOfText` | MiniFtpServer/netutils.c:128-130 | reading back the digits printed for any number, in base 10 or 16, gives the number |
| `Numerals.WordText` | MiniFtpServer/netutils.c:128-130 | every 16-bit word prints in one to four hexadecimal digits that read back as the word |
| `Numerals.DigitTables` | MiniFtpServer/netutils.c:242-242 | the sixteen digits have their values in both cases, and the printed ones are small letters |
| `Numerals.OnlyDigits` | MiniFtpServer/netutils.c:242-242 | no other character is a digit |
| `Numerals.ValueSplit` | MiniFtpServer/netutils.c:242-242 | digits count by their places: those in front as often as the base to the number of those behind |
| `Numerals.TextIsPlain` | MiniFtpServer/netutils.c:128-130 | a printed number has no leading zero, and zero is "0" |
| `Numerals.NoNumber` | MiniFtpServer/command_map.c:237-237 | a conversion fails exactly when no digit follows white space and at most one sign |
| `Ipv4Text.ParseDotted` | MiniFtpServer/netutils.c:17-67 | parsing the dotted text printed for any four bytes returns those bytes |
| `Ipv4Text.DottedLength` | MiniFtpServer/netutils.c:55-67 | the printed text is 7 to 15 characters, digits and dots only |
| `Ipv4Text.AcceptedChars` | MiniFtpServer/netutils.c:23-51 | every accepted text consists of digits and dots and has at least one dot |
| `Ipv4Text.AcceptsExactly` | MiniFtpServer/netutils.c:17-54 | for all texts and addresses: accepted as that address if and only if it is four decimal fields up to 255 with these values, with any leading zeros and perhaps a last dot |
| `Ipv4Text.DottedExample` | MiniFtpServer/netutils.c:17-67 | 192.168.44.1 is printed and parsed as these bytes |
| `Ipv4Text.LooseExample` | MiniFtpServer/netutils.c:23-51 | "010.0.0.01." is accepted as 10.0.0.1 |
| `Ipv4Text.InetNtopV4` | MiniFtpServer/netutils.c:55-67 | refuses exactly a size below INET_ADDRSTRLEN, leaving the buffer alone; else writes text and NUL and nothing more |
| `Ipv4Text.InetPtonV4` | MiniFtpServer/netutils.c:17-54 | the loop accepts exactly four decimal fields up to 255 with an optional final dot, and stores their values; a refusal leaves the destination alone |
| `Ipv6Text.BytesAndWords` | MiniFtpServer/netutils.c:73-73 | sixteen bytes and eight words determine each other |
| `Ipv6Parse.RunGroups` | MiniFtpServer/netutils.c:239-253 | joined groups are stored word by word from the write cursor on, whatever follows them |
| `Ipv6Parse.RunCompressed` | MiniFtpServer/netutils.c:204-234 | after "::" the colon count moves the cursor so that the groups behind it end at the last word |
| `Ipv6Parse.EnoughColons` | MiniFtpServer/netutils.c:219-233 | behind a "::" an accepted text never fills more words than its colons announce |
| `Ipv6Parse.SoundRight` | MiniFtpServer/netutils.c:201-259 | an accepted text behind "::" is exactly as many groups as were counted |
| `Ipv6Parse.SoundLeft` | MiniFtpServer/netutils.c:201-259 | an accepted text from a group on is groups filling the address, or groups, one "::" and groups |
| `Ipv6Parse.ParseForm` | MiniFtpServer/netutils.c:145-262 | every form (all groups; one "::" for any block of zero words; dotted tail), with each group as anything "%4hx" takes, is accepted as the address it stands for |
| `Ipv6Parse.AnySpelling` | MiniFtpServer/netutils.c:201-262 | for every address, any block of zero words as "::" or none, other words as any group of that value (one to four digits of either case among them), is parsed as exactly that address (section 2.2 of RFC 4291) |
| `Ipv6Parse.SoundForm` | MiniFtpServer/netutils.c:145-262 | every accepted text is one of those forms, white space, signs and "0X" included |
| `Ipv6Parse.AcceptsExactly` | MiniFtpServer/netutils.c:145-262 | for all texts and addresses: accepted as that address if and only if the text is a form of it |
| `Ipv6Parse.FormsAreUnambiguous` | MiniFtpServer/netutils.c:145-262 | no text is a form of two addresses |
| `Ipv6Parse.BeyondDigits` | MiniFtpServer/netutils.c:240-245 | ":: 1", "::+1" and "::0X1" are accepted as ::1, and "::-1" as ::ffff |
| `Ipv6Case.CaseDoesNotMatter` | MiniFtpServer/netutils.c:145-262 | for every text, making its hexadecimal capitals small changes neither acceptance nor address |
| `Ipv6Case.CapitalDigit` | MiniFtpServer/netutils.c:240-245 | each of the sixteen digits in capitals behind "::" is the last word with its value |
| `Ipv6Case.DocumentationAddress` | MiniFtpServer/netutils.c:145-262 | 2001:DB8::1 and 2001:db8::1 are parsed as these words |
| `Ipv6Case.DottedTails` | MiniFtpServer/netutils.c:168-199 | "::ffff:", "::FFFF:" or "::" in front of the text of any four bytes is parsed as the sixteen bytes of the mapped or compatible address |
| `Ipv6Case.RefusedExamples` | MiniFtpServer/netutils.c:201-259 | a "0X" without a digit, a second "::" and too few groups are refused |
| `Ipv6Case.SmallXRefused` | MiniFtpServer/netutils.c:146-156 | a text with a small x is refused |
| `Ipv6Parse.RtcStrchr` | MiniFtpServer/netutils.c:6-15 | the first position holding one of the given characters, or none |
| `Ipv6Parse.InetPtonTail` | MiniFtpServer/netutils.c:168-199 | the dotted branch stores exactly the mapped or compatible address, or refuses and stores nothing |
| `Ipv6Parse.InetPtonGroups` | MiniFtpServer/netutils.c:201-261 | the cursor loop over the byte array computes the loop function |
| `Ipv6Parse.InetPtonV6` | MiniFtpServer/netutils.c:145-262 | accepts exactly the texts of the characterised parser, stores the sixteen bytes, and leaves the destination alone on refusal |
| `Ipv6Print.BlockIsLeftmostLongest` | MiniFtpServer/netutils.c:79-108 | the block chosen is a longest block of zero words and the first of that length (section 4.2.3 of RFC 5952) |
| `Ipv6Print.LeftmostLongestIsUnique` | MiniFtpServer/netutils.c:79-108 | there is only one such block |
| `Ipv6Print.MarkBlocks` | MiniFtpServer/netutils.c:74-93 | the first pass numbers the words of every zero block and finds the end and length of the best one |
| `Ipv6Print.KeepLongestBlock` | MiniFtpServer/netutils.c:95-108 | the second pass leaves exactly the best block marked, numbered from 1 |
| `Ipv6Print.MarkLongestBlock` | MiniFtpServer/netutils.c:74-108 | both passes together mark exactly the leftmost longest block |
| `Ipv6Print.PrintedFormIsValid` | MiniFtpServer/netutils.c:110-142 | what is printed is a form of the address in every case: no zero word, block at start, middle or end, all zeros, both dotted tails |
| `Ipv6Print.RoundTrip` | MiniFtpServer/netutils.c:69-262 | for every address the parser returns the address from the printed text |
| `Ipv6Print.RoundTripBytes` | MiniFtpServer/netutils.c:69-262 | the same for the sixteen bytes in memory |
| `Ipv6Print.PrintedTextIsInjective` | MiniFtpServer/netutils.c:69-143 | different addresses print differently |
| `Ipv6Print.EmittedIsPrinted` | MiniFtpServer/netutils.c:125-142 | the word loop with its separators and its jump over the block emits exactly the printed form |
| `Ipv6Print.WriteWords` | MiniFtpServer/netutils.c:125-142 | the loop writes that text into the buffer in place, with every remaining size positive |
| `Ipv6Print.WriteTail` | MiniFtpServer/netutils.c:114-124 | the dotted branch writes the text with prefix and tail in place |
| `Ipv6Print.InetNtopV6` | MiniFtpServer/netutils.c:69-144 | for every INET6_ADDRSTRLEN of at least 46: refuses exactly a smaller size; else the whole buffer state: text, the byte behind it, the rest unchanged |
| `Ipv6Print.PrintedLength` | MiniFtpServer/netutils.c:110-143 | the text has at most 39 characters |
| `Ipv6Print.OneDoubleColon` | MiniFtpServer/netutils.c:95-141 | "::" stands nowhere when no word is zero, and else at exactly one place |
| `Ipv6Print.DottedExactly` | MiniFtpServer/netutils.c:110-113 | a dot is printed if and only if the first five words are zero and the sixth is 0xFFFF, or zero with a seventh that is not |
| `Ipv6Print.DottedPrinted` | MiniFtpServer/netutils.c:114-124 | these addresses print as "::" or "::ffff:" and their last four bytes in order |
| `Ipv6Print.DocumentationText` | MiniFtpServer/netutils.c:125-142 | 2001:db8:0:0:1:0:0:1 prints as 2001:db8::1:0:0:1 (section 4.2.3 of RFC 5952) |
| `Ipv6Print.TerminatedExactly` | MiniFtpServer/netutils.c:127-142 | a NUL follows the text if and only if the block does not end the address or the buffer held a NUL there |
| `Ipv6Print.NotTerminated` | MiniFtpServer/netutils.c:135-141 | the address 1:: in a buffer of other characters gets no NUL |
| `Ipv6Print.BufferRoundTrip` | MiniFtpServer/netutils.c:69-262 | the C string in the buffer is the printed text, and is parsed as the address, unless the block ends the address and the buffer held no NUL there, when the old content up to its next NUL continues the text |
| `Ipv6Print.ReadAsOther` | MiniFtpServer/netutils.c:135-141 | 1:: printed in front of an old "5" and NUL is read back as the address 1::5 |
| `HashTable.RemoveNewest` | MiniFtpServer/hash.c:75-97 | taking the newest entry of a key out of a bucket pops that key's stack and no other, even in the same bucket |
| `HashTable.ReplaceNewest` | MiniFtpServer/ftp_assist.c:36-43 | overwriting through the looked-up pointer changes the top of that key's stack only |
| `HashTable.NewestIsTop` | MiniFtpServer/hash.c:124-138 | the first node of the chain with the key holds the newest value not yet freed |
| `HashTable.Hash.constructor` | MiniFtpServer/hash.c:11-24 | an allocated table is valid and empty |
| `HashTable.Hash.GetNodeByKey` | MiniFtpServer/hash.c:124-138 | the chain walk ends at the newest entry of the key or at the end |
| `HashTable.Hash.LookupValueByKey` | MiniFtpServer/hash.c:26-39 | none exactly when the key has no value; else the newest value |
| `HashTable.Hash.PushFront` | MiniFtpServer/hash.c:60-71 | relinking at the head keeps all chains linked both ways and in their buckets |
| `HashTable.Hash.AddEntry` | MiniFtpServer/hash.c:41-73 | pushes the value on the key's stack; every other stack is unchanged |
| `HashTable.Hash.Acyclic` | MiniFtpServer/hash.c:60-71 | in a linked chain no node stands at two places |
| `HashTable.Hash.Unlink` | MiniFtpServer/hash.c:85-95 | the pointer changes around a node leave the chain without that node linked |
| `HashTable.Hash.FreeEntry` | MiniFtpServer/hash.c:75-97 | pops the key's stack, changes no other key, and removes exactly one node from the chains |
| `HashTable.Hash.StoreValue` | MiniFtpServer/ftp_assist.c:36-43 | the write through the pointer keeps the table valid and replaces the newest value |
| `HashTable.Hash.ClearBucket` | MiniFtpServer/hash.c:140-154 | frees each node of the bucket exactly once and empties it |
| `HashTable.Hash.ClearEntry` | MiniFtpServer/hash.c:99-107 | afterwards no key has a value |
| `ClientLimits.NoWrap` | MiniFtpServer/ftp_assist.c:57-62 | before an accept there are at most as many live children as pids, so neither counter wraps at 32 bits |
| `ClientLimits.ReapAsserts` | MiniFtpServer/main-org.c:24-44 | both assertions of the handler hold if and only if the reaped child is recorded and live; otherwise it is the first lookup that finds nothing |
| `ClientLimits.NextKeeps` | MiniFtpServer/main-org.c:65-101 | every accept, record, check and reap keeps counters, tables and snapshots consistent |
| `ClientLimits.CountersAgree` | MiniFtpServer/main-org.c:24-101 | over every run the client count is the recorded live children plus the pending one, each address counter its live sessions, and the assertions hold for a pid if and only if it is a recorded live child |
| `ClientLimits.EarlyExitFails` | MiniFtpServer/main-org.c:80-101 | in every reachable state a child reaped before its pid is recorded fails an assertion |
| `ClientLimits.EarlyExitInstance` | MiniFtpServer/main-org.c:80-101 | after the first accept that is so for every pid |
| `ClientLimits.PassedWithin` | MiniFtpServer/main.c:55-72 | the newest session that passed bounds, by the counts copied at its acceptance, all that passed before and still live |
| `ClientLimits.LimitsHold` | MiniFtpServer/main.c:55-72 | over every run the live sessions that passed number at most max_clients in all and max_per_ip per address, when nonzero |
| `ClientLimits.RoomMeansPass` | MiniFtpServer/ftp_assist.c:57-62 | in every reachable state the counts copied at acceptance are exact, and the check of them passes if and only if there was room |
| `ClientLimits.VerdictExactly` | MiniFtpServer/main.c:55-72 | in every reachable state the check records a pass if and only if neither copied count is above its limit, else a refusal, and changes nothing else |
| `ClientLimits.RoomMeansVerdict` | MiniFtpServer/main.c:55-72 | a session for which there was room at its acceptance passes its check, whatever happens in between, and one without room is refused |
| `ClientLimits.AcceptAdds` | MiniFtpServer/ftp_assist.c:57-62 | an accept adds one pending session and one client, and no pid becomes live |
| `ClientLimits.RecordMakesLive` | MiniFtpServer/ftp_assist.c:64-67 | recording a pid makes exactly the pending session live under it |
| `ClientLimits.ReapRemoves` | MiniFtpServer/main-org.c:31-42 | a reap takes away exactly one session and one client, and the pid is no longer live |
| `ClientAccounting.Server.constructor` | MiniFtpServer/ftp_assist.c:47-51 | the two tables stand for the initial state |
| `ClientAccounting.Server.AddIpToHash` | MiniFtpServer/ftp_assist.c:27-44 | the address counter is created at 1 or incremented, and returned |
| `ClientAccounting.Server.AddClientsToHash` | MiniFtpServer/ftp_assist.c:57-62 | takes the accept step of the machine and copies both counts into the session |
| `ClientAccounting.Server.AddTidIpToHash` | MiniFtpServer/ftp_assist.c:64-67 | takes the record step |
| `ClientAccounting.Server.LimitNumClients` | MiniFtpServer/main.c:55-72 | takes the check step; no refusal if and only if neither count is above its limit, else the reply for the first limit exceeded |
| `ClientAccounting.Server.ReapChild` | MiniFtpServer/main-org.c:31-42 | for every pid: the assertions hold exactly for the recorded live children, and then it takes the reap step |
| `ClientAccounting.Server.HandleSigchld` | MiniFtpServer/main-org.c:24-44 | for all reported children: the loop ends without a failed assertion if and only if their reaps are a run of the machine, and then it has taken that run |
| `PrivFrames.DecodeEncode` | MiniFtpServer/priv_sock.c:155-176 | an integer that fits its frame is read back from its bytes |
| `PrivFrames.PortArgument` | MiniFtpServer/command_map.c:233-260 | a list of six numbers up to 255 is converted to the address h1.h2.h3.h4 and the port p1*256+p2 (section 4.1.2 of RFC 959) |
| `PrivFrames.TooFewNumbers` | MiniFtpServer/command_map.c:237-256 | fewer than six numbers are refused |
| `PrivFrames.PortExample` | MiniFtpServer/command_map.c:235-249 | "192,168,44,1,200,174" is 192.168.44.1, port 51374 |
| `PrivFrames.DottedThroughBuffer` | MiniFtpServer/priv_command.c:9-27 | the address text fits the 16-byte buffer with its NUL and is reparsed as the same address |
| `PrivInvariant.ConnectServed` | MiniFtpServer/priv_command.c:7-45 | acting on the frames of a PORT request, the nobody side makes one connection, to exactly the address and port sent, or stops; `PrivProgress.ConnectRuns` says that with a socket that connects it does not stop |
| `PrivInvariant.ItemRead` | MiniFtpServer/priv_sock.c:195-218 | a completed read on the nobody side yields exactly the frame that was sent |
| `PrivInvariant.ReplyRead` | MiniFtpServer/priv_sock.c:143-176 | a completed read on the protocol side yields exactly the reply that was sent |
| `PrivInvariant.NextKeeps` | MiniFtpServer/ftp_nobody.c:7-42 | every step of either thread keeps the invariant of the channel |
| `PrivRuns.EveryReadMatches` | MiniFtpServer/priv_command.c:7-106 | in every interleaving and fragmentation each read takes the bytes of the matching write; between requests both queues are empty |
| `PrivRuns.NeverBothWaiting` | MiniFtpServer/trans_data.c:639-685 | inside a request some thread can always move |
| `PrivRuns.RequestsEnd` | MiniFtpServer/trans_data.c:486-511 | from any reachable state at most 121 reads and writes follow one another, and when none is possible any more the session is between requests or an operation has failed |
| `PrivRuns.GrantsAreRight` | MiniFtpServer/trans_data.c:486-511 | over every run each attempt was granted exactly when one of PORT and PASV was active and not the other, with the handle the nobody side obtained; a grant leaves none active, a refusal leaves both as they were; never more grants than successful commands; the announced port is the one listened on |
| `PrivRuns.TransferOutcome` | MiniFtpServer/trans_data.c:486-511 | from any reachable state the next transfer is granted if and only if exactly one of the modes is active, and what it leaves active |
| `PrivRuns.PortGrantsConnect` | MiniFtpServer/priv_command.c:7-45 | over every run a connection granted for PORT went to the address and port that the last PORT command named |
| `PrivRuns.BothForever` | MiniFtpServer/trans_data.c:496-500 | once both modes are active they stay so in every continuation and no transfer is granted |
| `PrivRuns.PasvAfterPort` | MiniFtpServer/command_map.c:262-300 | a PASV that completes while PORT is active leaves both active |
| `PrivRuns.PortThenPasv` | MiniFtpServer/command_map.c:233-300 | PORT and then PASV from the start reaches such a state, for any argument, socket and port |
| `PrivRuns.PortCommandSets` | MiniFtpServer/command_map.c:233-260 | a PORT command with six numbers up to 255 sets exactly the address it names |
| `PrivRuns.BadPortKeeps` | MiniFtpServer/command_map.c:253-256 | a PORT command without six numbers changes nothing |
| `PrivRuns.ConnectsOnly` | MiniFtpServer/priv_command.c:25-37 | the nobody side connects for PORT requests only, once each, and to the address of the request |
| `PrivRuns.RequestBytes` | MiniFtpServer/priv_sock.h:12-15 | the frames of each request: command byte, text length, text and port |
| `PrivProgress.SmoothRuns` | MiniFtpServer/priv_command.c:7-106 | no read or write stops a thread when the sockets do what they are asked for |
| `PrivProgress.TransferGranted` | MiniFtpServer/trans_data.c:486-511 | from every reachable state with exactly one mode active, with such sockets, the transfer ends with no thread stopped and a connection granted: to the address of the PORT command or the accepted one, by the handle of the sockets |
| `PrivProgress.PasvAnnounced` | MiniFtpServer/command_map.c:262-300 | likewise a PASV ends with the sockets listening and their port announced |
| `PrivProgress.SomeTransfer` | MiniFtpServer/trans_data.c:486-511 | such a transfer exists from every such state and for every handle |
| `PrivProgress.PortTransfer` | MiniFtpServer/trans_data.c:650-667 | PORT and a transfer from the start: granted by a connection to the address of the argument |
| `PrivProgress.PasvTransfer` | MiniFtpServer/trans_data.c:669-685 | PASV and a transfer from the start: the port announced, and the accepted connection granted |
| `ByteStream.Readn` | MiniFtpServer/sysutil.c:374-405 | exactly n bytes, or all that is left at the end of the stream, under every fragmentation and interruption; after a failure fewer than n are consumed |
| `ByteStream.Writen` | MiniFtpServer/sysutil.c:409-440 | all of the data, or -1 with a proper front part written |
| `ByteStream.RecvPeek` | MiniFtpServer/sysutil.c:441-465 | peeks some bytes and consumes none |
| `ByteStream.ReadByByteIs` | MiniFtpServer/sysutil.c:467-514 | what a byte-at-a-time reader returns, by the place of the first newline |
| `ByteStream.Readline` | MiniFtpServer/sysutil.c:467-514 | for every fragmentation, text, consumption and rest are those of the byte-at-a-time reader; after a failed read only a proper front part of the line is consumed |
| `CommandReader.TrimCrlf` | MiniFtpServer/strutil.c:4-9 | removes exactly the CR and LF characters at the end, in place |
| `CommandReader.StrSplit` | MiniFtpServer/strutil.c:11-21 | the raw bytes both copies leave, with no NUL behind the left part |
| `CommandReader.StrUpper` | MiniFtpServer/strutil.c:34-41 | upper-cases the string in place |
| `CommandReader.UpperTable` | MiniFtpServer/strutil.c:34-41 | each small letter becomes the capital of the same place; `UpperKeeps`: no other character changes |
| `CommandReader.SplitNeedsReset` | MiniFtpServer/session.c:59-67 | the verb is a string of its own if and only if the buffer held a NUL where it ends |
| `CommandReader.ParseCommand` | MiniFtpServer/ftp_proto.c:41-43 | on zeroed buffers, trim, split and upper leave the verb and arguments of the line |
| `CommandReader.HandleProto` | MiniFtpServer/ftp_proto.c:9-58 | under every fragmentation the dispatched commands and the end of the loop are those of the stream; when a read fails, those dispatched are its first commands; no verb holds a small letter |
| `CommandReader.ParseLineOf` | MiniFtpServer/strutil.c:4-42 | a printed line parses to its upper-cased verb and its arguments |
| `CommandReader.PrintedCommands` | MiniFtpServer/ftp_proto.c:13-43 | any list of commands printed as CR LF lines is read back as the same list, up to and including the first command that ends the session (section 5.3.1 of RFC 959) |
| `CommandReader.TypedExample` | MiniFtpServer/ftp_proto.c:13-43 | "retr a b" and "Quit" are dispatched as RETR with "a b" and QUIT, and what follows is not read |
| `CommandReader.LongLine` | MiniFtpServer/ftp_proto.c:17-17 | a line longer than the buffer is taken in pieces of 1023 characters |
| `CommandReader.EmptyLineEnds` | MiniFtpServer/strutil.c:4-9 | a line of CR LF alone ends the loop with its own outcome |
| `Transfer.RestArgument` | MiniFtpServer/command_map.c:368-370 | a position printed in decimal, negative ones too, is read back as that position |
| `Transfer.Session.DoRest` | MiniFtpServer/command_map.c:368-376 | a printed position becomes the restart position, any other text the number at its front or 0, and the reply names it |
| `Transfer.Session.UploadFile` | MiniFtpServer/trans_data.c:365-441 | in terms of the arrivals: complete if and only if none is an ABOR, a failed read or a short write, else the outcome of the first such one; the file holds exactly the bytes before it, in the way of STOR, REST and STOR, or APPE; and the reply code of each outcome |
| `Transfer.OverlayByte` | MiniFtpServer/trans_data.c:365-388 | each byte of a file after a write: new data, old content, or zero in a gap |
| `Transfer.UploadInstance` | MiniFtpServer/trans_data.c:415-436 | a connection that fails after three bytes: they are stored, and the outcome is a network failure |
| `Transfer.ChunksDoNotMatter` | MiniFtpServer/trans_data.c:398-441 | any cutting of the data stream stores the same bytes |
| `Transfer.PiecesAreOneStore` | MiniFtpServer/trans_data.c:365-388 | where the file is cut, a STOR and any later pieces by REST and STOR or APPE leave the file of one uninterrupted STOR |
| `Transfer.UncutPiecesExactly` | MiniFtpServer/trans_data.c:365-388 | where it is not cut, the file is after every piece that of one STOR of the bytes so far, if and only if each APPE with data finds the file no longer than those bytes; so pieces by REST and STOR always do |
| `Transfer.UncutStore` | MiniFtpServer/trans_data.c:366-371 | without `ftruncate` a STOR leaves exactly its data if and only if the file was no longer |
| `Transfer.StickyRestart` | MiniFtpServer/command_map.c:368-376 | where the file is cut, a STOR without a new REST leaves exactly its data if and only if the position is still 0 |
| `Transfer.UncutStickyRestart` | MiniFtpServer/trans_data.c:365-388 | where it is not cut: if and only if the position is 0 and the file was no longer, or both file and data are empty |
| `Transfer.SendFileBlock` | MiniFtpServer/trans_data.c:12-28 | sends whole 4096-byte reads until the block is covered or the file ends |
| `Transfer.DownloadFile` | MiniFtpServer/trans_data.c:248-305 | ends having sent exactly the file from the restart position on, nothing when that is behind the end |
| `Transfer.ContiguousTiles` | MiniFtpServer/trans_data.c:171-193 | contiguous ranges hold every offset between their ends exactly once and no other |
| `Transfer.FakeDownloadFile` | MiniFtpServer/trans_data.c:154-195 | the ranges follow one another from the restart position, each what the callback reported for a block of at most 65536 bytes; they total the reported size on completion, and the outcome is that of the first error or ABOR reached |
| `Transfer.FakeCoversTheRest` | MiniFtpServer/trans_data.c:154-193 | they hold exactly the rest of the file if and only if the position is 0 or the file is empty |
| `Throttle.Session.LimitCurrRate` | MiniFtpServer/trans_data.c:46-95 | asks to sleep exactly the bytes over the limit less the measured time when that is positive, never without a limit, and restarts the clock unless a sleep is needed and fails |
| `Throttle.SleepBringsToLimit` | MiniFtpServer/trans_data.c:51-89 | whenever it sleeps, the block's measured rate comes out exactly at the limit; else it was within |
| `Throttle.TotalWithinLimit` | MiniFtpServer/trans_data.c:46-95 | over any blocks the bytes are at most the limit times elapsed plus slept time plus a millisecond a block |
| `Throttle.TotalWithinClock` | MiniFtpServer/trans_data.c:46-95 | when the clock sees the sleeps, elapsed time and the milliseconds alone bound the bytes |
| `CVector.NextKeeps` | MiniFtpServer/cvector.c:58-105 | one operation pays for its reallocation out of the potential and adds at most 2 |
| `CVector.AmortizedBound` | MiniFtpServer/cvector.c:58-105 | over any n operations reallocation moves at most 2n elements; capacity is 256 times a power of two, at most 512 or below four times the length |
| `CVector.CapacityRule` | MiniFtpServer/cvector.c:58-105 | in numbers: doubled when full, halved when at least 1024 and at most a quarter is used |
| `CVector.Vector.constructor` | MiniFtpServer/cvector.c:24-43 | an empty vector of capacity 256 |
| `CVector.Vector.PushBack` | MiniFtpServer/cvector.c:58-79 | appends, with capacity and cost of the shape function |
| `CVector.Vector.PopBack` | MiniFtpServer/cvector.c:81-105 | removes and returns the last element, or reports an empty vector |
| `CVector.Vector.RemoveAt` | MiniFtpServer/cvector.c:222-260 | removes exactly the element at the index, or reports an index out of range; the copy stays inside the buffer if and only if the index is out of range or the vector is not full |

## Left out

- Address family dispatch and null pointers (`win32_inet_ntop`, `win32_inet_pton`): a switch with no property of its own.
- `sscanf`, `strtol` and `atoll` on numbers that do not fit their type: read to their exact value. `inet_addr` is modelled as dotted decimal text.
- Socket creation, bind, listen, connect, accept and select: outcomes of steps, chosen freely.
- The channel handlers of `priv_command.c`, `priv_sock.c`, `ftp_nobody.c`, `trans_data.c` and `command_map.c` are steps on values, so that both threads can interleave; update in place and the sharing of one session record between the threads are not captured. Each field is used by one thread.
- Numbers beyond 32 bits in a PORT argument: each number is cut to a byte as in the source, without the overflow of the conversion itself.
- `Transfer.Session.UploadFile`: the POSIX branch reads into `buf`, which trans_data.c does not declare, and writes `receiver_buffer` (`MiniFtpServer/trans_data.c:401`, `MiniFtpServer/trans_data.c:433`); the model takes both for one buffer.
- What the two threads do after a failed operation of the private channel: the source only notes it and goes on, which it says is not meant.
- Waiting forever in a retry loop: interruptions and empty writes are finite in number.
- A line of nothing but line breaks makes `str_trim_crlf` leave its buffer; the command loop of the model ends there with its own outcome.
- The dispatcher `do_command_map`: a parameter that says which commands end the session.
- Integer overflow of transfer sizes at 2^63, of the rate limits and of the vector's capacity, and running out of memory.
- `download_file` with ABOR or a failing connection, and file locks: the contract of `Transfer.DownloadFile` is about an open file and a connection that accepts all it is given.
- Sleeping and clock reading inside the transfer loops: the rate limit is modelled as calls with the clock's values. `Throttle.TotalWithinLimit` and `Throttle.TotalWithinClock` are about sleeps that succeed.
- `ClientAccounting.Server.LimitNumClients`: that `session_thread` goes on with a refused session, which the reply contradicts.
- `cvector_insert`, `cvector_insert_at`: not used by the server.
- Threads, critical sections and the session list (`session_manager.c`, `trans_ctrl.c`), directory listings, login and file commands, configuration: library calls with fixed replies.

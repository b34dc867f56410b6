# A verified model of pso2-go

Dafny models of the parts of pso2-go that carry its data, and proofs about them: the PRS
decompressor, the text file reader and writer, the packet layer with the cipher-changing proxy,
the translation pipeline with its database, the worker pools, the buffered reader and the patch
lists. `dafny verify dfyconfig.toml` checks everything.

Code that changes state is modelled as a class whose methods change fields, with the loops of
the source, and each method is proved against a function or a relation on values; the theorems
are lemmas about those. Where the source is false of its own purpose on some input, the lemma
says exactly on which.

* **PRS** (`Prs*.dfy`). `PrsFormat` reads control bits and data bytes as tokens and expands them
  with unlimited history. `PrsLayout` lays tokens out and shows that reading is the inverse, in
  both directions. `PrsReader.Reader` is the machine of the source: a 512 KiB buffer slid down to
  8 KiB, arbitrary read sizes, sticky errors, zero padding, seeking by rewinding. `PrsContent` says
  what one call does to position and error, and `PrsRuns` shows that whole runs of calls cannot be
  told from a plain file of the content; `PrsOutput` says what that content is, byte by byte. No stream is assumed to be well formed: a reference to
  before the start of the output is an index out of range in the source, and the model says for
  which runs it happens.
* **Text files** (`Text*.dfy`). `TextFormat` and `TextArea` define the layout; `TextFiles.TextFile`
  has the loops of `parse` and `Write`; `TextReading` is the reading as functions, `TextPairing` the
  pairing state machine; `TextTheorems` has the round trip, canonical output and local editing, and
  `TextSharing` says which strings share a pointer. `TextBytes` says what stands where in a file and
  which files are read, and `TextNumbering` which entries are paired, told from the words alone.
* **Network** (`Net*.dfy`). `NetWire` is framing under a stream cipher, `NetConnection` the same
  over a stream that moves any number of bytes at a time, `NetRouting` the dispatch by priority,
  `NetBytes` both in bits and bytes, `NetProxy` and `NetSession` the handlers of the proxy, `NetKeys`
  the change of keys in terms of the bytes of a cipher packet, `NetTransparency` its runs, `NetPairing` the
  connection map over all interleavings of sessions.
* **Translation** (`Trans*.dfy`). `TransTables` has the tables and `Strip`, `TransImport` the
  import relation and the round trip, `TransDatabase` the methods of the database and the import
  loop, `TransPatch` the loop that applies a translation to a text file, down to the bytes, and
  `TransPipeline` all of it run one after the other.
* **Pools, buffers, lists**. `WorkerPool`, `BufferedReader`, `PatchLists`.

Inputs that the model takes as parameters: the bytes an underlying reader delivers, the RC4
keystream (a function of key and position), RSA (an opening and a sealing function, with the
inverse law stated where it is used), and the order in which equal priorities, goroutines and
database rows come.

## Model

| member | source | states |
|---|---|---|
| PrsFormat.NextToken | ice/prsreader.go:38-103 | scanning a token consumes at least one data byte and yields offsets in [-0x2000,-1] and sizes in 2..265 |
| PrsFormat.CopyOut | ice/prsreader.go:105-114 | a copy keeps the output and every byte it adds equals the byte at the offset before it, also inside the copy |
| PrsFormat.CopyIsPeriodic | ice/prsreader.go:105-114 | an overlapping copy repeats the last bytes periodically |
| PrsFormat.ExpandExtends | ice/prsreader.go:50-124 | what has been decompressed is never taken back |
| PrsLayout.EmitLength | ice/prsreader.go:38-48 | a control byte is placed only where a further control bit is needed |
| PrsLayout.LayoutReadsBack | ice/prsreader.go:38-103 | any layout, padded and followed by anything, reads back as its tokens up to the first one whose word is zero |
| PrsLayout.LayoutRoundTrip | ice/prsreader.go:38-103 | the round trip of tokens through the layout holds if and only if no token is the extended copy from 0x2000 back |
| PrsLayout.LayoutIsUnambiguous | ice/prsreader.go:38-103 | different token lists never share a layout, not even as a prefix |
| PrsLayout.TerminatedIsLayout | ice/prsreader.go:38-103 | conversely every terminated stream is the layout of its tokens, but for spare control bits and what follows |
| PrsOutput.StreamWrites | ice/prsreader.go:50-133 | for every stream, told from the values, offsets, sizes and places of its tokens: the output has their total length, each literal its value where it begins, each copied byte equals that `-offset` before it, and the first bad reference ends it |
| PrsOutput.LayoutWrites | ice/prsreader.go:50-133 | the same of the layout of any encodable tokens, which expands to its end if and only if all references are good |
| PrsOutput.LiteralsWrite | ice/prsreader.go:54-63 | a layout of literals expands to their values |
| PrsOutput.BitOrder | ice/prsreader.go:38-48 | the bits of a control byte are consumed from the lowest to the highest |
| PrsOutput.ContentBytes | ice/prsreader.go:146-202 | the content, byte by byte: the output, then zeros up to the size if the stream was terminated, and nothing more if not |
| PrsReader.Reader.constructor | ice/prsreader.go:243-245 | a fresh reader stands at position 0 without error, in step with the expansion of its input |
| PrsReader.Reader.ReadByte | ice/prsreader.go:29-36 | delivers the next byte, or reports the end of the data |
| PrsReader.Reader.ConsumeControlStream | ice/prsreader.go:38-48 | consumes the next control bit, lowest bit of a byte first, loading a control byte when none is left |
| PrsReader.Reader.QueueOutput | ice/prsreader.go:126-133 | appends to the history and keeps the window |
| PrsReader.Reader.FlushOutput | ice/prsreader.go:135-144 | sliding keeps pending output and every byte within 0x2000 back |
| PrsReader.Reader.CopyFromWindow | ice/prsreader.go:105-115 | copying from the window equals copying from the whole history; it runs out of range exactly when the reference precedes the output |
| PrsReader.Reader.ReadLongCopy | ice/prsreader.go:65-89 | reads the word and the optional size byte as the format says |
| PrsReader.Reader.ReadShortCopy | ice/prsreader.go:90-103 | a control bit that fails to load is still reported as the end of data |
| PrsReader.Reader.Decompress | ice/prsreader.go:50-124 | one step does to history, window and cursor what the unbounded decoder does |
| PrsReader.Reader.Decode | ice/prsreader.go:153-174 | the loop of a read stops with the buffer full, the content complete, or the stream exhausted, and terminates |
| PrsReader.Reader.Read | ice/prsreader.go:146-202 | delivers exactly the next bytes of the content, leaves the rest of the buffer alone, and moves position and sticky error as ReadStep says |
| PrsReader.Reader.Seek | ice/prsreader.go:204-237 | rewinds and reads forward to the state SeekStep says, and terminates |
| PrsContent.ForwardByReading | ice/prsreader.go:223-236 | reading part of the way towards a target neither changes where a seek ends nor how |
| PrsRuns.RunIsPlain | ice/prsreader.go:146-237 | any run of reads and seeks gives what a plain file of the content gives, and crashes if and only if a call asks for bytes behind a bad reference |
| PrsRuns.Perform | ice/prsreader.go:146-237 | any calls of Read and Seek on the machine are such a run: what it delivers and where it stands is what a plain file of the content gives |
| PrsRuns.ReadsDeliverContent | ice/prsreader.go:146-202 | reads of any sizes deliver the zero-padded, size-limited expansion as far as their sum |
| PrsRuns.ReadAsFresh | ice/prsreader.go:204-237 | after any run a read gives what it gives a fresh reader sought to the same position |
| PrsRuns.ReadErrors | ice/prsreader.go:176-201 | a read reports an error if and only if it delivers nothing, or too little of a content that ends before its size |
| PrsRuns.SeekLands | ice/prsreader.go:204-237 | seeking to a target from the start, the position or the end lands there without error if and only if the content reaches that far, however the stream ends |
| PrsRuns.PlainSeekLands | ice/prsreader.go:204-237 | on the plain file of the comparison the three kinds of seek lead to the same place, which is told from the target alone |
| TextFiles.TextFile.TracksDecides | text/textfile.go:208-223 | a reuse map as either pass keeps it reuses a string exactly if the last equal text has the same status, and then leads to its slot |
| TextArea.SlotHoldsText | text/textfile.go:207-225 | every slot is aligned and holds the text of its own entry in its own width, also for reused strings |
| TextArea.RelocatedTwice | text/textfile.go:247-250 | pointers do not depend on the words they replace: writing again leaves the entries alone |
| TextFiles.TextFile.PlaceStrings | text/textfile.go:199-226 | the sizing pass gives every text entry its slot and computes the sizes of words and strings |
| TextFiles.TextFile.EmitWords | text/textfile.go:247-253 | emits all words with the slots turned into pointers |
| TextFiles.TextFile.EmitStrings | text/textfile.go:255-283 | the emitting pass, with its own reuse map, emits exactly the area the sizing pass sized |
| TextFiles.TextFile.EmitString | text/textfile.go:262-280 | emits a text with terminator and padding in its width |
| TextFiles.TextFile.EmitOffsets | text/textfile.go:291-295 | emits where every entry starts |
| TextFiles.TextFile.Write | text/textfile.go:196-305 | the bytes are those of the container with its rounded chunks, and the entries are left with the written pointers |
| TextBytes.FileStands | text/textfile.go:233-305 | what stands at which byte of a written file: every number of the header, tags, sizes, words, strings, offsets, end, and zeros in between |
| TextBytes.EntryStands | text/textfile.go:247-295 | the words of each entry and its listed offset stand where they belong, and its pointer counts from byte 0x20 to the spelling of its text |
| TextBytes.SpellingBytes | text/textfile.go:255-283 | a spelling is the characters, a zero of their width, and the fewest zeros to a multiple of four |
| TextBytes.Utf16Spells | text/textfile.go:266-271 | every character of a string takes two bytes, the lower first |
| TextBytes.Utf8Spells | text/textfile.go:262-280 | the bytes of a character of an identifier, as lead byte and tails |
| TextFiles.TextFile.ReadChars | text/textfile.go:176-194 | reads characters of either width up to a zero or the end |
| TextFiles.TextFile.ReadSizes | text/textfile.go:105-120 | differences of the listed offsets, refused if one is no multiple of four |
| TextFiles.TextFile.ParseEntry | text/textfile.go:129-164 | one entry is read, and paired when an identifier waits for its string |
| TextFiles.TextFile.Parse | text/textfile.go:44-174 | the outcome on any bytes, with its errors and the crash on an empty entry, and the entries and pairs it leaves |
| TextNumbering.FilesReadByNumber | text/textfile.go:124-164 | told from the words alone: counting the texts of a run that 0xffffffff begins and 0x14 ends, numbers 2m and 2m + 1 are the identifiers and strings of exactly the pairs, in order, and texts outside of a run are identifiers |
| TextBytes.HeaderDecides | text/textfile.go:44-103 | by which bytes a file is refused before its entries are read, and with which error |
| TextBytes.OffsetsDecide | text/textfile.go:105-171 | by which listed offsets and end tag it is refused, crashes, is read, or lacks its end |
| TextBytes.ReadStringBytes | text/textfile.go:176-194 | a string is the characters of its width up to a zero or the end, the lower byte first, with surrogates replaced |
| TextRoundTrip.StringRoundTrip | text/textfile.go:176-194 | a spelt text reads back if and only if it is ASCII (identifiers) or BMP (strings) without zeros |
| TextRoundTrip.ContainerRead | text/textfile.go:233-305 | the header leads to the chunks, their sizes to the end tag, through the rounding |
| TextPairing.LengthsRead | text/textfile.go:287-295 | the listed offsets give back the number of words of every entry |
| TextPairing.RelocatedIsWellFormed | text/textfile.go:129-164 | writing keeps a file well formed, and makes no other file so |
| TextTheorems.PointerRead | text/textfile.go:145-150 | the pointer of a text entry leads the reader to its text, which reads back if and only if its width can hold it |
| TextTheorems.FileRoundTrip | text/textfile.go:44-305 | reading a written file gives its entries as Write left them, with text and status, and its pairs |
| TextTheorems.RoundTripExactly | text/textfile.go:44-305 | a file comes back from writing and reading if and only if it is well formed |
| TextTheorems.OutputIsCanonical | text/textfile.go:196-305 | writing what was read back gives byte-identical output |
| TextTheorems.EditIsLocal | text/textfile.go:129-164 | replacing any strings, writing and reading changes just those strings, even if they were shared |
| TextTheorems.ReadFilesAreWellFormed | text/textfile.go:124-164 | every file that reads without error is well formed, but for text words 0x14 and non-ASCII identifiers |
| TextSharing.SharedPointers | text/textfile.go:207-223 | for every file, two text entries are written with one pointer if and only if their texts are equal and no entry from the one to the other has that text in another status |
| NetWire.PacketRoundTrip | net/connection.go:49-118 | a packet is received as sent, with both ciphers in step, if and only if it has at most 0x04000000 bytes |
| NetWire.PacketsRoundTrip | net/connection.go:49-118 | any sequence of such packets arrives in order, and the keystreams end in step |
| NetWire.XorInParts | net/connection.go:62-87 | the keystream may be applied header first, body second |
| NetConnection.Connection.ReadPacket | net/connection.go:49-92 | reads what Receive says, however the stream cuts the bytes up |
| NetConnection.Connection.WritePacket | net/connection.go:94-118 | sends the encrypted frame however little is taken at a time, or a prefix of it when writing fails |
| NetBytes.FrameBytes | net/connection.go:97-101 | size, type and flags stand in the frame with their lowest bytes first, and the data behind them |
| NetBytes.SentBits | net/connection.go:103-105 | under a key a bit on the wire differs from that of the frame exactly where the keystream has it set |
| NetBytes.SentInTheClear | net/connection.go:103 | without a key the frame is sent as it is |
| NetBytes.CipherMovesOn | net/connection.go:103-105 | a packet moves the keystream on by its whole length |
| Bytes.XorIsBitwise | net/connection.go:103-105 | bit k of the exclusive-or is set if and only if bits k of the operands differ |
| NetBytes.ReceivedInTheClear | net/connection.go:49-92 | a stream in the clear, by its first bytes: refused for its size, cut short, or a packet with these fields |
| NetBytes.ReceivedUnderKey | net/connection.go:49-92 | a stream under a key is received as its decryption in the clear, and the cipher moves on by what was read |
| NetConnection.Connection.SetCipher | net/connection.go:37-47 | both directions start over under the key, or in the clear; an error exactly for keys of a length that RC4 refuses |
| NetRouting.PacketRoute.Route | net/routing.go:33-39 | registers after those there are, for its type only |
| NetRouting.PacketRoute.RouteMask | net/routing.go:41-43 | registers for the types that share a bit with the mask |
| NetRouting.PacketRoute.RoutePacket | net/routing.go:58-84 | calls the matching handlers in some order by priority up to the first that consumes or fails |
| NetRouting.HigherBeforeLower | net/routing.go:50-84 | however ties fall, all registrations of higher priority ran and none of lower |
| NetRouting.MatchesAllButZero | net/routing.go:61-65 | mask 0xffff matches every type but zero |
| NetBytes.CommonBitAt | net/routing.go:61-65 | a mask matches the types that have a set bit in common with it |
| NetProxy.SameSessionKey | net/proxy.go:290-310 | the server makes the same key out of the resealed packet |
| NetKeys.KeyIsSecondHalf | net/packets/cipher.go:16-40 | the key of a cipher packet is the second half of what its first 0x80 bytes, reversed, open to, if that has 0x20 bytes |
| NetKeys.KeyExchange | net/proxy.go:287-320 | routing a cipher packet whose secret opens to a + b leaves all four ciphers at the start of b, and sends the server, under the old cipher, the resealed secret reversed with the old padding |
| NetKeys.BadKeyEnds | net/proxy.go:290-305 | a cipher packet that is short, does not open or opens to another length ends the session, changing and sending nothing |
| NetKeys.PeerChangesKey | net/packets/cipher.go:25-40 | the peers of the proxy start over under the same half |
| NetKeys.OthersPass | net/proxy.go:326-333 | any other typed packet is sent on as it is, and one of type zero is dropped |
| NetProxy.RoutingIsProxyStep | net/handlers.go:21-50 | on the route of the block servers, every order the sort can leave does the same step |
| NetSession.ServerRoute | cmd/pso2-net/net.go:201-207 | the route as it is set up registers these handlers for every type |
| NetSession.Session.HandlePacket | net/proxy.go:287-333 | each handler writes under the old cipher and changes keys as the model says |
| NetSession.Session.RoutePackets | net/connection.go:120-138 | the loop over connections and handlers is the run that the theorems are about |
| NetTransparency.ProxyReadsClient | net/connection.go:120-138 | the proxy reads every packet under the cipher the client wrote it with, across key changes |
| NetTransparency.ServerReadsProxy | net/proxy.go:287-333 | the server reads every forwarded packet under the cipher the proxy wrote it with |
| NetTransparency.Transparency | net/proxy.go:287-333 | for every run the server receives what goes through, and both links end in step with the peers |
| NetTransparency.SequencePreserved | net/routing.go:58-84 | the packet sequence is preserved, cipher packets with the same key and padding, if and only if no type is zero |
| NetTransparency.EveryScheduleAgrees | net/proxy.go:61-77 | whatever the other direction and the sort do in between, the client's direction comes to the same |
| NetPairing.StepKeepsInvariant | net/proxy.go:61-98 | every step of any session keeps the map paired with exactly the live sessions |
| NetPairing.MapIsInvolution | net/proxy.go:71-93 | in every reachable state the map is an involution without fixed points |
| NetPairing.RunningHandlersHavePeers | net/proxy.go:61-105 | while a router of a session runs, Destination gives its own peer; after the session has returned, nothing |
| NetPairing.Proxy.Enter | net/proxy.go:71-74 | the first section under the lock is the step that registers a pair |
| NetPairing.Proxy.Leave | net/proxy.go:90-93 | the last one is the step that deletes it |
| NetPairing.Proxy.Destination | net/proxy.go:100-105 | looks the peer up in the map |
| TransTables.StripPreservesPatching | trans/db.go:453-463 | for every table content and translation, the archives, the files and the matched triples are the same after stripping |
| TransTables.StripIsIdempotent | trans/db.go:453-463 | stripping twice is stripping once |
| TransTables.StripLeaves | trans/db.go:453-463 | row by row: left are just the translated strings, with empty text and version 0, the files of those and their archives |
| TransDatabase.Database.Import | cmd/pso2-trans/trans.go:260-309 | the import loop with its collision counters fills originals, or translations of the pairs that differ |
| TransDatabase.Database.Strip | trans/db.go:453-463 | the statements in their order compute the stripped tables |
| TransDatabase.Database.QueryTriples | trans/db.go:445-451 | fetches each translated string of a file, in any order |
| TransImport.KeysDiffer | cmd/pso2-trans/trans.go:264-268 | no two pairs of a file have the same identifier and occurrence |
| TransImport.OccurrenceIs | cmd/pso2-trans/trans.go:264-266 | the number of a pair is how many pairs before it have its identifier |
| TransImport.OriginalsStep | cmd/pso2-trans/trans.go:268-308 | one original pair updates or inserts just its row and keeps the unique index |
| TransImport.VersionsStep | cmd/pso2-trans/trans.go:292-303 | new and changed rows get the version of the import, all others keep theirs |
| TransImport.TranslationStep | cmd/pso2-trans/trans.go:273-291 | one translated pair changes just the translation of its row, if it differs |
| TransImport.ImportThenApply | trans/cmd/trans.go:103-139 | a pair gets the string of its occurrence in the translated file if and only if no earlier translation of it is stale |
| TransImport.TranslationGoesStale | cmd/pso2-trans/trans.go:273-291 | such a translation exists: a pair that is no longer translated keeps its old translation |
| TransImport.FreshRoundTrip | trans/cmd/trans.go:103-139 | without earlier translations of the file the round trip holds for every pair |
| TransImport.WantedIs | trans/cmd/trans.go:103-139 | what the round trip gives, by counting: the string of the translated pair with the same identifier and as many of them before it, or the original |
| TransPatch.ApplyTranslation | trans/cmd/trans.go:117-139 | the loop with its collision counters replaces exactly the strings that are translated, and reports whether any changed |
| TransPatch.PatchedFileReadsTranslated | trans/cmd/trans.go:115-158 | the patched file, written and read, has the applied translation in every pair |
| TransPatch.TranslationReachesFile | trans/cmd/trans.go:89-159 | from two imported files to the bytes of the patched one: every pair has the string of the same translated occurrence |
| TransPipeline.TranslateFile | trans/cmd/trans.go:89-159 | two imports, the query, the patching loop and Write, run one after the other, make a file that reads with the string of the same translated occurrence in every pair |
| WorkerPool.StepKeepsInvariant | trans/cmd/trans.go:70-219 | every step keeps items, workers and reports accounted for |
| WorkerPool.ReturnedMeansFinished | trans/cmd/trans.go:212-223 | once the call has returned every item was handed to exactly one worker and all workers have finished |
| WorkerPool.PoolTerminates | trans/cmd/trans.go:70-219 | every run of either pool is bounded |
| WorkerPool.PatchingReturns | trans/cmd/trans.go:70-219 | a patching run that can go no further has returned if and only if there is a worker or nothing to do |
| WorkerPool.DownloadingReturns | download/cmd/download.go:341-411 | a downloading run that can go no further has returned unless all workers retired with items left |
| WorkerPool.DownloadingCanDeadlock | download/cmd/download.go:353-357 | with more items than workers such a deadlock is reachable |
| BufferedReader.BufReader.Read | util/bufreader.go:14-20 | delivers bytes of the file at the logical position and keeps it in step |
| BufferedReader.BufReader.Seek | util/bufreader.go:22-60 | moves as in the plain file if the target is not negative, and otherwise stays in step only if the file is at its start |
| BufferedReader.PlainSeek | util/bufreader.go:22-60 | where a seek leads from the start, the position and the end |
| BufferedReader.BufReader.Serve | util/bufreader.go:14-60 | all replies of any run of reads and seeks, up to the first seek to before the start, are those of the plain file, and the position stays in step |
| BufferedReader.BufReader.ServeReads | util/bufreader.go:14-20 | reads, however they are cut, deliver the file from where they start to where they end |
| BufferedReader.ReadsDeliverFile | util/bufreader.go:14-20 | however reads are cut, they deliver the file between where they start and end, and the rest of it when the end is met |
| PatchLists.PatchList.FillMap | download/patchlist.go:27-35 | the index says the last entry of every name |
| PatchLists.NameOfPath | download/patchlist.go:46-48 | the name of a path is what stands behind its last slash, slashes at its end left aside |
| PatchLists.NamelessPaths | download/patchlist.go:46-48 | the empty path has the name ".", and slashes only have "/" |
| PatchLists.LastIsLast | download/patchlist.go:27-35 | looking a name up finds the entry of that name behind which there is no other |
| PatchLists.PatchList.Diff | download/patchlist.go:66-84 | keeps the entries that the older index lacks or has otherwise |
| PatchLists.PatchList.MergeOld | download/patchlist.go:86-104 | appends the older entries whose names are new |
| PatchLists.ChangesInOrder | download/patchlist.go:66-84 | the differences are the entries that are missing or have another size or hash, in their order |
| PatchLists.OlderInOrder | download/patchlist.go:86-104 | a merge is the newer list, then the older entries with other names, in their order |
| PatchLists.DirectoriesDoNotMatter | download/patchlist.go:46-104 | files of one name in two directories are one entry of the index, of a merge and of a difference |
| PatchLists.MergeLookup | download/patchlist.go:86-104 | looking up in a merged list gives the newer last entry, else the older |
| PatchLists.DiffThenMerge | download/patchlist.go:66-104 | merging the differences over the older list brings a name up to date if and only if no earlier duplicate shadows it |
| PatchLists.ShadowedDuplicate | download/patchlist.go:66-104 | such a duplicate exists: two entries of one name, of which the older list has the second |
| PatchLists.DistinctDiffThenMerge | download/patchlist.go:66-104 | with distinct names it always does |
| PatchLists.PatchList.Append | download/patchlist.go:106-109 | adds the other entries behind its own and indexes them all |

## Left out

- Read errors of the underlying readers other than the end of data, and integer overflow of 64-bit positions.
- TextFiles.TextFile.Write: does not model files of 4 GiB and more, where the 32-bit sizes of the format wrap around.
- TextFiles.TextFile.Parse: readers without random access, which the source also moves while it reads a section; and the reading library, of which it is assumed that a failed 32-bit read yields zero and moves to the end.
- TextFiles.TextFile: entries that share one slice of words; entries are values here.
- NetConnection.Connection.SetCipher: says nothing about the ciphers after a key of a length that RC4 refuses, which the source holds but cannot use.
- PatchLists.PatchList.MergeOld: does not model that the merged list may share its array with the newer one, so that two merges from one list with room to spare can overwrite each other's entries; entries are sequences here.
- TransPipeline.TranslateFile: also writes a file without translated strings, which the source skips.
- NetSession.Session.RoutePackets: says nothing about the state after a write to the server has failed, when the session ends.
- The server's direction during a key change: which of its packets fall before the change depends on scheduling.
- The handlers that rewrite addresses, packet dumps, sockets, listeners, key files; RC4 and RSA themselves.
- TransDatabase.Database.Import: database errors, after which the source stops at the failing pair.
- The ICE archive container, the files around patching, and the progress bars and error lists of the pools.
- ice/prswriter.go, of which its own comment says that it is incorrect; the layout here is not a model of it.
- util/seeker.go, text/tagfile.go beyond TagRead, afp, ddraw.go, config.go, and the parsing and printing of patch lists.

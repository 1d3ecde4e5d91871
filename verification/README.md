# Verified models of the SuperNET sources

Dafny models of the algorithmic parts of this repository, with proofs of what those parts are for:

* **NXT addresses** (`Gf32`, `NxtCode`, `NxtAddress`, `NxtText`, `Digits`): the Reed-Solomon code over GF(32) of
  `NxtAddress`, from the log tables up to "one to four wrong symbols are noticed", and the decimal and
  text conversions around it.
* **Block database** (`BlockTree`, `BlockDb`, `BlockLocator`, `BlockLog`, `Wire`, `WireLayout`): the tree of blocks,
  its best tip, the reorganisation counters, block locators, and the append-only log with its message
  framing and block serialisation.
* **Merkle trees** (`Merkle`): the flat tree, branches and their check.
* **HTTP responses** (`HttpHeader`, `HttpHeaderLines`, `HttpBody`, `HttpResponse`): a header scanner and a
  chunked decoder that resume at arbitrary packet boundaries, and what they report of given header lines.
* **Hash table** (`LinkedChains`, `HashTable`): linked chains that are changed in place, with growth, as a
  refinement of a finite map.
* **Codecs** (`Base58`, `Base58Form`, `Crc32`, `MiniXml`, `XmlParser`, `Soap`, `SoapPrinter`): Base58 with and without
  checksum, the table-driven CRC-32, and SOAP arguments printed into a buffer and parsed back.
* **Message queue** (`MessageQueue`): a bounded ring between two threads, as a state machine over all
  interleavings.

`dafny verify dfyconfig.toml` checks the whole project. Code that changes state step by step is modelled by
methods with loops, on arrays or on the fields of a class; each is tied by its postcondition to a function
of the inputs or of the old state, and the theorems are about that function. The two division loops of
`NxtAddress` are one method, `Digits.ChangeBase`, with the two bases as parameters. `Common` and `Alphabets` hold
shared helpers.

Some statements that one might expect do not hold of the code as it stands. Each is replaced by the exact
condition under which it holds, with a counterexample:

* A mistyped address is refused unless the altered text is all digits and decimals are allowed, because
  such a text is read as an account number (`NxtAddress.TypoIsRejected`, `NxtAddress.DigitTypoIsAccepted`).
* Two transaction lists with the same Merkle root are equal only if they have the same length
  (`Merkle.RootIffSameLeaves`, `Merkle.DuplicateLastLeaf`).
* Records are written to the log before the block is checked. A replay therefore succeeds exactly if no
  block was refused, and gives the same contents exactly if nothing behind the first refused block was
  acceptable then (`BlockLog.ReplayRestores`, `BlockLog.ReplayAgrees`, `BlockLog.ChildIsLost`).
* What the HTTP headers say is independent of the body bytes received with them exactly if no blank
  Content-Length is the last thing in them (`HttpHeader.StableIffSettled`,
  `HttpHeaderLines.BlankLengthReadsBody`).
* A chunk extension is skipped wherever the packets are cut exactly if it has no hex digit, or the buffer for
  the digits is full (`HttpBody.SafeExtension`, `HttpBody.ExtensionDependsOnPackets`).
* A chunked response gives all of its data for every cut exactly if no smaller positive Content-Length is
  announced with it; byte by byte, exactly the announced length comes out
  (`HttpResponse.CompleteForEveryCut`, `HttpResponse.SlowResponse`).
* The 100-character margin of the SOAP printer keeps it inside its buffer for short arguments, not for all;
  `SoapPrinter.Overruns` is the exact condition (`SoapPrinter.PrintBody`, `SoapPrinter.ShortArgumentsFit`,
  `SoapPrinter.LongArgumentOverruns`).

Counting from zero, entry 11 + m of a block locator that started empty is at depth 9 + 2^(m+1).

## Model

| member | source | states |
|---|---|---|
| `Gf32.TableIsPolynomialProduct` | js/jay.ext.js:10 | multiplication through the log and antilog tables is carry-less multiplication modulo x^5+x^2+1, for all pairs |
| `Gf32.MulAssociates` | js/jay.ext.js:10 | the table product is associative |
| `Gf32.MulDistributes` | js/jay.ext.js:10 | the table product distributes over exclusive or, on both sides |
| `Gf32.MulNonzero` | js/jay.ext.js:10 | no zero divisors: a product is 0 exactly if a factor is |
| `NxtCode.LowWeightVanishes` | js/jay.ext.js:10 | a word with at most m non-zero symbols whose syndromes 1..m vanish is the zero word |
| `NxtCode.MinimumDistance` | js/jay.ext.js:10 | two words that `ok` accepts are equal or differ in at least five symbols |
| `NxtCode.SwapIsDetected` | js/jay.ext.js:10 | exchanging any two unequal symbols of an accepted word gives a word that `ok` refuses |
| `NxtCode.ShiftInvariant` | js/jay.ext.js:10 | one step of the shift register multiplies its polynomial by x and adds x^4 times the symbol, at every root of the generator |
| `NxtCode.RunInvariant` | js/jay.ext.js:10 | the encoder's loop invariant: the register is x^4 times the message read so far, at every root |
| `NxtCode.RootsOfGenerator` | js/jay.ext.js:10 | the coefficients 17, 9, 6, 30 belong to the polynomial whose roots are the four powers that `ok` evaluates |
| `NxtCode.EncodeIsCodeword` | js/jay.ext.js:10 | whatever the 13 message symbols, the encoder's parity makes all four syndromes zero |
| `NxtCode.CodewordIffEncoded` | js/jay.ext.js:10 | `ok` accepts a word exactly if its parity symbols are those the encoder computes |
| `Digits.LongDivide` | js/jay.ext.js:10 | one pass of the in-place division leaves the quotient's digits without leading zeros and returns the remainder |
| `Digits.ChangeBase` | js/jay.ext.js:10 | repeated division gives the numeral of the same number in the other base, and stops |
| `Digits.ToDigitsOfValue` | js/jay.ext.js:10 | digit sequences without a leading zero correspond one to one to numbers |
| `NxtAddress.AcceptedFits` | js/jay.ext.js:10 | every decimal that `set` accepts fits into 13 symbols |
| `NxtAddress.DecimalRoundTrip` | js/jay.ext.js:10 | the account number in the encoded word is the decimal that was set, for every accepted decimal |
| `NxtAddress.CanonicalDecimal` | js/jay.ext.js:10 | a decimal without leading zeros is what `account_id` prints for its number |
| `NxtAddress.TextSymbols` | js/jay.ext.js:10 | the symbols found in a printed address are the word in printing order |
| `NxtAddress.TextRoundTrip` | js/jay.ext.js:10 | `set` on the text of an accepted word restores the same 17 symbols |
| `NxtAddress.AcceptedIsCodeword` | js/jay.ext.js:10 | whatever `set` accepts, decimal or symbols, satisfies `ok` |
| `NxtAddress.PermuteKeepsDistance` | js/jay.ext.js:10 | the printing permutation keeps the number of differing symbols |
| `NxtAddress.TypoIsRejected` | js/jay.ext.js:10 | an accepted address with 1 to 4 symbols altered is refused, if and only if the altered text is not taken as a decimal |
| `NxtAddress.DigitTypoIsAccepted` | js/jay.ext.js:10 | a concrete address and a one-symbol change of it that is read as an account number |
| `NxtText.WordLayout` | js/jay.ext.js:10 | the printed form of any word, group by group, with the symbols 3 2 1 0, 7 6 5 4, 13 14 15 16 and 12 8 9 10 11 |
| `NxtText.AddressLayout` | js/jay.ext.js:10 | the printed address of every account number: letters of its base-32 digits 3 2 1 0, then 7 6 5 4, the four parity symbols, then digits 12 8 9 10 11, with dashes between |
| `NxtText.ReadInAnyCase` | js/jay.ext.js:10 | `set` reads a printed address in small letters or capitals and inside white space |
| `NxtText.AcceptedIff` | js/jay.ext.js:10 | a decimal of 1 to 20 digits is accepted exactly if it has fewer than 20 or lies from 10^19 to below 2 * 10^19 |
| `NxtText.EveryNumberIsAccepted` | js/jay.ext.js:10 | every number below 2 * 10^19 is read in its usual notation and stored encoded |
| `NxtAddress.Address.FillParity` | js/jay.ext.js:10 | the shift-register loop overwrites the last four symbols with the parity of the first 13 |
| `NxtAddress.Address.Ok` | js/jay.ext.js:10 | the nested loops return true exactly for words with four zero syndromes, and store the syndromes in `h` |
| `NxtAddress.Address.SetDecimal` | js/jay.ext.js:10 | refuses exactly the 20-digit numbers that do not start with 1, otherwise stores the encoded number |
| `NxtAddress.Address.AccountId` | js/jay.ext.js:10 | the canonical decimal of the number in the first 13 symbols |
| `NxtAddress.Address.ToString` | js/jay.ext.js:10 | the permuted symbols in dashed groups behind "NXT-" |
| `NxtAddress.Address.Set` | js/jay.ext.js:10 | true exactly for texts with a reading, which is stored; otherwise all symbols are 1 |
| `NxtAddress.SetThenAccountId` | js/jay.ext.js:10 | after setting an accepted decimal the word satisfies `ok` and `account_id` returns the number in canonical form |
| `NxtAddress.PrintThenSet` | js/jay.ext.js:10 | printing one address and setting another from the text copies every symbol |
| `BlockTree.ConnectKeepsInv` | picocoin/blkdb.c:67-161 | every connect, accepted or refused, keeps: one root, height and work summed from the parent, best tip the first-inserted block of maximal work |
| `BlockTree.RunKeepsInv` | picocoin/blkdb.c:67-161 | the same for every sequence of connects from an empty database |
| `BlockTree.InvGivesTree` | picocoin/blkdb.c:84-107 | the map is a tree: every block but the root has its parent in the map, one lower |
| `BlockTree.BackProperties` | picocoin/blkdb.c:84-107 | k steps back from a block exist exactly while k is at most its height, and lead to a block k lower |
| `BlockDb.MeetingPoint` | picocoin/blkdb.c:116-150 | where the two walks first meet is the lowest common ancestor |
| `BlockDb.CountConnected` | picocoin/blkdb.c:122-127 | from a first block all of its chain is counted |
| `BlockDb.CountReorg` | picocoin/blkdb.c:127-150 | the three loops count the steps from the new and the old tip to their lowest common ancestor; the counts differ by the height difference |
| `BlockDb.BlkDb.constructor` | picocoin/blkdb.c:51-65 | an empty database without a log |
| `BlockDb.BlkDb.ConnectBlock` | picocoin/blkdb.c:67-161 | accepted exactly if new and either the expected first block or a child of a known one; a refused block changes nothing; reorganisation counters are zero unless the tip moves and then count to the lowest common ancestor; the first block gives 1 and 0 |
| `BlockDb.BlkDb.AddBlock` | picocoin/blkdb.c:245-268 | the record is appended first, short writes included; only a complete one leads to a connect, whose counters are passed on |
| `BlockDb.BlkDb.Read` | picocoin/blkdb.c:221-243 | the loop over the file does what replaying the file means, up to the first damaged or refused record |
| `BlockDb.BlkDb.Locator` | picocoin/blkdb.c:278-296 | the walk from a block or the tip appends the entries and the genesis hash |
| `BlockDb.StepBack` | picocoin/blkdb.c:287-289 | the inner loop goes back by the stride or falls off the chain |
| `BlockDb.AddThenReplay` | picocoin/blkdb.c:221-268 | all blocks are added to one database, refused ones or not; a second one reading the log gets as far as the first refused block, succeeds exactly if there was none, and holds the same exactly if nothing behind it was acceptable then |
| `BlockLocator.EntriesFrom` | picocoin/blkdb.c:278-293 | from any point of the walk on, entry m exists exactly if the chain is Depth(m) deep and is the block at that depth |
| `BlockLocator.LocatorPositions` | picocoin/blkdb.c:278-296 | depths 0..11, then 9 + 2^(m+1); the length is logarithmic in the height; genesis is last |
| `BlockLocator.LocatorCoversFork` | picocoin/blkdb.c:278-296 | for a fork at depth d >= 1 the first entry at or below it is at most 2d deep, or genesis |
| `BlockLog.MessageRoundTrip` | picocoin/message.c:16-71 | a framed message is read back with command, data and the bytes after it |
| `BlockLog.MessageLayout` | picocoin/message.c:41-71 | where magic, command, length, checksum and data stand in a message |
| `BlockLog.ReadsExactlyMessages` | picocoin/mbr.c:54-95 | a message is read if and only if the file starts with one whose length, checksum and 100 MB limit are right; only an empty file is a clean end |
| `BlockLog.SmallBlockFits` | picocoin/core.c:297-325 | a block short enough for a record has 32-bit counts and lengths throughout |
| `BlockLog.RecordRoundTrip` | picocoin/blkdb.c:163-219 | the record of a block is parsed to the same hash, header and block |
| `BlockLog.RecordName` | picocoin/blkdb.c:210-219 | a record is a message called rec, padded with NUL |
| `BlockLog.ParsedIsHonest` | picocoin/blkdb.c:163-198 | a record is taken only if it is called rec and its key is the hash of its header |
| `BlockLog.RecordIsRead` | picocoin/mbr.c:54-95 | the next message of a log that starts with a record is that record, and the rest follows |
| `BlockLog.ReplayOfLog` | picocoin/blkdb.c:163-243 | replaying the log of a list of blocks equals connecting them up to the first refused one |
| `BlockLog.StoppedRun` | picocoin/blkdb.c:221-243 | connecting until the first refusal is the run over the blocks before it, complete exactly if none was refused |
| `BlockLog.AcceptedIffParentFirst` | picocoin/blkdb.c:67-107 | all of a list of blocks is accepted if and only if the genesis block comes first, every other block behind its parent and none twice, forks included |
| `BlockLog.RunStays` | picocoin/blkdb.c:67-161 | handing in more blocks leaves a database unchanged exactly if it accepts none of them |
| `BlockLog.ReplayRestores` | picocoin/blkdb.c:221-268 | the replay succeeds with the same map, heights, work and tip if and only if none was refused |
| `BlockLog.ReplayAgrees` | picocoin/blkdb.c:221-268 | the replayed contents are those of the stopped run, and equal the original's if and only if that database accepts none of the later blocks |
| `BlockLog.ReplayOfPrefix` | picocoin/blkdb.c:221-268 | the first k bytes of a log, for any k: the replay gives the run over the complete records, and succeeds exactly if none was refused and k is a record boundary |
| `BlockLog.ChildIsLost` | picocoin/blkdb.c:245-268 | a genesis block, an orphan and a child: the child is in the database and missing after the replay |
| `Wire.U32RoundTrip` | picocoin/serialize.c:27-31 | every 32-bit number is read back from its four bytes |
| `Wire.S64RoundTrip` | picocoin/serialize.c:33-37 | every signed 64-bit number is read back from its eight bytes |
| `Wire.VarlenRoundTrip` | picocoin/serialize.c:39-61 | every 32-bit length is read back from its one, three or five bytes |
| `WireLayout.VarlenIsShortest` | picocoin/serialize.c:39-61 | the form written is the shortest of those that are read as the same length |
| `WireLayout.VarlenForms` | picocoin/serialize.c:153-180 | the one-, three-, five- and nine-byte forms are read as the lengths they hold |
| `WireLayout.LittleEndianWrites` | picocoin/serialize.c:16-37 | byte i of a number is its i-th base-256 digit |
| `Wire.VarstrRoundTrip` | picocoin/serialize.c:71-80 | a string with its length is read back |
| `Wire.AllRoundTrip` | picocoin/core.c:248-295 | if single elements are read back, so is a list of them |
| `Wire.VectorRoundTrip` | picocoin/core.c:248-325 | a list with its count is read back |
| `Wire.OutpointRoundTrip` | picocoin/core.c:100-113 | an outpoint is read back |
| `Wire.TxInRoundTrip` | picocoin/core.c:121-136 | a transaction input is read back |
| `Wire.TxOutRoundTrip` | picocoin/core.c:182-195 | a transaction output is read back |
| `Wire.TxRoundTrip` | picocoin/core.c:248-325 | a transaction is read back, with whatever follows it left over |
| `WireLayout.OutpointLayout` | picocoin/core.c:109-113 | the bytes of an outpoint: hash, index |
| `WireLayout.TxInLayout` | picocoin/core.c:131-136 | the bytes of an input: hash, index, script behind its length, sequence number |
| `WireLayout.TxOutLayout` | picocoin/core.c:191-195 | the bytes of an output: value in two's complement, script behind its length |
| `WireLayout.TxLayout` | picocoin/core.c:297-325 | the bytes of a transaction: version, inputs behind their count, outputs behind theirs, lock time |
| `Wire.HeaderRoundTrip` | picocoin/core.c:431-480 | a block header is read back |
| `WireLayout.HeaderLayout` | picocoin/core.c:472-480 | the 80 bytes of a header: version at 0, parent at 4, root at 36, time at 68, bits at 72, nonce at 76 |
| `Wire.BlockRoundTrip` | picocoin/core.c:431-497 | a block is read back; a header-only block only where the buffer ends with it |
| `Wire.WriteAll` | picocoin/core.c:297-325 | the writing loops append the elements in order |
| `Wire.ReadAll` | picocoin/core.c:248-295 | the reading loops stop at the first element that cannot be read |
| `Wire.ReadTx` | picocoin/core.c:248-295 | the loops of the transaction reader compute the decoding that the round trip is about |
| `Wire.WriteTx` | picocoin/core.c:297-325 | the loops of the transaction writer append the encoding that the round trip is about |
| `Wire.ReadBlock` | picocoin/core.c:431-470 | the loop of the block reader computes that decoding |
| `Wire.WriteBlock` | picocoin/core.c:482-497 | the loop of the block writer appends that encoding |
| `Merkle.AppendLevel` | picocoin/block.c:104-117 | one pass appends the level above, a lone last node paired with itself |
| `Merkle.BlockMerkleTree` | picocoin/block.c:87-120 | the nested loops build all levels, leaves first; nothing for an empty block |
| `Merkle.BlockMerkle` | picocoin/block.c:122-136 | the recursive root, or zero for an empty block |
| `Merkle.BlockMerkleBranch` | picocoin/block.c:138-156 | walking the level offsets of the flat tree gives the recursive branch of the leaf |
| `Merkle.CheckMerkleBranch` | picocoin/block.c:158-177 | the loop folds the branch from the leaf, side by side according to the index bits |
| `Merkle.TreeEndsInRoot` | picocoin/block.c:87-136 | the last element of the flat tree is the recursive root |
| `Merkle.RootOfHalves` | picocoin/block.c:104-117 | the root over two lists of 2^k leaves is the hash of their roots, the first on the left |
| `Merkle.BranchLeadsToRoot` | picocoin/block.c:138-177 | folding the extracted branch from its leaf gives the root, for every index |
| `Merkle.RootFixesLeaves` | picocoin/block.c:104-117 | equally long lists with the same root are equal, if the pairs hashed in their two trees do not collide |
| `Merkle.BranchFixesLeaf` | picocoin/block.c:158-177 | a branch of the right length that leads from x as leaf i to the root starts at the i-th leaf and is the extracted branch |
| `Merkle.DuplicateLastLeaf` | picocoin/block.c:104-117 | repeating the last leaf of an odd list keeps the root, so lengths matter |
| `Merkle.RootIffSameLeaves` | picocoin/block.c:104-117 | with an injective pair hash: equal lists if and only if equal length and root |
| `HttpHeader.ScanEndIsStable` | miniupnpc/miniwget.c:105-126 | once found, the end of the headers stays where it is when more bytes arrive |
| `HttpHeader.EndOfPrefix` | miniupnpc/miniwget.c:105-128 | of a response cut anywhere, a prefix shows the end exactly if it contains it |
| `HttpHeaderLines.TextIsHeader` | miniupnpc/miniwget.c:105-126 | of lines closed by an empty one, with CR LF or LF throughout, the scan finds exactly the end |
| `HttpHeaderLines.FindEnd` | miniupnpc/miniwget.c:105-126 | the scanning loop returns the length of the header lines with their empty line, whatever follows |
| `HttpHeaderLines.HeaderMeaning` | miniupnpc/miniwget.c:130-171 | for every list of lines: chunked exactly if some line with a prefix of transfer-encoding for its name has a value starting with chunked, in either case; the length is the number at the last line with a prefix of content-length for its name, or -1 |
| `HttpHeaderLines.ParseHeaders` | miniupnpc/miniwget.c:130-171 | the loop with its three indices reports what the lines say |
| `HttpHeaderLines.AnnouncedLength` | miniupnpc/miniwget.c:149-152 | digits at the value of the last length line announce the number they write |
| `HttpHeaderLines.LengthLineAnnounces` | miniupnpc/miniwget.c:132-152 | Content-Length with a colon, any blanks or tabs and digits announces the number that the digits write |
| `HttpHeaderLines.ChunkedLineSaysSo` | miniupnpc/miniwget.c:155-163 | Transfer-Encoding with a colon, blanks and chunked makes the body chunked |
| `HttpHeaderLines.NumberOfSigned` | miniupnpc/miniwget.c:149-152 | white space is passed over before a number, and a sign counts |
| `HttpHeaderLines.BlankLengthReadsBody` | miniupnpc/miniwget.c:149-152 | headers with a blank length: 0 by themselves, 7 with the body byte 7 behind them |
| `HttpHeader.HeaderInfoIsStable` | miniupnpc/miniwget.c:130-175 | settled headers say the same however many body bytes came with them |
| `HttpHeader.StableIffSettled` | miniupnpc/miniwget.c:130-175 | they say the same for every body if and only if they are settled; otherwise one body byte changes the length |
| `HttpBody.ReadSizeLine` | miniupnpc/miniwget.c:186-220 | digits, extension and line break of a size line, complete or cut off by the packet |
| `HttpBody.HexTextIsRead` | miniupnpc/miniwget.c:204-213 | a number in hexadecimal notation, small letters or capitals, is read as that number |
| `HttpBody.DecodePacket` | miniupnpc/miniwget.c:181-248 | the chunk loop over one packet computes the turns that the theorems are about, and stops |
| `HttpBody.TurnAdvances` | miniupnpc/miniwget.c:184-248 | one turn, from any place of a well-formed stream and however short the packet, loses and adds no byte |
| `HttpBody.TurnsAdvance` | miniupnpc/miniwget.c:184-248 | the same for a whole packet |
| `HttpBody.SafeExtension` | miniupnpc/miniwget.c:194-202 | wherever a packet starts inside an extension the digits stay the same, if and only if it has no hex digit or 31 digits are already read |
| `HttpBody.ExtensionDependsOnPackets` | miniupnpc/miniwget.c:194-202 | for every other extension: cut before a hex digit of it, the line is read with that digit added to the size |
| `HttpResponse.ChunkedPart` | miniupnpc/miniwget.c:91-289 | a chunked response cut into packets anywhere and closed anywhere gives a prefix of the chunks' data; if all of it arrives, at least as much as a positive length announces |
| `HttpResponse.ChunkedResponse` | miniupnpc/miniwget.c:91-289 | every list of non-empty chunks with extensions, cut into packets anywhere, headers included, gives exactly the concatenated data and stops at the zero chunk, unless a smaller positive length is announced |
| `HttpResponse.CompleteForEveryCut` | miniupnpc/miniwget.c:91-289 | the chunks' data comes out however the response is cut, if and only if no positive length below that of the data is announced |
| `HttpResponse.SlowResponse` | miniupnpc/miniwget.c:270-277 | a chunked response that announces n > 0 and whose body arrives byte by byte gives the first n bytes of the data |
| `HttpResponse.HugeChunkCrashes` | miniupnpc/miniwget.c:206-248 | a size of 2^31 or more behind any chunks, cut anywhere, makes the decoder copy beyond its packet |
| `HttpResponse.ChunkedLines` | miniupnpc/miniwget.c:91-289 | the same, from header lines of which one says chunked and none a length |
| `HttpResponse.PlainResponse` | miniupnpc/miniwget.c:249-278 | without chunking, exactly the announced prefix of the body, or all of it without a positive length |
| `HttpResponse.PlainLines` | miniupnpc/miniwget.c:249-278 | header lines whose last length line says n > 0, and none chunked: exactly the first n bytes of the body, or all if it is shorter |
| `HttpResponse.UsualPlainResponse` | miniupnpc/miniwget.c:66-289 | the text of a 200 response with a Content-Length line, cut anywhere, gives that many bytes of its body |
| `HttpResponse.UsualChunkedResponse` | miniupnpc/miniwget.c:66-289 | the text of a 200 response with a chunked line, cut anywhere, gives the chunks' data |
| `HttpResponse.GetHttpResponse` | miniupnpc/miniwget.c:66-289 | the receive loop computes the result that the two theorems describe |
| `LinkedChains.Chains.Link` | picocoin/hashtab.c:279-280 | a node linked to the old head becomes the head; the other chains keep their entries |
| `LinkedChains.Chains.Unlink` | picocoin/hashtab.c:171-175 | linking the predecessor, or the bucket, to the successor takes exactly one entry out of its chain and leaves the others alone |
| `LinkedChains.Chains.Overwrite` | picocoin/hashtab.c:262-269 | key and value of one node change, and nothing else in any chain |
| `LinkedChains.Chains.TakeChain` | picocoin/hashtab.c:227-236 | walking a chain while its nodes are relinked into another array moves all of its entries, in order |
| `LinkedChains.Chains.TakeAll` | picocoin/hashtab.c:222-240 | the loop over the old buckets moves every entry to the head of its new chain |
| `HashTable.FindInBucket` | picocoin/hashtab.c:122-159 | a stored key has its entry in the bucket of its hash |
| `HashTable.PushFront` | picocoin/hashtab.c:280-300 | a new entry at the head of its chain adds one pair to the map |
| `HashTable.Overwrite` | picocoin/hashtab.c:252-279 | overwriting an equal key replaces its pair |
| `HashTable.Unlink` | picocoin/hashtab.c:161-184 | unlinking an entry removes its key and nothing else |
| `HashTable.HashTab.GetEnt` | picocoin/hashtab.c:122-159 | found exactly if the key is in the map |
| `HashTable.HashTab.Get` | picocoin/hashtab.c:186-204 | the map's pair for the key |
| `HashTable.HashTab.Del` | picocoin/hashtab.c:161-184 | true exactly if the key was there, which is then gone |
| `HashTable.HashTab.Clear` | picocoin/hashtab.c:88-100 | the empty map in a table of the initial size |
| `HashTable.Relinked` | picocoin/hashtab.c:222-240 | pushing every entry onto the chain its hash belongs to in an empty table of any size keeps the map |
| `HashTable.HashTab.Grow` | picocoin/hashtab.c:206-250 | relinking every entry in place into a table of the larger size keeps the map, and a failed attempt changes nothing |
| `HashTable.HashTab.Put` | picocoin/hashtab.c:252-301 | the map with the pair added or replaced, whether or not growth succeeds; growth is tried exactly when a new key meets a chain of three |
| `HashTable.HashTab.Iter` | picocoin/hashtab.c:303-313 | every key of the map is visited once, with its value; `size` visits in all |
| `HashTable.Perform` | picocoin/hashtab.c:88-313 | every sequence of put, get, del and clear, with any growth attempts failing, answers and ends as a finite map does |
| `Base58.SetVchIsValue` | picocoin/bignum.c:13-27 | little-endian bytes with a trailing zero are read as an unsigned number |
| `Base58.GetVchIsBytes` | picocoin/bignum.c:29-50 | without its sign byte the result is the number's bytes, little-endian |
| `Base58.DecodingOfEncoding` | picocoin/base58.c:21-173 | decoding undoes encoding for every byte string, leading zeros and the empty one included |
| `Base58.EncodingOfDecoding` | picocoin/base58.c:21-173 | encoding undoes decoding for every string over the alphabet |
| `Base58Form.AlphabetIs` | picocoin/base58.c:17-19 | the alphabet is the digits without 0, the capitals without I and O and the small letters without l, each with its value |
| `Base58Form.EncodingIs` | picocoin/base58.c:21-84 | the text of some bytes is the one with as many leading ones as they have leading zeros and the same value in base 58 as they have in base 256 |
| `Base58Form.CheckedBytes` | picocoin/base58.c:86-105 | the checked text holds type byte, payload and the four checksum bytes of both |
| `Base58Form.CheckedMeans` | picocoin/base58.c:175-191 | the checked decoder accepts a text exactly if its last four bytes are the checksum of the others |
| `Base58Form.SpacesAre` | picocoin/base58.c:121-129 | the characters that may surround the text |
| `Base58.EncodingLength` | picocoin/base58.c:43-60 | the text of n bytes has at most n*138/100+1 characters |
| `Base58.EncodeBytes` | picocoin/base58.c:21-84 | the division loop, the ones for leading zeros and the reversal give the encoding |
| `Base58.DecodeText` | picocoin/base58.c:107-173 | the multiplication loop, white space, sign byte and leading ones give the decoding, or none |
| `Base58.SpacesAreIgnored` | picocoin/base58.c:121-142 | white space around a Base58 string makes no difference |
| `Base58.AcceptedForm` | picocoin/base58.c:121-142 | nothing but a Base58 string in white space is accepted |
| `Base58.EncodeCheck` | picocoin/base58.c:86-105 | the encoding of type byte, payload and four checksum bytes |
| `Base58.DecodeCheck` | picocoin/base58.c:175-204 | type byte and payload, refused if too short or if the checksum differs |
| `Base58.CheckedRoundTrip` | picocoin/base58.c:86-204 | the checked pair returns type byte and payload, for every checksum function |
| `Base58.CheckedTextIsUnique` | picocoin/base58.c:86-204 | a Base58 string that the checked decoder accepts is what the checked encoder writes; with a type byte asked for, exactly if more than the checksum was decoded |
| `Crc32.TableIsEightBits` | SNapi.c:13-57 | each of the 256 table entries is eight single-bit steps on its index |
| `Crc32.TableStepIsAbsorb` | SNapi.c:127-128 | one table lookup equals eight steps of the bitwise definition of section 8 of RFC 1952 |
| `Crc32.Crc` | SNapi.c:120-131 | the loop computes the bitwise CRC of every byte sequence |
| `Crc32.CrcChains` | SNapi.c:120-131 | two chained calls equal one call on the concatenation |
| `Crc32.Residue` | SNapi.c:120-131 | whatever the data, the CRC of the data followed by its own CRC, lowest byte first, is 0x2144DF1C |
| `Crc32.SmallChecksums` | SNapi.c:120-131 | the CRC of nothing is 0, that of one zero byte 0xD202EF8D |
| `Crc32.RegisterIsInjective` | SNapi.c:127-128 | different registers stay different, whatever follows |
| `Crc32.BurstIsDetected` | SNapi.c:120-131 | inputs of the same length that differ only within four consecutive bytes never share a CRC |
| `Crc32.UnalignedBurstIsDetected` | SNapi.c:120-131 | nor do inputs that differ only within 32 consecutive bits of five bytes, starting at any bit |
| `MiniXml.LeafElement` | miniupnpc/minixml.c:114-212 | an element without children gives its start, its text if any, and its end |
| `MiniXml.StartTag` | miniupnpc/minixml.c:129-196 | a start tag with attributes, directly followed by a tag, gives one start event |
| `MiniXml.EndTag` | miniupnpc/minixml.c:198-212 | an end tag gives one end event |
| `MiniXml.PrefixIsDropped` | miniupnpc/minixml.c:131-145 | a namespace prefix is not part of the name |
| `MiniXml.AttributeIsSkipped` | miniupnpc/minixml.c:39-106 | a quoted attribute is passed over |
| `MiniXml.TextIsSkipped` | miniupnpc/minixml.c:214-217 | text between tags is passed over |
| `MiniXml.SpacesInTag` | miniupnpc/minixml.c:45-49 | blank, tab, carriage return and line feed are passed over inside a tag |
| `MiniXml.EmptyElementTag` | miniupnpc/minixml.c:146-152 | an empty-element tag gives one start event |
| `MiniXml.TextBeforeStartTag` | miniupnpc/minixml.c:187-194 | text that is not followed by an end tag is not reported |
| `MiniXml.CommentIsSkipped` | miniupnpc/minixml.c:116-128 | a comment is passed over up to its first end mark |
| `MiniXml.CDataElement` | miniupnpc/minixml.c:164-184 | an element with a CDATA section gives its start, the section's text as it stands, and its end |
| `MiniXml.PortListingIsStored` | miniupnpc/upnpreplyparse.c:64-80 | the port listing is stored whole and not listed |
| `XmlParser.XmlParser.PassName` | miniupnpc/minixml.c:131-145 | the name loop moves the cursor behind the name and forgets prefixes |
| `XmlParser.XmlParser.PassAttributes` | miniupnpc/minixml.c:39-106 | the attribute loops move the cursor to the end of the tag or report the end of the buffer |
| `XmlParser.XmlParser.PassText` | miniupnpc/minixml.c:154-195 | text or CDATA content is handed to the data handler, text only before an end tag |
| `XmlParser.XmlParser.ParseAll` | miniupnpc/minixml.c:110-219 | the cursor loops with their handlers leave the record that the description of the unread text gives |
| `XmlParser.XmlParser.OnStart` | miniupnpc/upnpreplyparse.c:15-26 | the element becomes current, its name cut to 63 characters |
| `XmlParser.XmlParser.OnEnd` | miniupnpc/upnpreplyparse.c:28-62 | the innermost element is listed first, its value cut to 127 characters, except NewPortListing |
| `XmlParser.XmlParser.OnData` | miniupnpc/upnpreplyparse.c:64-87 | the text is remembered, or stored as the port listing |
| `XmlParser.ParseNameValue` | miniupnpc/upnpreplyparse.c:89-106 | the list of a parse that starts with an empty list and an otherwise arbitrary record |
| `XmlParser.GetValue` | miniupnpc/upnpreplyparse.c:125-139 | the newest entry of the name; some value exactly if an entry has the name |
| `MiniXml.EndTagsAddNothing` | miniupnpc/minixml.c:198-217 | end tags and text, complete or cut off, change nothing once no element is open |
| `Soap.BodyParses` | miniupnpc/miniupnpc.c:166-209 | parsing the printed body lists exactly the arguments, newest first, wherever the text behind the action's end tag is cut off |
| `Soap.EmptyBodyParses` | miniupnpc/miniupnpc.c:148-160 | a body without arguments, cut off behind the action's name or not, lists the action itself with an empty value exactly if its end tag is complete |
| `Soap.OpeningText` | miniupnpc/miniupnpc.c:166-173 | the text before the arguments, spelled out |
| `Soap.ArgumentText` | miniupnpc/miniupnpc.c:183-198 | the text of an argument, nothing for a missing value |
| `Soap.ClosingText` | miniupnpc/miniupnpc.c:201-209 | the text behind the arguments, spelled out |
| `Soap.LookupAfterPrinting` | miniupnpc/miniupnpc.c:166-209 | a lookup in the parsed body, cut off at the end or not, gives the value of the last argument of that name, cut to 127 characters, and nothing for other names |
| `SoapPrinter.ShortArgumentsFit` | miniupnpc/miniupnpc.c:177-182 | the margin keeps arguments that, with the action's end tag, have at most 101 characters inside the buffer |
| `SoapPrinter.LongArgumentOverruns` | miniupnpc/miniupnpc.c:177-200 | a plain request with one long argument that passes the margin check and does not fit |
| `SoapPrinter.RefusedIff` | miniupnpc/miniupnpc.c:177-182 | the margin check fails exactly if some argument starts at position 1948 or later |
| `SoapPrinter.OverrunsIff` | miniupnpc/miniupnpc.c:175-209 | a write lands behind the 2048 characters exactly if, with all earlier arguments starting before 1948, an argument or the action's end tag ends behind them |
| `SoapPrinter.PrintBody` | miniupnpc/miniupnpc.c:161-210 | writes behind the buffer exactly if some argument that starts before the margin, or the action's end tag, does not fit; otherwise gives up exactly if an argument starts in the last 100 characters; otherwise the buffer holds the body as far as it fits, and NULs |
| `SoapPrinter.PrintThenAsk` | miniupnpc/miniupnpc.c:161-210 | printing, parsing what is in the buffer and looking up answers with the last argument of the name, unless the printer gave up or overran |
| `MessageQueue.DoKeepsInv` | queue.c:55-90 | every step of either thread keeps mutual exclusion, ring order, accounting of references and no lost wake-up |
| `MessageQueue.EveryRunIsSafe` | queue.c:55-90 | over every interleaving from the start: taken followed by the ring equals accepted; every offered message was accepted, was dropped while the ring held 256 messages, or is still open, in order; references held are those of ring, worker and sender; no sleep beside a filled ring once signalled; never both threads inside |
| `MessageQueue.TestDecides` | queue.c:57-70 | whatever the worker does meanwhile: with fewer than 256 messages in the ring at the test the message is accepted within four steps of the main thread, otherwise it is dropped |
| `MessageQueue.OfferIsDecided` | nacl_io_demo.c:772-777 | an idle main thread takes any message, and after five of its steps it is decided |
| `MessageQueue.StartInv` | queue.c:27-46 | the empty queue satisfies the invariant |
| `MessageQueue.NeverStuck` | nacl_io_demo.c:355-363 | while the ring holds a message, some thread can move |
| `MessageQueue.StepMakesProgress` | nacl_io_demo.c:355-363 | every step brings the next message closer to being taken |
| `MessageQueue.TakenBySomeSchedule` | nacl_io_demo.c:355-363 | without new work, more than 17 steps of any threads never pass without a message being taken |
| `MessageQueue.MessageIsTaken` | nacl_io_demo.c:355-363 | whatever is offered meanwhile: once the worker has made nine steps for each, the accepted messages have been taken, in order |

## Left out

- The error locator and the `guess` list of `NxtAddress`: words of 16 or 18 symbols and wrong words are only refused; what `h` holds after such a call is not stated.
- The rest of js/jay.ext.js: third-party big integers, curve25519, SHA-256, CryptoJS, and tokens.
- NxtAddress.Address.Set: capitals are made of ASCII letters only, where JavaScript also maps other alphabets.
- The value of `u256_from_compact`: block work is an arbitrary function of nBits.
- Pointers between blocks: `prev` is the parent's hash, the map's key; ownership and freeing are not modelled.
- BlockDb.BlkDb.Locator: the stride and the height are unbounded integers, not C ints.
- BlockDb.AddThenReplay: hashes are honest (the key is the header's hash), records are within 100 MB, as the reader demands, and every write is complete; `BlockLog.ReplayOfPrefix` says what a log with a torn end gives.
- `mbr_read`: reading messages from a memory buffer; the log goes through `fread_message`.
- Wire.BlockRoundTrip: a missing and an empty vector or script are one value, and the read cursor is the remaining sequence.
- `headers` messages and the other peer-to-peer messages of picocoin/message.c and core.c.
- Validity of blocks and transactions (picocoin/block.c:16-85 and 179-242).
- Hash functions: double SHA-256 is an arbitrary function; where collisions matter their absence is a hypothesis about the pairs that are hashed.
- Merkle.AppendLevel: the growing array is a sequence value that the method extends.
- Allocation failure, except for hash-table growth; a failing `bp_hashtab_clear` is not modelled.
- HashTable.HashTab.Grow: the wrap-around of the table size, and freeing the old entries and arrays, are not captured.
- HttpResponse.ChunkedResponse: size lines have at most 31 digits, and an extension with hex digits is left out even where the digits would not change the number, as in "0;0".
- HttpHeaderLines.HeaderMeaning: lines end in CR LF throughout or in LF throughout; for other byte sequences the loops are only tied to their recursive form. Numbers are unbounded, where atoi is undefined beyond an int.
- HttpHeaderLines.BlankLengthReadsBody: the header buffer is not NUL-terminated; a read behind its end is taken to see no digit.
- HttpBody.DecodePacket: what copying beyond the packet does, for a chunk size of 2^31 or more, is not described.
- Base58.EncodeBytes: BIGNUM is an unbounded integer, and lengths stay below 2^31.
- Soap.LookupAfterPrinting: argument names have 1 to 63 characters without blanks, '>', '/' or ':', do not start with '?' or '!' and are not NewPortListing; values contain no '<'; the service contains no quote. The printer escapes nothing, and such texts are not promised to come back.
- SoapPrinter.PrintBody: what a write behind the buffer does is not described.
- XmlParser.XmlParser.PassUntil: a read behind the end of the buffer is taken to see a NUL; a NUL inside a value is an ordinary character.
- MessageQueue.EveryRunIsSafe: one producer and one worker; the steps are sequentially consistent, and `pthread` calls do what POSIX says, spurious wake-ups included.
- MessageQueue: the source's functions are modelled as steps of a state machine, not as methods, because their meaning lies in the interleaving.
- Messages that go to /dev pipes (nacl_io_demo.c:756-771), exchanges, sockets, UPnP discovery, key handling, bloom filters, user interfaces.

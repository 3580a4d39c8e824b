# A verified model of the cache, HEX, makefile, DNS, FTP and patch tools

This project models the components of the repository whose correctness rests on invariants that
no single function body shows, and proves those invariants for all inputs and all runs. Components
that update state in place are classes or methods over arrays, each proved against a mathematical
specification; the properties are then proved about the specification.

| file | what it models |
|---|---|
| `Wrappers.dfy`, `Bits.dfy`, `Bytes.dfy` | optional results, exclusive or and conjunction on numbers, 32-bit words in byte strings, writes that leave the rest alone |
| `CacheLayout.dfy`, `DnsCache.dfy` | the DNS answer cache: a hash table with exclusive-or linked buckets in one circular buffer |
| `Crc32.dfy` | the branch-free CRC-32 loop, polynomial division over GF(2), error detection |
| `HexImage.dfy`, `HexStore.dfy`, `HexCodec.dfy`, `HexFormat.dfy`, `HexLines.dfy` | the sparse memory image, storing a data record in it, the Intel HEX writer and reader, what a written file consists of, and which lines the reader ignores |
| `Graph.dfy`, `Rules.dfy`, `Reduction.dfy`, `Script.dfy`, `SourceDirs.dfy` | reachability, and the makefile generator's transitive closure, listing, transitive reduction, script order and directory order |
| `DomainNames.dfy`, `DnsTrace.dfy` | DNS names in wire form, and the tracer's worklist as an incrementally maintained join |
| `FtpFacts.dfy`, `FtpFraming.dfy` | MLSx fact lines (RFC 3659), and command and reply lines (RFC 854, RFC 959) |
| `BinaryPatch.dfy` | the bsdiff control interpreter, and the engine that checks and applies byte patches |

How the models relate to the C and C++ code:

* Pointers to targets and directories are indices into a table; an array of pointers is a sequence or
  array of indices. The maps from names to rules and directories are fixed during a call.
* Numbers are unbounded. Where the source depends on a width the model writes it out: 32-bit words in
  cells, the hash, the CRC register and the visit serials; the 32-bit end of a HEX block; sizes modulo
  2^64 in FTP facts; sign and magnitude of 64-bit patch numbers. In the cache, sums of offsets never
  reach 2^32, because the buffer holds at most 10^9 bytes and one entry about 10^6.
* Clocks, allocation results, uninitialised variables, random serials and responses from the network
  are parameters.
* `ghost` parameters (ranks of acyclic graphs, the set of active directories, the entry a write amounts to)
  name what a proof needs; the executable code does not depend on them.

Where the code and its comments differ, the model follows the code:

* `hex_data::erase` keeps the end of a block in a 32-bit variable, so a block that ends at 2^32 is passed
  over. `HexImage.EraseRemovesIff` and `HexImage.EraseRangeRemovesIff` state exactly when an erase is a
  removal, `HexImage.LastByteStays` is a run in which it is not, and the contracts of `Set`, `Erase` and
  `EraseRange` carry that exception.
* `read` says that it ignores lines with bad checksums, but it does not look at the sum.
  `HexLines.ChecksumIgnored` states that the checksum byte has no effect, `HexLines.BadSumIgnoredIff` for which
  lines the promise holds, and `HexLines.BadLineStored` gives a bad line that is stored.
* `read` says that it ignores truncated lines, but such a line ends the reading. `HexLines.ShortLineIgnoredIff`
  states exactly when that makes no difference, and `HexLines.DataMissed` gives a case where it does.
* The comments in `read` speak of storing the overlapping and the other portions of a record. A record that
  starts outside all blocks and ends inside one cuts that block off, and one that ends at 2^32 may overlap later
  blocks. `HexStore.StoreWritesIff` states exactly when a record is written to the image,
  also one that goes beyond 2^32, and `HexStore.BytesLost` gives a case where it is not.
* The ancestor list in `rule_dep_list_recursive` and the parent test in `sourcedir_dep_recursive` are never what
  prevents a visit; the contracts of `ListDeps` and `Descend` are proved for the code with these tests in place.
* A live cache entry is not always found: `cache_find` gives up after 101 entries of a bucket. `Lookup`
  contains that limit: an entry with more than 100 newer ones in its bucket is not found
  (`DnsCache.Overlooked`; `DnsCache.FloodedRun` is a run of the cache in which this happens).
* `ftpparse_mlsx` clears the size before it parses, then overwrites it with an uninitialised variable if there is
  no size fact. The model says so by the parameters `anySize` and `anyTime`, and `FtpFacts.DeterminateIff` states
  exactly when they do not matter; `FtpFacts.SizeIndeterminate` is a line for which they do.

## Model

| member | source | states |
|---|---|---|
| `Bytes.UnpackPack` | lib/uint32/uint32_unpack.c:4-8 | unpacking a packed 32-bit word gives the word |
| `Bytes.UnpackFour` | lib/uint32/uint32_unpack.c:4-8 | four bytes are a word, lowest byte first |
| `CacheLayout.LinkAfterInsert` | cache.c:227-230 | after an insertion every link is again the exclusive or of its two neighbours, and only the bucket's former newest entry has to be rewritten, with exactly the value the code writes |
| `CacheLayout.LinkAfterEvict` | cache.c:209-210 | after an eviction the only link to rewrite is that of the next entry in the bucket, by one exclusive or with the evicted offset |
| `CacheLayout.UnlinkTarget` | cache.c:51-65 | the oldest entry is the tail of its bucket, so its link cell is the offset of its newer neighbour or of the head cell itself, and that cell overlaps no other contents |
| `CacheLayout.UnlinkHolds` | cache.c:209-210 | rewriting that one cell leaves exactly the bucket lists of the remaining entries |
| `CacheLayout.InsertHolds` | cache.c:227-237 | the three writes of an insertion leave exactly the bucket lists of the old entries followed by the new one |
| `DnsCache.BucketIsHead` | cache.c:110-112 | for every key the hash is the offset of a 4-aligned head cell inside the table |
| `DnsCache.BucketIs` | cache.c:110-112 | in a table of 2^k bytes the hash modulo the number of heads selects the head |
| `DnsCache.HashValues` | cache.c:101-113 | the hash of the empty key, and two different keys of two bytes with the same 32-bit hash |
| `DnsCache.BucketWalk` | cache.c:51-65 | following links from any head visits exactly the live entries of that bucket, newest first, and stops |
| `DnsCache.Cache.TableSize` | cache.c:280-281 | the table size is a power of two, at least 4 and at most size / 16, and the least one above size / 32 |
| `DnsCache.Cache.Init` | cache.c:270-292 | clamps the size, and leaves an empty cache that satisfies the whole invariant, or none if memory is short |
| `DnsCache.Cache.Free` | cache.c:258-268 | leaves no cache and the history as it was |
| `DnsCache.Cache.Set4` | cache.c:78-84 | writes one word and nothing else |
| `DnsCache.Cache.SetBytes` | cache.c:86-90 | writes the given bytes and nothing else |
| `DnsCache.Cache.Hash` | cache.c:101-113 | the loop in 32-bit arithmetic computes the hash for every key |
| `DnsCache.Cache.Find` | cache.c:116-155 | answers the newest live entry for the key unless more than 100 newer ones share its bucket, and a found answer is the newest one ever stored |
| `DnsCache.Cache.Match` | cache.c:132-142 | an entry answers exactly for its own key; neither consistency failure is reached |
| `DnsCache.Cache.Walk` | cache.c:128-154 | the bounded walk agrees with the lookup among the live entries |
| `DnsCache.Cache.EvictNext` | cache.c:201-219 | removes the oldest live entry, wrapping round where the older region is used up; refuses only an empty cache |
| `DnsCache.Cache.MakeRoom` | cache.c:200-219 | terminates, evicts the fewest oldest entries that leave room, and succeeds exactly if the length fits behind the table |
| `DnsCache.Cache.Insert` | cache.c:221-238 | adds the new entry as the newest and keeps the whole layout invariant |
| `DnsCache.Cache.Set` | cache.c:178-242 | a refused call changes nothing; an accepted one stores the entry after the fewest evictions, or empties the cache if it can never fit |
| `DnsCache.RefusedIff` | cache.c:186-194 | a call is refused without a cache, for a key over 1000 bytes, data over 1000000 bytes or a time to live of 0, and in no other case |
| `DnsCache.ExpiryDenotes` | cache.c:195-233 | the eight bytes stored denote, most significant first, the time of the call plus the time to live, which counts for at most 604800 seconds |
| `DnsCache.SetThenFind` | cache.c:178-242 | a lookup right after a store that fits answers the data and a stamp that denotes now + ttl, or now + 604800 for a longer ttl |
| `DnsCache.Overlooked` | cache.c:149-151 | a live entry with more than 100 newer ones in its bucket is not found |
| `DnsCache.FloodedRun` | cache.c:149-151 | a run of stores into a fresh cache after which an entry is live, the newest for its key, and not found |
| `DnsCache.CrowdedRun` | cache.c:149-151 | a run of stores after which an entry with exactly 100 newer ones in its bucket is found |
| `DnsCache.LookupAfterSet` | cache.c:116-155 | after a store the key answers with the new value, and any other key as before or not at all |
| `DnsCache.LatestInSuffix` | cache.c:33-49 | what is found among the live entries is the newest entry ever stored for the key |
| `Crc32.Checksum` | hexedit.c:46-61 | the program's loops compute the checksum function |
| `Crc32.BitLoop` | hexedit.c:53-57 | the masked inner loop is eight multiplications by x modulo the generator |
| `Crc32.MaskIsBranch` | hexedit.c:55-57 | the mask arithmetic does what the branch on the low bit would do |
| `Crc32.RegisterIsRemainder` | hexedit.c:46-61 | the register is the remainder of the initial value and the message as polynomials (section 8 of RFC 1952) |
| `Crc32.MulXBijective` | hexedit.c:55-57 | one step is a bijection on 32-bit states, with the given inverse |
| `Crc32.RegisterAtOnce` | hexedit.c:46-61 | feeding bytes one by one is feeding the number they spell at once |
| `Crc32.BurstDetected` | hexedit.c:46-61 | messages that differ only within one window of at most four bytes have different checksums |
| `Crc32.Generator` | hexedit.c:56 | the constant is the generator x^32 + x^26 + x^23 + x^22 + x^16 + x^12 + x^11 + x^10 + x^8 + x^7 + x^5 + x^4 + x^2 + x + 1 without its leading power |
| `Crc32.StepsOfPowers` | hexedit.c:53-57 | a step takes each power of x to the next one, and the 31st to the rest of the generator |
| `Crc32.SmallChecksums` | hexedit.c:46-61 | the checksum of no bytes is 0, and that of four bytes 255 is 0xffffffff, which fixes the initial value and the final complement |
| `Crc32.Residue` | hexedit.c:46-61 | a message followed by its checksum has the same checksum for all messages |
| `HexImage.HexData.Get` | intelhex.cpp:41-56 | lookup in the address map, the fill value where nothing is set |
| `HexImage.HexData.Set` | intelhex.cpp:59-86 | update of the address map; the fill value erases; blocks stay sorted, nonempty and disjoint |
| `HexImage.HexData.Erase` | intelhex.cpp:115-141 | removal from the address map, except in a block that ends at 2^32 |
| `HexImage.HexData.EraseRange` | intelhex.cpp:144-186 | removal of a range given in either order, with the same exception |
| `HexImage.EraseRemovesIff` | intelhex.cpp:115-141 | one erase is a removal if and only if the address is not in a block that ends at 2^32 |
| `HexImage.EraseRangeRemovesIff` | intelhex.cpp:144-186 | a range erase is a removal if and only if the range does not meet a block that ends at 2^32 |
| `HexImage.LastByteStays` | intelhex.cpp:115-141 | a run of set and erase after which the byte at the last address is still set |
| `HexImage.TopByte` | intelhex.cpp:115-141 | the byte at the last address lies in a block that ends at 2^32 in every image |
| `HexImage.HexData.Compact` | intelhex.cpp:89-102 | keeps the address map and leaves no two touching blocks |
| `HexImage.HexData.Tidy` | intelhex.cpp:486-500 | terminates, keeps the address map and leaves no block longer than asked |
| `HexImage.HexData.Size` | intelhex.cpp:188-195 | the number of addresses set |
| `HexImage.HexData.SizeBelow` | intelhex.cpp:198-210 | the number of addresses set below a bound |
| `HexImage.HexData.MaxBelow` | intelhex.cpp:234-249 | the greatest set address up to a bound, 0 if there is none |
| `HexCodec.HexToBinary` | intelhex.cpp:285-317 | decodes pairs of characters up to the first bad or missing one, and sums the bytes |
| `HexCodec.DecodeHex` | intelhex.cpp:285-317 | decoding printed hexadecimal gives the bytes back |
| `HexFormat.ReadDigits` | intelhex.cpp:292-301 | which characters are digits and what they stand for, in both cases |
| `HexFormat.DecodeLower` | intelhex.cpp:285-317 | decoding undoes lower-case printing, too |
| `HexCodec.RecordSum` | intelhex.cpp:457-479 | the bytes of every record with its checksum sum to 0 modulo 256 |
| `HexCodec.DataTextIsLine` | intelhex.cpp:457-479 | what is printed for a block is the line of a type 00 record with its right checksum |
| `HexCodec.LinearTextIsLine` | intelhex.cpp:438-455 | what is printed for a new 64 KiB segment is the line of a type 04 record with its right checksum |
| `HexCodec.Write` | intelhex.cpp:408-482 | prints the specified text and turns linear addressing on exactly if some block needs it |
| `HexFormat.PrintedByte` | intelhex.cpp:468-473 | a byte is printed as two of the sixteen digits, the upper half first |
| `HexFormat.SumIs` | intelhex.cpp:457-475 | the sum of a record in full, and that the checksum completes it to 0 modulo 256 |
| `HexFormat.FileFrame` | intelhex.cpp:408-482 | every file, for any image, is some text followed by the type 01 record, and starts with the linear address record of segment 0 if linear addresses are announced or needed |
| `HexFormat.FileIsLines` | intelhex.cpp:419-482 | for blocks that fit into records the file is a concatenation of lines, data records for the blocks in order and linear address records, and the end record |
| `HexFormat.EndRecord` | intelhex.cpp:481 | the last line is the type 01 record with its checksum, ":00000001FF" |
| `HexFormat.SmallFile` | intelhex.cpp:408-482 | the file for one byte 7 at address 0, character by character |
| `HexStore.StoreRecord` | intelhex.cpp:347-381 | the loop that merges a data record into the blocks does what the specification does, with 32-bit addresses |
| `HexStore.StoreGap` | intelhex.cpp:378-380 | bytes that fall into a gap become one new block there |
| `HexStore.StoreOvertaken` | intelhex.cpp:363-380 | once the loop has run past a block, the rest of the record is laid over the image if no block goes on behind the record |
| `HexStore.StoreOverlays` | intelhex.cpp:347-381 | a record that is not clipped is laid over the image, wherever it starts and however many blocks it covers, and the blocks stay sorted, nonempty and disjoint |
| `HexStore.StoreClips` | intelhex.cpp:347-381 | a record that is clipped loses the byte behind it or, at 2^32, leaves overlapping blocks |
| `HexStore.StoreOverlaysIff` | intelhex.cpp:347-381 | storing a record that ends at or below 2^32 overlays its bytes on the image if and only if no block that starts inside it, behind an unset address, goes on behind it (or lies inside it, if it ends at 2^32) |
| `HexStore.StoreWraps` | intelhex.cpp:347-381 | a record that goes beyond 2^32 is written, modulo 2^32, if and only if all its addresses up to there are set already and no block at the bottom is cut or overlapped |
| `HexStore.StoreWritesIff` | intelhex.cpp:347-381 | for every record, storing writes its bytes one after the other, modulo 2^32, and keeps the blocks in order, if and only if it does no damage |
| `HexStore.BytesLost` | intelhex.cpp:363-380 | a concrete record that cuts off the block it ends in |
| `HexStore.WrapsToZero` | intelhex.cpp:371-380 | a concrete record that goes beyond 2^32 and continues at address 0 |
| `HexLines.ChecksumIgnored` | intelhex.cpp:334-335 | reading a complete record gives the same result for every checksum byte |
| `HexLines.UndefinedIff` | intelhex.cpp:327-390 | reading a line runs past the end of the decoded bytes if and only if the line has too few good characters for its type and length |
| `HexLines.LineIgnoredIff` | intelhex.cpp:328-393 | a line of more than ten characters is ignored by every reader if and only if its record is complete up to the type and asks for nothing |
| `HexLines.BadSumIgnoredIff` | intelhex.cpp:334-335 | that bad lines are ignored holds exactly for lines with a good sum and for those that ask for nothing |
| `HexLines.BadLineStored` | intelhex.cpp:334-335 | a concrete data record with a bad checksum that is stored |
| `HexLines.ShortLineIgnoredIff` | intelhex.cpp:329-330 | a line of at most ten characters ends the reading, which makes no difference if and only if nothing that follows would have been read |
| `HexLines.DataMissed` | intelhex.cpp:329-330 | a concrete short line that makes the reader miss the data record behind it |
| `HexLines.DataLineWritesIff` | intelhex.cpp:327-381 | reading a complete data line, whatever its checksum, writes its bytes to the image modulo 2^32 if and only if the record does no damage |
| `HexLines.OtherRecords` | intelhex.cpp:383-391 | a type 02 record sets a flag, and a type 04 record the upper half of the addresses that follow |
| `HexCodec.ReadRecord` | intelhex.cpp:327-343 | a printed record with any checksum byte is applied, and reading goes on behind it |
| `HexCodec.Read` | intelhex.cpp:320-395 | reads line by line what the specification reads, including early ends and lines too short to be defined |
| `HexCodec.RoundTrip` | intelhex.cpp:320-482 | reading what was written restores the blocks, across linear address records, for every image whose blocks fit into records |
| `HexCodec.SaveAndLoad` | intelhex.cpp:408-500 | tidy, write and read into a fresh image restores the blocks and the address map |
| `Graph.ReachClosed` | genmakefile.c:1111-1121 | a set closed under dependency contains everything reachable from its members |
| `Rules.RuleTable.AddDep` | genmakefile.c:1111-1121 | the recursion ends on any graph, cyclic or not; adds other and only nodes reachable from it outside the old dependencies |
| `Rules.RuleTable.AddDependency` | genmakefile.c:1111-1121 | adds exactly what is reachable from other without passing through old dependencies; a closed array becomes the old one plus everything reachable, still closed and without duplicates |
| `Rules.ClosureExactly` | genmakefile.c:1111-1121 | for closed dependencies, reachability outside them adds the same nodes as reachability |
| `Rules.RuleTable.ListDeps` | genmakefile.c:1153-1171 | a visit marks exactly the unmarked targets it reaches and lists them, whatever the ancestor list |
| `Rules.NotOnPath` | genmakefile.c:1159-1162 | an unmarked dependency's name is never on the ancestor list |
| `Rules.RuleTable.DepList` | genmakefile.c:1178-1191 | lists exactly the names of the other targets reachable from the given one, and marks exactly the reachable ones |
| `Reduction.NullBelow` | genmakefile.c:2563-2582 | below the top level the walk nulls exactly the entries it can reach, up to the depth limit |
| `Reduction.NullIndirect` | genmakefile.c:2563-2582 | although entries are nulled during the walk, exactly those reachable from another entry are nulled |
| `Reduction.SkippedEntry` | genmakefile.c:2567-2571 | an entry skipped because it is null hides nothing: whatever it would have nulled is nulled from the entry above it |
| `Reduction.RemoveIndirectDeps` | genmakefile.c:2590-2606 | keeps in order exactly the entries not reachable from another one and returns the number removed |
| `Reduction.DirectIsFilter` | genmakefile.c:2599-2602 | the kept entries are those at ascending places, exactly the places of entries not reachable from another one |
| `Reduction.KeptReaches` | genmakefile.c:2590-2606 | every entry is reachable from one that is kept |
| `Reduction.ReductionKeepsReach` | genmakefile.c:2563-2606 | the reduced array reaches the same targets, and none of its entries depends on another |
| `Script.Generator.Run` | genmakefile.c:4163-4248 | every rule reachable from "all" is completed exactly once, after all it needs, commands appear in that order, and the closing labels come once, after all of it, if only one rule is named "all" |
| `Script.Generator.Emit` | genmakefile.c:4180-4248 | below the top level only unmarked rules reachable from the given one are added, in dependency order |
| `Script.CompleteNext` | genmakefile.c:4192-4248 | completing a rule whose needs are done keeps the order and the commands right |
| `SourceDirs.DirTable.Descend` | genmakefile.c:2343-2365 | the walk lists everything below a directory once, although leaves are never marked |
| `SourceDirs.DirTable.Deps` | genmakefile.c:2367-2371 | on any graph the list has each reachable directory once and never the start; without cycles dependencies come first |
| `DomainNames.WireInjective` | lib/dns/dns_domain.c:6-14 | the wire form determines the name |
| `DomainNames.Length` | lib/dns/dns_domain.c:6-14 | finds the length of a name in wire form |
| `DomainNames.Equal` | lib/dns/dns_domain.c:48-58 | octet-wise comparison without case decides equality of the names label by label (section 2.3.3 of RFC 1035) |
| `DomainNames.Suffix` | lib/dns/dns_domain.c:76-86 | decides whether one name lies under another |
| `DomainNames.SameIff` | lib/dns/dns_domain.c:48-58 | names are the same if and only if they have the same labels, octet by octet, apart from the case of letters |
| `DomainNames.UnderIff` | lib/dns/dns_domain.c:76-86 | a name lies under a zone if and only if its last labels are the zone's, up to case |
| `DnsTrace.Tracer.AddQuestion` | dnstrace.c:137-161 | adds the question unless its owner is the root or it is there already up to case |
| `DnsTrace.Tracer.AddQuery` | dnstrace.c:164-188 | the new query is added unless known, and the questions stay exactly the join, each once |
| `DnsTrace.Tracer.AddServer` | dnstrace.c:189-223 | the same for a new name server, which is also queried for its own address |
| `DnsTrace.Tracer.AddAddress` | dnstrace.c:224-257 | the same for a new address |
| `DnsTrace.Tracer.InJoin` | dnstrace.c:489-495 | every question's owner is not the root and lies under its zone |
| `DnsTrace.Tracer.Begin` | dnstrace.c:478-487 | the relations start with the question asked for, the artificial root server and its addresses, and the questions are their join |
| `DnsTrace.Tracer.Hear` | dnstrace.c:359-391 | every name server, address, alias and special address of a response that counts is known afterwards, new name servers are asked for, whatever is new was given by the response, additions are in order, and the questions stay the join |
| `DnsTrace.HeardTeaches` | dnstrace.c:359-391 | the same in terms of the relations: all that counts in a response is known, and nothing else is new |
| `DnsTrace.JoinAsked` | dnstrace.c:137-257 | the table has a question for every query, server of its zone and address of that server, no other question, and none twice up to case |
| `DnsTrace.AnswersZoned` | dnstrace.c:359-392 | after any answers, every name server and address learnt belongs to the root or to a name under the zone of a question that was sent |
| `DnsTrace.Tracer.Run` | dnstrace.c:478-552 | over any responses the relations hold what the program started with and exactly what the responses to the questions sent have given, all of it in the zones asked; every server is asked for; no question is sent twice, the zone test never skips one, and the table is worked off |
| `FtpFacts.GetUint64` | ftpparse.c:58-71 | reads the longest prefix of digits and its value modulo 2^64 |
| `FtpFacts.SizeOfDecimal` | ftpparse.c:58-71 | a number printed in decimal is read back modulo 18446744073709551616, whatever follows it |
| `FtpFacts.GetMod` | ftpparse.c:106-156 | reads a time of fourteen or more digits column by column and refuses anything else |
| `FtpFacts.TimeOfPrinted` | ftpparse.c:106-156 | a printed date and time is read back field by field, whatever digits follow |
| `FtpFacts.TimeIff` | ftpparse.c:113-120 | a time is read if and only if it has at least fourteen characters and all are digits |
| `FtpFacts.StartsInValue` | ftpparse.c:915-924 | comparing more characters than a value has is safe: it stops at the delimiter |
| `FtpFacts.TypeWords` | ftpparse.c:914-928 | a value means a file if it spells "file" in either case, and a directory if it begins with "dir", "pdir" or "cdir" |
| `FtpFacts.ParseMlsx` | ftpparse.c:868-960 | the scanning loops compute the specified parse for every line |
| `FtpFacts.AcceptedIffPrinted` | ftpparse.c:868-960 | a line is accepted if and only if it is the printed form of some facts and a nonempty pathname |
| `FtpFacts.LineInjective` | ftpparse.c:868-960 | no line is the printed form of two different fact lists or pathnames |
| `FtpFacts.ParsePrinted` | ftpparse.c:885-960 | parsing a printed line, MLSD or MLST, recovers the pathname, all facts in order and whether the last semicolon is missing |
| `FtpFacts.LastWins` | ftpparse.c:908-932 | the last size, modulo 2^64, and the last unique id win |
| `FtpFacts.LastTimeWins` | ftpparse.c:911-913 | the last readable time wins, and an unreadable one still counts as given |
| `FtpFacts.DeterminateIff` | ftpparse.c:871-872 | the size and the time are independent of uninitialised memory if and only if a size fact or a readable modify fact is given |
| `FtpFacts.SizeIndeterminate` | ftpparse.c:871-872 | a concrete line whose parsed size depends on uninitialised memory |
| `FtpFacts.FlagsAddUp` | ftpparse.c:914-928 | the two type flags add up over all type facts, with the words spelt out |
| `FtpFacts.MlsxRoundTrip` | ftpparse.c:868-960 | the round trip in full (section 7.2 of RFC 3659) |
| `FtpFraming.UnescapeInPlace` | ftplib.c:69-75 | undoubling in place computes the undoubled line |
| `FtpFraming.UnescapeEscape` | ftplib.c:24-34 | undoubling undoes doubling of byte 255, whatever follows |
| `FtpFraming.EscapeDoubles` | ftplib.c:24-43 | byte 255 is doubled and no other byte changed, and a line ends with 13 and 10 |
| `FtpFraming.UnescapeDrops` | ftplib.c:69-75 | the first of two bytes is dropped if it is 255, whatever the second is, and a last byte 255 is kept |
| `FtpFraming.LineIs` | ftplib.c:56-85 | a line is what precedes the first byte 10, less a byte 13 before that, and must not be empty altogether |
| `FtpFraming.Connection.WriteEscaped` | ftplib.c:24-34 | sends the C string with every byte 255 doubled |
| `FtpFraming.Connection.WriteCommand` | ftplib.c:36-43 | sends the doubled string and CR LF |
| `FtpFraming.Connection.WriteCommand2` | ftplib.c:45-54 | sends two strings as one command |
| `FtpFraming.Connection.GetLine` | lib/stralloc/buffer_getln.c:5-35 | takes the input up to and with the first line feed |
| `FtpFraming.Connection.ReadOneLine` | ftplib.c:56-85 | consumes one line, complete or not, and keeps the text of a complete one |
| `FtpFraming.Connection.Read` | ftplib.c:90-114 | consumes one reply and keeps its last line |
| `FtpFraming.CodedIff` | ftplib.c:103-107 | a code is three digits and the mark |
| `FtpFraming.ReadUndoesWriteIff` | ftplib.c:24-85 | reading a line undoes writing it if and only if it has no line feed |
| `FtpFraming.OneReplyIff` | ftplib.c:90-114 | for a reply whose first line begins with three digits and a dash and whose last begins with three digits and a space, one read consumes exactly that reply if and only if no inner line begins with three digits and a space (section 4.2 of RFC 959); otherwise it stops too early |
| `FtpFraming.ReadsStayInStep` | ftplib.c:90-114 | over any sequence of such replies each read consumes one reply and returns its last line |
| `BinaryPatch.RecordApply` | hexedit.c:277-287 | replaces the byte exactly if it has the expected old value |
| `BinaryPatch.PatchApply` | hexedit.c:290-302 | applies all records in order, or none if the file size differs |
| `BinaryPatch.PatchCheck` | hexedit.c:205-257 | tells exactly when the size differs, when some byte is neither old nor new, and when all are new |
| `BinaryPatch.ApplyCompletesIff` | hexedit.c:205-302 | after a patch that a check does not refuse has been applied, all its bytes are the new ones if and only if records about the same byte want the same value |
| `BinaryPatch.Int64RoundTrip` | bsdiffcat.c:69-83 | every sign and magnitude of 64 bits survives encoding and decoding |
| `BinaryPatch.Int64Is` | bsdiffcat.c:69-83 | eight bytes are a magnitude, lowest byte first, and a sign in the top bit of the last |
| `BinaryPatch.BsdiffRead` | bsdiffcat.c:125-223 | the record loop with its byte loop writes the bytes, or prints the patch lines, of the specified run |
| `BinaryPatch.Positions` | bsdiffcat.c:125-223 | r stays the position in the old file and w the number of bytes for the new one |
| `BinaryPatch.LinesAreDifferences` | bsdiffcat.c:125-223 | for every control stream and old file, the printed lines are exactly the places where a byte made from the old file differs from it, in ascending order, each with its offset in the new file, the old byte and the new one; none lies in the bytes of an extra part |
| `BinaryPatch.PlusIs` | bsdiffcat.c:168-172 | a byte of an add part is the sum of the two bytes, less 256 if that is too large |
| `BinaryPatch.PatchRoundTrip` | bsdiffcat.c:125-223 | a patch made from any division of a new file into bytes built from the old file, fresh bytes and moves restores that file |
| `BinaryPatch.PrintedEqualsWritten` | bsdiffcat.c:168-186 | without extra bytes and moves, applying the printed lines to the old file gives the written bytes and leaves the rest, and every line is then in effect |
| `BinaryPatch.PrintApplyCheck` | hexedit.c:205-302 | printing, applying and checking as the programs do: the check then answers 1 |

## Left out

- Cache: memory mapping, `msync` ranges and with them `top`, `cache_open`, and `cache_get`, which subtracts the clock from the expiry. The expiry is eight opaque bytes for a lookup.
- Cache: nothing is said about what survives a crash.
- HexImage.HexData.Compact: requires a nonempty image, because the source steps past the end of an empty one.
- HexImage: `operator[]`, `is_set` and `size_in_range`, whose handling of boundaries does not match their comments, and iterator mechanics, such as stepping back from the first block in `erase`.
- HexStore.StoreOverlaysIff: requires a record that ends at or below 2^32; `StoreWritesIff` covers all records.
- HexCodec: record types 02, 03 and 05 are read as the source reads them, but the writer never prints them, so no round trip concerns them.
- Rules.RuleTable.DepList: requires that no target carries the new serial from an earlier listing; the source does not check it.
- Reduction.NullIndirect: requires an acyclic graph with chains of at most 100 edges and distinct entries, as `RemoveIndirectDeps` does.
- Reduction.RemoveIndirectDeps: requires an acyclic graph with chains of at most 100 edges and distinct entries, and that the array is not itself the dependency array of a target it reaches; beyond that depth the source stops silently.
- Script.Generator.Run: requires an acyclic graph and an unused serial, as the source relies on; the text of remarks and commands is reduced to events.
- SourceDirs.DirTable.Deps: requires that no directory carries the random serial, as the source relies on.
- Makefile generator: options, tool tables, paths, source scanning and the text that is written.
- DnsTrace.Tracer.Run: packets, sockets, timeouts and printing; a response is any list of parsed records with an optional alias, and the addresses for localhost and numeric names are arbitrary.
- FtpFacts.GetMod: stops at the numbers in the columns; their conversion to TAI is not modelled.
- FtpFacts: the EPLF, Unix, DOS, OS/2, MultiNet and SuperTCP list formats and the word splitter; conversion of dates to TAI.
- FtpFraming: I/O errors and the chunks in which input arrives; passive mode and the host lists.
- BinaryPatch.PrintedEqualsWritten: the lines are described for every control stream by `LinesAreDifferences`, but applying them gives the new file only for control streams without extra bytes or moves, because the lines give offsets in the new file together with bytes from elsewhere in the old one.
- BinaryPatch: compressed streams, the hex dump printed without an old file, and the file header; a negative length or a position before the old file ends the run where the source would fail.
- BinaryPatch.PatchApply: requires that records lie inside the file, as the source relies on.
- hexedit.c: the table of product patches, backups and file handling; crc.c repeats the checksum loop with plain characters.
- ini.c: writer and reader use different escapes, so no round trip is intended.

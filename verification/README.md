# Verified model of the audio player and RSA coprocessor software

This project models, in Dafny, the software parts of a DE2-115 design whose correctness spans several
functions, and proves what they are for:

- **RSA arithmetic** (`Rsa`, `NumberTheory`, `Bits`): the bit-serial reference program, with its fixed width of
  256 bits as a parameter k. Naive and Montgomery exponentiation compute the same power, and decryption undoes
  encryption of a byte stream (RFC 8017, sections 4.1, 4.2, 5.1.1 and 5.1.2), from Fermat's little theorem up.
- **FAT reading and playback** (`BlockDevice`, `FatLayout`, `FatTable`, `FatVolume`, `FatFile`, `FatMount`,
  `LongNames`, `LongRuns`, `FatEntries`, `FatBrowse`, `WavePositions`, `WavePlayer`): a disk whose accesses may fail, a
  one-sector cache over it, cluster chains over the cache, a file as one byte sequence over the chains, and the samples sent to
  the DAC over the file. Each layer is proved against the one below, and what is read is proved to be what was stored:
  table entries, directory entries, names and samples.
- **JTAG UART rings** (`Ring`, `UartTransmit`, `UartReceive`): foreground code in micro-steps, interleaved in every
  way with an atomic interrupt step, with histories of the bytes accepted, sent, popped and delivered, and theorems
  that go from each call to its return.
- **Alarms** (`AlarmClock`, `AlarmList`, `SystemClock`): a wrapping 32-bit counter and a roll-over flag behave like
  unbounded time; the linked list survives removal during the walk.
- **CFI flash** (`NorFlash`, `CfiFlash`, `FlashRegions`, `FlashWrite`, `FlashDevice`, `CfiTable`): programming is a
  bitwise AND and erasing sets every bit; unaligned spans, multi-block writes and the region table.
- **CRC tables** (`Gf2`, `Crc`): the tables are polynomial division, and the codes detect bursts.

Objects the C code updates in place are classes; each of their methods is proved against a pure specification, and
the main results are lemmas about these specifications. Reads, writes and callbacks that depend on the outside world
are nondeterministic. A disk keeps a ghost count of failed accesses, so that "no fault during the call" can be said;
a failed access leaves anything in the buffer or the sector.

Where code and comments or intentions differ the model follows the code:

- `power_mont` mixes an unscaled accumulator with a scaled base, and that is what makes its result unscaled.
- A ciphertext chunk that is not below n, which RFC 8017 section 5.1.2 excludes, decrypts to 0 under an odd exponent; `StreamRoundTrip`
  proves that encryption never produces one.
- A zero-length UART write or read returns an error although nothing went wrong.
- An alarm of 2^32 - 1 ticks fires on the next tick unless the counter is about to wrap, and is a tick early from then
  on, or loses a whole round of the counter.
- A cluster chain is followed into its end-of-chain mark, and reading never looks at the file size.
- A failed table read leaves the next cluster unset; it is counted as a lost entry, and a read that lost one promises
  only a coherent cache. A failed read may also leave the cursor past the position, so the cursor is promised after a
  success or a seek.
- A long name is accepted although its first pieces are missing, since nothing checks that the numbers reach one.
- A failed write of `fatDelClusterList` leaves the cache ahead of the disk, so coherence is promised up to that.
- Sample data that ends inside the first sector is followed by the rest of that sector. A song whose data is not on
  sample boundaries and goes on past the first load never ends: the loop is left with less than a sample. Data past
  the first sector that is shorter than the buffer can also be played from the wrong place in the buffer.
- A flash write of a span strictly inside one native word programs what follows the source in memory, into the rest
  of that word and into the next one.

`dafny verify dfyconfig.toml` checks the whole project.

## Model

| member | source | states |
|---|---|---|
| `Rsa.MulNaive` | Lab2/lab2_final/src/pc_python/golden/rsa.py:5-15 | double-and-add over k bits with two conditional subtractions computes `a * b mod n`, for every n |
| `Rsa.PowerNaive` | Lab2/lab2_final/src/pc_python/golden/rsa.py:17-24 | right-to-left square-and-multiply computes `a^b mod n` |
| `Rsa.MontPreprocess` | Lab2/lab2_final/src/pc_python/golden/rsa.py:26-34 | k modular doublings give a value congruent to `a * 2^k`; it is a residue exactly when a was one, and otherwise n plus 2^k times the distance of a from n |
| `Rsa.MontWidth` | Lab2/lab2_final/src/pc_python/golden/rsa.py:38-44 | the accumulator stays below 2n at every loop head and below 4n before each shift, and every shift is exact |
| `Rsa.MontCongruence` | Lab2/lab2_final/src/pc_python/golden/rsa.py:39-44 | after i rounds the accumulator times 2^i is congruent to a times the low i bits of b |
| `Rsa.MulMont` | Lab2/lab2_final/src/pc_python/golden/rsa.py:36-45 | the result r satisfies `r * 2^k` congruent to `a * b` modulo n for every a, and is below n if a is |
| `Rsa.MontUnique` | Lab2/lab2_final/src/pc_python/golden/rsa.py:36-45 | for odd n that congruence has only one residue as a solution, so it determines the result |
| `Rsa.PowerMont` | Lab2/lab2_final/src/pc_python/golden/rsa.py:47-55 | for a below n the Montgomery form computes the same `a^b mod n` as the naive one, with the accumulator unscaled and only a2 carrying 2^k; for any other a and odd b it returns 0 |
| `Rsa.NullProduct` | Lab2/lab2_final/src/pc_python/golden/rsa.py:36-53 | a Montgomery product of 0, or of anything with n, is 0, which is why a base that is no residue gives 0 |
| `Rsa.MontPowerStep` | Lab2/lab2_final/src/pc_python/golden/rsa.py:51-54 | one round keeps `a2 = a^(2^i) * 2^k` and `ret = a^(b mod 2^i)`, both modulo n |
| `Rsa.EncodeDecode` | Lab2/lab2_final/src/pc_python/golden/rsa.py:79-86 | a number below 256^w survives being written as w big-endian bytes and read back |
| `Rsa.DecodeEncode` | Lab2/lab2_final/src/pc_python/golden/rsa.py:79-86 | a byte string survives being read as a number and written back at its own length |
| `Rsa.ReadNumber` | Lab2/lab2_final/src/pc_python/golden/rsa.py:79-81 | the shift-or loop computes the big-endian value of the chunk |
| `Rsa.TransformStream` | Lab2/lab2_final/src/pc_python/golden/rsa.py:70-87 | for every input and odd exponent the output is the transformed chunks in order, where a chunk not below n becomes 0, and fewer than a chunk of trailing bytes is dropped; for an even exponent the same if every chunk is below n |
| `Rsa.WholeChunksPrefix` | Lab2/lab2_final/src/pc_python/golden/rsa.py:71-76 | what is transformed is the input without its last `length mod chunk size` bytes |
| `NumberTheory.Fermat` | Lab2/lab2_final/src/pc_python/golden/rsa.py:58-60 | Fermat's little theorem, which the inverse exponents rest on |
| `NumberTheory.RsaIdentity` | Lab2/lab2_final/src/pc_python/golden/rsa.py:58-60 | `m^(e*d) = m` modulo the product of two distinct primes, also for m not prime to it |
| `Rsa.StreamRoundTrip` | Lab2/lab2_final/src/pc_python/golden/rsa.py:61-87 | decrypting the encryption of any byte stream gives back all its whole chunks, when n lies between 256^31 and 256^32 (as parameters r and w) |
| `FatVolume.MountedVolume.ReadSector` | Final/Final_Project/Software/DE2_115_SD_Card_Audio_Player/terasic_fat/FatInternal.c:338-349 | the cache holds the disk's sector whenever its index is valid, through failing reads too; a success agrees with a direct read |
| `FatVolume.MountedVolume.NextCluster` | Final/Final_Project/Software/DE2_115_SD_Card_Audio_Player/terasic_fat/FatInternal.c:97-136 | the result is the disk's successor, 0 for an invalid entry, unless the table read failed, which is counted as lost |
| `FatTable.EntryIsStored` | Final/Final_Project/Software/DE2_115_SD_Card_Audio_Player/terasic_fat/FatInternal.c:111-124 | a table that stores a value for a cluster, low byte first in the two or four bytes of its entry, yields that value |
| `FatTable.StoredMeaning` | Final/Final_Project/Software/DE2_115_SD_Card_Audio_Player/terasic_fat/FatInternal.c:59-136 | what every stored value means: which values name the next cluster or end the file, and so are the successor, and which ones are unused, reserved or bad, and yield 0 |
| `FatTable.StoredChain` | Final/Final_Project/Software/DE2_115_SD_Card_Audio_Player/terasic_fat/FatInternal.c:59-136 | a list of clusters stored in the table, ended by any end mark, is a chain, and the only one from its first cluster |
| `FatVolume.MountedVolume.FindDirectory` | Final/Final_Project/Software/DE2_115_SD_Card_Audio_Player/terasic_fat/FatInternal.c:353-366 | the 32 bytes of root directory entry i, as a direct read would give them |
| `FatVolume.DirectoryTable` | Final/Final_Project/Software/DE2_115_SD_Card_Audio_Player/terasic_fat/FatInternal.c:357-361 | entries follow one another sixteen to a sector |
| `FatVolume.MountedVolume.DeleteClusterList` | Final/Final_Project/Software/DE2_115_SD_Card_Audio_Player/terasic_fat/FatInternal.c:174-221 | without faults only the first entry is ever cleared, and the call succeeds exactly when it was the last of its chain; only a failed write can break the coherence of the cache |
| `FatVolume.ClearedEntry` | Final/Final_Project/Software/DE2_115_SD_Card_Audio_Player/terasic_fat/FatInternal.c:207-213 | clearing one entry changes no other entry of the table |
| `FatMount.OtherFilesKept` | Final/Final_Project/Software/DE2_115_SD_Card_Audio_Player/terasic_fat/FatInternal.c:174-216 | deleting leaves every chain that does not contain the cluster, and its contents, as they were |
| `FatMount.AreasInOrder` | Final/Final_Project/Software/DE2_115_SD_Card_Audio_Player/terasic_fat/FatInternal.c:484-486 | without wrap-around the table, root and data areas follow one another and hold what they must; the FAT type and the cluster size are those of the boot record |
| `FatMount.DirectoryInRoot` | Final/Final_Project/Software/DE2_115_SD_Card_Audio_Player/terasic_fat/FatInternal.c:485-486 | every root directory entry lies in the root area |
| `FatMount.EntryInTable` | Final/Final_Project/Software/DE2_115_SD_Card_Audio_Player/terasic_fat/FatInternal.c:116-116 | every table entry of a volume lies in its first table copy |
| `FatMount.ClustersApart` | Final/Final_Project/Software/DE2_115_SD_Card_Audio_Player/terasic_fat/FatFileSystem.c:405-410 | different (cluster, sector) pairs are different disk sectors, all in the data area |
| `FatLayout.ChainIsWalk` | Final/Final_Project/Software/DE2_115_SD_Card_Audio_Player/terasic_fat/FatInternal.c:97-136 | following successors from the first cluster visits the chain in order |
| `FatLayout.EndMarkIsFollowed` | Final/Final_Project/Software/DE2_115_SD_Card_Audio_Player/terasic_fat/FatInternal.c:126-127 | past its last cluster a chain continues into the end-of-chain mark taken as a cluster number |
| `FatLayout.FlatFile` | Final/Final_Project/Software/DE2_115_SD_Card_Audio_Player/terasic_fat/FatFileSystem.c:350-465 | the bytes at a position are those of the concatenated clusters, for all positions a chain covers |
| `FatFile.ClusterNumber` | Final/Final_Project/Software/DE2_115_SD_Card_Audio_Player/terasic_fat/FatFileSystem.c:369-381 | the shift fast paths agree with division for every position and cluster size |
| `FatFile.BytesBefore` | Final/Final_Project/Software/DE2_115_SD_Card_Audio_Player/terasic_fat/FatFileSystem.c:369-381 | the shift fast paths agree with 32-bit multiplication |
| `FatFile.FirstSector` | Final/Final_Project/Software/DE2_115_SD_Card_Audio_Player/terasic_fat/FatFileSystem.c:405-410 | the shift fast paths agree with the general sector formula modulo 2^32 |
| `FatFile.File.Advance` | Final/Final_Project/Software/DE2_115_SD_Card_Audio_Player/terasic_fat/FatFileSystem.c:390-399 | one step along the chain keeps cluster and sequence number together |
| `FatFile.File.SkipClusters` | Final/Final_Project/Software/DE2_115_SD_Card_Audio_Player/terasic_fat/FatFileSystem.c:388-400 | the loop ends in the cluster that holds the target position, at the right offset |
| `FatFile.File.CopySector` | Final/Final_Project/Software/DE2_115_SD_Card_Audio_Player/terasic_fat/FatFileSystem.c:416-438 | the wanted part of one sector is copied and the rest of the buffer kept |
| `FatFile.File.ReadCluster` | Final/Final_Project/Software/DE2_115_SD_Card_Audio_Player/terasic_fat/FatFileSystem.c:405-442 | the wanted part of one cluster is copied, sectors before the offset being skipped |
| `FatFile.File.Read` | Final/Final_Project/Software/DE2_115_SD_Card_Audio_Player/terasic_fat/FatFileSystem.c:350-465 | from a right cursor over a sound chain, a success has filled the buffer with the file's bytes, advanced the position and kept the cursor right (unless a table entry was lost to a failed read), and the call does succeed if no disk access failed; in every case the cache stays coherent and nothing past n is written |
| `FatFile.ChainReadable` | Final/Final_Project/Software/DE2_115_SD_Card_Audio_Player/terasic_fat/FatFileSystem.c:350-465 | inside a chain that read is always possible and its bytes are the slice of the concatenated clusters |
| `FatFile.File.Seek` | Final/Final_Project/Software/DE2_115_SD_Card_Audio_Player/terasic_fat/FatFileSystem.c:468-500 | the position is set modulo 2^32 and the cursor is right again, whatever it was before |
| `FatBrowse.BrowseNext` | Final/Final_Project/Software/DE2_115_SD_Card_Audio_Player/terasic_fat/FatFileSystem.c:124-214 | through the cache, the specified scan of the directory with the fields of the entry found; a sector that cannot be read, or is past the end of the disk, ends it without a result |
| `FatBrowse.OpenFile` | Final/Final_Project/Software/DE2_115_SD_Card_Audio_Player/terasic_fat/FatFileSystem.c:286-339 | without disk faults the first entry of the listing that matches the name is found, or none if none matches; in a directory of items that is the first item with the name, and the start cluster, size and other fields are those its own entry stores |
| `FatBrowse.OpenFinds` | Final/Final_Project/Software/DE2_115_SD_Card_Audio_Player/terasic_fat/FatFileSystem.c:286-322 | in a directory of free entries, short and long names, that is the first item with the name, at its own entry |
| `FatBrowse.ShortOpened` | Final/Final_Project/Software/DE2_115_SD_Card_Audio_Player/terasic_fat/FatFileSystem.c:246-319 | a file stored under a short name is opened by exactly its name, a dot and its extension, up to which letters are capitals |
| `FatEntries.InfoStored` | Final/Final_Project/Software/DE2_115_SD_Card_Audio_Player/terasic_fat/FatInternal.h:110-123 | an entry laid out as the packed struct, each number low byte first, is read back as its fields |
| `FatEntries.AttributesTell` | Final/Final_Project/Software/DE2_115_SD_Card_Audio_Player/terasic_fat/FatInternal.h:144-150 | which attribute bits make an entry a piece of a long name, and which a file or a directory |
| `FatEntries.FirstCharacters` | Final/Final_Project/Software/DE2_115_SD_Card_Audio_Player/terasic_fat/FatInternal.c:247-258 | exactly which first characters keep an entry from being listed, as characters: an equals sign does not |
| `FatEntries.ShortNameStored` | Final/Final_Project/Software/DE2_115_SD_Card_Audio_Player/terasic_fat/FatFileSystem.c:246-261 | a name and extension stored with blanks behind them are listed with a dot between them, a label without dot and extension |
| `FatEntries.CaseIgnored` | Final/Final_Project/Software/DE2_115_SD_Card_Audio_Player/terasic_fat/FatFileSystem.c:317-319 | short names compare as equal exactly if they differ at most in which letters are capitals |
| `FatEntries.NoSpacesKeeps` | Final/Final_Project/Software/DE2_115_SD_Card_Audio_Player/terasic_fat/FatFileSystem.c:303-312 | a name without its spaces has exactly the characters that are neither zero nor a space, in their order |
| `LongNames.Reassemble` | Final/Final_Project/Software/DE2_115_SD_Card_Audio_Player/terasic_fat/FatFileSystem.c:138-210 | pieces stored last first rebuild the stored name from any piece on, and end at the file's entry |
| `LongNames.Flatten` | Final/Final_Project/Software/DE2_115_SD_Card_Audio_Player/terasic_fat/FatFileSystem.c:298-313 | the flattening loop keeps every byte that is neither 0 nor a space, up to the first zero unit |
| `LongNames.FlatIsName` | Final/Final_Project/Software/DE2_115_SD_Card_Audio_Player/terasic_fat/FatFileSystem.c:298-313 | flattening a stored name gives the name without its spaces |
| `LongNames.LongNameRoundTrip` | Final/Final_Project/Software/DE2_115_SD_Card_Audio_Player/terasic_fat/FatFileSystem.c:124-313 | any name of one-byte characters and up to nine pieces is found, by a scan that begins at its first piece, with its own entry, and flattens to itself without spaces |
| `LongNames.DirectoryListed` | Final/Final_Project/Software/DE2_115_SD_Card_Audio_Player/terasic_fat/FatFileSystem.c:286-322 | browsing on from the first entry lists exactly the files of a directory of free entries, short names and long names, in order, each at its own entry and under its own name |
| `LongRuns.FoundIff` | Final/Final_Project/Software/DE2_115_SD_Card_Audio_Player/terasic_fat/FatFileSystem.c:138-210 | for every directory, an entry is found exactly if only free entries and one run of pieces whose numbers go down by one lie before it, and it is a file or a directory if there are pieces; the name is made of exactly these pieces, each at its own place |
| `LongRuns.TruncatedExample` | Final/Final_Project/Software/DE2_115_SD_Card_Audio_Player/terasic_fat/FatFileSystem.c:138-184 | the run need not reach number one: a name that has lost its first piece is found with zeros in place of its first characters |
| `WavePlayer.Player.Start` | Final/Final_Project/software_bak/main.c:387-417 | for every offset and size a success leaves the file's first sector in the buffer and the positions of the header, modulo 2^32; without disk faults it does succeed if the first sector can be reached |
| `WavePlayer.Player.Refill` | Final/Final_Project/software_bak/main.c:463-476 | the buffer holds the file's bytes of a load that reaches past the play position, at the specified place |
| `WavePlayer.Player.Execute` | Final/Final_Project/software_bak/main.c:449-513 | each call reports the end of file exactly at the end, moves the positions as specified and, without lost table entries, keeps the samples sent equal to the samples in the file's bytes |
| `WavePositions.EndsIff` | Final/Final_Project/software_bak/main.c:449-513 | for every header, the resting place of the loop is at or past the end of the data exactly if there is none, it is on sample boundaries, or it begins in the first sector and ends by the last whole sample of that load |
| `WavePositions.CallMovesOn` | Final/Final_Project/software_bak/main.c:449-513 | for every header, each call before the end moves on, or the loop is at its resting place and stays there |
| `WavePositions.FinalBound` | Final/Final_Project/software_bak/main.c:449-513 | for every header, playing never passes its resting place |
| `WavePositions.StallingHeader` | Final/Final_Project/software_bak/main.c:449-513 | data at byte 78 that goes on past the first sector comes to rest at byte 510 and never ends |
| `WavePositions.RightIff` | Final/Final_Project/software_bak/main.c:463-508 | every call takes what it plays from its right place in the buffer, exactly if the data begins in the first sector, fills the buffer, is empty, or satisfies the condition on how far into its first load it begins |
| `WavePositions.BriefData` | Final/Final_Project/software_bak/main.c:463-484 | data past the first sector that is shorter than the buffer is loaded from a multiple of its own length past that sector |
| `WavePositions.StallPastFirstSector` | Final/Final_Project/software_bak/main.c:449-513 | 100 bytes of data at byte 514 come to rest at byte 610 and never end |
| `WavePositions.MisplacedPastFirstSector` | Final/Final_Project/software_bak/main.c:463-508 | 100 bytes of data at byte 516 end, but their second load begins at byte 612 and is read from index 100 of the buffer |
| `WavePlayer.PlaySong` | Final/Final_Project/software_bak/main.c:387-513 | for every header, given enough calls, the end of file is reported if and only if the header satisfies the condition of `Ends`, and the loop is at its resting place; if the header satisfies the condition of `Right`, what has been played is the file's samples from the start of the data on, in order, without loss or repetition; if the file's chain stores a list of samples from the start of the data on, the DAC got that list or its first part, and the whole list when the data is as long as the list and satisfies `Complete`; without disk faults no call fails |
| `WavePlayer.PlaysTheData` | Final/Final_Project/software_bak/main.c:449-513 | for every header, the exact condition for the samples up to the resting place to be the whole samples of the data, and that otherwise one begins with the other |
| `WavePlayer.FramesJoin` | Final/Final_Project/software_bak/main.c:493-505 | cutting a byte stream at multiples of four does not change its samples |
| `WavePlayer.FramesStored` | Final/Final_Project/software_bak/main.c:484-504 | the bytes that store a list of stereo samples, two's complement, low byte first, left before right, are played as that list |
| `WavePlayer.SongFrames` | Final/Final_Project/software_bak/main.c:484-504 | any number of bytes of a file that stores a list of samples is played as the first samples of that list |
| `UartTransmit.WriterKeepsInv` | Final/Final_Project/Software/DE2_115_SD_Card_Audio_Player_bsp/drivers/src/altera_avalon_jtag_uart_write.c:100-191 | each micro-step of the writer keeps the ring invariant although it works from a stale out index |
| `UartTransmit.IsrTxSends` | Final/Final_Project/Software/DE2_115_SD_Card_Audio_Player_bsp/drivers/src/altera_avalon_jtag_uart_init.c:169-195 | one interrupt sends the oldest pending bytes that fit and disables itself only with nothing pending |
| `UartTransmit.DrainLoop` | Final/Final_Project/Software/DE2_115_SD_Card_Audio_Player_bsp/drivers/src/altera_avalon_jtag_uart_init.c:174-194 | the drain loop of the interrupt computes the specified step |
| `UartTransmit.TxStepKeepsInv` | Final/Final_Project/Software/DE2_115_SD_Card_Audio_Player_bsp/drivers/src/altera_avalon_jtag_uart_write.c:83-215 | every step of caller, writer and interrupt keeps the invariant |
| `UartTransmit.SentIsPrefixOfAccepted` | Final/Final_Project/Software/DE2_115_SD_Card_Audio_Player_bsp/drivers/src/altera_avalon_jtag_uart_write.c:100-191 | under every interleaving the bytes sent are a prefix of those accepted and the rest is in the ring |
| `UartTransmit.WriteResult` | Final/Final_Project/Software/DE2_115_SD_Card_Audio_Player_bsp/drivers/src/altera_avalon_jtag_uart_write.c:199-214 | a positive result r means exactly the first r bytes were accepted, an error that none were; a blocking call accepts fewer than asked only if it left its wait for an inactive host |
| `UartTransmit.DuringCall` | Final/Final_Project/Software/DE2_115_SD_Card_Audio_Player_bsp/drivers/src/altera_avalon_jtag_uart_write.c:83-191 | from a call to its return, under every interleaving, what is accepted is a prefix of the call's own bytes behind what was accepted before, and the writer gives up only after one of its steps saw an inactive host |
| `UartTransmit.CallReturns` | Final/Final_Project/Software/DE2_115_SD_Card_Audio_Player_bsp/drivers/src/altera_avalon_jtag_uart_write.c:199-214 | the result of a call in terms of its own arguments: the number of its bytes that were accepted, or the error for its own flags with none accepted |
| `UartTransmit.BlockingWriteCompletes` | Final/Final_Project/Software/DE2_115_SD_Card_Audio_Player_bsp/drivers/src/altera_avalon_jtag_uart_write.c:141-191 | a blocking call whose steps never see an inactive host returns only with all of its bytes accepted, and returns their number |
| `UartTransmit.ShortOnlyWhenFull` | Final/Final_Project/Software/DE2_115_SD_Card_Audio_Player_bsp/drivers/src/altera_avalon_jtag_uart_write.c:103-117 | a call returns short only if the ring was full at some moment between the call and its return |
| `UartTransmit.WaitsWhileFull` | Final/Final_Project/Software/DE2_115_SD_Card_Audio_Player_bsp/drivers/src/altera_avalon_jtag_uart_write.c:141-184 | in every run a waiting writer goes on waiting exactly as long as the ring is full and the host has not timed out, although it compares with a stale out index |
| `UartTransmit.CallEnds` | Final/Final_Project/Software/DE2_115_SD_Card_Audio_Player_bsp/drivers/src/altera_avalon_jtag_uart_write.c:100-191 | a call that does not block, or whose steps all see a host that is inactive and has timed out, has returned after 3 steps a byte and 6 more of its writer, under every interleaving with interrupts |
| `UartTransmit.NoLostTransmitWakeup` | Final/Final_Project/Software/DE2_115_SD_Card_Audio_Player_bsp/drivers/src/altera_avalon_jtag_uart_write.c:136-139 | a non-empty ring has its interrupt enabled or a writer about to enable it |
| `UartTransmit.KickComes` | Final/Final_Project/Software/DE2_115_SD_Card_Audio_Player_bsp/drivers/src/altera_avalon_jtag_uart_write.c:100-139 | that writer gets nearer with each step and does enable it |
| `UartTransmit.IsrKeepsRank` | Final/Final_Project/Software/DE2_115_SD_Card_Audio_Player_bsp/drivers/src/altera_avalon_jtag_uart_init.c:169-195 | interrupts do not delay it |
| `UartReceive.ReaderKeepsInv` | Final/Final_Project/Software/DE2_115_SD_Card_Audio_Player_bsp/drivers/src/altera_avalon_jtag_uart_read.c:115-202 | each micro-step of the reader keeps the ring invariant |
| `UartReceive.IsrOnlyAppends` | Final/Final_Project/Software/DE2_115_SD_Card_Audio_Player_bsp/drivers/src/altera_avalon_jtag_uart_init.c:132-154 | the interrupt overwrites no unread slot, also during a copy, and stores what it pops |
| `UartReceive.FillLoop` | Final/Final_Project/Software/DE2_115_SD_Card_Audio_Player_bsp/drivers/src/altera_avalon_jtag_uart_init.c:130-166 | the fill loop of the interrupt computes the specified step: it pops the bytes of exactly the words it takes, and stops the interrupt exactly if the last word read left something behind |
| `UartReceive.IsrTakes` | Final/Final_Project/Software/DE2_115_SD_Card_Audio_Player_bsp/drivers/src/altera_avalon_jtag_uart_init.c:130-166 | one interrupt stores the bytes of exactly the first k words, where k is the smaller of the free slots and the leading valid words, in order; the exact condition for turning itself off; nothing else changes |
| `UartReceive.RxStepKeepsInv` | Final/Final_Project/Software/DE2_115_SD_Card_Audio_Player_bsp/drivers/src/altera_avalon_jtag_uart_read.c:101-203 | every step of caller, reader and interrupt keeps the invariant |
| `UartReceive.DeliveredIsPrefixOfPopped` | Final/Final_Project/Software/DE2_115_SD_Card_Audio_Player_bsp/drivers/src/altera_avalon_jtag_uart_read.c:115-179 | under every interleaving successive reads deliver a prefix of the bytes that the hardware handed to the interrupts, in order, and at most BUF_LEN - 1 are stored |
| `UartReceive.ReadResult` | Final/Final_Project/Software/DE2_115_SD_Card_Audio_Player_bsp/drivers/src/altera_avalon_jtag_uart_read.c:188-202 | a positive result r means r bytes of the stream are in the caller's buffer, an error that none are |
| `UartReceive.DuringCall` | Final/Final_Project/Software/DE2_115_SD_Card_Audio_Player_bsp/drivers/src/altera_avalon_jtag_uart_read.c:100-179 | from a call to its return a read works on its own arguments, only adds to what was delivered, and turns the receive interrupt on only if it has delivered something |
| `UartReceive.CallReturns` | Final/Final_Project/Software/DE2_115_SD_Card_Audio_Player_bsp/drivers/src/altera_avalon_jtag_uart_read.c:188-202 | the result of a read in terms of its own arguments: the number of bytes delivered behind those before it, never more than asked for, or the error for its own flags with none delivered |
| `UartReceive.BlockingReadDelivers` | Final/Final_Project/Software/DE2_115_SD_Card_Audio_Player_bsp/drivers/src/altera_avalon_jtag_uart_read.c:144-178 | a blocking read for at least one byte whose steps never see the timeout returns only with at least one byte |
| `UartReceive.ShortOnlyWhenEmpty` | Final/Final_Project/Software/DE2_115_SD_Card_Audio_Player_bsp/drivers/src/altera_avalon_jtag_uart_read.c:115-150 | a read returns with fewer bytes than asked for only if the ring was empty at some moment between the call and its return |
| `UartReceive.WaitsWhileEmpty` | Final/Final_Project/Software/DE2_115_SD_Card_Audio_Player_bsp/drivers/src/altera_avalon_jtag_uart_read.c:172-174 | a waiting reader goes on waiting exactly as long as the ring is empty and the host has not timed out |
| `UartReceive.CallEnds` | Final/Final_Project/Software/DE2_115_SD_Card_Audio_Player_bsp/drivers/src/altera_avalon_jtag_uart_read.c:115-202 | a read that does not block, or whose steps all see a host that has timed out, has returned after 3 steps a byte and 10 more of its reader, under every interleaving with interrupts |
| `UartReceive.NoLostReceiveWakeup` | Final/Final_Project/Software/DE2_115_SD_Card_Audio_Player_bsp/drivers/src/altera_avalon_jtag_uart_init.c:156-166 | a disabled interrupt means a full ring or a reader about to re-enable it |
| `UartReceive.EnableComes` | Final/Final_Project/Software/DE2_115_SD_Card_Audio_Player_bsp/drivers/src/altera_avalon_jtag_uart_read.c:188-195 | that reader gets nearer with each step and does re-enable it |
| `UartReceive.IsrKeepsRank` | Final/Final_Project/Software/DE2_115_SD_Card_Audio_Player_bsp/drivers/src/altera_avalon_jtag_uart_init.c:132-166 | interrupts neither move nor delay it |
| `AlarmClock.StartIsExact` | Final/Final_Project/Software/DE2_115_SD_Card_Audio_Player_bsp/HAL/src/alt_alarm_start.c:80-96 | a new alarm is due at `T + nticks + 1` exactly if nticks is at most 2^32 - 2 or the counter is about to wrap; otherwise it fires on the next tick |
| `AlarmClock.RearmIsExact` | Final/Final_Project/Software/DE2_115_SD_Card_Audio_Player_bsp/HAL/src/alt_tick.c:127-137 | an alarm that asks for k more ticks is due exactly k ticks later |
| `AlarmClock.TickMeetsPrediction` | Final/Final_Project/Software/DE2_115_SD_Card_Audio_Player_bsp/HAL/src/alt_tick.c:109-115 | the wrapped test succeeds exactly at the unbounded due tick and otherwise keeps it |
| `AlarmClock.FirstFiring` | Final/Final_Project/Software/DE2_115_SD_Card_Audio_Player_bsp/HAL/src/alt_tick.c:87-141 | over any number of wraps the first tick whose test succeeds is the due tick and no other |
| `AlarmList.Alarm.Arm` | Final/Final_Project/Software/DE2_115_SD_Card_Audio_Player_bsp/HAL/src/alt_alarm_start.c:80-96 | the stored time and flag predict the due tick |
| `AlarmList.Alarm.Service` | Final/Final_Project/Software/DE2_115_SD_Card_Audio_Player_bsp/HAL/src/alt_tick.c:109-139 | one visit fires the alarm exactly when due, re-arms it by what the callback returned or asks for removal |
| `AlarmList.NothingOverdue` | Final/Final_Project/Software/DE2_115_SD_Card_Audio_Player_bsp/HAL/src/alt_tick.c:87-141 | firings are at the first due tick plus the running sums of the returned periods, and no due tick is ever missed |
| `AlarmList.Insert` | Final/Final_Project/Software/DE2_115_SD_Card_Audio_Player_bsp/HAL/inc/sys/alt_llist.h:90-98 | the entry becomes the first of the doubly linked ring |
| `AlarmList.Remove` | Final/Final_Project/Software/DE2_115_SD_Card_Audio_Player_bsp/HAL/inc/sys/alt_llist.h:105-117 | the entry leaves the ring, the others keep their order, and it points to itself |
| `SystemClock.Clock.Start` | Final/Final_Project/Software/DE2_115_SD_Card_Audio_Player_bsp/HAL/src/alt_alarm_start.c:64-112 | error codes, insertion, the exact condition under which the alarm is on time and the tick it fires at otherwise; the invariant holds and the other alarms are untouched in every case |
| `AlarmList.Rearm` | Final/Final_Project/Software/DE2_115_SD_Card_Audio_Player_bsp/HAL/src/alt_tick.c:127-137 | the next firing of every alarm, also of one that was started with the longest delay and whose stored time is a tick behind |
| `SystemClock.Clock.Register` | Final/Final_Project/Software/DE2_115_SD_Card_Audio_Player_bsp/HAL/src/alt_alarm_start.c:75-99 | arming and insertion leave every other alarm untouched |
| `SystemClock.Clock.Stop` | Final/Final_Project/Software/DE2_115_SD_Card_Audio_Player_bsp/HAL/src/alt_tick.c:66-73 | the alarm leaves the list and the schedule of the others is kept; stopping an alarm that has left is harmless |
| `SystemClock.Clock.Walk` | Final/Final_Project/Software/DE2_115_SD_Card_Audio_Player_bsp/HAL/src/alt_tick.c:100-141 | the walk visits every element once although visits remove elements |
| `SystemClock.Clock.Tick` | Final/Final_Project/Software/DE2_115_SD_Card_Audio_Player_bsp/HAL/src/alt_tick.c:87-148 | every registered alarm is visited once; due ones fire once; exactly those returning 0 are removed and left loose; the invariant holds at the next tick |
| `NorFlash.NativeStore` | Final/Final_Project/Software/DE2_115_SD_Card_Audio_Player_bsp/drivers/src/altera_avalon_cfi_flash.c:216-241 | assembling and storing a native word puts the source bytes in the flash in order |
| `NorFlash.ProgramPreserving` | Final/Final_Project/Software/DE2_115_SD_Card_Audio_Player_bsp/drivers/src/altera_avalon_cfi_flash.c:275-297 | programming a word that repeats its neighbours changes only the erased span |
| `CfiFlash.ProgramOn` | Final/Final_Project/Software/DE2_115_SD_Card_Audio_Player_bsp/drivers/src/altera_avalon_cfi_flash.c:300-330 | each further word, whole or tail, extends the programmed span and nothing else |
| `CfiFlash.Flash.ProgramBlock` | Final/Final_Project/Software/DE2_115_SD_Card_Audio_Player_bsp/drivers/src/altera_avalon_cfi_flash.c:261-334 | the span becomes the source and all else stays, for widths 1, 2 and 4; for a span strictly inside one word the exact contents of the two words it programs, and nothing else changes |
| `CfiFlash.ProgramRightIff` | Final/Final_Project/Software/DE2_115_SD_Card_Audio_Player_bsp/drivers/src/altera_avalon_cfi_flash.c:261-334 | the result is right for every flash content and whatever lies behind the source if and only if the span reaches the end of its first word |
| `CfiFlash.SpillExample` | Final/Final_Project/Software/DE2_115_SD_Card_Audio_Player_bsp/drivers/src/altera_avalon_cfi_flash.c:281-331 | one byte written into a blank word of four with a zero behind it: the cell after it is lost |
| `FlashWrite.WriteEffect` | Final/Final_Project/Software/DE2_115_SD_Card_Audio_Player_bsp/drivers/src/altera_avalon_cfi_flash.c:93-164 | the span has the data; untouched or matching blocks are as before; the rest of erased blocks is blank |
| `FlashWrite.ImageStep` | Final/Final_Project/Software/DE2_115_SD_Card_Audio_Player_bsp/drivers/src/altera_avalon_cfi_flash.c:119-154 | writing one block takes the device one block further |
| `FlashDevice.Device.WriteBlock` | Final/Final_Project/Software/DE2_115_SD_Card_Audio_Player_bsp/drivers/src/altera_avalon_cfi_flash.c:125-145 | compare, erase, program for one block, for every span |
| `FlashDevice.Device.WriteRegion` | Final/Final_Project/Software/DE2_115_SD_Card_Audio_Player_bsp/drivers/src/altera_avalon_cfi_flash.c:115-156 | the loop over the blocks of a region |
| `FlashDevice.Device.Write` | Final/Final_Project/Software/DE2_115_SD_Card_Audio_Player_bsp/drivers/src/altera_avalon_cfi_flash.c:93-164 | a return of 0, which comes exactly when no erase or program failed, leaves the specified image; an error leaves the blocks before the failing one written and those after it untouched; negative or out-of-range parts are dropped without an error; for a span strictly inside one word the exact contents left |
| `FlashDevice.SpiltRightIff` | Final/Final_Project/Software/DE2_115_SD_Card_Audio_Player_bsp/drivers/src/altera_avalon_cfi_flash.c:93-164 | a write of a span strictly inside one word is right, whatever lies behind the source, if and only if the block already has the data |
| `FlashRegions.BlocksContiguous` | Final/Final_Project/Software/DE2_115_SD_Card_Audio_Player_bsp/drivers/src/altera_avalon_cfi_flash.c:108-158 | tiling regions give blocks that follow one another over the whole device |
| `FlashRegions.BlockAt` | Final/Final_Project/Software/DE2_115_SD_Card_Audio_Player_bsp/drivers/src/altera_avalon_cfi_flash.c:113-155 | the nested loops visit the blocks in address order |
| `CfiTable.ReadRegions` | Final/Final_Project/Software/DE2_115_SD_Card_Audio_Player_bsp/drivers/src/altera_avalon_cfi_flash_table.c:350-363 | the entries as the query describes them and the sum of their sizes |
| `CfiTable.RegionsDescribed` | Final/Final_Project/Software/DE2_115_SD_Card_Audio_Player_bsp/drivers/src/altera_avalon_cfi_flash_table.c:340-363 | a query that describes a list of regions and the size of the device, low byte first, is read back as that list and that size |
| `CfiTable.ReverseRegions` | Final/Final_Project/Software/DE2_115_SD_Card_Audio_Player_bsp/drivers/src/altera_avalon_cfi_flash_table.c:379-400 | the in-place swap loop gives the exact reverse |
| `CfiTable.PlaceRegions` | Final/Final_Project/Software/DE2_115_SD_Card_Audio_Player_bsp/drivers/src/altera_avalon_cfi_flash_table.c:402-406 | offsets are the prefix sums of the sizes |
| `CfiTable.TableTiles` | Final/Final_Project/Software/DE2_115_SD_Card_Audio_Player_bsp/drivers/src/altera_avalon_cfi_flash_table.c:342-406 | in either order the regions tile a device of the size they add up to |
| `CfiTable.ReadTable` | Final/Final_Project/Software/DE2_115_SD_Card_Audio_Player_bsp/drivers/src/altera_avalon_cfi_flash_table.c:305-432 | the exact condition for a return of 0, given what the check of the primary table returned, and that the regions then tile the device in address order |
| `Crc.Table7IsRemainder` | Final/Final_Project/Software/DE2_115_SD_Card_Audio_Player/terasic_sdcard/crc7.c:12-46 | every table entry is the remainder of its index's polynomial |
| `Crc.Index7InRange` | Final/Final_Project/Software/DE2_115_SD_Card_Audio_Player/terasic_sdcard/crc7.c:48-51 | the table index is in range exactly for a 7-bit register |
| `Crc.Table7Steps` | Final/Final_Project/Software/DE2_115_SD_Card_Audio_Player/terasic_sdcard/crc7.c:48-51 | one table step is eight bit-serial division steps |
| `Crc.Crc7` | Final/Final_Project/Software/DE2_115_SD_Card_Audio_Player/terasic_sdcard/crc7.c:63-68 | the loop computes the remainder by x^7 + x^3 + 1, for every message |
| `Crc.Crc7Divides` | Final/Final_Project/Software/DE2_115_SD_Card_Audio_Player/terasic_sdcard/crc7.c:12-68 | the check bits are the one remainder of the message times x^7 on division by x^7 + x^3 + 1 over GF(2) |
| `Crc.Crc7DetectsBurst` | Final/Final_Project/Software/DE2_115_SD_Card_Audio_Player/terasic_sdcard/crc7.c:63-68 | any burst of at most 7 bits over message and check bits is detected |
| `Crc.Table16Steps` | Final/Final_Project/Software/DE2_115_SD_Card_Audio_Player/terasic_sdcard/crc16.c:43-44 | one table step is eight bit-serial division steps |
| `Crc.Crc16` | Final/Final_Project/Software/DE2_115_SD_Card_Audio_Player/terasic_sdcard/crc16.c:39-46 | the loop computes the remainder by x^16 + x^12 + x^5 + 1, for every message |
| `Crc.Crc16Divides` | Final/Final_Project/Software/DE2_115_SD_Card_Audio_Player/terasic_sdcard/crc16.c:39-46 | the check bits are the one remainder of the message times x^16 on division by x^16 + x^12 + x^5 + 1 over GF(2) |
| `Crc.Crc16DetectsBurst` | Final/Final_Project/Software/DE2_115_SD_Card_Audio_Player/terasic_sdcard/crc16.c:39-46 | any burst of at most 16 bits over message and check bits is detected |
| `Gf2.CodewordIff` | Final/Final_Project/Software/DE2_115_SD_Card_Audio_Player/terasic_sdcard/crc7.c:54-68 | a message with check bits divides exactly if and only if they are its remainder |
| `Gf2.DivisionIdentity` | Final/Final_Project/Software/DE2_115_SD_Card_Audio_Player/terasic_sdcard/crc7.c:12-12 | the register computes polynomial division: message = quotient * generator + remainder over GF(2) |
| `Gf2.RemainderUnique` | Final/Final_Project/Software/DE2_115_SD_Card_Audio_Player/terasic_sdcard/crc7.c:12-12 | quotient and remainder are determined by that equation and the degree bound |

## Left out

- WavePlayer.PlaySong: where a load is not played from its right place, which samples the DAC gets is said for each call (`Play`) but not for the whole song.
- CfiFlash.Flash.ProgramBlock: the base address counts as word aligned, and memory is taken to go on behind the source. A word store past the end of the device changes none of its cells; what else answers on the bus is not modelled.
- CfiTable.ReadTable: with more than eight regions the C code goes on past the end of its array after setting -ENOMEM; the model returns. Region sizes are unbounded integers, so overflow of a 32-bit int is not modelled. The check of the primary table is a parameter.
- FatFile.File.Read: handle checks and the IsOpened flag, which nothing clears, are not modelled; n is at most 2^31 - 1 as in the C signature.
- FatBrowse.BrowseNext: asks for a directory that ends in an end mark or at the end of the disk, as any does on a disk below 4 GB; after a failed sector read the C code dereferences a null pointer, where the model returns.
- LongRuns.FoundIff: a piece numbered 0, or above nine, makes the C code copy outside its name buffer; the model stops without a result.
- Rsa.TransformStream: for an even exponent, which no RSA key has, a chunk that is not below n is left open.
- Rsa.StreamRoundTrip: that the program's concrete modulus is a product of two primes with its exponents inverse is a hypothesis.
- FatMount.AreasInOrder: parsing the boot sectors is not modelled, only the layout computed from their fields; FAT32 root clusters and the high half of a FAT32 start cluster are not used by the code.
- UartReceive.NoLostReceiveWakeup: assumes the hardware never reports bytes available when it returns none.
- How long a blocking UART call waits for a live host: the host is the environment.
- The semaphores around the UART calls: one writer and one reader at a time are assumed.
- The FIFO-full spin, the volume, mute, playlist and key logic of the player, and parsing of the WAV header.
- Alarm callbacks that start or stop other alarms: a callback acts through its return value.
- The AMD and Intel word programming algorithms: programming and erasing are abstract operations that may fail.
- `fatFindUnusedCluster`, `fatFindUnusedDirectory` and short-name comparison.
- SD card commands, I2C, codec registers, displays and USB.

# Verified models of the platform tools

This project models the algorithms of the repository that have something to prove, each in a module of its own, and
proves what they are for. Most of the repository is file plumbing, display code and tables; what is modelled here is:

* **The tiny FAT file system** (`sw/dev/platform/trs80/osd/tff.c`), in nine modules. `Storage` is the block device: a
  transfer may fail at any time and fails for sure on a bad or worn sector, and the failures are counted. `FatTable` is
  the allocation table as a value: what creating and removing chains does to it, over whole runs. `FatVolume` is the
  mounted volume as an object, with its one-sector write-back window over the device, the 12- and 16-bit entries that go
  through it, and the allocator; `FatAllocator` has runs of the allocator on it. `FatMount` is the geometry and the FAT
  type that mounting takes from a boot record. `FatFile` is an open file with its cursor, `FatInplace` writing to it in
  place, `FatDir` an open directory, `FatNames` the 8.3 names. `FddImage` is the floppy image that uses them
  (`fddimage.c`), and `MmcCard` the driver below them (`mmc.c`).
* **The CRC register** (`crc16.cpp`): the bit-serial form, the byte form, and the polynomial division behind both
  (`Crc16`), and the form without a loop, which is not always the same function (`CrcShort`).
* **The recovery of a decryption circuit** from a decrypted ROM (`pengo/decrypt.cpp`, `SegaMux`).
* **Segment rewriting** for a bank window (`split.cpp`, `SegmentSplit`), **the track recogniser** (`chkrtf.cpp`,
  `TrackCheck`), **the GCR encoder** (`d64toc.cpp`, `Gcr`), **the disk geometry copy** (`cnvcf.cpp`, `GeometryCopy`),
  **the palette cache** (`m62/pal.cpp`, `PaletteCache`), **the INIT-line printer and reader** (`bin2init.cpp` and
  `xv2bin.cpp`, `InitText`), **the integer circle** and **the run-length code** (`gfx.cpp`, `Circle` and `RunLength`).

Code that changes fields or buffers step by step is modelled by classes and methods with loops, proved against
functions on values; the lemmas are about those functions. `dafny verify dfyconfig.toml` checks everything.

Conventions. A machine word is an unbounded number where the source cannot leave its range, and cut by `%` where it
can (FAT entries, the 16-bit directory index, the clipped read count, calc_offset, the bank number). `BitLists` has
words as lists of bits, least significant first, for code that is about bits. The device's answer to a transfer, and
whether the card is there, are chosen freely in every call. `faults` counts the failed transfers and the times the
card was not there: a clause under "no new faults" says what holds while the device works, everything else holds
always. `keeps` says that a failed read of one sector leaves its target alone, as with `MmcCard.Card.DiskRead`: on
such a device no failure makes the window wrong (`Coherent`), and every caller stays `Valid`.

## What the proofs found

* **Clipping a read** (`tff.c:926`). The number of bytes left goes through a 16-bit word, so a read is clipped at the
  end of the file if and only if it asks for no more than is left or less than 64K is left (`FatFile.ClippedAtEnd`).
  Asking for 65537 bytes with 65536 left reads none (`FatFile.ClippedToNothing`).
* **A failed read into the window** (`tff.c:64-95`) keeps the old sector's number. With the driver of the repository it
  also keeps the window's bytes, because a single-sector read stores nothing unless it succeeds (`mmc.c:198-246`,
  `MmcCard.Card.DiskRead`). So the window stays right through every fault (`FatVolume.Volume.MoveWindow`), and any run
  of calls on any number of files, faults and all, delivers flat files' bytes (`FatFile.Serve`).
* **A driver that spoils the window** when a read fails is a hypothetical one; the model covers it, because `tff.c` does
  not ask for more. A later successful move shows its sector right if and only if the window was right before or the
  move is to another sector (`FatVolume.Volume.MoveWindow`), and the same holds for the bytes a read copies out of it
  (`FatFile.File.ReadWindow`). One call fails then, and the next read of the sector in the window is answered Ok with
  what the failure left (`FatFile.ReadsStale`). If the window shows the FAT, a link is followed as the window has it
  (`FatVolume.Volume.GetCluster`), so that a read, also of whole sectors, comes from another cluster
  (`FatFile.ReadsElsewhere`), and a write in place goes into another file (`FatInplace.WritesElsewhere`). What `Valid`
  adds to `Formed` is that the window is not stale on the FAT.
* **Writing in place past the window** (`tff.c:946-948`). After a direct write the window is right if and only if it
  shows another sector and was right, or it shows one that was written with the bytes it holds anyway
  (`FatInplace.WriteSectors`). In `FatInplace.ReadsOld` the window shows the file's first sector; a sector is written
  there with Ok, and reading it back gives what was there before.
* **Parts of sectors written in place** (`tff.c:959-962`) are not written: they are copied from the file into the
  caller's buffer, and the answer is Ok. Exactly the whole sectors of the range are written (`FatInplace.WriteInplace`),
  which is everything if and only if position and count are multiples of 512 (`FatInplace.AllBody`), and nothing for 512
  bytes at position 1 (`FatInplace.NoBody`). The file is as asked for if and only if head and tail hold what it has
  there already (`FatInplace.WrittenWholeExactly`). The floppy image is not harmed while its size is a multiple of 512;
  of a last part of a sector the writes are lost (`FddImage.Drive.WriteSector`).
* **Wrong floppy addresses** (`fddimage.c:62-74`). What fdd_seek reports is wrong, but side 2, sector 0 and the track
  behind the last one pass (`FddImage.Drive.Seek`). Side 2 is then side 0 of the track before, and sector 0 the last
  sector of what comes before (`FddImage.UnreportedReads`).
* **FAT copies** (`tff.c:80-85`). Errors in writing the further copies are ignored: a flush answers for the first FAT
  only. If the copies agreed before, they all agree after it if and only if those whose write has failed hold the right
  bytes all the same (`FatVolume.Volume.WriteBack`). With a copy that lies on a worn sector and differs they do not, and
  the answer is ok (`FatVolume.FlushLoses`).
* **The free count** (`tff.c:244-255`). remove_chain ends on every table, even a cyclic one, but when it meets an entry
  that is already free it frees it once more in the count. The count stays right if and only if the way it takes leaves
  the table, or reaches an entry that reads 1, without meeting a free cluster or itself (`FatTable.RemoveCount`).
  `FatTable.CycleCountedOnceMore` and `FatTable.FreeCountedOnceMore` are tables on which it ends one too high.
* **End of a directory** (`tff.c:361-363`). next_dir_entry takes a device error for the end of the table. It answers
  false before the last entry only at the end of a cluster and with an error in following the link there, and always
  when the FAT sector of that link is bad (`FatDir.Dir.NextDirEntry`). The listing is then cut short with Ok, after at
  most one more entry (`FatDir.Dir.ReadDir`), as in `FatDir.CutShort`.
* **calc_crc** (`crc16.cpp:41-61`) rotates by two where the polynomial needs one. It agrees with the other two forms if
  and only if the incoming byte, mixed with the upper half of the register, is 00 to 03 or F0 to F3.
* **FAT type** (`tff.c:709-712`). The code compares `max_clust`, two more than the count of clusters, with limits for
  the count. Its type is that of the published rule ("FAT Type Determination") if and only if the count is neither 4085
  nor 65525 (`FatMount.KindsAgreeExactly`); those it takes for FAT12 and FAT16 (`FatMount.KindsAtTheLimits`). The model
  takes the code's types.
* **Partial blocks** (`bin2init.cpp:49-57`). A last block shorter than 32 bytes is not printed, because it comes with
  the end-of-file mark. A file comes back whole if and only if its length is a multiple of 32.

## Model

| member | source | states |
|---|---|---|
| FatVolume.Volume.constructor | sw/dev/platform/trs80/osd/tff.c:725-740 | a mounted volume starts with a clean window and no free count, and its image is the device |
| MmcCard.Card.RcvrDatablock | sw/dev/platform/trs80/osd/mmc.c:219-246 | a block is received whole and right, or nothing in the buffer is touched |
| MmcCard.Card.DiskRead | sw/dev/platform/trs80/osd/mmc.c:460-486 | after any answer the first sectors have come rightly and the rest of the buffer is as it was; the answer is OK exactly if all have come, so that a failed read of one sector changes nothing; it is OK unless the card refuses something, and a read of several sectors that was taken is stopped in every case |
| MmcCard.Card.DiskWrite | sw/dev/platform/trs80/osd/mmc.c:498-532 | after any answer the first sectors are stored and at most one behind them is spoilt; OK means that all are stored; it is OK unless the card refuses something; the commands and tokens sent are exactly those of a single or a multiple write, stop token included |
| FatMount.KindsAgreeExactly | sw/dev/platform/trs80/osd/tff.c:709-712 | the type by `max_clust` is the published type of the cluster count if and only if the count is neither 4085 nor 65525 |
| FatMount.KindsAtTheLimits | sw/dev/platform/trs80/osd/tff.c:709-712 | 4085 clusters are taken for FAT12 and 65525 for FAT16, one type too small |
| FatMount.NothingIsCut | sw/dev/platform/trs80/osd/tff.c:694-723 | on a well-formed volume none of the 16- and 32-bit assignments loses anything |
| FatMount.MountedIs | sw/dev/platform/trs80/osd/tff.c:694-723 | what is stored of any boot record, cut to the widths of the assignments |
| FatMount.LaidIs | sw/dev/platform/trs80/osd/tff.c:694-723 | the geometry from the fields of the boot record: which sizes count, and where FATs, root directory and data begin |
| FatMount.MountedIsValid | sw/dev/platform/trs80/osd/tff.c:694-723 | a well-formed volume is refused if and only if it has more than 65525 clusters, and else gets a geometry that fits the device, with room for every FAT entry and exactly its clusters |
| FatMount.PlainFloppy | sw/dev/platform/trs80/osd/tff.c:694-723 | the 1.44M floppy, whose FAT has room for 12-bit entries only, is mounted as FAT12 with its 2847 clusters |
| FatVolume.Volume.MoveWindow | sw/dev/platform/trs80/osd/tff.c:64-95 | the device overlaid with the dirty window is unchanged, but for the further FAT copies; after success the window shows the asked sector right if and only if it was right before or showed another, and after a failure that kept it, it is as right as it was; a clean window never writes |
| FatVolume.Volume.WriteBack | sw/dev/platform/trs80/osd/tff.c:76-86 | flushing a dirty window keeps the overlaid image, ends clean exactly on success, and leaves all FAT copies agreeing if and only if the ones lost on the way hold the right bytes all the same |
| FatVolume.FlushLoses | sw/dev/platform/trs80/osd/tff.c:80-85 | a flush is answered ok although a copy on a worn sector has been lost and the copies no longer agree |
| FatVolume.Volume.WriteCopies | sw/dev/platform/trs80/osd/tff.c:80-85 | repeating a flushed FAT sector changes copies only; afterwards all copies agree if and only if those whose write failed hold the right bytes all the same, and those on worn sectors are among them |
| FatVolume.Volume.FlushedCopiesAgree | sw/dev/platform/trs80/osd/tff.c:80-85 | with a clean window, every sector of the FAT is the same in all copies on the device |
| FatVolume.Volume.Sync | sw/dev/platform/trs80/osd/tff.c:105-130 | a successful sync, the device's own included, leaves nothing in the window: the device is the image; a failure of either step is reported; the window is written even if it is clean, and the device has finished |
| FatVolume.Volume.GetCluster12 | sw/dev/platform/trs80/osd/tff.c:153-159 | a 12-bit entry is read through the window, also across two sectors: the table's, or as a window stale on its first sector has it; 1 only for such an entry or with a fault, and always if its first sector cannot be read |
| FatVolume.Volume.GetCluster16 | sw/dev/platform/trs80/osd/tff.c:161-163 | the same for a 16-bit entry |
| FatVolume.Volume.GetCluster | sw/dev/platform/trs80/osd/tff.c:141-173 | the FAT entry of a cluster of the volume as the window shows it, 1 for any other number: the table's, unless the window is stale on the entry's sector; the table is unchanged, and a stale window elsewhere is put right |
| FatVolume.Volume.TrustedIsRight | sw/dev/platform/trs80/osd/tff.c:141-173 | an entry is seen right through a window that is right or on another sector |
| FatVolume.Volume.PutCluster12 | sw/dev/platform/trs80/osd/tff.c:197-207 | exactly entry `clust` becomes the value cut to 12 bits; a failure leaves the table as it was or that entry half written, and no other touched |
| FatVolume.Volume.PutCluster16 | sw/dev/platform/trs80/osd/tff.c:209-212 | exactly entry `clust` becomes the value cut to 16 bits, and a failure changes nothing in the table |
| FatVolume.Volume.PutCluster | sw/dev/platform/trs80/osd/tff.c:184-224 | exactly entry `clust` becomes the value cut to the entry width, directories and data are untouched, copies agree after the flush; after a failure only a 12-bit entry itself can be half written |
| FatVolume.Put12 | sw/dev/platform/trs80/osd/tff.c:197-207 | two changed bytes, in one or two sectors, change one 12-bit entry of the table and no other |
| FatVolume.HalfPut12 | sw/dev/platform/trs80/osd/tff.c:197-207 | after the first of the two bytes the neighbour sharing it has its old value |
| FatVolume.HalfTable12 | sw/dev/platform/trs80/osd/tff.c:197-202 | after the first byte the table differs in one entry, of which 4 or 8 bits are the new ones |
| FatVolume.Overlap | sw/dev/platform/trs80/osd/tff.c:198 | 12-bit entries share bytes only in pairs, the even one's second with the odd one's first |
| FatVolume.PackedPair | sw/dev/platform/trs80/osd/tff.c:153-159 | three bytes of the FAT hold an even entry and the odd one behind it, low bits first |
| FatVolume.WordEntry | sw/dev/platform/trs80/osd/tff.c:161-163 | a 16-bit entry is two bytes of one sector, low byte first |
| FatVolume.Put16 | sw/dev/platform/trs80/osd/tff.c:209-212 | two changed bytes change one 16-bit entry of the table and no other |
| FatVolume.Volume.Clust2SectExactly | sw/dev/platform/trs80/osd/tff.c:325-335 | with `clust - 2` wrapped around in 16 bits, the result is 0 exactly for numbers outside the volume, and else the first sector of the cluster, which lies in the data area with all of it |
| FatVolume.Volume.FreeOne | sw/dev/platform/trs80/osd/tff.c:244-255 | one round of remove_chain: the entry becomes 0, its old value is where it goes on, the count goes up if known |
| FatVolume.Volume.RemoveChain | sw/dev/platform/trs80/osd/tff.c:236-257 | terminates on every table; without faults table, count and answer are those of `FatTable.Remove` |
| FatVolume.Volume.FindFree | sw/dev/platform/trs80/osd/tff.c:289-300 | the cyclic scan terminates, at the first free cluster or error behind its start, or with 0 when there is none |
| FatVolume.Volume.Take | sw/dev/platform/trs80/osd/tff.c:302-313 | the found cluster gets the end mark and is linked behind the old tail; last cluster and count follow |
| FatVolume.Volume.CreateChain | sw/dev/platform/trs80/osd/tff.c:269-314 | whenever it does not report an error, and always without faults, the allocator's state changes as `FatTable.Created` says; used entries other than the old tail stay even with faults |
| FatTable.CreateFindsFirstFree | sw/dev/platform/trs80/osd/tff.c:269-314 | with no entry reading 1, 0 is returned exactly when no cluster is free, else the first free one in cyclic order behind the start |
| FatTable.TakesNextFree | sw/dev/platform/trs80/osd/tff.c:278-300 | that is the next free cluster behind the tail or, for a new chain, behind the cluster allocated last; the least free one if none lies behind it or the last one is out of range |
| FatTable.TakesOneCluster | sw/dev/platform/trs80/osd/tff.c:302-313 | it gets the end mark, the old tail its number, all other entries stay; it is the last cluster now, and a known count goes down by one |
| FatTable.TakesNothing | sw/dev/platform/trs80/osd/tff.c:273-300 | a number out of range or an entry below 2 is answered 1, a tail that leads on its next cluster, a full volume 0, and nothing changes |
| FatTable.HintThenCreate | sw/dev/platform/trs80/osd/tff.c:860 | after the hint that f_open leaves, a new chain begins at the next free cluster behind it |
| FatTable.StopUnique | sw/dev/platform/trs80/osd/tff.c:289-300 | the scan can end in one place only |
| FatTable.StopExists | sw/dev/platform/trs80/osd/tff.c:289-300 | the scan meets an entry 0 or 1 if the table has one anywhere |
| FatTable.ScanNext | sw/dev/platform/trs80/osd/tff.c:290-300 | one step with wrap-around visits the next cluster in cyclic order, and ends only after all of them |
| FatTable.Remove | sw/dev/platform/trs80/osd/tff.c:236-257 | what removal does to table and count is defined for every table, by the number of nonzero entries, and keeps the table's size |
| FatTable.RemoveWholeChain | sw/dev/platform/trs80/osd/tff.c:236-257 | on a terminated chain exactly its clusters become free and the count rises by their number |
| FatTable.RemoveOnlyFrees | sw/dev/platform/trs80/osd/tff.c:236-257 | on any table, removal sets entries to 0 and nothing else |
| FatTable.RemoveStops | sw/dev/platform/trs80/osd/tff.c:236-257 | out of range nothing happens and the answer is good, an entry of 1 is answered as an error, a free cluster counts once more |
| FatTable.RemoveCount | sw/dev/platform/trs80/osd/tff.c:244-255 | a right free count stays right if and only if the removed way is terminated |
| FatTable.CycleCountedOnceMore | sw/dev/platform/trs80/osd/tff.c:244-255 | removing a cycle of two clusters frees two and counts three |
| FatTable.FreeCountedOnceMore | sw/dev/platform/trs80/osd/tff.c:244-255 | removing a cluster that is free already counts it once more |
| FatTable.RemoveUnknown | sw/dev/platform/trs80/osd/tff.c:248 | an unknown free count stays unknown |
| FatTable.RemoveKeepsForest | sw/dev/platform/trs80/osd/tff.c:236-257 | removing a chain's head takes exactly that chain out of a set of disjoint, acyclic, terminated chains |
| FatTable.CreateKeepsForest | sw/dev/platform/trs80/osd/tff.c:269-314 | creating adds a one-cluster chain or appends one free cluster to one tail; all other chains are untouched, and a non-tail changes nothing |
| FatTable.StepKeeps | sw/dev/platform/trs80/osd/tff.c:236-314 | one call keeps the chains as described and a known free count equal to the number of free entries |
| FatTable.RunKeepsForest | sw/dev/platform/trs80/osd/tff.c:236-314 | so does every run of calls, of any length |
| FatAllocator.Call | sw/dev/platform/trs80/osd/tff.c:236-314 | one call on the volume is one step of the allocator, unless the device fails; only the FATs change |
| FatAllocator.Perform | sw/dev/platform/trs80/osd/tff.c:236-314 | any run of calls through the window is a run of the allocator as long as the device works: the table on the volume stays the set of chains the calls describe, a known free count stays right, and files and directories are never touched |
| FatFile.File.constructor | sw/dev/platform/trs80/osd/tff.c:884-897 | an opened file stands at its start, and its bytes are those of its chain |
| FatFile.File.FollowLink | sw/dev/platform/trs80/osd/tff.c:934-937 | the next link of a file is the entry as it is seen: the chain's, unless the window is stale there |
| FatFile.File.NextSector | sw/dev/platform/trs80/osd/tff.c:930-942 | at a sector boundary the cursor goes to the sector of the next byte, or, where the link is seen through a stale window, to the first sector of the cluster that the window names |
| FatFile.File.ReadSectors | sw/dev/platform/trs80/osd/tff.c:943-957 | whole sectors read directly are the file's bytes whatever the window shows, no more than the cluster holds, and the cursor follows |
| FatFile.File.ReadWindow | sw/dev/platform/trs80/osd/tff.c:959-962 | bytes copied from the window are what it shows of the sector, and it shows the file's sector right if and only if it was right before or on another sector |
| FatFile.File.Transfer | sw/dev/platform/trs80/osd/tff.c:928-970 | the loop delivers the flat file's bytes from the position on, all of them unless a fault stops it, if the window is not stale on a sector that is copied; a stale sector at the position is delivered as the window has it |
| FatFile.File.Read | sw/dev/platform/trs80/osd/tff.c:904-970 | f_read returns exactly the flat file's bytes from the position on, as many as the clipped count says, if the window is not stale on the sectors it copies, keeps the cursor in step, and leaves the rest of the buffer; even a failing call leaves file and window valid, if the device keeps the window; the answer is Ok whenever access is granted and the device works, and NotReady only without the card |
| FatFile.ReadsStale | sw/dev/platform/trs80/osd/tff.c:64-95 | after a failed call elsewhere, the next byte of the sector in the window is read with Ok; it is the file's byte if the failure has kept the window, and else whatever it left there |
| FatFile.ReadsElsewhere | sw/dev/platform/trs80/osd/tff.c:930-957 | through a window stale on a link, the next whole sector is read from the cluster that the window names |
| FatFile.ClippedAtEnd | sw/dev/platform/trs80/osd/tff.c:926 | the count is clipped at the end of the file if and only if it need not be or less than 64K is left |
| FatFile.ClippedToNothing | sw/dev/platform/trs80/osd/tff.c:926 | a read of 65537 bytes with 65536 left is clipped to none |
| FatFile.File.SkipClusters | sw/dev/platform/trs80/osd/tff.c:1189-1205 | the seek loop ends in the link that holds the wanted position |
| FatFile.File.LSeek | sw/dev/platform/trs80/osd/tff.c:1154-1224 | the position becomes the wanted one, at most the size, with the cursor of that position; the answer is Ok whenever access is granted and the device works, and NotReady only without the card |
| FatFile.SeekCursor | sw/dev/platform/trs80/osd/tff.c:1206-1209 | the sector and the sectors left that a seek computes are those of the byte before the position |
| FatFile.Boundary | sw/dev/platform/trs80/osd/tff.c:930-942 | at a sector boundary the counter says whether the next sector is in the same cluster or first in the next link |
| FatFile.CursorDetermined | sw/dev/platform/trs80/osd/tff.c:1154-1224 | a seek and sequential reading to the same position end in the same cursor state |
| FatFile.Replay | sw/dev/platform/trs80/osd/tff.c:904-1224 | any run of seeks and reads, up to the first that is not Ok, delivers what a flat byte sequence would, and of the last one a right beginning, unless the window is stale on the file or the FAT when it begins; while the device works and access is granted that is the whole run |
| FatFile.FlatlyOn | sw/dev/platform/trs80/osd/tff.c:904-1224 | one more call, Ok or not, keeps a file in step with the flat file of its calls that were Ok |
| FatFile.Serve | sw/dev/platform/trs80/osd/tff.c:904-1224 | any run of seeks and reads on any number of open files, with faults at any time, serves each as a flat file in its calls answered Ok, on a device that keeps the window when a read fails; while the device works and access is granted all calls are answered Ok |
| FatFile.SectorOnDisk | sw/dev/platform/trs80/osd/tff.c:325-335 | every sector of a well-formed chain lies in the data area of the device |
| FatFile.ByteIs | sw/dev/platform/trs80/osd/tff.c:325-335 | byte `k` of a file lies in the sector of its cluster that the chain names, clusters counted from 2 on |
| FddImage.OffsetsAreSectors | sw/dev/platform/trs80/osd/fddimage.c:76-83 | the offset of every address is a whole sector of the image, and determines the address |
| FddImage.EverySectorHasAnAddress | sw/dev/platform/trs80/osd/fddimage.c:76-83 | every sector of the image is some address's |
| FddImage.Drive.Seek | sw/dev/platform/trs80/osd/fddimage.c:62-74 | the address is taken over; what is reported is wrong, and the wrong addresses that are not reported are exactly side 2, sector 0 and the track behind the last |
| FddImage.UnreportedReads | sw/dev/platform/trs80/osd/fddimage.c:62-83 | which sector each unreported wrong address stands for: one of the track before, or one behind the end of the image |
| FddImage.SideTwoPasses | sw/dev/platform/trs80/osd/fddimage.c:62-83 | side 2 of track 1 is not reported, and is sector for sector side 0 of track 0 |
| FddImage.Drive.ReadSector | sw/dev/platform/trs80/osd/fddimage.c:85-101 | the buffer gets the image file's bytes at the address, as far as the file reaches |
| FatInplace.SectorsDiffer | sw/dev/platform/trs80/osd/tff.c:325-335 | different sectors of a file without repeated clusters lie in different places on the device |
| FatInplace.ContentAfter | sw/dev/platform/trs80/osd/tff.c:943-957 | replacing a stretch of a file's sectors on the device splices the flat file there and changes no other byte of it |
| FatInplace.TableBelow | sw/dev/platform/trs80/osd/tff.c:943-957 | writes to the data area leave the allocation table as it is |
| FatInplace.BehindStretch | sw/dev/platform/trs80/osd/tff.c:943-957 | a sector of a written stretch is none of the file's sectors behind it, so that what the window shows stale is not read again in the same call |
| FatInplace.WriteSectors | sw/dev/platform/trs80/osd/tff.c:943-957 | a direct write splices the file with the buffer, no further than the cluster goes, and keeps table and cursor right; the window is right afterwards if and only if it shows another sector and was right, or shows what was written; after a fault only the bytes in that place are uncertain |
| FatInplace.DirectStep | sw/dev/platform/trs80/osd/tff.c:928-963 | the rounds write the body in order: a direct round begins where the last one ended and never leaves the body |
| FatInplace.CopyStep | sw/dev/platform/trs80/osd/tff.c:928-963 | a round that copies is the head or the tail, never part of the body |
| FatInplace.WriteTransfer | sw/dev/platform/trs80/osd/tff.c:928-970 | the loop splices the file with the body of the buffer across clusters, or with something in its place after a fault, and copies the file's head and tail into the buffer |
| FatInplace.WriteInplace | sw/dev/platform/trs80/osd/tff.c:904-986 | from any position and for any count, f_write_inplace splices the file with exactly the whole sectors of the range, gives the buffer the file's bytes for the other parts with Ok, and leaves table and the rest of the file alone; the answer is Ok whenever access is granted and the device works, and NotReady only without the card |
| FatInplace.AllBody | sw/dev/platform/trs80/osd/tff.c:959-962 | everything is written if and only if nothing is asked for or position and count are multiples of 512 |
| FatInplace.NoBody | sw/dev/platform/trs80/osd/tff.c:959-962 | nothing is written if and only if no whole sector is covered, as for 512 bytes at position 1 |
| FatInplace.PartsOfRange | sw/dev/platform/trs80/osd/tff.c:943-962 | the head goes up to the next sector boundary, the body is whole sectors, the tail less than one |
| FatInplace.WrittenWholeExactly | sw/dev/platform/trs80/osd/tff.c:959-962 | the file is as asked for if and only if head and tail of the data are what it has there already |
| FatInplace.ReadsOld | sw/dev/platform/trs80/osd/tff.c:943-962 | a sector written in place while the window shows it is read back as it was before, with Ok, unless nothing changed |
| FatInplace.WritesElsewhere | sw/dev/platform/trs80/osd/tff.c:930-957 | through a window stale on a link, a sector written in place to one file is spliced into another |
| FddImage.ExtentIs | sw/dev/platform/trs80/osd/fddimage.c:76-113 | every floppy sector begins on a device sector, ends in part of one only at the file's end, and the read count's 16-bit clipping never bites |
| FddImage.Drive.WriteSector | sw/dev/platform/trs80/osd/fddimage.c:103-113 | the image file gets the whole device sectors of the buffer at the address, as far as it reaches; a last part of a sector is read into the buffer instead; nothing else changes, even after a fault |
| FddImage.Operate | sw/dev/platform/trs80/osd/fddimage.c:62-113 | any run of seeks, sector reads and sector writes, on a file of any size, delivers and leaves what the flat image would, although its transfers bypass the window; while the device works and access is granted all of them are done |
| FddImage.SectorsAreCells | sw/dev/platform/trs80/osd/fddimage.c:76-113 | what is written at an address is read there, as far as the file has whole device sectors, and no other address changes |
| FatDir.GetFileInfo | sw/dev/platform/trs80/osd/tff.c:382-415 | the loops produce the printed name and the little-endian fields of the entry, with size, date and time as sums of their bytes |
| FatDir.ListingAt | sw/dev/platform/trs80/osd/tff.c:1288-1299 | an entry that begins with 00 ends the listing; deleted entries, volume labels and names that print as empty are passed over; every other is shown |
| FatDir.EntryByte | sw/dev/platform/trs80/osd/tff.c:344-370 | entry `p` lies 16 to a sector in the root table or along the clusters of the directory |
| FatDir.Dir.constructor | sw/dev/platform/trs80/osd/tff.c:1234-1266 | an opened directory stands on its first entry, a subdirectory's behind the dot entries |
| FatDir.Dir.NextDirEntry | sw/dev/platform/trs80/osd/tff.c:345-371 | (index, clust, sect) moves to the next entry over sector and cluster boundaries; false before the last entry means a fault at the end of a cluster, and happens for sure when the link's FAT sector is bad |
| FatDir.IndexWraps | sw/dev/platform/trs80/osd/tff.c:354-360 | the 16-bit index keeps its sector and cluster position when it wraps, for every power-of-two cluster size |
| FatDir.MaskIsRemainder | sw/dev/platform/trs80/osd/tff.c:360 | masking with `sects_clust - 1` takes the remainder |
| FatDir.NextLink | sw/dev/platform/trs80/osd/tff.c:360-366 | at a cluster's end the next link's first sector follows, or the directory ends |
| FatDir.Dir.ReadRound | sw/dev/platform/trs80/osd/tff.c:1289-1299 | one round delivers the listed entry under the cursor, passes over an unlisted one, or stops at the first zero entry; with a fault the rest can get lost, after that entry or before |
| FatDir.Dir.ReadDir | sw/dev/platform/trs80/osd/tff.c:1275-1302 | an Ok answer takes the next entry off what is left to list, or delivers an empty name when nothing is; or, after a fault, the rest is lost after at most one entry; any other answer leaves the listing where it is; with a valid id the answer is Ok whenever the device works |
| FatDir.CutShort | sw/dev/platform/trs80/osd/tff.c:361-363 | with a bad FAT sector behind the cursor's cluster, two Ok answers deliver at most one of the two or more entries left, and the listing is over |
| FatDir.RunListsAll | sw/dev/platform/trs80/osd/tff.c:1275-1302 | repeated calls list every entry once, in order, and then empty names for ever |
| FatNames.PrintName | sw/dev/platform/trs80/osd/tff.c:391-409 | the name is the body up to its first space, with 05 shown as E5, and a nonempty extension behind a dot |
| FatNames.PrintedBytes | sw/dev/platform/trs80/osd/tff.c:391-411 | the printed name character by character, 05 in the body shown as E5 |
| FatNames.MakeDirfile | sw/dev/platform/trs80/osd/tff.c:426-480 | a path segment is refused if and only if it has no reading as body and extension, and otherwise gives that reading's 11 bytes; no byte of a name is a small letter |
| FatNames.NameBytes | sw/dev/platform/trs80/osd/tff.c:416-479 | letters of the segment are made capital, all other characters kept, and the two fields filled up with spaces |
| FatNames.AcceptedExactly | sw/dev/platform/trs80/osd/tff.c:441-471 | the characters that are taken are letters, digits, sixteen others, and those beyond ASCII |
| FatNames.CaseIgnored | sw/dev/platform/trs80/osd/tff.c:466-470 | segments that differ in case only are taken alike and make the same name |
| FatNames.MadeNamesAreOk | sw/dev/platform/trs80/osd/tff.c:426-480 | every name made is a nonempty body and an extension, upper case, padded behind |
| FatNames.RoundTripExactly | sw/dev/platform/trs80/osd/tff.c:382-480 | printing 11 bytes and reading them back gives the same 11 bytes for exactly those names |
| Crc16.SerialBit | sw/dev/platform/trs80/crc16.cpp:9-24 | the masks and shifts of the serial form are a shift with feedback into bits 0, 5 and 12 |
| Crc16.CalcCrc1a | sw/dev/platform/trs80/crc16.cpp:27-36 | the byte form is the serial form over the eight bits, most significant first |
| Crc16.SlowLoop | sw/dev/platform/trs80/crc16.cpp:91-98 | the byte loop over a message computes the register of all its bits |
| Crc16.SerialLoop | sw/dev/platform/trs80/crc16.cpp:75-88 | the bit loops over a message compute the same register |
| Crc16.FeedIsRemainder | sw/dev/platform/trs80/crc16.cpp:9-36 | for every message and start value the register is the remainder modulo x^16 + x^12 + x^5 + 1 |
| Crc16.RemainderUnique | sw/dev/platform/trs80/crc16.cpp:9-36 | there is only one such remainder |
| Crc16.Linear | sw/dev/platform/trs80/crc16.cpp:9-36 | the register is linear in message and start value |
| Crc16.ZeroExactly | sw/dev/platform/trs80/crc16.cpp:9-36 | up to 16 bits bring the register to 0 exactly when they repeat it from the top down |
| Crc16.Residue | sw/dev/platform/trs80/crc16.cpp:9-36 | 16 bits behind the message leave 0 if and only if they are its check value, high byte first |
| Crc16.BurstDetected | sw/dev/platform/trs80/crc16.cpp:9-36 | every error confined to 16 consecutive bits of a message of any length changes the check value |
| Crc16.FeedParity | sw/dev/platform/trs80/crc16.cpp:9-36 | the register's parity is the parity of the start value and the message |
| Crc16.OddErrorDetected | sw/dev/platform/trs80/crc16.cpp:9-36 | every error of an odd number of bits changes the check value |
| CrcShort.CalcCrc | sw/dev/platform/trs80/crc16.cpp:41-61 | what the sequence of shifts, rotations and masks amounts to, bit by bit |
| CrcShort.LongIs | sw/dev/platform/trs80/crc16.cpp:27-36 | the byte form without its loop, bit by bit |
| CrcShort.ShortAgreesIff | sw/dev/platform/trs80/crc16.cpp:41-61 | calc_crc agrees with the byte form if and only if the mixed index is 00 to 03 or F0 to F3 |
| CrcShort.ShortIsOff | sw/dev/platform/trs80/crc16.cpp:41-61 | byte 04 into the empty register gives 4184, where the byte form gives 4084 |
| SegaMux.TableIsSignedPermutation | sw/dev/platform/pengo/decrypt.cpp:59-76 | every row of the table permutes bits 3, 5 and 7, possibly inverted, and touches no other bit |
| SegaMux.DecodedFollowsGate | sw/dev/platform/pengo/decrypt.cpp:466-481 | every decrypted bit is the row's gate applied to the encrypted byte, in both halves of the mirrored table |
| SegaMux.SegaDecrypt | sw/dev/platform/pengo/decrypt.cpp:453-484 | the upper half of the reference image has the opcode decryption of the ROM, the lower half the data decryption; in both every byte agrees with the ROM byte in bits 0, 1, 2, 4 and 6 |
| SegaMux.PlainKeepsRest | sw/dev/platform/pengo/decrypt.cpp:478-481 | a decrypted byte differs from the encrypted one in bits 3, 5 and 7 at most |
| SegaMux.PlainFollowsCircuit | sw/dev/platform/pengo/decrypt.cpp:453-484 | those bits are what the listed gates of 16 selectors, for opcodes and for data, make of the encrypted byte |
| SegaMux.GateTakes | sw/dev/platform/pengo/decrypt.cpp:564-576 | which bit each of the six gates takes, and which it turns round |
| SegaMux.SelectorBits | sw/dev/platform/pengo/decrypt.cpp:466 | the selector is read from address bits 0, 4, 8 and 12, whatever the others are |
| SegaMux.DecryptionLosesNothing | sw/dev/platform/pengo/decrypt.cpp:453-484 | at any address different bytes are decrypted to different bytes |
| SegaMux.TryMux | sw/dev/platform/pengo/decrypt.cpp:564-576 | the chosen gate of the address's selector, or the old value for any other number |
| SegaMux.GateExists | sw/dev/platform/pengo/decrypt.cpp:453-484 | for every ROM each selector has a gate that explains its whole decryption |
| SegaMux.FirstMismatch | sw/dev/platform/pengo/decrypt.cpp:617-627 | a scan ends at a byte the gates do not explain, or explains all addresses of its stage; addresses outside the stage are not looked at |
| SegaMux.MismatchMovesOn | sw/dev/platform/pengo/decrypt.cpp:632-634 | stepping a selector never passes its least consistent gate, and can happen 96 times at most |
| SegaMux.ExplainingIsLeast | sw/dev/platform/pengo/decrypt.cpp:605-636 | gates that explain everything without having passed the least ones are the least ones |
| SegaMux.Stage | sw/dev/platform/pengo/decrypt.cpp:613-635 | one stage ends with gates that explain all its addresses, none past its least consistent one |
| SegaMux.FindMux | sw/dev/platform/pengo/decrypt.cpp:605-636 | on every image in which each selector has a consistent gate the search terminates with the least one of each of the 16 selectors, and these reproduce the bit at every address |
| SegmentSplit.WriteBlock | sw/dev/platform/tutankhm/coco3/split.cpp:82-105 | one round writes a bank record and a data record for at most the rest of the bank, with what the input still has and behind it what the copy buffer had |
| SegmentSplit.ChunkBytes | sw/dev/platform/tutankhm/coco3/split.cpp:82-101 | the two records of a round byte by byte |
| SegmentSplit.BlockReaches | sw/dev/platform/tutankhm/coco3/split.cpp:89-93 | a block goes to the end of the segment or of the bank |
| SegmentSplit.FilledAt | sw/dev/platform/tutankhm/coco3/split.cpp:95-101 | the copy buffer gets what the file still has and keeps what it had behind that |
| SegmentSplit.TakenFromFile | sw/dev/platform/tutankhm/coco3/split.cpp:82-105 | as far as the input goes, the bytes taken for the segment are its bytes |
| SegmentSplit.SplitSegment | sw/dev/platform/tutankhm/coco3/split.cpp:66-118 | the output is the records of the bytes taken, the bank restored, and the end mark, for inputs of any length; those are the input's bytes if it has all of the segment |
| SegmentSplit.FileEnds | sw/dev/platform/tutankhm/coco3/split.cpp:107-116 | the last eleven bytes restore bank $3A and end the file |
| SegmentSplit.BlocksFit | sw/dev/platform/tutankhm/coco3/split.cpp:92-101 | no record exceeds its 16-bit header, and no data record leaves the 8K window |
| SegmentSplit.RunBlocks | sw/dev/platform/tutankhm/coco3/split.cpp:82-105 | executing the records writes the bytes in physical memory and nowhere else |
| SegmentSplit.LoadedSegment | sw/dev/platform/tutankhm/coco3/split.cpp:66-118 | loading the output puts the segment at 0x20000 + addr, touches nothing else, and leaves the bank register at 0x3A, for every 16-bit address and length |
| TrackCheck.CountSectors | sw/dev/platform/trs80/chkrtf.cpp:72-250 | the loop terminates although one state takes no byte, and what it counts are disjoint windows in order, each with the full layout of a sector |
| TrackCheck.CountOn | sw/dev/platform/trs80/chkrtf.cpp:86-248 | every byte keeps the place the automaton has reached in a sector, and a count adds one window |
| TrackCheck.FeedSector | sw/dev/platform/trs80/chkrtf.cpp:86-248 | from between sectors, the bytes of one sector are counted once, whatever its gap lengths and contents |
| TrackCheck.FormattedCountsAll | sw/dev/platform/trs80/chkrtf.cpp:72-250 | a track made of sectors with any 4E padding between them counts exactly its sectors |
| Gcr.CodeValue | sw/dev/platform/c64/d64toc.cpp:68-72 | the table's sixteen codes as numbers |
| Gcr.CodeShape | sw/dev/platform/c64/d64toc.cpp:68-72 | codes are five bits wide, have at most one zero at either end and no three in a row, and are never all ones |
| Gcr.PackOnDisk | sw/dev/platform/c64/d64toc.cpp:74-90 | the five bytes of a group, read bit by bit, are the eight codes in order |
| Gcr.EncodedStream | sw/dev/platform/c64/d64toc.cpp:74-112 | the same for everything the streaming encoder writes |
| Gcr.UniquelyDecodable | sw/dev/platform/c64/d64toc.cpp:68-112 | two inputs of lengths divisible by four with the same encoding are equal |
| Gcr.NeverNineOnes | sw/dev/platform/c64/d64toc.cpp:68-112 | encoder output never has nine adjacent ones |
| Gcr.NeverThreeZeros | sw/dev/platform/c64/d64toc.cpp:68-112 | encoder output never has three adjacent zeros |
| Gcr.NoTen | sw/dev/platform/c64/d64toc.cpp:158-203 | ten ones cannot lie inside a part that has no nine |
| Gcr.Drive.Double2Gcr | sw/dev/platform/c64/d64toc.cpp:74-90 | five bytes of the buffer become the packed group, the others stay |
| Gcr.Drive.Feed | sw/dev/platform/c64/d64toc.cpp:102-112 | the buffer holds the encoding of all complete groups fed so far and the helper the rest |
| Gcr.Drive.WriteHeader | sw/dev/platform/c64/d64toc.cpp:168-180 | the header is written as the encoding of its eight bytes, and the helper is empty again: mark, checksum, sector, track, id and filling |
| Gcr.Drive.WriteBlock | sw/dev/platform/c64/d64toc.cpp:190-200 | the data part is written as the encoding of mark, bytes, checksum and padding, starting from an empty helper that is not reset, and leaves it empty |
| Gcr.Drive.SectorToGcr | sw/dev/platform/c64/d64toc.cpp:158-203 | the buffer begins with the framed image of the sector, what is behind it stays, and nothing happens without a disk |
| Gcr.Drive.Produce | sw/dev/platform/c64/d64toc.cpp:299-319 | what goes to the file for a sector is its image and five zero bytes |
| Gcr.SyncsExactly | sw/dev/platform/c64/d64toc.cpp:158-203 | in the bytes of any sector, ten adjacent ones begin exactly at the bits of the two 40-bit sync marks |
| Gcr.HeaderReads | sw/dev/platform/c64/d64toc.cpp:158-184 | a drive reads behind the first sync mark, code by code: 08, the checksum, sector, track, the two id bytes at 0xA2 of track 18, 0F twice, eight zeros |
| Gcr.DataReads | sw/dev/platform/c64/d64toc.cpp:185-203 | and behind the second: 07, the 256 bytes of the sector in order, their checksum, two zeros and eight more |
| Gcr.WrittenDetermines | sw/dev/platform/c64/d64toc.cpp:158-203 | sector, track, disk id and all 256 bytes can be read back from what is written |
| Gcr.ChecksumCancels | sw/dev/platform/c64/d64toc.cpp:192-197 | the bytes and their checksum cancel |
| Gcr.ChecksumDetects | sw/dev/platform/c64/d64toc.cpp:192-197 | changing exactly one byte changes the checksum |
| Gcr.HeaderChecks | sw/dev/platform/c64/d64toc.cpp:171-177 | checksum, sector, track and both id bytes of every header cancel, and a single wrong one among them is noticed |
| Gcr.Drive.OpenHelper | sw/dev/platform/c64/d64toc.cpp:143-150 | the offset table has for each track what the tracks before it hold |
| Gcr.Drive.Offset | sw/dev/platform/c64/d64toc.cpp:151-154 | the computed offset is the sector's place in the image file |
| Gcr.SectorsFit | sw/dev/platform/c64/d64toc.cpp:121-154 | every sector lies inside the 174848 bytes, on a 256-byte boundary |
| Gcr.ZoneStart | sw/dev/platform/c64/d64toc.cpp:121-128 | where each track begins, by the four zones of the disk |
| Gcr.SectorsApart | sw/dev/platform/c64/d64toc.cpp:121-154 | two sectors never have the same place |
| Gcr.EverySlotIsASector | sw/dev/platform/c64/d64toc.cpp:121-154 | every place is some sector's |
| GeometryCopy.InFile.ReadSector | sw/dev/platform/trs80/m1/cnvcf.cpp:292-305 | a sector the input still holds is read whole, bytes spread over words with zeros |
| GeometryCopy.SectorOut | sw/dev/platform/trs80/m1/cnvcf.cpp:307-321 | what one round writes: the sector in the output's width, zeros, or nothing |
| GeometryCopy.CopySector | sw/dev/platform/trs80/m1/cnvcf.cpp:290-322 | one round of the inner loop keeps output and input in step with the sector numbers of both geometries |
| GeometryCopy.CountTrack | sw/dev/platform/trs80/m1/cnvcf.cpp:284-288 | the end of a track is the beginning of the next in a geometry smaller than the loop's |
| GeometryCopy.CountSector | sw/dev/platform/trs80/m1/cnvcf.cpp:284-288 | inside a geometry the count of sectors met is the sector's number |
| GeometryCopy.Convert | sw/dev/platform/trs80/m1/cnvcf.cpp:212-324 | passes exactly the geometries the guard allows, and then writes each sector of the target once and in order: the source's inside the used geometry, zeros outside |
| GeometryCopy.CopyDetermined | sw/dev/platform/trs80/m1/cnvcf.cpp:284-324 | an input that is not cut short determines the whole output |
| GeometryCopy.CopiedBytes | sw/dev/platform/trs80/m1/cnvcf.cpp:284-321 | which byte of the input each byte of a sector of the used geometry is, for all four combinations of byte and word images |
| GeometryCopy.OthersAreZero | sw/dev/platform/trs80/m1/cnvcf.cpp:316-321 | every byte of every other sector is zero |
| GeometryCopy.CopyBack | sw/dev/platform/trs80/m1/cnvcf.cpp:284-324 | what comes back of an image copied whole into a bigger geometry: all of it, but where words went through bytes with every odd byte of its sectors zero |
| GeometryCopy.CopyRoundTrip | sw/dev/platform/trs80/m1/cnvcf.cpp:284-324 | the image comes back unchanged if and only if words did not go through bytes or every odd byte of its sectors is zero |
| PaletteCache.Palette.constructor | sw/dev/platform/m62/pal.cpp:643-711 | a new palette is black, ends in black and white, and its cache is right |
| PaletteCache.Palette.MarkClients | sw/dev/platform/m62/pal.cpp:270-276 | every client, and each once, marks the entry |
| PaletteCache.Palette.UpdateAdjusted | sw/dev/platform/m62/pal.cpp:250-277 | the adjusted colour is up to date with its 15-bit form, and the clients mark it exactly if it changed |
| PaletteCache.Palette.Refresh | sw/dev/platform/m62/pal.cpp:250-277 | the same seen from a longer update: right entries stay right, and the clients know exactly the changes so far |
| PaletteCache.Palette.SetColor | sw/dev/platform/m62/pal.cpp:719-733 | exactly that entry changes, the cache is right again in every group, and every client has marked exactly the changed colours and their range |
| PaletteCache.Palette.SetContrast | sw/dev/platform/m62/pal.cpp:279-292 | the cache is right for the new contrast, and every client has marked exactly the changed colours and their range |
| PaletteCache.Run | sw/dev/platform/m62/pal.cpp:250-733 | after any run of operations the cache is what the final entries and contrast give, despite both early returns, and each client has marked exactly the entries that ever changed on the way, with their range |
| PaletteCache.NewAndRun | sw/dev/platform/m62/pal.cpp:250-733 | the same for a new palette with any clients |
| PaletteCache.WithoutContrastCopies | sw/dev/platform/m62/pal.cpp:236-243 | with neutral controls the adjusted colours are the entries |
| PaletteCache.Palette.CachedLevels | sw/dev/platform/m62/pal.cpp:227-277 | in a right cache every level is the whole part of the gamma-mapped entry times all contrasts plus all brightnesses, kept within a byte, and the 15-bit form follows |
| PaletteCache.AdjustedLevel | sw/dev/platform/m62/pal.cpp:227-234 | a level is cut to its whole part and clamped at 0 and 255 |
| PaletteCache.AdjustMonotone | sw/dev/platform/m62/pal.cpp:227-243 | more contrast, brightness or level never makes a level darker, through truncation and clamping |
| PaletteCache.SameRgb15 | sw/dev/platform/m62/pal.cpp:245-248 | two colours share a 15-bit form if and only if the upper five bits of all components agree |
| PaletteCache.FieldsOfRgb15 | sw/dev/platform/m62/pal.cpp:245-248 | red, green and blue from the top, five bits each |
| PaletteCache.MarkBit | sw/dev/platform/m62/pal.cpp:273 | marking sets one bit of the map and no other |
| PaletteCache.MarkIs | sw/dev/platform/m62/pal.cpp:271-276 | which bit of which word marks an entry, and how the range is widened |
| PaletteCache.MarkOneMore | sw/dev/platform/m62/pal.cpp:271-276 | one more mark keeps map and range exactly those of the changes |
| PaletteCache.MarkNextTable | sw/dev/platform/m62/pal.cpp:270-276 | the marks of one more operation keep map and range exactly those of everything that ever changed |
| InitText.ReadHex | sw/dev/utils/xv2bin/xv2bin.cpp:18-29 | the value of the first digits, up to the end of the string |
| InitText.ByteRoundTrip | sw/dev/utils/xv2bin/xv2bin.cpp:18-29 | two upper-case digits read back as the byte they were printed for |
| InitText.Print | sw/dev/utils/bin2init/bin2init.cpp:48-59 | one line for every whole block of the file, in order, with the block reversed |
| InitText.LineText | sw/dev/utils/bin2init/bin2init.cpp:52-55 | a line from left to right: label, line number, arrow, quote, two digits for every byte from the last to the first, end |
| InitText.HexReads | sw/dev/utils/bin2init/bin2init.cpp:52 | a printed number reads back as itself, without a needless 0 in front |
| InitText.ReadLine | sw/dev/utils/xv2bin/xv2bin.cpp:46-77 | a line with an arrow and 64 quoted characters stores its row, any other line nothing |
| InitText.RowExactly | sw/dev/utils/xv2bin/xv2bin.cpp:48-58 | with two quotes or more a buffer gives a row if and only if it has an arrow and 64 characters between the first two |
| InitText.FgetsTakes | sw/dev/utils/xv2bin/xv2bin.cpp:41-42 | a buffer is the text up to the first line end, 255 characters at most |
| InitText.RowByte | sw/dev/utils/xv2bin/xv2bin.cpp:60-68 | a byte of a row is what its two characters stand for, also if they are no digits, cut to eight bits |
| InitText.StoreRow | sw/dev/utils/xv2bin/xv2bin.cpp:60-68 | the pairs are stored from the row's end to its start, the rest of the ROM stays |
| InitText.Read | sw/dev/utils/xv2bin/xv2bin.cpp:40-91 | the ROM holds the rows of all INIT lines of any text from its start, and zeros behind |
| InitText.LineRoundTrip | sw/dev/utils/bin2init/bin2init.cpp:52-55 | every printed line reads back as the block it was printed for |
| InitText.TextRoundTrip | sw/dev/utils/bin2init/bin2init.cpp:48-59 | the reader gets the blocks of the file from the printed text, in order, for as many lines as an int can count |
| InitText.RomRoundTrip | sw/dev/utils/xv2bin/xv2bin.cpp:40-91 | a file of up to 2048 bytes, printed and read, has its whole blocks at the start of the ROM and zeros behind |
| InitText.WholeFileIff | sw/dev/utils/bin2init/bin2init.cpp:49-57 | the file itself comes back if and only if its length is a multiple of 32 |
| Circle.Draw | sw/re/platform/appleii/loderun/gfx.cpp:871-894 | one point per row of the octant, connected, with 0 <= y <= x, less than r off in squared distance and less than one pixel off horizontally, and the least of its row that is; the octant is left exactly where the least is not in it any more |
| Circle.OctantUnique | sw/re/platform/appleii/loderun/gfx.cpp:871-894 | that leaves no choice: there is one such octant for a radius |
| Circle.RowsPlotted | sw/re/platform/appleii/loderun/gfx.cpp:878-885 | every row of the octant is plotted in all eight octants, in the order of the calls |
| Circle.Advance | sw/re/platform/appleii/loderun/gfx.cpp:886-893 | radiusError is x*x + y*y - r*r + 2y - 2x + 1 + r in every round, and the bound is kept |
| Circle.WithinOnePixel | sw/re/platform/appleii/loderun/gfx.cpp:871-894 | in the octant an error below the radius is an error below one pixel |
| Circle.EightfoldSymmetry | sw/re/platform/appleii/loderun/gfx.cpp:878-885 | the pixels are the same on both sides of both axes and both diagonals |
| Circle.EveryPixelIsNear | sw/re/platform/appleii/loderun/gfx.cpp:871-894 | every pixel in every octant is less than r off in squared distance |
| RunLength.Encode | sw/re/platform/appleii/loderun/gfx.cpp:312-345 | the pairs expand to the data, and two neighbouring pairs have the same byte only if the first is full |
| RunLength.Decode | sw/re/platform/appleii/loderun/gfx.cpp:361-385 | the decoder shows the expansion, a count of 0 standing for 256 |
| RunLength.PairShows | sw/re/platform/appleii/loderun/gfx.cpp:361-385 | a pair is the count, 0 for 256, and then the byte, which it shows that often |
| RunLength.CanonicalCode | sw/re/platform/appleii/loderun/gfx.cpp:312-345 | a text has only one code of maximal runs |

## Left out

- FatFile.File.Read: the byte count is an unbounded number; with the 16-bit UINT of a small target a read could not ask for more than 64K.
- FatTable.RunKeepsForest: calls in the middle of a chain other than creating behind it are not legal calls; the file operations do not make them.
- FatDir.Dir.ReadDir: names that print as empty (both fields begin with a space) are passed over, as the code does. Which faults cut the listing short is the device's choice, but for bad sectors.
- GeometryCopy.Convert: a sector that the input breaks off before is not determined; negative dimensions are not modelled.
- Gcr.Drive.OpenHelper: stops at the last of the 35 slots; the source's loop writes one more, outside its table.
- InitText.Read: texts with more than 64 INIT lines, which would overrun the ROM, and characters of value 0 are not modelled.
- PaletteCache.Palette.SetContrast: floats are reals, so rounding is not modelled; running out of memory in palette_alloc is not either.
- PaletteCache.Palette.MarkClients: the linked list of clients is a sequence without repetitions, a client's dirty words are a sequence it replaces; how clients are attached is not part of the repository.
- FAT32, FSInfo, Shift-JIS and NT-flag branches of tff.c: switched off in its configuration. The model has the file access of the shipped read-only configuration and the allocator of the writable one.
- MmcCard.Card.RcvrDatablock: with DMA the block is taken to have been stored when the function returns; SPI timing, the arguments of the commands and the CRC the driver discards are not modelled.
- FatMount.Mounted: the search for the partition and the check of its signature; the boot record's fields are given.
- f_open up to its last lines, trace_path: a directory entry's fields and a well-formed chain that covers the file's size are assumed.
- f_write, f_sync and the other calls that change files and directories: direct transfers bypass the window, so their coherence needs more than the source guarantees.
- The number of tracks in fdd_load (fddimage.c:51): division and multiplication associate the wrong way; the model takes any number. fdd_readadr is left out.
- SegaMux.FindMux: an image with a selector that no gate explains; the search then steps past the six gates, and need not end. find_mux2, try_mux2 and fdwarrio_decode are left out: the search changes one array and the evaluation reads another.
- Copying segments the other way (split.cpp without -w), and the loader, of which the model has its own: data records up to an FF record.
- The byte sink crc in chkrtf.cpp, whose comparison at line 162 has no effect, and the verbose output.
- Raw and padded output, filling and the G64 header options of d64toc.cpp; the raw-track table.
- Command lines, file names, file opening, Allegro drawing below the pixel, font and ROM tables, ROM splitters, the IDA loader, device drivers and emulator glue.

# Verified model of the storage code of the 1541 Ultimate firmware

This project models the code of the firmware that keeps data: the modified FatFs module, the group
code of the emulated 1541 drive and the task that writes its tracks back, the reader of D64 images,
the configuration page, the growing list with its comb sort, and the pair of tools that write and
read Intel HEX files. Each part is stated against a simple specification, and the specification is
proved for all inputs, all runs or all reachable states.

`dafny verify dfyconfig.toml` checks everything.

## How the parts fit together

FatFs is built in layers, each a class or a theory over the layer below:

* `FatTable`, `Chains`: the packed 12/16/28-bit table as a map, and a map as a set of disjoint chains.
* `Volume.FatFs`: one write-back window over the medium. The ghost field `view` is the medium as it
  is seen through the window; every operation is stated on `view` and on the table `fat` it holds.
* `FileView`, `LinkMap`, `FileIo.Fil`: an open file is an array of bytes and a position, whatever its
  private sector cache, direct transfers, growth and link map do. `FileRun`: any requests to any number
  of open files that share a volume, each answered as an array of bytes would.
* `Directory.Dir`, `LongName`, `DirName`: the cursor over entries, room for new ones, long names.
* `Allocation`: runs of allocations, growth and removals by many owners. `Mount`: what a mount accepts.
* `Pattern`: matching with `?` and `*`.

The others stand alone: `Gcr`, `GcrTrack`, `GcrEncode`, `GcrDecode` (a track written and found again
wherever the circle is cut), `WriteBack` (the poll task interleaved with the hardware), `IndexedList`,
`Hex`, `D64`, `Config`. `Bytes` holds words and 32-bit arithmetic.

## Where the code does less than one would expect

Each of these is a concrete input or an exact condition in the model.

* A mounted volume is soundly laid out if and only if no sum of the mount left 32 bits
  (`Mount.InitVolume`); `Mount.WrappedBootIsAccepted` is a boot sector that is mounted with its data
  area on top of its tables.
* `pick_lfn` needs one place more than the name and its terminator when the terminator is stored in
  an entry. A name is read back if and only if its length, plus one if it is no multiple of 13, is
  below `_MAX_LFN` (`LongName.PickLfn`, `DirName.RoundTrip`); with 255 a name of 254 characters is
  written but not read back (`LongName.LongestIsNotReadable`).
* The walk that creates a link map takes a last entry of exactly the next cluster's number for a
  link; it fails if and only if there is one (`FileIo.Fil.CreateLinkMap`, `LinkMap.LinksPastEnd`).
  `LinkMap.EndLooksLikeLink` is such a table; the end mark that `put_fat` writes is never one
  (`LinkMap.FarMarkIsNoLink`, `Mount.EndMarkEnds`).
* `put_fat` for FAT32 ors the reserved bits of the old entry with those of the value; they are kept if
  and only if every one of the value is among them (`FatTable.PutEntryKeepsReserved`).
* The streaming count of `fs_getfree` for FAT16 and FAT32 starts at entry 0; it is the number of free
  clusters if and only if the two reserved entries are not zero (`Chains.CountFromStart`).
* A count by cluster (FAT12) ends with an error at the first reserved value 1, and the count so far is
  stored as the number of free clusters. It is that number if and only if no free cluster lies behind
  a reserved value (`Chains.CountByClusterIsRight`); `Chains.ReservedHidesFree` is a table where it is
  not, and a table of chains has no such value (`Chains.PartitionIsCounted`). The result variable is
  not assigned when the stored count is returned and after a FAT12 count without an error
  (`Volume.FatFs.GetFree`).
* `create_chain` reports an error when it meets the reserved value 1 before a free cluster; on a
  table that consists of chains this cannot happen (`Chains.ScanIsComplete`).
* `get_track_sector` adds to the track passed in for a D64; it inverts `get_abs_sector` then if and
  only if 0 was passed (`D64.FileSystem` files do so when freshly opened; `D64.GetTrackSector`).
  Sector numbers of the first three zones are not compared with the size of the image: the visit marks
  cover all numbers if and only if the image has 598 sectors or more (`D64.MarksCover`), and with fewer the last
  sector of track 30 still has number 597 (`D64.LastFree`).
* Powering the drive clears ANYDIRTY; between polls this forgets a flagged track if and only if a flag
  is set and `write_skip` is zero (`WriteBack.PowerMayForget`); `WriteBack.PowerForgets` is a run of
  three steps from a mounted disk to such a state. A byte written on an odd half track sets a flag,
  but only even half tracks are stored, and a poll clears the flag (`WriteBack.OddHalfIsLost`).
* `find_sync` reads the byte at `end`, which is not one of the track, and then the buffer from its begin.
  A sector is lost if and only if the cut leaves three or four bytes of one of its sync marks at the end
  of the buffer, two or one at its begin, and that byte is not all ones; the next sector is then counted
  twice (`GcrDecode.ConvertTrackToBin`, `GcrDecode.Lost`, `GcrDecode.TornBytes`). A track cut at byte 3 is
  an example (`GcrDecode.TornFirstSector`), an uncut one never loses anything (`GcrDecode.UncutIsWhole`).
* `hex2bin` writes one byte more than its result. For a file that comes to its end record these are the
  bytes up to the highest one stored if and only if one was stored (`Hex.OutputIsExtent`); for the end
  record alone one fill byte is written (`Hex.EmptyFile`).
* The length limit of `bin2hex` is counted down line by line. It holds if and only if a line ends there,
  and otherwise all the data is written (`Hex.WriteHex`, `Hex.EndsLine`), as with a limit of 20 for 40
  bytes (`Hex.LimitWithinLine`).
* `ConfigStore::pack` counts its room from the end of the id, but for the whole block. It writes behind
  the block if and only if the end mark comes to lie there, or on the last byte behind which a record was
  dropped (`Config.Overruns`, `Config.ConfigStore.Pack`); `Config.FullBlock` is an example.

## Model

| member | source | states |
|---|---|---|
| Volume.FatFs.SyncWindow | trunk/software/chan_fat/ff2.c:658-682 | after it the medium holds what the view shows, a table sector in both copies; copies that agreed still agree |
| Volume.FatFs.MoveWindow | trunk/software/chan_fat/ff2.c:687-716 | the window is transparent: any sector shows its view, whatever was cached and changed before, and the view stays |
| FileIo.SectorNumber | trunk/software/chan_fat/ff2.c:763-771 | the 32-bit sum does not wrap on a sound volume: it is the sector of the file, not 0 and on the medium |
| Volume.FatFs.GetFat | trunk/software/chan_fat/ff2.c:781-827 | the entry of the table as a map, also for FAT12 entries over two sectors; 1 outside the table |
| Volume.FatFs.PutFat | trunk/software/chan_fat/ff2.c:836-889 | a map update: this entry becomes the value cut to its width, no other changes, no sector outside the table changes |
| FatTable.PutEntryIsUpdate | trunk/software/chan_fat/ff2.c:836-889 | the byte stores change exactly one entry, also of neighbours that share a byte |
| FatTable.PutEntryKeepsReserved | trunk/software/chan_fat/ff2.c:873-881 | the top four bits of a FAT32 entry survive exactly the values whose own are among them, so every value below 2^28 |
| FatTable.PackedEntries12 | trunk/software/chan_fat/ff2.c:796-806 | four entries in six bytes |
| Chains.ChainIsAcyclic | trunk/software/chan_fat/ff2.c:900-942 | a list of links that ends visits no cluster twice |
| Chains.StretchedPartition | trunk/software/chan_fat/ff2.c:986-1000 | allocation appends one free cluster to one chain, and all chains stay disjoint and acyclic |
| Chains.RemovedChain | trunk/software/chan_fat/ff2.c:916-938 | the removal walk frees exactly the clusters of the chain |
| Chains.RemovedPartition | trunk/software/chan_fat/ff2.c:916-938 | the other chains are what they were |
| Volume.FatFs.RemoveChain | trunk/software/chan_fat/ff2.c:900-942 | ends on every table; a right free count stays right with every cluster given back, an unknown one unknown |
| Volume.FatFs.CreateChain | trunk/software/chan_fat/ff2.c:953-1003 | the next free cluster behind the start is marked and linked, or nothing changes; a right free count stays right, an unknown one unknown |
| Volume.FatFs.FindFree | trunk/software/chan_fat/ff2.c:962-986 | the wrap-around scan ends and visits every cluster |
| Chains.ScanIsComplete | trunk/software/chan_fat/ff2.c:953-986 | "no free cluster" exactly if no entry is zero, that is if the number of free ones is |
| Chains.GrownFree | trunk/software/chan_fat/ff2.c:986-1000 | a chain pays for every new cluster with a free one |
| Chains.RemovedFree | trunk/software/chan_fat/ff2.c:916-938 | a removal gives all clusters of the chain back |
| Allocation.NewChain | trunk/software/chan_fat/ff2.c:953-1003 | one more chain of one cluster that was free, or nothing exactly if none is free |
| Allocation.GrowChain | trunk/software/chan_fat/ff2.c:953-1003 | one chain longer by one cluster that was free, all others as before, or nothing exactly if none is free |
| Allocation.DropChain | trunk/software/chan_fat/ff2.c:900-942 | one chain less, its clusters free, all others as before |
| Allocation.Run | trunk/software/chan_fat/ff2.c:900-1003 | after any run the chains are what the operations make of them, disjoint from each other and from those of others; no cluster is lost, and an operation is refused exactly when the chains hold all clusters that were free at the start |
| Volume.FatFs.GetFree | trunk/software/chan_fat/ff2.c:3449-3505 | the stored count, or the count by cluster up to a reserved value (FAT12) or straight over the table sectors, with the result of each, and what is stored |
| Chains.CountByClusterIsRight | trunk/software/chan_fat/ff2.c:3471-3478 | the count by cluster is the number of free clusters exactly if none lies behind a reserved value |
| Chains.PartitionIsCounted | trunk/software/chan_fat/ff2.c:3471-3478 | which is so on every table of chains |
| Chains.ReservedHidesFree | trunk/software/chan_fat/ff2.c:3471-3478 | a table with one free cluster of which none is counted |
| Volume.FatFs.CountBySector | trunk/software/chan_fat/ff2.c:3476-3500 | streaming over sectors counts what following the entries one by one counts |
| Chains.CountFromStart | trunk/software/chan_fat/ff2.c:3476-3500 | exactly when that is the number of free clusters |
| FileView.DirectReadIsContent | trunk/software/chan_fat/ff2.c:2637-2654 | a direct transfer with a dirty cached sector patched in is the file's content |
| FileView.DirectWriteIsOverwrite | trunk/software/chan_fat/ff2.c:2756-2777 | a direct transfer with the cached sector refilled overwrites exactly its bytes |
| FileIo.Fil.Read | trunk/software/chan_fat/ff2.c:2592-2680 | the next bytes of the abstract content, as many as asked for and left; the content stays |
| FileIo.Fil.Write | trunk/software/chan_fat/ff2.c:2693-2806 | exactly the bytes from the position on are replaced, by all the data or on a full disk by a prefix that fills the last cluster; nothing outside the file and its new free clusters changes |
| FileIo.Fil.SyncData | trunk/software/chan_fat/ff2.c:2826-2850 | afterwards every byte of the file is on the medium and its size and start cluster in the directory entry; a file without the mark needs and gets nothing |
| FileRun.Run | trunk/software/chan_fat/ff2.c:2592-3182 | any requests to any number of open files: each is answered as an array of bytes with a position answers it, the other files stay as they are, a sync stores the size, the two tables stay equal, and the run is cut short only for a reserved value in the table |
| FileRun.StepIsDetermined | trunk/software/chan_fat/ff2.c:2592-3182 | the answer, the position, the growth and the free clusters are fixed by the state before: only the bytes a seek adds are open |
| FileRun.WrittenIsRead | trunk/software/chan_fat/ff2.c:2592-3182 | what was written is read again after a seek back, all other bytes are as before |
| FileRun.Bystander | trunk/software/chan_fat/ff2.c:2592-3182 | a call on one file leaves every other open file valid with its content |
| FileRun.OpenAll | trunk/software/chan_fat/ff2.c:2560-2575 | files opened from entries with disjoint chains share the volume as every run asks for |
| FileRun.SyncAll | trunk/software/chan_fat/ff2.c:2826-2850 | after any run, syncing leaves nothing that is not on the medium and in the directory entries |
| LinkMap.FollowIsIndex | trunk/software/chan_fat/ff2.c:781-827 | following the table k times from the first cluster gives cluster k of the chain |
| LinkMap.EndLooksLikeLink | trunk/software/chan_fat/ff2.c:3061-3068 | a table whose end mark is taken for a link |
| LinkMap.TwoRuns | trunk/software/chan_fat/ff2.c:3053-3078 | the table of a chain of two runs, item by item |
| FileIo.Fil.ClmtClust | trunk/software/chan_fat/ff2.c:1015-1032 | the link map gives the same cluster for every offset, and 0 behind the chain |
| FileIo.Fil.CreateLinkMap | trunk/software/chan_fat/ff2.c:3053-3078 | a table that maps the chain, or the size needed with nothing written behind the stated size; fails exactly on a last entry that looks like a link |
| FileIo.Fil.AttachLinkMap | trunk/software/chan_fat/ff2.c:3050-3053 | a created table can be used, and the content is the same |
| FileIo.Fil.Seek | trunk/software/chan_fat/ff2.c:3036-3182 | from the current cluster, from the start or by link map, the position is the clipped target and the invariant fixes cluster and cached sector; the chain grows just enough or the disk is full; a file that became longer is marked as written |
| Directory.Dir.Sdi | trunk/software/chan_fat/ff2.c:1042-1080 | the cursor at exactly the entry asked for, an error exactly behind the table's end |
| Directory.Dir.Next | trunk/software/chan_fat/ff2.c:1090-1150 | the cursor at the next entry; at the end nothing, or the table longer by zeros with all old entries kept |
| Directory.Dir.SdiBySteps | trunk/software/chan_fat/ff2.c:1042-1150 | stepping from the first entry leads to the state that setting the index leads to, also in the fixed root table |
| Directory.Dir.Stretch | trunk/software/chan_fat/ff2.c:1116-1132 | one free cluster more, all zero, and no free cluster exactly as the scan says |
| Volume.FatFs.ClearCluster | trunk/software/chan_fat/ff2.c:1122-1132 | exactly the sectors of the cluster become zero, through a window that is moved without being read |
| Directory.Dir.Alloc | trunk/software/chan_fat/ff2.c:1161-1186 | the first run of free entries, which were free before; refused only when there is none and no room for more |
| LongName.FitLfn | trunk/software/chan_fat/ff2.c:1300-1325 | part of a name with terminator and filler, the last part marked |
| LongName.PickLfn | trunk/software/chan_fat/ff2.c:1267-1295 | which entries are taken, whatever they hold; a part of a name goes back to its place, and the last one fails exactly if the name is not readable |
| LongName.OneCharacter | trunk/software/chan_fat/ff2.c:1397-1406 | changing one character of the short name changes the sum |
| LongName.ExchangeChanges | trunk/software/chan_fat/ff2.c:1397-1406 | exchanging two different neighbours changes it, but for intermediate sums 0x00 and 0xFF |
| DirName.PartsCarrySum | trunk/software/chan_fat/ff2.c:1586-1594 | byte 13 of every part is the sum of the short name, 0x91 for AB and nine blanks, 0x51 for BA |
| DirName.OtherSlots | trunk/software/chan_fat/ff2.c:1570-1601 | a change of one entry of a sector changes no other entry of the directory |
| DirName.Register | trunk/software/chan_fat/ff2.c:1566-1607 | the parts of the name in front of the short entry, over sectors and clusters; all other entries kept, only free ones taken |
| DirName.Read | trunk/software/chan_fat/ff2.c:1478-1526 | comes to the short entry behind anything it passes over; a long name is tied to it exactly if the parts directly in front, its own or left over, are whole, in order, fitting and of its sum, and its own is in the buffer |
| DirName.RoundTrip | trunk/software/chan_fat/ff2.c:1478-1607 | a registered name, long or short only, is read back, a long one tied to its short entry if and only if it is readable; otherwise there was no room or the table is broken |
| Mount.InitVolume | trunk/software/chan_fat/ff2.c:2259-2309 | which volumes are mounted, with which numbers, and that their layout is sound exactly if nothing wrapped |
| Mount.AcceptedIsSound | trunk/software/chan_fat/ff2.c:2282-2309 | without a wrap the tables, root directory and clusters lie one behind the other and hold every entry |
| Mount.SoundIsNoWrap | trunk/software/chan_fat/ff2.c:2282-2309 | and only then |
| Mount.SoundLayout | trunk/software/chan_fat/ff2.c:2293-2309 | data sectors of clusters are distinct, on the medium, outside tables and root directory |
| Mount.WrappedBootIsAccepted | trunk/software/chan_fat/ff2.c:2265-2309 | a volume that is mounted although its tables wrap |
| Mount.FloppyIsMounted | trunk/software/chan_fat/ff2.c:2259-2309 | a disk of 1.44 MB from the bytes of its boot sector |
| Mount.CardIsMounted | trunk/software/chan_fat/ff2.c:2259-2309 | a FAT32 card behind a partition table |
| Pattern.PatternMatching | trunk/software/chan_fat/ff2.c:1755-1792 | true exactly if the whole name matches, and it ends |
| Pattern.SameLetter | trunk/software/chan_fat/ff2.c:1786-1788 | letters match in both cases, and below 0x80 nothing else does; from 0x80 on characters with one upper case in the code page |
| Pattern.Attempt | trunk/software/chan_fat/ff2.c:1772-1788 | one round of the shift loop, and what a failure at the end of the name means |
| Gcr.Decode5OfEncode4 | trunk/software/drive/disk_image.cc:150-170 | four bytes survive the group code |
| Gcr.EncodedBits | trunk/software/drive/disk_image.cc:150-170 | two groups of four bytes as the drive writes them |
| Gcr.FFInBlock | trunk/software/drive/disk_image.cc:150-170 | so no block holds two such bytes in a row |
| GcrTrack.QuietBehindData | trunk/software/drive/disk_image.cc:199-266 | nothing that looks like a sync mark from one data block to the next header, over the track's end too |
| GcrEncode.ConvertTrack | trunk/software/drive/disk_image.cc:172-267 | the specified circle of bytes in place, nothing else changed; read back, every sector has its marks, a header with sector, track and id and a data block with its contents, both of parity zero |
| GcrTrack.TrackIsFormatted | trunk/software/drive/disk_image.cc:172-267 | the same of the specified circle |
| GcrTrack.PlaceInImage | trunk/software/drive/disk_image.cc:742-753 | the drive keeps a track where the file system of the image looks for its sectors (filesystem_d64.cc:43-111), and as many of them |
| GcrTrack.ZoneExamples | trunk/software/drive/disk_image.cc:43-67 | the lengths of the four zones, the size of an image and the place of its id |
| GcrDecode.FindSync | trunk/software/drive/disk_image.cc:269-292 | the byte behind the first mark of three bytes or more in reading order, and NULL exactly if there is none |
| GcrDecode.AheadIsFirst | trunk/software/drive/disk_image.cc:269-292 | a mark that lies ahead on the circle is that first one, or, split by the end with another byte than all ones there, its first part is |
| GcrDecode.FirstMarkIn | trunk/software/drive/disk_image.cc:343-375 | the first mark seen for every place of the cut |
| GcrDecode.ConvertTrackToBin | trunk/software/drive/disk_image.cc:343-445 | for every cut and any byte behind the buffer all sectors unchanged, but for the one of a torn mark that the byte does not join, which keeps what was there before; the contents are whole exactly then |
| GcrDecode.TornBytes | trunk/software/drive/disk_image.cc:269-292 | a mark is torn exactly if the last three bytes and the first are all ones and the second or third is not |
| GcrDecode.UncutIsWhole | trunk/software/drive/disk_image.cc:454-456 | an uncut track loses nothing, whatever follows it |
| GcrDecode.TornFirstSector | trunk/software/drive/disk_image.cc:343-445 | a cut that loses the first sector |
| GcrDecode.Rotated | trunk/software/drive/disk_image.cc:709-736 | the shift by any number of bytes and the decoding, with what followed the track at its end |
| GcrDecode.RoundTrip | trunk/software/drive/disk_image.cc:679-740 | the module's own test for every content, every disk id and every rotation: with a track of its zone behind it, a track comes back whole |
| WriteBack.RunKeepsInv | trunk/software/drive/c1541.cc:531-584 | under any interleaving a changed track is flagged or being written, and a flag is announced or still ahead of the loop |
| WriteBack.QuietMeansSaved | trunk/software/drive/c1541.cc:552-556 | nothing announced between polls means the file holds every track |
| WriteBack.OnePollSaves | trunk/software/drive/c1541.cc:552-583 | one poll with the motor off stores every track, with it on every track the head stays away from |
| WriteBack.BusyIsSkipped | trunk/software/drive/c1541.cc:557-582 | a poll during which the motor runs with the head on a track leaves its place in the file alone, its flag set and write_skip not zero |
| WriteBack.QuietPoll | trunk/software/drive/c1541.cc:552-583 | what an undisturbed poll with the motor off leaves of flags, ANYDIRTY and write_skip |
| WriteBack.DriveWrites | trunk/fpga/1541/vhdl_source/drive_registers.vhd:60-96 | the drive writes only with the motor on in writing mode, one byte under the head, and sets no flag but that of its track |
| WriteBack.PollEnds | trunk/software/drive/c1541.cc:557-582 | a started poll ends within a bounded number of its own steps, whatever the drive does |
| WriteBack.PowerMayForget | trunk/software/drive/c1541.cc:210-216 | exactly when powering the drive loses a flagged track |
| WriteBack.PowerForgets | trunk/software/drive/c1541.cc:210-216 | a run after which it does |
| WriteBack.OddHalfIsLost | trunk/software/drive/c1541.cc:557-582 | a poll clears the flag that a byte on an odd half track set, and no run stores that byte |
| IndexedList.List.Append | trunk/software/components/indexed_list.h:89-99 | one item more, unmarked even where a mark was left |
| IndexedList.List.Remove | trunk/software/components/indexed_list.h:101-117 | the first equal element is gone with its mark, the others close up in order |
| IndexedList.List.PurgeList | trunk/software/components/indexed_list.h:73-87 | exactly the unmarked items in their order |
| IndexedList.List.Pass | trunk/software/components/indexed_list.h:185-190 | a pass keeps the items, and with gap one removes an inversion by each swap |
| IndexedList.SwapRemovesInversion | trunk/software/components/indexed_list.h:185-190 | exchanging neighbours out of order removes exactly one inversion |
| IndexedList.List.Sort | trunk/software/components/indexed_list.h:161-192 | ends, and leaves the same items with their marks in order |
| IndexedList.PurgeAfterReorder | trunk/software/components/indexed_list.h:73-87 | a purge after sorting drops what it would have dropped before |
| Hex.ReadHexFile | trunk/tools/hex2bin.c:57-190 | what the records of any text do to the buffer, missing digits read as zero, and as many complaints as records read do not sum to zero |
| Hex.ParsedSpelled | trunk/tools/hex2bin.c:57-92 | the records of a text are those that were written, with anything but colons in front of, between and behind them |
| Hex.WriteHex | trunk/tools/bin2hex.c:189-224 | the text of the records of the data up to the limit exactly if a line ends there, else of all the data |
| Hex.RecordsAreProper | trunk/tools/bin2hex.c:189-220 | every record sums to zero and no data record crosses a 64K segment |
| Hex.SegmentExample | trunk/tools/bin2hex.c:195-210 | a segment record, byte by byte |
| Hex.DataExample | trunk/tools/bin2hex.c:206-220 | a data record, byte by byte |
| Hex.AddressExamples | trunk/tools/hex2bin.c:112-177 | what segmented and extended address and data records do |
| Hex.ReadsRecords | trunk/tools/hex2bin.c:129-177 | the records put every byte to its address |
| Hex.RoundTrip | trunk/tools/bin2hex.c:189-224 | what one tool prints, with any limit, the other reads back |
| Hex.OutputIsExtent | trunk/tools/hex2bin.c:57-311 | the size of the output is the number of bytes up to the highest one stored exactly if one was stored, for a file that comes to its end record |
| Hex.EmptyFile | trunk/tools/hex2bin.c:57-311 | one byte is written for a file that stores none |
| D64.GetAbsSector | trunk/software/filesystem/filesystem_d64.cc:43-111 | the sectors of all tracks in front plus the sector, in all image modes |
| D64.AbsIsInjective | trunk/software/filesystem/filesystem_d64.cc:43-111 | no two places have one number |
| D64.KnownPlaces | trunk/software/filesystem/filesystem_d64.cc:43-111 | places of all three kinds of image |
| D64.GetTrackSector | trunk/software/filesystem/filesystem_d64.cc:113-169 | its inverse, and for a D64 exactly from track 0 |
| D64.MarksCover | trunk/software/filesystem/filesystem_d64.cc:43-111 | the numbers of all places lie within the image exactly if it has 598 sectors or more |
| D64.FileWalkIsWalk | trunk/software/filesystem/filesystem_d64.cc:565-576 | the chain of a file up to its last sector, a bad link or a sector seen before |
| D64.ContentSize | trunk/software/filesystem/filesystem_d64.cc:596-602 | 254 bytes for every sector, of the last one as many as its second byte is more than 1 |
| D64.FileInD64.Open | trunk/software/filesystem/filesystem_d64.cc:530-554 | at the first byte of its chain |
| D64.FileInD64.Read | trunk/software/filesystem/filesystem_d64.cc:578-638 | the next payload bytes of its own chain; an error exactly where a broken chain ends |
| D64.Interleave | trunk/software/filesystem/filesystem_d64.cc:578-638 | reads of many files in any order and slices each give their own bytes |
| Config.ConfigItem.Pack | trunk/software/components/config.cc:394-441 | the record of the item, in its bounds or not, or without room nothing but its id and type |
| Config.ConfigItem.Unpack | trunk/software/components/config.cc:361-392 | the setting of a record: ignored for another type, default out of bounds, cut to size |
| Config.ConfigStore.Pack | trunk/software/components/config.cc:166-187 | the page of all records there is room for, with its end mark, and exactly when bytes behind the block are written |
| Config.FittingAreKept | trunk/software/components/config.cc:166-187 | records that fit with their end mark are all kept, within the block |
| Config.FullBlock | trunk/software/components/config.cc:166-187 | a block whose end mark lies behind it |
| Config.ConfigStore.Unpack | trunk/software/components/config.cc:210-236 | every record of any page, up to its end mark, its end or a length that leaves it, goes to the items with its id |
| Config.PackedPage | trunk/software/components/config.cc:166-236 | of a packed page these are the records of the items |
| Config.ConfigStore.CheckBounds | trunk/software/components/config.cc:320-336 | numbers at the nearer bound, dirty exactly if one changed |
| Config.ClampIsNearest | trunk/software/components/config.cc:320-336 | the number in the bounds that is nearest |
| Config.RecordSets | trunk/software/components/config.cc:361-441 | packing and unpacking one item gives its value or text if the reader can hold it |
| Config.RecordExamples | trunk/software/components/config.cc:394-441 | records of numbers and of a text, byte by byte |
| Config.PageRestores | trunk/software/components/config.cc:166-236 | with unique ids every common item of the same kind is restored, and the others keep theirs |
| Config.Reload | trunk/software/components/config.cc:166-336 | packing one store and reading the page with another, of the same or of other definitions: what every item holds then, of another kind or out of its bounds too |

## Left out

- Configuration: one build of FatFs is modelled: sectors of 512 bytes, read and write, byte-wise words, long names, fast seek and find, a single-byte code page, `_FS_RPATH` 0, `_MAX_LFN` 255. `x & (csize - 1)` is written as a remainder, as a mount accepts powers of two only.
- Disk errors: a transfer succeeds exactly if its sectors are on the medium; what is left behind by a failed transfer is not modelled.
- Volume.FatFs.SyncWindow: the ignored result of the copy's write is not modelled, as it cannot fail on a sound volume.
- FileIo.Fil.Write: after a reserved table entry was met the error is lasting and the position may be behind the size; the contents are then not described.
- FileIo.Fil.SyncData: the directory entry is its size and start cluster; its place in the directory, archive bit, time stamps and the FSINFO sector are not modelled.
- FileIo.Fil.AttachLinkMap: the source sets the pointer before the table is created; the model attaches a table that was created successfully, of a file with at least one cluster, as an empty file outgrows its table with the first byte written.
- DirName.Register: the numbered short names for names out of 8.3 format and the search for collisions come before it and are not modelled.
- DirName.Read: reading volume labels and the filling of the caller's file information are not modelled; what the name buffer holds is described for the own name of an entry.
- Opening by path, renaming, unlinking, truncating, formatting, file locking and `dir_find` are not modelled.
- Pattern.PatternMatching: double-byte code pages and Unicode names are not modelled.
- GcrDecode.ConvertTrackToBin: tracks without any sync mark or not written by the encoder, on which alone the loop ends at its second turn, and the status bytes are not modelled; the decoder registers are taken as the inverse of the code table.
- GcrEncode.ConvertTrack: tracks with injected error codes are not modelled, and the hardware encoder is taken to compute what the software path computes.
- WriteBack.RunKeepsInv: write-backs succeed and store a function of the track: the track itself for a G64 without alignment, its decoded sectors for a D64; tracks that share memory are not modelled, and a clock cycle of the hardware is one step.
- IndexedList.List.Sort: elements are values with a fixed comparison; the arithmetic on the gap is unbounded.
- Hex.ReadHexFile: records hold at most 59 bytes, as longer ones do not fit the reader's buffer; record structures are not written.
- Hex.WriteHex: word mode, length headers, appending and input offsets are not modelled.
- D64.FileInD64.Read: writing and seeking in D64 files and reading directories are not modelled; after an error a file is not read any more.
- Config.Reload: pages that are written behind the block are not read back; change hooks and the choice of a flash page are not modelled.
- Network, menu, cartridge and audio code, boards and linkers: not modelled.

# cphf in Dafny

cphf lists files that were deleted while a process still holds them. It reads lsof's record stream
into a map of processes and their files, adds attributes from `/proc` and `stat` to both, and prints
them under labels. This project models the program below the system calls and proves what its
parts promise, up to a verified `Cphf.Cphf` that runs options, readers, queue and printing on objects.

How the pieces fit:

- `Files` has the two classes (`ProcFile`, `UnlinkedFile`) and the map that the readers share
  (`ProcMap`). Every object carries ghost keys and the map a ghost table, so each method says what it
  does to one value, `ProcMap.table`. `LsofReader.BufferedRead`, `ProcReader.DoRead`,
  `FileStatReader.DoRead`, `ProcFileEntryBuilder.Build` and `FlattenMap` are the source's loops over
  these objects, proved equal to functions on tables.
- `LsofStream`, `LsofGrouping` and `FileIds` are about the record stream: reading it, what the map
  built from it is, and the ids and paths of its files.
- `Pipeline`, `Labels`, `Plan`, `Flatten` and `Canonical` are about whole runs: attribute lists,
  labels, options, print queue. `Printed` says what the output of a run shows, with literal labels and
  in terms of what the system answered.
- `DeviceIndex`, `DriversTable` and `DeviceText` are the device range index, the file it is built
  from, and the two together.
- `Numerals`, `Formatting`, `Paths` and `LinkBuffer` are the renderers, each with a reader of its own
  that says what a text means (`ReadNumber`, `ReadAddresses`, `ParseHms`, `ReadPath`), and the growing
  link buffer.

What the operating system answers enters as data: the bytes lsof writes, a `ProcInfo` per pid, a
`FileInfo` per path, the clock tick, the text of `/proc/tty/drivers`, a link target, and the first
synthetic id (`ULF_TXT_FD`).

Reading guide to the assumptions:

- `LsofReader.WellFormed`: every `f` record has a `p` record before it and every `G` record an `f`
  record; otherwise the source uses a null pointer.
- `FileIds.Fits`: real descriptors are not negative and at most `ULF_TXT_FD`, and `ULF_TXT_FD` plus
  the number of txt records is below 2^31. This is not always so: `init_TxtFD` yields 0 when the limit
  is unknown or infinite, because both sums wrap (`FileIds.InitTxtFdBounds`), and then files can be
  lost and the wrong path read (`FileIds.UnknownLimitLosesFile`). Only `KeysUnderFits` and `PathsAgree`
  assume it. `FileIds.OwnStoredExactly` and `FileIds.StoredCountExactly` say exactly when nothing is
  lost.
- Two paths are formed for a file. The constructor's one, from 64-bit numbers, is stored and never
  read; `FileIds.ClassifiedExactly` says exactly when it marks the txt records. The one that stat is
  asked about is formed later from the `int` keys; `FileIds.RecomputedExactly` says exactly when that
  one marks them: under `FileIds.SeparatedKeys` (real descriptors, in 32 bits, at most `ULF_TXT_FD`,
  and the counter below 2^32). `FileIds.RoomAbove` is the exact condition for txt keys to sort last.
- `Plan.AllPass`: both option strings in effect pass `checkOptions`. `main` does not make sure of
  that, since a later option overwrites the flag; `Plan.FlagsOkayExactly` says when it does.

Where the code and its texts differ, the code is followed: the usage text offers the proc option `!`
(README:16), which `checkOptions` rejects; a comment says the link buffer is doubled
(src/FileStatReader.cpp:92), it is quadrupled; the flags text of a `G` record is always empty, because
the string buffer is filled in the other two cases only (src/LSOFReader.cpp:124).

## Model

| member | source | states |
|---|---|---|
| LsofStream.StreamRoundTrip | src/LSOFReader.cpp:109 | Writing records one a line and reading them with the `%c%s\n` loop gives the same records, whatever the buffer held before, exactly when every value is a non-empty word without NUL and no tag after the first is white space; the one other stream that survives is a single blank record. |
| LsofStream.SeenIsReadable | src/LSOFReader.cpp:109 | On any input at all the loop sees only values without white space or NUL and non-blank later tags, and no empty value if the input holds no NUL, but for a first read that finds no word and shows the old buffer. |
| Numerals.AtoiOfNumeral | src/LSOFReader.cpp:119 | `atoi` undoes decimal rendering, up to the 32 bits of an `int`. |
| Numerals.AtoiOfNoNumber | src/LSOFReader.cpp:119 | A text with no digit where a number would start, behind white space and one sign, reads as 0. |
| Numerals.AtoiReads | src/LSOFReader.cpp:119 | Every other text (white space, a sign or none, digits, a rest that starts with no digit) reads as the signed number, up to the 32 bits of an `int`. |
| Numerals.NumberReadsBack | src/CPHFReader.cpp:124-128 | A digit-by-digit reader accepts a text for a number, in base 10 or 16, exactly when it is the numeral the stream writes for it. |
| Common.SpaceCodes | src/LSOFReader.cpp:109 | The white space of the C locale: the codes 9 to 13 and 32. |
| Common.NarrowingChain | src/ProcFile.cpp:59-60 | An id cut to `unsigned int`, then to an `int` key, and back is the id modulo 2^32; numbers that fit an `int` come through unchanged. |
| Files.UnlinkedFile.constructor | src/UnlinkedFile.cpp:36-52 | The new file has a path that is read as the given process and its given descriptor, or its executable for an id above ULF_TXT_FD; the low 32 bits of both numbers; and no attributes. |
| Files.UnlinkedFile.AddAttribute | src/UnlinkedFile.cpp:55-67 | The whole new value of the file: a file name goes in front, anything else at the end. |
| Files.ProcFile.AddAttribute | src/ProcFile.cpp:38-50 | The whole new value of the process: a PID also sets the pid, a command goes in front, anything else at the end; the files stay. |
| Files.ProcFile.AddFile | src/ProcFile.cpp:56-61 | Inserts under the narrowed key unless the key is there, and returns the object that is stored, new or old. |
| Files.ProcMap.Enter | src/LSOFReader.cpp:128-129 | Finds the process of a key or makes it; all other entries are the same objects as before. |
| LsofReader.Run | src/LSOFReader.cpp:87-140 | In every reachable state the current process is the latest process record's and is in the map, and there is a current file, in the map, exactly when a file record was seen. |
| LsofReader.RunPointers | src/LSOFReader.cpp:93 | In every reachable state the counter is the first synthetic id plus the number of txt records seen (modulo 2^64), and the current file is where the latest file record was put. |
| LsofReader.EnterFile | src/LSOFReader.cpp:113-122 | A file record on the objects is the file step of the value machine: the stored object (new or old) becomes the current one, and the counter moves for a txt record. |
| LsofReader.Dispatch | src/LSOFReader.cpp:113-132 | One turn of the loop on the objects is one step of the value machine: map, both current objects, counter and pid. |
| LsofReader.BufferedRead | src/LSOFReader.cpp:87-140 | The loop over the byte stream leaves the object map at the value the machine reaches on all records of the stream. |
| LsofGrouping.GroupingHolds | src/LSOFReader.cpp:109-138 | From an empty map, the final map is the declarative grouping: its keys are the pid values; a file is stored under (k, f) exactly when some file record has latest pid k and key f, also when k recurs; the object stored is the one of the first such record; process and flags attributes are those of the records in stream order. |
| LsofGrouping.GroupingUnique | src/LSOFReader.cpp:109-138 | That description admits one map only. |
| LsofGrouping.IdentityHolds | src/LSOFReader.cpp:126-131 | Every process's pid is its key and it has a PID attribute; every file's pid and id are its two enclosing keys (as `unsigned int`). |
| Canonical.PidAttrsCount | src/LSOFReader.cpp:130 | The PID attributes of a process are as many as its process records. |
| Canonical.PidAttrsContents | src/LSOFReader.cpp:127-131 | They are the texts of the `p` records with this number. |
| Canonical.FlagAttrsContents | src/LSOFReader.cpp:124-125 | A file's flags attributes are empty, one kind only, and there exactly if a `G` record came while the file's place was the current one. |
| FileIds.InitTxtFdBounds | src/ProcFileEntryBuilder.cpp:26-35 | For every limit, the largest descriptor under it is at most ULF_TXT_FD exactly when the limit is not infinite; an infinite or unknown limit gives 0. |
| FileIds.LimitFits | src/ProcFileEntryBuilder.cpp:26-30 | For a finite limit above all real descriptors, the size assumption `Fits` holds exactly when the limit plus one plus the number of txt records is below 2^31. |
| FileIds.KeysUnderFits | src/LSOFReader.cpp:113-122 | Under the size assumption (`Fits`), txt keys are the numbers after ULF_TXT_FD in stream order and real keys the descriptors read; a key exceeds ULF_TXT_FD exactly for a txt record. |
| FileIds.TxtIdsDistinct | src/LSOFReader.cpp:116-117 | In every stream, two synthetic ids are equal exactly when a multiple of 2^64 txt records lies between them, and their keys exactly when a multiple of 2^32 does; the ids grow strictly along the stream, over all processes, if the counter does not wrap. |
| FileIds.TxtKeysGrowExactly | src/LSOFReader.cpp:116-117 | In every stream, the txt keys grow strictly along it if and only if counting on from the first one, as an `int`, does not pass the largest `int`. |
| FileIds.TxtKeysLastExactly | src/ProcFile.cpp:59-60 | In every stream, every txt key exceeds all real keys and all earlier txt keys if and only if, besides, the first one exceeds every real descriptor. |
| FileIds.RecomputedExactly | src/ProcFile.cpp:63-69 | The paths formed from the keys, which stat is asked about, name the executable exactly for the txt records if and only if every real descriptor is, in 32 bits, at most ULF_TXT_FD and ULF_TXT_FD plus the number of txt records (if there are any) is below 2^32. |
| FileIds.AskedExactly | src/ProcFile.cpp:63-69 | Stat is asked, for every file record, about its own descriptor, or the executable for a txt, of the process, if and only if that same condition holds. |
| FileIds.AskedForStored | src/FileStatReader.cpp:162-172 | So in a run, under it, the path formed for every stored file is read as the pid of its process record and the descriptor of its file record, or the executable for a txt. |
| FileIds.KeyAtIsFileKey | src/LSOFReader.cpp:113-122 | The key a file record is stored under, read off the stream: the descriptor itself, or for a txt record the first synthetic id plus the number of txt records before it, as an `int`. |
| FileIds.OwnStoredExactly | src/ProcFile.cpp:56-61 | In every well-formed stream, a file record's own object is stored exactly when no earlier file record of its process has its key, and then it is the object the run ends with. |
| FileIds.TxtNeverDropped | src/ProcFile.cpp:56-61 | When the keys tell txt records from real ones (`SeparatedKeys`), every txt record's own file object is the one stored. |
| FileIds.WordRecordsShareKey | src/LSOFReader.cpp:119 | Names without a number, such as `cwd` and `mem`, share key 0, so a process keeps only the first such record. |
| FileIds.StoredCountExactly | src/LSOFReader.cpp:113-122 | In every well-formed stream, and for every ULF_TXT_FD, the stored files number the txt records plus the distinct pairs of pid and descriptor if and only if no txt record has the process and key of another file record. |
| FileIds.StoredCount | src/LSOFReader.cpp:113-122 | That number is reached when the keys tell txt records from real ones (`SeparatedKeys`): nothing is lost or made up. |
| Paths.PathReadsBack | src/FileStatReader.cpp:65-77 | A reader of /proc paths takes a text for a process and its descriptor or executable exactly when it is the path formed for these. |
| Paths.FormPathKind | src/FileStatReader.cpp:65-77 | A path ends in `/exe` exactly when its id exceeds ULF_TXT_FD. |
| Paths.FormPathInjective | src/FileStatReader.cpp:65-77 | Two paths are equal exactly when they name one process and either both its executable or both one descriptor. |
| FileIds.PathThroughKeys | src/UnlinkedFile.cpp:36-52 | The path made at construction and the one formed later from the `int` key are equal exactly when the pid is not negative and the cut to 32 bits keeps the id's side of ULF_TXT_FD (and its value, for a descriptor). |
| FileIds.PathsAgree | src/ProcFile.cpp:63-69 | Over a run that fits (`Fits`), a stored file's path equals the one formed later from its process's pid and its key exactly when the pid is not negative, and it names the executable exactly when the record was a txt. |
| FileIds.ClassifiedExactly | src/UnlinkedFile.cpp:44-48 | The paths made by the constructor, from the 64-bit ids, name the executable exactly for the txt records if and only if every real descriptor is, in 64 bits, at most ULF_TXT_FD and the 64-bit counter does not wrap. |
| FileIds.UnknownLimitLosesFile | src/ProcFileEntryBuilder.cpp:31-33 | With the error branch's 0, a concrete stream loses the file of descriptor 1 to the executable, and the path formed from that descriptor's key is the executable's. |
| FileIds.SampleRun | src/LSOFReader.cpp:87-140 | The text `p12`, `f3`, `G1` (a line each), read with ULF_TXT_FD 1024, gives exactly one process 12 with its PID and one file 3 with path `/proc/12/fd/3` and empty flags. |
| OrderedKeys.SortedKeys | src/ProcReader.cpp:149-151 | Iteration over a map: every key once, strictly ascending. |
| Pipeline.CollectContents | src/ProcReader.cpp:206-213 | If equal ids carry equal texts, the deferred calls are keyed by exactly the ids given, each with its text. |
| Pipeline.CollectSame | src/FileStatReader.cpp:220-228 | Order and repetition of the pairs added do not change the deferred calls. |
| Pipeline.DeferredByLetters | src/FileStatReader.cpp:177-180 | For any switch that gives no id to two letters, the deferred calls depend on the set of letters only. |
| Pipeline.CallsOfLetters | src/ProcReader.cpp:143-151 | The calls made are exactly those of the letters, each with its id and text. |
| Pipeline.ProcPassForm | src/ProcReader.cpp:149-151 | Making the calls in key order on a process leaves the command in front of what was there and the rest behind it in id order, and nothing else changed. |
| Pipeline.FilePassForm | src/FileStatReader.cpp:182-184 | The same for a file, with the file name in front. |
| ProcReader.OptIdInjective | src/ProcReader.cpp:57-123 | No two proc letters share an attribute; each is the command or sorts behind the PID. |
| ProcReader.DefaultsAreTheSwitch | src/ProcReader.h:32 | The default proc string names exactly the letters that have an attribute. |
| ProcReader.CollectReaders | src/ProcReader.cpp:143-147 | The option loop ends with the deferred calls of all its letters. |
| ProcReader.MakeCalls | src/ProcReader.cpp:149-151 | The calls change one process of the object map, to the value the calls in key order give. |
| ProcReader.DoRead | src/ProcReader.cpp:125-159 | The pass over the object map gives every process its attributes and leaves those without readable `/proc` entry alone. |
| ProcReader.PassByLetters | src/ProcReader.cpp:125-159 | The pass over the whole map depends on the set of letters only. |
| ProcReader.NumbersShown | src/ProcReader.cpp:65-101 | The texts for memory sizes, parent and group ids read back as the true number exactly below 2^32, user and group ids always, the CPU time exactly when its seconds fit an `int` (for at most 2^32 ticks a second). |
| ProcReader.TextsSay | src/ProcReader.cpp:57-123 | For each of the 18 letters, a text is the letter's if and only if it says the letter's own field: the given text itself, the number modulo 2^32 (user and group ids in full), the two addresses in their order, the time. |
| ProcReader.RegionsShown | src/ProcReader.cpp:103-114 | The text of each memory region is read as its begin and its end (none for the sentinel), and determines both; that of the instruction pointer its one address. |
| FileStatReader.OptIdInjective | src/FileStatReader.cpp:112-161 | No two file letters share an attribute; none sorts before the file name or is the flags. |
| FileStatReader.DefaultsAreTheSwitch | src/FileStatReader.h:33 | The default file string names exactly the letters that have an attribute (not U and G). |
| FileStatReader.TextsSay | src/FileStatReader.cpp:112-161 | For each of the 11 letters, a text is the letter's if and only if it says the letter's own field: the given text itself, the number modulo 2^32, or the link target in front of its first NUL. |
| FileStatReader.ProcessOption | src/FileStatReader.cpp:112-161 | The pair for a letter, with the text that TextsSay characterises and the file name read through the growing buffer. |
| FileStatReader.CollectReaders | src/FileStatReader.cpp:177-180 | The option loop ends with the deferred calls of all its letters. |
| FileStatReader.ReadFileStatAttributes | src/FileStatReader.cpp:162-188 | One file of the object map gets what stat said, or stays as it is when stat failed; nothing else changes. |
| FileStatReader.MakeCalls | src/FileStatReader.cpp:182-184 | The calls change one file of the object map, to the value the calls in key order give. |
| FileStatReader.AddFileAttributes | src/ProcFile.cpp:63-69 | Every file of one process gets what stat says about the path formed from the process's pid and the file's key; no other process changes. |
| FileStatReader.DoRead | src/FileStatReader.cpp:45-61 | The pass over the object map does that for every process. |
| FileStatReader.PassByLetters | src/FileStatReader.cpp:162-188 | The pass over the whole map depends on the set of letters only. |
| FileStatReader.NumbersShown | src/FileStatReader.cpp:117-153 | Size, inode and ids read back as the true number exactly below 2^32; the name is the link target exactly when that holds no NUL. |
| Labels.RowsAgree | src/FileStatReader.cpp:29-43 | An id that several readers insert carries one label. |
| Labels.LabelsContents | src/ProcFileEntryBuilder.cpp:66-69 | The shared table holds exactly the ids of the readers that ran, each with its label. |
| Labels.LabelsOrderIndependent | src/ProcReader.cpp:35-54 | The table does not depend on the order or repetition of the readers. |
| ProcFileEntryBuilder.ProcFileEntryBuilder.Build | src/ProcFileEntryBuilder.cpp:43-72 | Running a list of readers leaves the object map at the value of their passes in order, and the table at all their labels. |
| ProcFileEntryBuilder.ProcFileEntryBuilder.FlattenMap | src/ProcFileEntryBuilder.cpp:74-84 | The queue of objects is, entry by entry, the queue of keys. |
| Flatten.FlattenOrder | src/ProcFileEntryBuilder.cpp:74-84 | The queue is in order (pids ascending, each process right before its own files, these by ascending key) and holds exactly the processes and files asked for. |
| Flatten.FlattenSelects | src/ProcFileEntryBuilder.cpp:78-79 | The processes-only and files-only queues are the filters of the full one. |
| Flatten.FlattenLength | src/ProcFile.cpp:71-78 | The full queue has one entry for every process and every stored file. |
| Canonical.QueueByKeys | src/ProcFile.cpp:71-78 | In every queue, the files of a process are in the order of the keys their records have in the stream, whatever the ids. |
| Canonical.TxtFilesLast | src/ProcFile.cpp:71-78 | So, when there is room for the txt keys (`RoomAbove`, exact by TxtKeysLastExactly), the txt files of a process come after its other files, and in stream order. |
| Plan.CheckOptions | src/cphf.cpp:28-43 | The flag is true exactly when the string is "no" or all its letters are among the defaults. |
| Plan.ParseArgs | src/cphf.cpp:66-77 | The loop over the options ends with the last string of each kind and the flag of the very last option. |
| Plan.OtherOption | src/cphf.cpp:66-77 | The string in effect of either kind is that of its latest option, or the default if there is none. |
| Plan.FlagsOkayExactly | src/cphf.cpp:68-75 | The run goes ahead exactly when the last option passes; both strings in effect pass exactly when, besides, the latest option of the other kind passes or there is none. |
| Plan.OverwrittenFlag | src/cphf.cpp:71-73 | A bad proc string followed by a good file string goes through. |
| Plan.CheckedDiggersKnown | src/cphf.cpp:79-93 | Strings that pass the check never reach a reader's error branch. |
| Canonical.FinalByLetters | src/cphf.cpp:79-95 | The final map of a run depends on the sets of option letters only. |
| Canonical.ProcListCanonical | src/ProcFile.cpp:38-50 | Every process list of a finished run has exactly the PID and the selected ids, and is strictly ascending in id exactly when the stream had one process record for it. |
| Canonical.FileListCanonical | src/UnlinkedFile.cpp:55-67 | Every file list of a finished run has exactly its flags and the selected ids; it is strictly ascending exactly when it has no flags, or one and nothing selected sorts between the name and the flags. |
| Canonical.ProcTexts | src/ProcReader.cpp:125-159 | With texts: an attribute is in a process list of a finished run exactly when it is the PID of one of its records or, if its /proc entry could be read, the attribute (id and text) of a selected letter. |
| Canonical.FileTexts | src/FileStatReader.cpp:162-188 | An attribute is in a file list of a finished run exactly when it is one of its flags or, if stat knew the path formed from its keys, the attribute of a selected letter. |
| Labels.PlaceOfRow | src/CPHFCommon.h:58-151 | Every label inserted by any reader stands, as a literal, for the id it is inserted with; so labels are distinct and their ids are their places in the output. |
| Canonical.ProcLabelled | src/ProcFile.cpp:30-33 | Every attribute of every process has its label in the table of the run. |
| Canonical.FileLabelled | src/UnlinkedFile.cpp:28-32 | Every attribute of every file has its label in the table of the run. |
| Cphf.PrintFiles | src/ProcFile.cpp:26-35 | Printing the queue succeeds exactly when every attribute has a label, and then gives every attribute in list order under its label. |
| Cphf.Cphf | src/cphf.cpp:45-100 | Label lookup never fails in a run with checked options, and what is printed is the final map, in queue order; without the flag nothing is printed. |
| Printed.ProcListSays | src/ProcReader.cpp:125-159 | In the final list of a process, for each of the 18 ids: an attribute with this id and text is there exactly when its letter is selected and the text says its own field of the answer for this pid. |
| Printed.FileListSays | src/FileStatReader.cpp:162-188 | The same for a file and each of its 11 ids, for the answer about whatever path is read as this process and this descriptor (or executable). |
| Printed.ProcBlock | src/ProcFile.cpp:26-35 | In the printed block of a process, under each of the 18 literal labels: a text stands there exactly when the label's letter is selected and the text says the label's own field. |
| Printed.ProcBlockPids | src/LSOFReader.cpp:127-131 | Under "Process ID (PID)" stand exactly the texts of its process records. |
| Printed.ProcBlockOrder | src/ProcReader.cpp:203-205 | The lines of a process stand in the order of their labels' places, none twice, exactly if it had one process record; there are no other labels, and only the PID if its /proc entry could not be read. |
| Printed.FileBlock | src/UnlinkedFile.cpp:28-32 | In the printed block of a file, under each of the 11 literal labels: a text stands there exactly when the label's letter is selected and the text says the label's own field of what stat answered for the path. |
| Printed.FileBlockFlags | src/LSOFReader.cpp:124-125 | A file has a flags line, always empty, exactly if a flags record follows a file record of its place. |
| Printed.FileBlockOrder | src/UnlinkedFile.cpp:55-67 | The lines of a file stand in the order of their labels' places exactly under the condition of FileListCanonical; there are no other labels. |
| DeviceIndex.EquivalentIsOverlap | src/CPHFReader.h:40-42 | Two proper ranges count as one key exactly when they overlap. |
| DeviceIndex.FindAgreesWithScan | src/CPHFReader.cpp:202-209 | In any search tree whose items are sorted, whatever its shape, the search for a minor finds what a linear scan for a range with that minor finds. |
| DeviceIndex.InsertInOrder | src/CPHFReader.cpp:102 | An insertion is rejected exactly on an overlap; otherwise the item enters at one place and the order is kept. |
| DeviceIndex.InsertAllSorted | src/CPHFReader.cpp:102-107 | After any insertions from empty the ranges are strictly sorted, descending, and are exactly the accepted ones. |
| DeviceIndex.KeptDisjoint | src/CPHFReader.h:40-42 | The accepted ranges are pairwise disjoint. |
| DeviceIndex.IndexRefinesScan | src/CPHFReader.cpp:202-209 | After any insertions, the search for a minor gives what a scan of the accepted items in arrival order gives. |
| DeviceIndex.FirstRowsOnly | src/CPHFReader.cpp:99-110 | The table built has an entry for every major, holding its first row only. |
| DeviceIndex.LookupAsWritten | src/CPHFReader.cpp:207-209 | A lookup succeeds exactly when the first row of the major has the minor in its range, or as its lower bound if the range is reversed, and gives that row's name. |
| DeviceIndex.LookupAgreesExactly | src/CPHFReader.cpp:99-110 | For every table, reversed ranges included: all lookups agree with a scan of the whole table exactly when no row shows a minor that the first row of its major does not, and a reversed first row has the name of the first row of the major that is not reversed. |
| DeviceIndex.DistinctMajorsAgreeExactly | src/CPHFReader.cpp:99-110 | For a table in which no major repeats, all lookups agree with the scan exactly when no range is reversed. |
| DeviceIndex.RepeatedMajorLost | src/CPHFReader.cpp:100-102 | A table where they differ: two rows of major 4, and a minor of the second one is not found. |
| DeviceIndex.UnknownDeviceShown | src/CPHFReader.cpp:205-221 | The device text ends in a question mark exactly when the lookup fails. |
| DeviceIndex.HasTextExactly | src/CPHFReader.cpp:210-213 | The search for `tty` or `pts` in a name succeeds exactly when the part stands somewhere in it. |
| DriversTable.DeviceMap.BuildDeviceMap | src/CPHFReader.cpp:69-118 | The read loop, with its insertion into a copy of the inner map, leaves the map at the fold that keeps the first row of every major, over all rows read before the stream failed, and throws exactly on a path of fewer than five characters. |
| DeviceText.ReadDeviceFrom | src/CPHFReader.cpp:181-222 | The device text for the bytes of the drivers file, or the escaping exception. |
| DeviceText.LookupInFile | src/CPHFReader.cpp:69-118 | From file to index, for every table whose rows all have two-letter types or whose majors (but the first) have at most four digits: a lookup in what was built from its text gives the name in the first row with the major, among the rows read, for the minors that row shows, and nothing otherwise. |
| DeviceText.DeviceOfFile | src/CPHFReader.cpp:181-222 | From file to text, for the same tables: the exception escapes exactly when a row before the last has a one-letter type; otherwise the text is the two numbers followed by "?" exactly when that row is missing or does not show the minor, by its name and the minor if `tty` stands somewhere in the name, else by the name, a slash and the minor if `pts` does, else by nothing. |
| DriversTable.DriversRoundTrip | src/CPHFReader.cpp:81-97 | Every table of rows, in any column spacing, is read back in full: path suffix, major and minor range, also for a single minor, where the range check takes the first letter of the type. |
| DriversTable.ReadULongExactly | src/CPHFReader.cpp:85-92 | A number with any sign is read in full, a minus sign wrapping modulo 2^64; beyond 64 bits the stream fails. |
| DriversTable.DriversRoundTripExactly | src/CPHFReader.cpp:81-97 | For tables of any length whose majors (but the first row's) have at most four digits: the table is read back exactly when every row has a minor range or a type of at least two characters. |
| DriversTable.ReadBackRows | src/CPHFReader.cpp:83-97 | The rows read are all up to the first with a one-letter type, and that one too unless it is the last; the exception is thrown exactly when such a row is not the last. |
| DriversTable.ReadBackFails | src/CPHFReader.cpp:83-97 | The first row with a one-letter type, if it is the last of the table, is lost; otherwise it is read, the reading ends behind it, and the path check of the next turn throws. |
| DriversTable.LongMajorHidesFault | src/CPHFReader.cpp:83-97 | The bound on the majors is needed: a table with a one-letter type and a five-digit major is read back in full. |
| LinkBuffer.ReadFileName | src/FileStatReader.cpp:79-109 | The loop ends, all accesses are in bounds, the name is the target up to its first NUL, and the last size is 1024*4^k, above the target's length and either 1024 or at most four times that length. |
| Common.CStringExactly | src/FileStatReader.cpp:101-102 | That name is the part of the target in front of its first NUL. |
| Common.CStringWhole | src/FileStatReader.cpp:101-102 | It is the whole target exactly when the target holds no NUL. |
| Formatting.FormatExact | src/CPHFReader.cpp:124-128 | The numeral reads back modulo 2^32, so as the value itself exactly below 2^32, and no digit string of that value is shorter. |
| Formatting.FormatReadsBack | src/CPHFReader.cpp:124-128 | A text is a size or id text exactly when it is read as the value modulo 2^32. |
| Formatting.HexReadsBack | src/ProcReader.cpp:219-221 | A reader of "0", or "0x" and hexadecimal digits, takes a text for a number exactly when it is the one the stream writes: zero has no prefix, any other number has. |
| Formatting.RangeReadsBack | src/ProcReader.cpp:217-235 | A text is read as a begin and an end address (none for 33), in this order, exactly when it is the text formatted for these. |
| Formatting.FormatRangeInjective | src/ProcReader.cpp:217-235 | So two address texts are equal exactly when both addresses are, the case without end address included. |
| Formatting.CpuTimeExact | src/CPHFReader.cpp:44-67 | For every tick count, and at most 2^32 ticks a second, the time text reads back as the true seconds exactly when they fit an `int`, and then nothing was cut by the 13-byte `snprintf`. |
| Formatting.HmsTextReadsBack | src/CPHFReader.cpp:53-56 | Hours, minutes and seconds recombine to the number of seconds. |
| Formatting.HmsReadsBack | src/CPHFReader.cpp:53-59 | A text is read as a time exactly when it is the text written for that many seconds. |
| Formatting.WrappedTimeCut | src/CPHFReader.cpp:53-59 | What is shown when they do not fit: for 2^31 seconds the wrapped, negative time, cut to 12 characters. |
| Formatting.HmsTextFits | src/CPHFReader.cpp:59 | Every non-negative `int` of seconds takes at most 12 characters. |
| Numerals.NumeralLength | src/CPHFReader.cpp:124-128 | A number has at most k digits exactly when it is below the base to the k. |
| Numerals.ValueNumeral | src/CPHFReader.cpp:124-128 | Every digit string without useless leading zero is the numeral of its value. |

## Left out

- Starting lsof (fork, pipe, exec) and opening any file: the model starts from bytes and answers.
- `stat`, `readlink` permissions, `getpwuid`, `getgrgid`, `localtime`, `strftime`, `/proc/uptime`, `/proc/PID/stat` and `/proc/PID/cmdline`: their results are fields of `ProcInfo` and `FileInfo`, and one run sees one answer per pid or path.
- `readIDs`' caching of user and group entries within one process: it returns the same entry again.
- `readPerms`, `readMode` and the state-letter table: finite lookups, so their texts are given.
- The splitting of a `dev_t` into major and minor, and the choice between `st_dev` and `st_rdev`: both numbers are given. The device text enters the attribute pipeline as a field.
- The 1024-byte record buffer, failing allocations, and the width of the link buffer's `long long` size.
- Column widths, rules and blank lines of `PrettyPrinter`, and the error messages.
- Red-black rebalancing: trees may have any shape, which covers it.
- Unused members (`childProcs`, `parentProc`, `ppid`, the static `deviceMap`, options U and G).
- Numerals.Atoi: a value outside `int` is undefined in C; the model takes its low 32 bits.
- Cphf.Cphf: assumes that both option strings pass their check if the flag is set, because an unknown letter makes a reader use an uninitialised id.
- LsofReader.BufferedRead: assumes a well-formed stream, because the source uses a null pointer on others.
- DriversTable.DriversRoundTripExactly: only for majors of at most four digits behind another row (Linux majors have twelve bits); with longer ones DriversTable.LongMajorHidesFault shows that a fault can go unseen.
- DeviceText.LookupInFile: the same bound on the majors when a type has one letter.
- DeviceText.DeviceOfFile: the same bound on the majors when a type has one letter.
- Formatting.CpuTimeExact: assumes at most 2^32 clock ticks a second, because a larger tick rate could hide a tick count that is negative as a `time_t`.

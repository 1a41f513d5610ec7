# Verified model of the ruan device tree

This project models the four places of the device tree that contain logic, and proves what they guarantee.

- **The vendor-blob compiler** (`extract-files.py`). `BlobList` parses and prints the lines of the
  proprietary-files list and reads and writes the file; `Destinations` splits a destination into partition and
  path and classifies it with the two regular expressions; `Filter` is the two-pass filter; `Names` is the module
  name normaliser, and `NameTokens` says what a name keeps of its parts; `Group` folds blobs into mutable prebuilt
  modules; `VendorMk` writes the product makefile from the blocks of `MakeText`, and `VendorMkMeaning` says what
  it says; `Pipeline` puts them together. `Strings` and `Sorting` hold the parts of Python's `str` and `sorted`
  that are used. The loops of the program are methods proved equal to functions, and the theorems are about those
  functions.
- **The bcache key format** (`include/linux/bcache.h`). `Bits` defines the C operators on numbers below 2^64 and
  characterises them bit by bit; `Fields` is the getter and setter of the bitfield macros; `Bcache` is the key, the
  log of keys and the walk with `bkey_next`; `BcacheOps` builds keys and pointers and writes them in place.
- **The ALSA TLV encoding** (`include/sound/tlv.h`), in `Tlv`.
- **The sensor notifier** (`sensors/`), in `Notifier` and `NotifierLaws`: every interleaving of the controller's
  calls with the worker threads, as steps of a state machine.

`Failures` holds, for each property that the code does not have in full, an input at which it fails.

`dafny verify dfyconfig.toml` checks the whole project.

## Where the code does less than it seems to promise

Each of these is stated exactly: the property holds if and only if a condition that can be checked beforehand
holds, and a lemma shows an input at which it fails.

- Printing an entry and parsing it again loses an entry with nothing left to print (the line `:`, `ColonIsLost`) and
  an entry whose last argument ends in white space (the line `a;b ;`, `BlankArgumentIsLost`); every other parsed entry
  survives, also one with an empty source (`RoundTrip`). The filtered list is a fixed point under the same condition
  (`FixedPoint`, `ColonListIsNotFixed`).
- The makefile can be read back item by item exactly when no path in it contains a blank (`EmissionReadsBack`,
  `BlankPathIsSplit`).
- A module name keeps partition and kind, and of the install path and stem only the lower-cased alphanumeric runs in
  order (`SharedNameIff`). Two blobs that agree on these and on the architecture go to one place, and the source of
  the last one is the only one used (`SourceUsedIff`, `EveryBlobUsedIff`). `lib/hw/foo.so` and `lib/hw_foo.so` are
  such a pair (`HwPathAndStemCompete`), and so is every file of `bin` with its namesake in `bin64`
  (`BinDirsCompete`).
- A TLV item decodes to itself exactly when its data are shorter than 2^30 words: the length is cut to an unsigned
  int (`DecodableIff`, `LongItemReadsEmpty`).
- A notifier whose worker failed to open its files has cleared `mActive` but kept a joinable thread: a second
  `activate`, or the destructor, then terminates the process, and nothing else does (`EveryRun`, `ActivateIff`,
  `DestroyIff`, `FailThenActivate`, `FailThenDestroy`). A worker of a notifier without an event queue dereferences
  null (`ActWithoutQueue`), and a notifier has no queue exactly when the search for the sensor failed or gave a null
  queue, which its constructor ignores (`ConstructedNullIff`).

## Model

| member | source | states |
|---|---|---|
| `Strings.StripLaws` | extract-files.py:150 | stripping gives a trimmed part of the text and is the identity exactly on trimmed text |
| `Strings.StripRemoves` | extract-files.py:150 | stripping removes the white space around a text, by code point, and nothing else |
| `Strings.TranslatesAfter` | extract-files.py:470 | text without carriage returns passes the newline translation unchanged |
| `Strings.TranslatesBreaks` | extract-files.py:470 | CR LF and a lone CR each become one newline |
| `Strings.SplitLinesAt` | extract-files.py:470 | a line ends at any of the line breaks, by code point, and the rest is split in the same way |
| `Strings.SplitLinesLast` | extract-files.py:470 | a last line without a break is a line, unless it is empty |
| `Strings.WrittenLinesReadBack` | extract-files.py:470-483 | a file written from break-free lines reads back, through newline translation and line splitting, as those lines |
| `BlobList.ParsedIsWellFormed` | extract-files.py:149-172 | every parsed entry has clean paths, no colon in its source, nonempty arguments; printing it is never longer than the stripped line |
| `BlobList.LineParses` | extract-files.py:149-172 | white space, an optional dash, a location and arguments after semicolons parse to the cleaned sides of the first colon, the flag and the nonempty arguments |
| `BlobList.LineSkipped` | extract-files.py:151-152 | blank lines and comments are no entries |
| `BlobList.CleanPathIs` | extract-files.py:166-168 | a cleaned path is the path without the white space around it and with slashes for backslashes |
| `BlobList.PrintedForm` | extract-files.py:126-133 | an entry without arguments prints as dash, source, and destination after a colon when it differs |
| `BlobList.PrintedArgument` | extract-files.py:126-133 | each argument is printed after a semicolon |
| `BlobList.RoundTrip` | extract-files.py:126-133 | parsing a printed well-formed entry returns it, with the printed line as original line, if and only if it is printable |
| `BlobList.ParsePrintParse` | extract-files.py:126-172 | the same for whatever any line parses to |
| `BlobList.ReadEntries` | extract-files.py:468-474 | the loop returns the entries of the lines that parse, in order, all well formed and without line breaks |
| `BlobList.WrittenText` | extract-files.py:482-484 | the file has one line for each entry, each ended by a newline |
| `BlobList.WriteReadBack` | extract-files.py:468-484 | writing a list and reading it gives the same entries in the same order if and only if each is printable |
| `Sorting.LessTotal` | extract-files.py:254 | the string order is total: exactly one of less, equal, greater |
| `Sorting.LessIff` | extract-files.py:254 | one string comes before another if and only if it is a proper prefix of it or has the smaller character where they first differ |
| `Sorting.SortLaws` | extract-files.py:254 | sorting orders the list, keeps its elements and keeps the order of equal keys |
| `Sorting.StrictlySortedUnique` | extract-files.py:254 | a strictly sorted list is determined by its elements |
| `Destinations.SplitPartitionIff` | extract-files.py:182-186 | a destination is split after the name of one of the six partitions, spelled out, if and only if it starts with it and a slash; any other belongs to vendor as a whole |
| `Destinations.NormalizedIs` | extract-files.py:122-124 | a destination that starts with a partition is normal, and any other gets `vendor/` in front |
| `Destinations.NormalizedSplits` | extract-files.py:122-124 | a normalized destination splits like the original and normalizes to itself |
| `Destinations.NormalizedFaithful` | extract-files.py:182-186 | two destinations normalize alike if and only if they have the same partition and path |
| `Destinations.PriorityIsRank` | extract-files.py:15-21 | priority compares partitions exactly by their place in the ranking, the unlisted partition last |
| `Destinations.PriorityTable` | extract-files.py:15-21 | the priority of each partition as a number, 99 for the unlisted one |
| `Destinations.MatchIsLastSlashSplit` | extract-files.py:100-101 | on newline-free paths the lazy and greedy search matches with given groups if and only if the path reads as prefix, subdirectory, slash-free name and suffix |
| `Destinations.LibraryIff` | extract-files.py:193-205 | exactly which destinations are libraries, with which architecture and stem, the two rfsa directories spelled out |
| `Destinations.BinaryIff` | extract-files.py:207-211 | exactly which destinations are binaries, with which stem |
| `Destinations.ManifestIff` | extract-files.py:198-199 | exactly which destinations are manifests |
| `Destinations.TextLikeIff` | extract-files.py:70-98 | a file is text-like if and only if its name ends, in capital or small letters, in one of the suffixes, spelled out, with something before it |
| `Destinations.LowerCode` | extract-files.py:179 | lower case by code point |
| `Filter.Unique` | extract-files.py:217-225 | the dictionary pass keeps the first entry of each normalized destination and reports the excluded ones |
| `Filter.Winners` | extract-files.py:226-237 | the two dictionaries hold the fold's winner for every library and binary stem |
| `Filter.Resolve` | extract-files.py:239-252 | the last pass keeps the entries not beaten by their winner and reports the others with the winner |
| `Filter.FilteredEntries` | extract-files.py:216-255 | the filter returns the filtered list and the reports of the specification, each with its text spelled out |
| `Filter.WinnerLaws` | extract-files.py:229-237 | a winner exists for each kind and stem present, has them, and has the best priority among them |
| `Filter.WinnerIsFirst` | extract-files.py:229-237 | the winner is the first entry of the best priority |
| `FilterLaws.KeptLaws` | extract-files.py:217-225 | the first pass keeps exactly the non-excluded entries that are first with their destination, each destination once |
| `FilterLaws.FilterMeetsSpec` | extract-files.py:216-255 | an entry is returned if and only if it is first, not excluded and not beaten in priority; the result is strictly sorted by destination |
| `FilterLaws.FilterIdempotent` | extract-files.py:216-255 | filtering the result again, whatever else its entries carry, returns it and reports nothing |
| `FilterLaws.OrderIndependent` | extract-files.py:216-255 | permutations of a list with distinct normalized destinations filter to the same list |
| `FilterLaws.Accounting` | extract-files.py:217-252 | the input length is survivors plus reports plus silent repetitions; survivors and losers together are the deduplicated entries |
| `FilterLaws.ReportNamesSurvivor` | extract-files.py:241-251 | a duplicate report names a survivor of the same kind and stem and strictly better priority; the reported entry does not survive |
| `Names.ModuleNameNormal` | extract-files.py:175-179 | a module name has only a-z, 0-9 and single inner underscores, and naming it again changes nothing |
| `Names.NameHasHead` | extract-files.py:175-179 | the name starts with partition and kind whatever the path and stem |
| `Names.NamesSeparate` | extract-files.py:278-306 | equal names have equal partition and kind |
| `NameTokens.NameKeepsLetters` | extract-files.py:175-179 | a part of letters, digits and single inner underscores is kept character by character, capital letters 32 code points up |
| `NameTokens.NameIsTokens` | extract-files.py:175-179 | a module name is the alphanumeric runs of its parts, by character range and in lower case, in order, joined by underscores |
| `NameTokens.NamesEqualIff` | extract-files.py:175-179 | two names are equal if and only if their parts have the same runs |
| `NameTokens.SharedNameIff` | extract-files.py:278-306 | for known partitions and kinds, two modules share a name if and only if partition, kind and the runs of install path and stem agree |
| `Group.PrebuiltModule.constructor` | extract-files.py:136-146 | a new module has, field by field, the identity of its first blob and no source |
| `Group.PrebuiltModule.AddSource` | extract-files.py:290-300 | the source of the given architecture is replaced, the other kept, and the multilib setting recomputed |
| `Group.AddToModule` | extract-files.py:279-300 | updating the record of a known name keeps the dictionary equal to the specification of the entries seen |
| `Group.AddModule` | extract-files.py:279-289 | so does adding a record for a new name |
| `Group.AddPart` | extract-files.py:277-300 | one contribution updates the record of its name or adds one, and keeps the dictionary and the order of its names as specified |
| `Group.AddEntry` | extract-files.py:261-328 | one turn of the loop, for any kind of entry |
| `Group.GroupEntries` | extract-files.py:261-328 | after the loop every record holds what the entries of its name put there; other entries are listed in order |
| `Group.WithRoleSnoc` | extract-files.py:266-271 | copied files and manifests are listed in the order of the entries |
| `Group.MakePrebuiltModules` | extract-files.py:258-330 | modules are strictly sorted by name, one for each name contributed to, each as specified |
| `GroupLaws.FirstUnitIff` | extract-files.py:279-289 | a module exists if and only if some entry contributes, and its identity is the first contribution's |
| `GroupLaws.LastSourceIff` | extract-files.py:290-293 | the source for an architecture is the last contribution's for that architecture, and is missing if and only if there is none |
| `GroupLaws.RoleShape` | extract-files.py:265-306 | a contribution has a known partition, the name built from its parts, and a 64-bit architecture when it is a binary |
| `GroupLaws.RolesSeparate` | extract-files.py:278-306 | contributions to one module share kind and partition |
| `GroupLaws.ModuleLaws` | extract-files.py:294-328 | every module has the stem and install path of its first blob, has a source, its multilib setting says exactly which, all its blobs share its kind and partition, and a binary is 64-bit only |
| `GroupLaws.PartReassembles` | extract-files.py:274-306 | install path and stem put together give the destination's path back, up to repeated slashes |
| `GroupLaws.SameModuleIff` | extract-files.py:278-306 | two contributions go to one module if and only if they have the same kind, partition and tokens of install path and stem |
| `GroupLaws.SourceUsedIff` | extract-files.py:290-321 | the source of a blob is the one its module has if and only if no later blob has the same partition, kind, architecture and tokens |
| `GroupLaws.EveryBlobUsedIff` | extract-files.py:261-328 | no blob is lost in grouping if and only if no two of them agree on partition, kind, architecture and tokens |
| `MakeText.AllWordsIff` | extract-files.py:406-441 | splitting items into words gives them back if and only if none contains a blank |
| `MakeText.FileReadsBack` | extract-files.py:398-444 | a file of fixed lines and continued blocks reads back as the assignments of the lines and one assignment for each block |
| `VendorMk.EmitBlock` | extract-files.py:405-410 | the loop writes the header, the items indented by four blanks with continuations on all but the last, and an empty line |
| `VendorMk.ByPartition` | extract-files.py:423-425 | the dictionary holds the manifests of each partition in order, for exactly the partitions that have some |
| `VendorMk.EmitManifests` | extract-files.py:434-442 | visiting the partitions in sorted order writes the blocks in the fixed order and skips the partition without a variable |
| `VendorMk.EmitVendorMk` | extract-files.py:393-444 | the text is the header and the blocks of packages, copies and manifests |
| `VendorMkLaws.CopyItemReads` | extract-files.py:416-420 | a copy item reads back as the source, the output directory and the path |
| `VendorMkLaws.CopyItemFaithful` | extract-files.py:526-535 | equal copy items have the same source and normalized destination |
| `VendorMkLaws.EmissionReadsBack` | extract-files.py:393-444 | the assignments of the makefile are the namespace, packages, copies and manifests, item by item, if and only if no path in it contains a blank |
| `VendorMkLaws.WithinCounts` | extract-files.py:423-425 | a partition's manifests are there as often as in the list, and no others |
| `VendorMkMeaning.EmissionMeans` | extract-files.py:393-444 | when no path contains a blank, each variable, spelled out, holds what it should: the namespace, the module names, the copy pairs with source and output directory, and each partition's manifests sorted by destination; each is set once, in the fixed order, and no other variable is set |
| `Pipeline.ExcludedAreNormalized` | extract-files.py:32-68 | every excluded destination is in normalized form |
| `Pipeline.ExcludedIff` | extract-files.py:32-68 | exactly which destinations are excluded: the listed files below etc, spelled out, with the vendor partition or without |
| `Pipeline.FilteredHereIff` | extract-files.py:216-255 | with this program's normal form, kinds, stems and priorities, an entry is kept if and only if it is the first that names its file, is not excluded, and no same-named library or binary has a better partition |
| `Pipeline.ReportsHere` | extract-files.py:217-252 | every report is of an excluded entry, or of a library or binary that does not survive and names one that does, with its text spelled out |
| `Pipeline.FixedPoint` | extract-files.py:548-554 | the written filtered list reads back as the filtered entries if and only if all are printable, and then filtering again drops nothing, reports nothing and writes the same file |
| `Pipeline.OnePartitionPerStem` | extract-files.py:239-252 | after filtering, the libraries of one stem come from one partition, and so do the binaries |
| `Pipeline.BuildReadsBack` | extract-files.py:556-564 | the makefile of any filtered list reads back as its modules, copies and manifests under the exact condition, and then says what each variable should hold |
| `Pipeline.Compile` | extract-files.py:548-580 | the text of a list becomes the filtered list, the specified modules, a makefile that reads back and says what it should, and reports that say what was dropped and why |
| `Bits.BitShl` | include/linux/bcache.h:17-18 | a left shift moves bit i-k to bit i and loses what leaves the word |
| `Bits.ShrIsDiv` | include/linux/bcache.h:13 | a right shift is a division by a power of two |
| `Bits.SameBits` | include/linux/bcache.h:11-19 | words with the same bits are equal |
| `Fields.SetBits` | include/linux/bcache.h:15-19 | a write replaces exactly the bits of its field |
| `Fields.GetAfterSet` | include/linux/bcache.h:11-19 | for every field, reading what was written gives the value modulo the field's range |
| `Fields.SetFrame` | include/linux/bcache.h:11-19 | a write leaves every disjoint field unchanged |
| `Fields.SetsCommute` | include/linux/bcache.h:11-19 | writes to disjoint fields commute |
| `Fields.SetIdentities` | include/linux/bcache.h:11-19 | writing back what is there changes nothing, and the last of two writes counts |
| `Fields.GetIsDivMod` | include/linux/bcache.h:13 | shift and mask is division and remainder |
| `Fields.SetIsArithmetic` | include/linux/bcache.h:15-19 | a write keeps the parts of the number above and below the field and replaces the field |
| `Bcache.LayoutsAreDisjoint` | include/linux/bcache.h:45-90 | the fields of a key word, and of a pointer, fit the word and do not overlap |
| `Bcache.KeyFieldValues` | include/linux/bcache.h:45-52 | the value of each field of a key's first word, by division and remainder with plain numbers |
| `Bcache.PtrFieldValues` | include/linux/bcache.h:88-90 | the value of each field of a pointer |
| `Bcache.WriteOneField` | include/linux/bcache.h:45-52 | writing one laid-out field sets it and keeps all the others |
| `Bcache.KeyWordsValue` | include/linux/bcache.h:99-102 | a key takes two words and as many more as bits 60 to 62 of its first word say |
| `Bcache.DecodeEncode` | include/linux/bcache.h:23-27 | any list of complete keys written back to back decodes to that list |
| `Bcache.EncodeDecode` | include/linux/bcache.h:419-430 | words that decode are the encoding of the complete keys they decode to |
| `Bcache.WalkVisitsKeys` | include/linux/bcache.h:117-122 | stepping with the next-key function ends exactly at the end if and only if the words are a log of keys, and visits exactly the key starts |
| `Bcache.WalkIsTiling` | include/linux/bcache.h:117-122 | the walk succeeds and visits given words if and only if keys of the announced lengths lie back to back from there to the end |
| `Bcache.Walk` | include/linux/bcache.h:117-122 | the loop stops at the end if and only if the walk succeeds, and then the starts it visited tile the words |
| `BcacheOps.MakeKeyIff` | include/linux/bcache.h:71-75 | a constructed key decodes to its arguments if and only if inode and size fit their fields |
| `BcacheOps.MakeKeyIsBare` | include/linux/bcache.h:71-75 | such a key has no pointers and no flags and is two words long |
| `BcacheOps.MakeKeyValue` | include/linux/bcache.h:71-75 | the words of a constructed key as numbers |
| `BcacheOps.StartKeyFields` | include/linux/bcache.h:83-84 | the start key has the key's inode and size zero |
| `BcacheOps.StartKeyIff` | include/linux/bcache.h:83-84 | the start key lies the key's size before its offset if and only if the offset is at least the size |
| `BcacheOps.MakePtrIff` | include/linux/bcache.h:94-95 | a constructed pointer decodes to its arguments if and only if they fit their fields |
| `BcacheOps.MakePtrValue` | include/linux/bcache.h:94-95 | a constructed pointer as a number |
| `BcacheOps.SetField` | include/linux/bcache.h:36-40 | the two assignments of the setter replace one word by the word with the field set, and no other word |
| `BcacheOps.CopyKey` | include/linux/bcache.h:111-115 | only the inode field and the offset of the destination change, to the source's; for every overlap of the two keys it says what the offset becomes |
| `BcacheOps.CopyWhole` | include/linux/bcache.h:104-109 | the source key's words are copied, as many as its header says, and nothing else is written, also between disjoint regions of one array |
| `BcacheOps.PaddedFits` | include/linux/bcache.h:130-134 | a key fits the padded key if and only if it has at most six pointers |
| `BcacheOps.UpdateKeepsStarts` | include/linux/bcache.h:117-122 | replacing a word of a log moves no key when first words keep their number of pointers |
| `BcacheOps.FieldWriteKeepsLog` | include/linux/bcache.h:45-90 | writing any other field of a key or pointer in a log keeps every key where it is |
| `BcacheOps.WordOfKey` | include/linux/bcache.h:117-122 | every word of a log belongs to one of its keys |
| `BcacheOps.FieldWriteUpdatesLog` | include/linux/bcache.h:45-90 | after writing a field of a key or pointer in a log, the log decodes to the same keys with that one word's field set and every other key equal |
| `Tlv.EncodedHeader` | include/sound/tlv.h:17-50 | an item starts with its type code and the length of its data in bytes |
| `Tlv.ContainerData` | include/sound/tlv.h:49-50 | the data of a container are its items one after the other |
| `Tlv.RangeData` | include/sound/tlv.h:102-109 | those of a dB range are its items, each after its two bounds |
| `Tlv.DecodeEncode` | include/sound/tlv.h:40-62 | an item of any nesting decodes to itself whatever follows it, when its data fit the length field |
| `Tlv.DecodableIff` | include/sound/tlv.h:42-43 | it does so if and only if its data are shorter than 2^30 words |
| `Tlv.PrefixFree` | include/sound/tlv.h:40-50 | no item is a proper prefix of another, and equal encodings are of equal items |
| `Tlv.DecodedShape` | include/sound/tlv.h:32-39 | whatever the words, a decoded item is proper and accounts for every word read |
| `Tlv.ReencodeIff` | include/sound/tlv.h:32-39 | encoding a decoded item decodes to the same if and only if the length did not round up out of range |
| `Tlv.ScaleStepIff` | include/sound/tlv.h:56-62 | the dB step reads back if and only if it fits sixteen bits |
| `Tlv.ScaleMuteReadsBack` | include/sound/tlv.h:56-62 | the mute flag always reads back |
| `Tlv.DbScaleWords` | include/sound/tlv.h:54-62 | the four words of a dB scale as numbers |
| `Tlv.DbScaleReadsBack` | include/sound/tlv.h:56-70 | a dB scale item decodes to itself whatever follows it, with its minimum and mute flag, and its step if and only if it fits |
| `Notifier.SensorNotifier.InitializeSensorQueue` | sensors/SensorNotifier.cpp:29-65 | the handle of the first sensor of the type whose lowest flag bit is as asked and the new queue are stored when the search succeeds; other failures leave both alone |
| `Notifier.SensorNotifier.constructor` | sensors/include/SensorNotifier.h:30-32 | a new notifier has no queue, handle -1, no thread, and is in the initial state of the runs |
| `Notifier.SensorNotifier.Activate` | sensors/SensorNotifier.cpp:67-73 | activate is its steps in a row: nothing when active, otherwise the flag, the thread, and termination when a joinable thread is overwritten |
| `Notifier.SensorNotifier.BeginDeactivate` | sensors/SensorNotifier.cpp:75-79 | deactivate up to the join is its steps in a row, and waits if and only if it was active |
| `Notifier.SensorNotifier.EndDeactivate` | sensors/SensorNotifier.cpp:80-86 | from the join on it leaves no thread and disables the stored handle if and only if there is a queue |
| `Notifier.Construct` | sensors/notifiers/NonUiNotifier.cpp:52-54 | the constructed notifier has a queue if and only if the sensor was found and the queue given is not null, and the handle is the first match's if the sensor was found and -1 otherwise |
| `NotifierLaws.StepKeeps` | sensors/SensorNotifier.cpp:67-86 | each step keeps the invariant tying the flag, the thread and a pending failure, or ends the process as predicted |
| `NotifierLaws.EveryRun` | sensors/SensorNotifier.cpp:67-86 | in every interleaving the process is terminated if and only if a thread is started or the notifier destroyed with a failure pending, and otherwise the invariant holds |
| `NotifierLaws.EveryCall` | sensors/SensorNotifier.cpp:83-85 | in every interleaving each call to the queue is made with a queue and with the looked-up handle |
| `NotifierLaws.CallsAreTheTrace` | sensors/notifiers/NonUiNotifier.cpp:93-103 | the calls made are exactly those of the trace, enabling or disabling as the worker found, one for each deactivate that goes through |
| `NotifierLaws.OneWorkerLives` | sensors/SensorNotifier.cpp:72-82 | at most one worker lives in every reachable running state |
| `NotifierLaws.PendingIsVisible` | sensors/notifiers/NonUiNotifier.cpp:72-76 | between calls a failure is pending if and only if the flag is false and the thread joinable |
| `NotifierLaws.ActivateIff` | sensors/SensorNotifier.cpp:67-73 | an activation that finds the flag false ends the process if and only if a failure is pending |
| `NotifierLaws.DestroyIff` | sensors/notifiers/NonUiNotifier.cpp:56-58 | the destructor of an inactive notifier ends the process if and only if a failure is pending |
| `NotifierLaws.SafeWithoutFailures` | sensors/SensorNotifier.cpp:67-86 | when no open fails no run is terminated |
| `NotifierLaws.DisableAfterJoin` | sensors/SensorNotifier.cpp:80-85 | the controller disables the sensor only after the join, with no worker alive, and with the looked-up handle |
| `NotifierLaws.DisableReturns` | sensors/notifiers/NonUiNotifier.cpp:56-58 | a deactivate returns to its caller, and one called by the destructor goes on to destroy the members without ending the process |
| `NotifierLaws.FailThenActivate` | sensors/notifiers/NonUiNotifier.cpp:70-76 | a failed open followed by a second activation terminates the process |
| `NotifierLaws.FailThenDestroy` | sensors/notifiers/NonUiNotifier.cpp:56-76 | a failed open followed by the destructor terminates the process |
| `NotifierLaws.ActWithoutQueue` | sensors/notifiers/NonUiNotifier.cpp:93-103 | some run dereferences a null queue if and only if there is no queue |
| `NotifierLaws.ConstructedCalls` | sensors/SensorNotifier.cpp:29-65 | in every run of a constructed notifier each call is for the first matching sensor of a successful search |
| `NotifierLaws.ConstructedNullIff` | sensors/notifiers/NonUiNotifier.cpp:52-54 | some run of it dereferences null if and only if the search failed or gave no queue |
| `NotifierLaws.JoinIsReachable` | sensors/SensorNotifier.cpp:80-82 | from every waiting deactivate at most two steps of the worker and the join lead on, if and only if the worker is not about to call a queue that does not exist |
| `Failures.ColonIsLost` | extract-files.py:149-172 | the line `:` parses to an entry that is gone after printing and parsing |
| `Failures.BlankArgumentIsLost` | extract-files.py:149-172 | the line `a;b ;` parses to an entry that printing and parsing changes |
| `Failures.ColonListIsNotFixed` | extract-files.py:468-484 | the list of that one line is not a fixed point |
| `Failures.BlankPathIsSplit` | extract-files.py:412-421 | the path `a b` does not read back from the makefile |
| `Failures.PathAndStemCompete` | extract-files.py:175-179 | a library in a subdirectory and one with that directory in its stem go to one place |
| `Failures.HwPathAndStemCompete` | extract-files.py:175-179 | `vendor/lib/hw/foo.so` and `vendor/lib/hw_foo.so` do |
| `Failures.BinDirsCompete` | extract-files.py:207-211 | a file of `bin` and its namesake of `bin64` go to one place |
| `Failures.FirstIsOverwritten` | extract-files.py:290-293 | of two blobs that go to one place only the later is used |
| `Failures.LongItemReadsEmpty` | include/sound/tlv.h:40-43 | an item with 2^30 data words decodes to an empty item |
| `Failures.SomeItemIsTooLong` | include/sound/tlv.h:40-43 | so some proper item does not decode to itself |

## Left out

- Staging from a dump, the command line and writing files: file-system plumbing; the text that is read and written
  is modelled.
- `Android.bp`, `Android.mk` and `BoardConfigVendor.mk`: fixed templates that would only add easy members.
- The unused `src` field of a prebuilt module, which nothing sets.
- `Path.suffix` follows Python before 3.14, and `str.lower` is modelled where its result is ASCII, which is all
  that membership in the suffix list and the normalised name depend on.
- Makefile comments and variable expansion inside a path (`#`, `$`): the reader joins continued lines and splits
  words, and does nothing else.
- The superblock structures, checksums and magic numbers of bcache: data layout only.
- `BcacheOps.CopyWhole`: regions that overlap are excluded, for which memcpy is undefined.
- The linear and min/max items of the TLV header: leaves with two data words, covered by the leaf case.
- Data races: `mActive` is a plain flag shared by two threads; the model interleaves atomic reads and writes.
- File descriptors, poll timing and the value read from the files: the worker's choices are left open, so a
  deactivate waits as long as the poll does.
- `init/init_ruan.cpp`, `sensors/main.cpp` and the other headers: constants and plumbing.

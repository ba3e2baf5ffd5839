# ROM auditor model

This project models `RomAuditor`, the audit thread of the MAME front end.
The auditor works on the game database (`MameDat`, a table from game name to
game). Each game carries:

- its roms, keyed by CRC32;
- its disks, keyed by SHA-1;
- its clones and its `romof` parent;
- a coarse state, `Complete` or `Missing`.

The model covers four operations.

`RomAuditor::run` runs in phases:

0. Every rom and disk flag is reset. A flag stays on only for "nodump" dumps.
1. Each rom path is scanned:
   - every `<game>/*.chd` file marks the disks of that game with a matching
     name, and the disks with the same SHA-1 in its clones;
   - every `*.zip` or `*.7z` archive marks the roms with the CRCs in its
     directory, in the game it names and in that game's clones, and records
     the game as audited.
2. Every game is classified in the table's key order.
3. In the same pass, the inheritance cascade takes each unavailable rom from
   the `romof` parent or from the parent's own `romof` game. A game is
   `Missing` when one of its roms can be had from none of them, or when one
   of its disks is unavailable.

Every game left `Complete` has all its roms and disks available
(`Auditor.RunCompleteIsAvailable`). The converse does not hold as written.
A game counts as `Complete` only if its starting state was `Complete`, and
that state is decided before the cascade runs (audit.cpp lines 441-468).
The comment at line 444 lets a game pass when all its roms are in its
parent. Yet a game with no archive of its own whose roms all come from its
`romof` game ends `Missing` with every rom available
(`Classify.InheritedOnlyStaysMissing`, `Classify.InheritedOnlyExample`).
`Classify.ClassifyOneCompleteIff` states the exact condition.

The scan reads only the keys, clone sets and disk names, which it never
changes, and it only turns flags on. So the order of the rom paths does not
matter (`ScanOrder.ScanRomPathsSwap`). Running the MAME part twice gives the
same table as running it once (`Auditor.MameAuditIdempotent`).

After the phases, a console pass turns every file in a selected console's
software directory into an external-media record.

`RomAuditor::exportDat` writes the "fix dat":

- the games in the order parents-then-their-sorted-clones;
- each game filtered by the export mode (complete, incomplete or missing);
- each written game listing its missing roms by name, with the CRC as 8
  lower-case hex digits.

`RomAuditor::audit` does one of two things:

- it exports straight away;
- or it purges the stale console records and starts `run`.

`RomAuditor::auditConsole` audits one console's software directory.

The Dafny modules follow the source:

| module | contents |
|---|---|
| `RomData` | the database |
| `Strings` | the `QString` operations used: lower-casing, `contains`/`remove`, file-name parts, sorting, hex formatting |
| `Scan` | phases 0 and 1 as functions of the table |
| `ScanOrder` | phase 1 as sets of flags to turn on: the order of the rom paths does not matter |
| `Classify` | phases 2 and 3 |
| `Export` | the fix dat |
| `Console` | the console pass |
| `Auditor` | the `RomAuditor` class |

The class keeps the table as the field `games` of a `MameDat` object. Its
methods reassign that field and are proved equal to the phase functions.
Each phase function is characterised by lemmas.

The file system and the archive readers are inputs:

- a rom path is the list of its sub-directories with their `.chd` files,
  plus its archive files;
- each archive comes with what QuaZip or the 7z SDK reports for it (it did
  not open, or the CRC list);
- a console's software directory comes with its listing and each archive's
  member names.

The key order of `pMameDat->games` is an input sequence that enumerates the
keys once each. So is each game's order of `roms.keys()` (the map
`crcOrder`): the container type of `GameInfo::roms` is not part of this
model, and when two missing roms share a name the last one visited is the
one exported. When the roms are visited in ascending CRC order, as a
`QMap` keyed by CRC iterates, that is the largest CRC of the name
(`Export.LastMissingAscendingAll`).

The members of a console archive are looked up by the archive's complete
base name, which is what audit.cpp line 574 passes to `iterateMameFile`: `foo.zip`
and `foo.7z` in one directory get the same member list.

## Model

| member | source | states |
|---|---|---|
| Auditor.RomAuditor.constructor | audit.cpp:17-22 | A new auditor has not audited yet and is in audit-only mode. |
| Auditor.RomAuditor.ClearState | audit.cpp:248-265 | The table becomes `Cleared` of the old table: each rom and disk is available exactly when its status is "nodump". Nothing else changes. |
| Auditor.RomAuditor.ClearRomFlags | audit.cpp:252-256 | The roms map becomes the cleared roms map of its input. |
| Auditor.RomAuditor.ClearDiskFlags | audit.cpp:258-264 | The disks map becomes the cleared disks map of its input. |
| Scan.Cleared | audit.cpp:248-265 | The keys, every game field except the flags, and the rom and disk keys are kept. Every rom and disk flag equals "status is nodump". |
| Scan.ClearedExceptStep | audit.cpp:248-250 | Clearing one more game of the remaining ones is a point update of the partly cleared table. |
| Scan.ClearedExceptEnds | audit.cpp:248-265 | With nothing cleared yet the table is unchanged. With every game cleared it is `Cleared`. |
| Scan.MarkRomsInSpec | audit.cpp:349-358 | Marking roms only turns flags on. Afterwards a rom is available iff it was available before, or its game is in the named set and its CRC is in the given set. States and disks are unchanged. |
| Scan.MarkDisksInSpec | audit.cpp:303-310 | The disk analogue of `MarkRomsInSpec`: a disk is available iff it was, or its game is named and its SHA-1 is given. |
| Scan.MarkRomsTwice | audit.cpp:343-360 | Marking two CRC sets one after the other equals marking their union, so entries can be visited one at a time. |
| Scan.MarkDisksTwice | audit.cpp:297-313 | Marking two SHA-1 sets one after the other equals marking their union. |
| Scan.MarkRomsInCrcs | audit.cpp:343-360 | Marking a family with two CRC sets in turn equals marking it with their union. |
| Scan.MarkRomsInNames | audit.cpp:349-358 | Marking two name sets in turn equals marking their union: the game first, then each clone. |
| Scan.MarkDisksInNames | audit.cpp:303-310 | Marking two name sets in turn equals marking their union, for disks. |
| Scan.MarkDisksInKeys | audit.cpp:297-313 | Marking a family with two SHA-1 sets in turn equals marking it with their union. |
| Scan.MarkRomsInNothing | audit.cpp:343-360 | An archive with no CRC changes no flag. |
| Scan.MarkDisksInNothing | audit.cpp:293-314 | A `.chd` file that matches no disk changes no flag. |
| Scan.MarkRomsInShape | audit.cpp:349-358 | Marking keeps the keys and the clone sets. It keeps every link inside the table. |
| Scan.MarkDisksInShape | audit.cpp:303-310 | Marking disks keeps the keys and the clone sets. It keeps every link inside the table. |
| Scan.MarkFamilyStep | audit.cpp:349-358 | Marking a game and its clones with one more CRC extends the family marking with that CRC. |
| Scan.MarkDiskFamilyStep | audit.cpp:303-310 | Marking a game and its clones with one more SHA-1 extends the family marking with that SHA-1. |
| Scan.ScanChdFileSpec | audit.cpp:295-313 | One `.chd` file turns on, in the game and in each clone, exactly the disks whose SHA-1 is that of a disk of the game named like the file's lower-cased base name. Roms and game states are unchanged. |
| Scan.ScanChdFiles | audit.cpp:293-314 | The `.chd` files of one game directory only turn disk flags on. Roms and game states are unchanged. |
| Scan.ScanChdFilesStep | audit.cpp:293-314 | One more `.chd` file applies `ScanChdFile` to the table so far. The game stays in the table and the links stay inside it. |
| Scan.ScanChdDirs | audit.cpp:280-315 | The sub-directories of a rom path only turn disk flags on. Roms and game states are unchanged. |
| Scan.ScanChdDirsStep | audit.cpp:280-315 | One more sub-directory applies `ScanChdDir` to the table so far. |
| Scan.ReadableCrcsStep | audit.cpp:343-347 | One more zip entry adds its CRC exactly when its info could be read. |
| Scan.ItemCrcsStep | audit.cpp:404-406 | One more 7z item adds its CRC. |
| Scan.ScanRomFilesStep | audit.cpp:318-426 | One more archive applies `ScanRomFile` to the state so far. |
| Scan.ScanRomPathsStep | audit.cpp:269-427 | One more rom path applies `ScanRomPath` to the state so far. |
| Scan.ZipArchiveNamesGame | audit.cpp:323-326 | A name followed by an extension that lower-cases to ".zip" names the game `name` lower-cased, provided ".zip" does not already occur in the lower-cased name. |
| Scan.ToLowerAppend | audit.cpp:323 | Lower-casing distributes over concatenation. |
| Scan.ContainerIndependence | audit.cpp:343-360 | A zip and a 7z archive of the same game that yield the same CRCs have the same effect on the table and on the audited set. Line 404-418 is the 7z side. |
| Scan.RecognisedArchiveIsAudited | audit.cpp:328-380 | A recognised archive of a known game puts the game in the audited set even when it cannot be opened. A zip or 7z archive that does not open changes nothing else. A zip with no readable entry, or a 7z archive with no item, adds no clone. |
| Scan.ScanRomFileGrows | audit.cpp:318-426 | One archive never clears a flag. It never changes a game's state or disks. It only grows the audited set. |
| Scan.ScanRomFilesGrows | audit.cpp:318-426 | All archives of a rom path never clear a flag, never change a state or a disk, and only grow the audited set. |
| Scan.ScanRomPathsGrows | audit.cpp:267-427 | The whole scan phase only turns flags on, only grows the audited set and changes no game state. |
| ScanOrder.MarkHitsJoin | audit.cpp:267-427 | Turning on two sets of (game, key) flags in turn is turning on their union. |
| ScanOrder.ClearedForgetsFlags | audit.cpp:248-265 | A table grown from a cleared one clears back to it, except for game states that changed. |
| ScanOrder.MarkRomsInHits | audit.cpp:349-358 | Marking CRCs in a group of games is turning on exactly the (game, CRC) pairs of the group. |
| ScanOrder.MarkDisksInHits | audit.cpp:303-310 | Marking SHA-1s in a group of games is turning on exactly the (game, SHA-1) pairs of the group. |
| ScanOrder.ScanChdFilesHits | audit.cpp:293-314 | A game directory's `.chd` files turn on disk pairs that depend only on the keys, clones and disk names of the table they start from. |
| ScanOrder.ScanChdDirsHits | audit.cpp:280-315 | The same holds for all sub-directories of a rom path. |
| ScanOrder.ScanRomFileHits | audit.cpp:318-426 | One archive turns on rom pairs and adds audited games that depend only on the keys and clones of the table. |
| ScanOrder.ScanRomFilesHits | audit.cpp:318-426 | The same holds for all archives of a rom path. |
| ScanOrder.ScanRomPathHits | audit.cpp:269-427 | One rom path is one set of hits, read off any table with the same keys, clones and disk names. |
| ScanOrder.ScanRomPathsHits | audit.cpp:267-427 | The whole scan phase is one set of hits, read off any table with the same keys, clones and disk names. |
| ScanOrder.ScanRomPathCommutes | audit.cpp:267-427 | Two rom paths give the same table and the same audited set in either order. |
| ScanOrder.ScanRomPathsSwap | audit.cpp:267-427 | Swapping two adjacent entries of the rom path list changes neither the table nor the audited set. The order of the search directories does not matter. |
| Auditor.RomAuditor.MarkRom | audit.cpp:349-350 | In place: the table becomes the old one with rom `crc` of game `name` marked available. |
| Auditor.RomAuditor.MarkDisk | audit.cpp:303 | In place: the table becomes the old one with disk `sha1` of game `name` marked available. |
| Auditor.RomAuditor.MarkFamily | audit.cpp:349-359 | The rom with the CRC is marked in the game and in each clone. The clones join the audited set. |
| Auditor.RomAuditor.MarkClone | audit.cpp:353-359 | One clone's turn adds the clone to the marked family. |
| Auditor.RomAuditor.MarkDiskFamily | audit.cpp:303-311 | The disk with the SHA-1 is marked in the game and in each clone that has it. |
| Auditor.RomAuditor.MarkDiskClone | audit.cpp:306-311 | One clone's turn adds the clone to the marked disk family. |
| Auditor.RomAuditor.MatchDisk | audit.cpp:301-312 | One matching disk marks that SHA-1 across the family, extending the marking so far. |
| Auditor.RomAuditor.AuditChdFile | audit.cpp:295-313 | The table becomes `ScanChdFile` of the old one: every disk named like the file is marked in the game and its clones. |
| Auditor.RomAuditor.AuditChdDir | audit.cpp:280-315 | The table becomes `ScanChdDir` of the old one: nothing when the lower-cased directory name is not a game. The links stay inside the table. |
| Auditor.RomAuditor.AuditChdDirs | audit.cpp:280-315 | The table becomes `ScanChdDirs` of the old one. |
| Auditor.RomAuditor.MatchRom | audit.cpp:348-359 | One entry's CRC marks the family, extending the marking so far. The clones join the audited set. |
| Auditor.RomAuditor.AuditZipEntries | audit.cpp:339-360 | The table and audited set become `MatchArchive` with the CRCs of the readable entries. |
| Auditor.RomAuditor.AuditSevenZipItems | audit.cpp:399-420 | The table and audited set become `MatchArchive` with the CRCs of all items. |
| Auditor.RomAuditor.AuditArchive | audit.cpp:323-425 | One listed archive has the effect `ScanRomFile` prescribes: zip, 7z or ignored, by its lower-cased name. |
| Auditor.RomAuditor.AuditArchives | audit.cpp:318-426 | The archives of a rom path in listing order give `ScanRomFiles`. |
| Auditor.RomAuditor.AuditRomPath | audit.cpp:271-426 | One rom path gives its `.chd` directories, then its archives. |
| Auditor.RomAuditor.AuditRomPaths | audit.cpp:267-427 | Every rom path in order gives `ScanRomPaths`. |
| Classify.ClassifyOneSpec | audit.cpp:433-515 | External media is left alone. Otherwise each unavailable rom that the parent or the parent's `romof` game holds available becomes available, and only the roms and the state change. The game ends `Missing` iff it started `Missing` (not audited, not all nodump, not all available, no disks), or it has an unavailable disk, or it has a rom neither available nor inheritable. |
| Classify.ClassifyOneGrows | audit.cpp:433-515 | Classifying a game only turns flags on. |
| Classify.ClassifiedCompleteIsAvailable | audit.cpp:468-515 | A game classified `Complete` has every rom and every disk available. |
| Classify.ClassifyOneCompleteIff | audit.cpp:440-515 | The exact converse: a game ends `Complete` iff its starting state was `Complete` and every rom and disk is available after the cascade. |
| Classify.InheritedOnlyStaysMissing | audit.cpp:440-515 | A game that was not audited, has no disk, has some rom that is not nodump and has an unavailable rom, but could inherit every rom it lacks, ends `Missing` with every rom and disk available. |
| Classify.InheritedOnlyExample | audit.cpp:440-515 | A two-game table (`bios` holding CRC 1, `x` with `romof` `bios` lacking it) where `x` ends `Missing` with every rom available. |
| Classify.ClassifyOneSameButStates | audit.cpp:435-515 | A game's state before classification does not matter: tables that differ only in states stay so, and the classified game gets the same record in both. |
| Classify.ClassifyAllSameButStates | audit.cpp:433-516 | Classifying tables that differ only in states gives tables whose every visited game has the same state. |
| Classify.ClassifyAll | audit.cpp:433-516 | Classification keeps the keys and every game's `isExtRom`. |
| Classify.ClassifyAllStep | audit.cpp:433-435 | One more game in key order applies `ClassifyOne` to the table so far. |
| Classify.ClassifyAllGrows | audit.cpp:433-516 | The whole classification only turns flags on. |
| Classify.ClassifyAllCompleteIsAvailable | audit.cpp:433-516 | After classifying every game once, each non-external game marked `Complete` has every rom and disk available. |
| Classify.AllAvailableScan | audit.cpp:449-457 | The early-exit loop answers "every rom is available", both directions. |
| Classify.AllNoDumpScan | audit.cpp:459-466 | The early-exit loop answers "every rom is nodump", both directions. |
| Classify.DiskMissingScan | audit.cpp:472-476 | The loop finds an unavailable disk iff one exists. |
| Classify.InheritCheck | audit.cpp:487-510 | The lookups in the parent, then in the parent's `romof` game, find the rom iff it is inheritable. |
| Classify.InheritStep | audit.cpp:479-515 | One more rom keeps the cascade's invariant. |
| Classify.InheritDone | audit.cpp:479-515 | When every rom is visited, the invariant gives the inherited roms and the missing verdict. |
| Classify.InheritScan | audit.cpp:479-515 | The cascade loop makes exactly the inheritable roms available. It reports a missing rom iff some rom is neither available nor inheritable. |
| Auditor.RomAuditor.ClassifyGame | audit.cpp:435-515 | In place: the table becomes `ClassifyOne` of the old one for this game. |
| Auditor.RomAuditor.ClassifyGames | audit.cpp:433-516 | In place: the table becomes `ClassifyAll` of the old one over the key order. |
| Auditor.MameAuditShape | audit.cpp:243-517 | The MAME part keeps the keys, every game's `isExtRom` and every link. |
| Auditor.MameAuditFlagsGrow | audit.cpp:243-517 | After the clearing pass, scanning and classification only turn flags on. |
| Auditor.MameAuditCompleteIsAvailable | audit.cpp:243-517 | After the MAME part, every non-external game marked `Complete` has all roms and disks available. |
| Auditor.MameAuditKeepsExt | audit.cpp:243-517 | The MAME part keeps the keys and the state of every external-media record. |
| Auditor.ClearedAfterMameAudit | audit.cpp:248-265 | Clearing after a run gives the cleared table again, except for the states of games that are not external media. |
| Auditor.ScanClassifySameButStates | audit.cpp:267-517 | Scanning and classifying tables that differ only in the states of visited games gives the same table. |
| Auditor.MameAuditIdempotent | audit.cpp:243-517 | Running the MAME part twice gives the same table as running it once. |
| Auditor.MameAuditNoDumpAvailable | audit.cpp:248-265 | After the MAME part every "nodump" rom and disk is available. |
| Auditor.ClearedWellLinked | audit.cpp:248-265 | Clearing keeps every link inside the table. |
| Auditor.ClearedNoLinkToExt | audit.cpp:248-265 | Clearing keeps every link away from external-media records, and those records without devices. |
| Console.ExtRecord | audit.cpp:580-585 | A software record is external media of its console, `Complete`, without clones, roms, disks or devices. |
| Console.MemberRecordsSpec | audit.cpp:576-589 | An archive's members add exactly the keys `dir + file + "/" + member`, each a software record of the console. Every other entry is kept. |
| Console.FileRecordsSpec | audit.cpp:571-603 | One listed file adds exactly its keys: the member keys for a ".zip"/".7z" suffix, else `dir + file`. |
| Console.FilesRecordsSpec | audit.cpp:565-607 | All listed files add exactly their keys, each a software record. Every other entry is kept. |
| Console.MemberRecordsStep | audit.cpp:576-589 | One more member is a point update of the table so far. |
| Console.FilesRecordsStep | audit.cpp:565-607 | One more listed file applies `FileRecords` to the table so far. |
| Console.ConsoleRecordsSpec | audit.cpp:540-609 | An empty setting or a missing directory changes nothing. Otherwise the new keys are exactly the listed files' keys, each a software record with the console's source file. Every other entry is kept. |
| Console.ConsolePhaseSpec | audit.cpp:523-533 | The console pass only adds or overwrites with external-media records of a selected console present in the table. It keeps every key. |
| Console.ConsolePhaseStep | audit.cpp:523-533 | One more game in key order audits it iff it has devices and is selected. |
| Console.ConsolePhaseWellLinked | audit.cpp:523-533 | The console pass keeps every link inside the table. |
| Console.ConsoleRecordsNoLinkToExt | audit.cpp:540-609 | Auditing a console that is not external media, whose software keys name no other game, keeps every link away from external-media records: the new records link only to the console and have no clones or devices. |
| Console.ConsolePhaseNoLinkToExt | audit.cpp:523-533 | The whole console pass keeps every link away from external-media records, under the same condition on the software keys. |
| Auditor.RomAuditor.AuditMembers | audit.cpp:576-589 | In place: the table becomes `MemberRecords` of the old one. |
| Auditor.RomAuditor.AuditConsole | audit.cpp:540-609 | In place: the table becomes `ConsoleRecords` of the old one. |
| Auditor.RomAuditor.AuditConsoles | audit.cpp:523-533 | In place: the table becomes `ConsolePhase` of the old one. |
| Auditor.RunCompleteIsAvailable | audit.cpp:237-537 | After a full run, every non-external game marked `Complete` has all roms and disks available. |
| Auditor.RunNoDumpNeverListed | audit.cpp:117-146 | After a run, no "nodump" rom of a game that is not external media goes on the fix dat's missing list. |
| Auditor.RunWellLinked | audit.cpp:237-537 | A run keeps every link inside the table, as `exportDat` needs. |
| Auditor.RunNoLinkToExt | audit.cpp:237-537 | A run keeps every link away from external-media records when the software keys name no other game, so the next purge keeps the table well linked. |
| Auditor.RomAuditor.Run | audit.cpp:237-537 | The table becomes `RunResult`: when no console folder is selected, clear, scan and classify; then the console pass. The table stays well linked, and links stay away from external-media records under the condition above. |
| Export.ParentNames | audit.cpp:46-51 | The parents are exactly the games with no `cloneof`. |
| Export.GroupsMember | audit.cpp:44-69 | A name is in the groups iff it is one of the parents or a clone of one. |
| Export.ExportOrderMembers | audit.cpp:44-69 | The export visits exactly the parents and the clones of parents. |
| Export.GroupStep | audit.cpp:58-69 | Inserting one parent's sorted clones after it extends the groups by that parent. |
| Export.InsertClones | audit.cpp:65-66 | Inserting at the pre-incremented index puts the clone list, in order, right after position `i`. |
| Export.InsertGroup | audit.cpp:58-69 | One parent's turn extends the groups and moves the index past them. |
| Export.BuildGameNames | audit.cpp:44-69 | The built name list is the sorted parents, each followed by its sorted clones. |
| Strings.SortedSeqSpec | audit.cpp:52 | Sorting lists each name once, in strictly increasing order. |
| Strings.SortNames | audit.cpp:52 | The selection sort gives `SortedSeq`. |
| Export.LastMissingEntries | audit.cpp:117-140 | Each entry of the map the loop builds is a visited rom that is unavailable, not also lacking in the parent, and of that name. |
| Export.LastMissingSpec | audit.cpp:117-140 | Visiting the roms once each in any order, the map holds, for each name of a listed rom, the last listed CRC of that name in the order. Every listed rom's name is a key. |
| Export.LastMissingAscending | audit.cpp:117-140 | Visiting in ascending CRC order builds the reference map `MissingMapOf` of the visited CRCs. |
| Export.LastMissingAscendingAll | audit.cpp:117-140 | Over all the roms in ascending CRC order, the map is `MissingMap`, which keeps the largest listed CRC of each name. |
| Export.MissingMapSpec | audit.cpp:116-146 | The reference map for ascending order: each entry is an unavailable rom of that name that the parent does not lack too, with the largest such CRC. Every such rom's name is a key. |
| Export.MissingMapStep | audit.cpp:117-140 | One more CRC above all visited ones updates the reference map as line 136 does. |
| Export.VisitRom | audit.cpp:117-146 | One rom's turn updates the map and the three counters as the invariant over visited CRCs requires. |
| Export.VisitStep | audit.cpp:117-146 | The loop invariant is kept by one more CRC. |
| Export.MissingRoms | audit.cpp:82-146 | Visiting the roms in the order of `roms.keys()`, the map is `LastMissing` of that order. `missingCount` counts the unavailable roms the BIOS does not hold. `nodumpCount` counts the nodumps. The clone flag says no available rom is specific to the clone. |
| Export.NothingFoundIsCompletelyMissing | audit.cpp:151-156 | A game with no rom found reaches the completely-missing threshold, since the BIOS holds no more of its roms than the BIOS has. |
| Export.NothingFoundExportMode | audit.cpp:148-161 | Such a game, marked `Missing` and with a rom to list, is written by the "missing" export and skipped by the "incomplete" one, whatever the rom order. |
| Export.DatRomsCrc | audit.cpp:182 | Each CRC attribute is 8 hex digits that read back as the CRC. |
| Strings.HexPaddedRoundTrip | audit.cpp:182 | Zero-padded lower-case hex of a value below 16^width reads back as the value. |
| Export.RomLinesSpec | audit.cpp:175-184 | The `rom` elements are the missing roms once each, in strictly increasing name order, each with a CRC text that reads back as an unavailable, listed rom of that name, the last such in the rom order. Every listed rom's name appears. |
| Export.WriteGame | audit.cpp:78-187 | One game's turn gives `GameEntry`: the filter by mode, the empty-list skip, the threshold, then the record. |
| Export.ReportStep | audit.cpp:76-188 | One more game appends its entry, if it has one. |
| Export.ReportMembers | audit.cpp:76-188 | The report holds exactly the entries of the visited games that are written. |
| Export.WriteDat | audit.cpp:44-188 | The written records are `Report` over the export order. |
| Auditor.RomAuditor.ExportDat | audit.cpp:29-36 | Nothing is written in audit-only mode, with no file name, or when the file does not open. Otherwise the report over the export order is written, each game's roms visited in its `roms.keys()` order. |
| Auditor.PurgedSpec | audit.cpp:214-224 | The purge drops exactly the external-media records of the selected consoles and keeps every other entry. Purging twice changes nothing more. |
| Auditor.PurgedWellLinked | audit.cpp:214-224 | When no link names an external-media record, the purge keeps every link inside the table and still away from such records. |
| Auditor.ReauditLeavesNoStaleRecord | audit.cpp:214-224 | After the purge and a re-audit of a console, every external-media record of that console is one of its listed files. |
| Auditor.RomAuditor.PurgeConsoles | audit.cpp:216-224 | In place: the table becomes `Purged` of the old one. It stays well linked when no link named an external-media record. |
| Auditor.RomAuditor.Audit | audit.cpp:197-235 | While running, nothing changes. Otherwise the mode and file name are stored. In complete mode, or in an export mode after an audit, the fix dat is exported and nothing else changes. Otherwise the selected consoles' records are purged, `hasAudited` is set, the thread starts, and `isConsoleFolder` is the folder selection unless the audit is automatic. When no link names an external-media record, the table stays well linked for `run`. |

## Left out

- Strings.ZipExt: the values ".zip" and ".7z" of `ZIP_EXT` and `SZIP_EXT` (`ZipExt`, `SevenZipExt`) are assumed. The header that defines them is not part of this model; their comparison with `"." + fi.suffix()` at audit.cpp line 571 agrees with them.
- Threads, priorities, the progress signals and log lines are not modelled. `start` becomes the `started` result, and `isRunning` a parameter.
- Audit: it does not model `gameList->disableCtrls` or `gameList->autoAudit = false` (lines 212, 229). Those are UI state outside the auditor.
- Reading archives is not modelled. QuaZip and the 7z SDK are inputs: an archive either did not open, or is a list of CRCs. A zip entry whose info cannot be read is `None`.
- Directory listings, name filters and `QDir` flags are not modelled. The lists of `.chd` files, archives and console software files arrive already filtered, in listing order.
- `mameOpts` lookups are not modelled. The rom path list and each console's `extra_software` setting and directory existence are inputs.
- `utils->iterateMameFile` is not modelled. The member names it reports for a directory and an archive's complete base name are inputs, in its hash order.
- The XML text is not modelled. Each `game` element is a `DatGame` record and each `rom` a `DatRom`. DTD, indentation and attribute escaping are left out.
- ExportDat: it does not model the failure to open the output file. That failure is the parameter `fileOpens`.
- `pMameDat->completeData()` is not modelled. It is code outside this model, treated as leaving the table unchanged.
- Lower-casing is ASCII only. `QString::toLower` also folds other letters.
- Sorting compares code points. Qt compares UTF-16 code units; the two differ only outside the Basic Multilingual Plane.
- In-place updates of one `RomInfo` or `DiskInfo` are modelled as value updates of the table. No two games share a rom object in the model.
- Run: it requires that every `romof` and clone name is a game of the table (`WellLinked`). The source dereferences such lookups without a check. A dangling link would be a null dereference there, and that case is not modelled.
- Auditor.RunNoLinkToExt: it assumes that no console software key (a directory path plus a file name) is the name of a game that is not external media. The source does not check this; such a key would overwrite that game.
- Console.ExtRecord: the year, manufacturer and `cloneof` are empty, `isBios` is false, and the clone set, roms, disks and devices are empty. These are assumed defaults of the `GameInfo(pMameDat)` constructor, which is not part of this model.
- `Auditor.RomAuditor.constructor` sets `isConsoleFolder` to false. The source leaves that field uninitialised until the first `audit`.
- `MameExeRomAuditor` (the auditor that runs the MAME executable) and `m1.cpp` are not part of this model.

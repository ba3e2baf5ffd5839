/** What the first two phases of `RomAuditor::run` do to the table: the
    clearing pass, and the matching of `.chd` disk images and zip/7z archive
    directories found under the rom paths. Each effect is a function of the
    table before it; the methods of `RomAuditor` are proved to compute them. */
module Scan {
  import opened RomData
  import opened Strings

  // ---------------------------------------------------------------------
  // Inputs standing for the file system and the archive readers
  // ---------------------------------------------------------------------

  /** What QuaZip reports for a file: it did not open, or one entry per file in
      the central directory, `None` where the entry's info could not be read. */
  datatype ZipListing = ZipOpenFailed | ZipEntries(entries: seq<Option<Crc32>>)

  /** What the 7z SDK reports for a file: it did not open or parse, or the
      stored CRC of every file item. */
  datatype SevenZipListing = SevenZipOpenFailed | SevenZipItems(crcs: seq<Crc32>)

  /** A file of a rom path matching "*.zip" or "*.7z", with what each reader
      would report for it (only the one its name selects is consulted). */
  datatype RomFile = RomFile(fileName: string, asZip: ZipListing, asSevenZip: SevenZipListing)

  /** A sub-directory of a rom path and the "*.chd" files in it. */
  datatype ChdDir = ChdDir(dirName: string, chdFiles: seq<string>)

  /** One entry of the semicolon-separated rom path: its sub-directories and
      its archive files, as listed. */
  datatype RomPath = RomPath(romDirs: seq<ChdDir>, romFiles: seq<RomFile>)

  /** The table together with the set of games an archive was found for. */
  datatype ScanState = ScanState(db: Table, audited: set<string>)

  datatype ArchiveKind = Zip | SevenZip

  // ---------------------------------------------------------------------
  // Phase 0: clearing
  // ---------------------------------------------------------------------

  function ClearedRoms(roms: map<Crc32, Rom>): map<Crc32, Rom>
  {
    map c | c in roms :: roms[c].(available := roms[c].status == NoDump)
  }

  function ClearedDisks(disks: map<string, Disk>): map<string, Disk>
  {
    map k | k in disks :: disks[k].(available := disks[k].status == NoDump)
  }

  function ClearGame(g: GameInfo): GameInfo
  {
    g.(roms := ClearedRoms(g.roms), disks := ClearedDisks(g.disks))
  }

  /** The table part-way through the clearing pass: the games in `rest` are
      not cleared yet. */
  function ClearedExcept(db: Table, rest: set<string>): Table
  {
    map n | n in db :: if n in rest then db[n] else ClearGame(db[n])
  }

  lemma ClearedExceptStep(db: Table, rest: set<string>, n: string)
    requires n in rest && n in db
    ensures ClearedExcept(db, rest)[n := ClearGame(db[n])] == ClearedExcept(db, rest - {n})
  {
  }

  lemma ClearedExceptEnds(db: Table)
    ensures ClearedExcept(db, db.Keys) == db && ClearedExcept(db, {}) == Cleared(db)
  {
  }

  /** The clearing pass: every rom and every disk is available exactly when
      its dump status is "nodump"; nothing else changes. */
  function Cleared(db: Table): (r: Table)
    ensures r.Keys == db.Keys
    ensures forall n :: n in db ==>
      r[n] == db[n].(roms := r[n].roms, disks := r[n].disks) &&
      r[n].roms.Keys == db[n].roms.Keys && r[n].disks.Keys == db[n].disks.Keys
    ensures forall n, c :: n in db && c in db[n].roms ==>
      r[n].roms[c] == db[n].roms[c].(available := db[n].roms[c].status == NoDump)
    ensures forall n, k :: n in db && k in db[n].disks ==>
      r[n].disks[k] == db[n].disks[k].(available := db[n].disks[k].status == NoDump)
  {
    map n | n in db :: ClearGame(db[n])
  }

  // ---------------------------------------------------------------------
  // Marking roms and disks available
  // ---------------------------------------------------------------------

  function MarkRoms(g: GameInfo, crcs: set<Crc32>): GameInfo
  {
    g.(roms := map c | c in g.roms :: if c in crcs then g.roms[c].(available := true) else g.roms[c])
  }

  /** In every game named in `names`, the roms whose CRC is in `crcs` become
      available; no other rom, disk or game field changes. */
  function MarkRomsIn(db: Table, names: set<string>, crcs: set<Crc32>): Table
  {
    map n | n in db :: if n in names then MarkRoms(db[n], crcs) else db[n]
  }

  lemma MarkRomsInSpec(db: Table, names: set<string>, crcs: set<Crc32>)
    ensures var r := MarkRomsIn(db, names, crcs);
      FlagsGrow(db, r) &&
      (forall n :: n in db ==> r[n].available == db[n].available && r[n].disks == db[n].disks) &&
      forall n, c :: n in db && c in db[n].roms ==>
        r[n].roms[c].available == (db[n].roms[c].available || (n in names && c in crcs))
  {
  }

  function MarkDisks(g: GameInfo, keys: set<string>): GameInfo
  {
    g.(disks := map k | k in g.disks :: if k in keys then g.disks[k].(available := true) else g.disks[k])
  }

  /** In every game named in `names`, the disks whose SHA-1 is in `keys`
      become available; no other disk, rom or game field changes. */
  function MarkDisksIn(db: Table, names: set<string>, keys: set<string>): Table
  {
    map n | n in db :: if n in names then MarkDisks(db[n], keys) else db[n]
  }

  lemma MarkDisksInSpec(db: Table, names: set<string>, keys: set<string>)
    ensures var r := MarkDisksIn(db, names, keys);
      FlagsGrow(db, r) &&
      (forall n :: n in db ==> r[n].available == db[n].available && r[n].roms == db[n].roms) &&
      forall n, k :: n in db && k in db[n].disks ==>
        r[n].disks[k].available == (db[n].disks[k].available || (n in names && k in keys))
  {
  }

  lemma MarkRomsTwice(g: GameInfo, c1: set<Crc32>, c2: set<Crc32>)
    ensures MarkRoms(MarkRoms(g, c1), c2) == MarkRoms(g, c1 + c2)
  {
    assert MarkRoms(MarkRoms(g, c1), c2).roms == MarkRoms(g, c1 + c2).roms;
  }

  lemma MarkDisksTwice(g: GameInfo, k1: set<string>, k2: set<string>)
    ensures MarkDisks(MarkDisks(g, k1), k2) == MarkDisks(g, k1 + k2)
  {
    assert MarkDisks(MarkDisks(g, k1), k2).disks == MarkDisks(g, k1 + k2).disks;
  }

  /** Marking no CRC changes nothing. */
  lemma MarkRomsInNothing(db: Table, names: set<string>)
    ensures MarkRomsIn(db, names, {}) == db
  {
    forall n | n in db ensures MarkRomsIn(db, names, {})[n] == db[n] {
      assert MarkRoms(db[n], {}).roms == db[n].roms;
    }
  }

  /** Marking no SHA-1 changes nothing. */
  lemma MarkDisksInNothing(db: Table, names: set<string>)
    ensures MarkDisksIn(db, names, {}) == db
  {
    forall n | n in db ensures MarkDisksIn(db, names, {})[n] == db[n] {
      assert MarkDisks(db[n], {}).disks == db[n].disks;
    }
  }

  /** Marking disks keeps the keys, the clone lists and the links of the table. */
  lemma MarkDisksInShape(db: Table, names: set<string>, keys: set<string>)
    ensures var r := MarkDisksIn(db, names, keys);
      r.Keys == db.Keys && (forall n :: n in db ==> r[n].clones == db[n].clones) &&
      (WellLinked(db) ==> WellLinked(r))
  {
    var r := MarkDisksIn(db, names, keys);
    forall n | n in db ensures r[n].romof == db[n].romof && r[n].clones == db[n].clones {
    }
  }

  /** Marking roms keeps the keys, the clone lists and the links of the table. */
  lemma MarkRomsInShape(db: Table, names: set<string>, crcs: set<Crc32>)
    ensures var r := MarkRomsIn(db, names, crcs);
      r.Keys == db.Keys && (forall n :: n in db ==> r[n].clones == db[n].clones) &&
      (WellLinked(db) ==> WellLinked(r))
  {
    var r := MarkRomsIn(db, names, crcs);
    forall n | n in db ensures r[n].romof == db[n].romof && r[n].clones == db[n].clones {
    }
  }

  /** Marking two CRC sets one after the other is marking their union. */
  lemma MarkRomsInCrcs(db: Table, names: set<string>, c1: set<Crc32>, c2: set<Crc32>)
    ensures MarkRomsIn(MarkRomsIn(db, names, c1), names, c2) == MarkRomsIn(db, names, c1 + c2)
  {
    var m := MarkRomsIn(db, names, c1);
    var a, b := MarkRomsIn(m, names, c2), MarkRomsIn(db, names, c1 + c2);
    forall n | n in db ensures a[n] == b[n] {
      if n in names {
        MarkRomsTwice(db[n], c1, c2);
        assert a[n] == MarkRoms(m[n], c2);
      }
    }
  }

  /** One more CRC marked in the family of `game`, read off the table as
      already marked: the same family, links kept, the CRC sets joined. */
  lemma MarkFamilyStep(db: Table, game: string, done: set<Crc32>, crc: Crc32)
    requires game in db && WellLinked(db)
    ensures var family := {game} + db[game].clones;
      var prev := MarkRomsIn(db, family, done);
      game in prev && WellLinked(prev) && prev[game].clones == db[game].clones &&
      MarkRomsIn(prev, {game} + prev[game].clones, {crc}) == MarkRomsIn(db, family, done + {crc})
  {
    MarkRomsInShape(db, {game} + db[game].clones, done);
    MarkRomsInCrcs(db, {game} + db[game].clones, done, {crc});
  }

  /** One more SHA-1 marked in the family of `game`, read off the table as
      already marked. */
  lemma MarkDiskFamilyStep(db: Table, game: string, done: set<string>, sha1: string)
    requires game in db && WellLinked(db)
    ensures var family := {game} + db[game].clones;
      var prev := MarkDisksIn(db, family, done);
      game in prev && WellLinked(prev) && prev[game].clones == db[game].clones &&
      MarkDisksIn(prev, {game} + prev[game].clones, {sha1}) == MarkDisksIn(db, family, done + {sha1})
  {
    MarkDisksInShape(db, {game} + db[game].clones, done);
    MarkDisksInKeys(db, {game} + db[game].clones, done, {sha1});
  }

  /** Marking one CRC set in two groups of games is marking it in their union. */
  lemma MarkRomsInNames(db: Table, n1: set<string>, n2: set<string>, crcs: set<Crc32>)
    ensures MarkRomsIn(MarkRomsIn(db, n1, crcs), n2, crcs) == MarkRomsIn(db, n1 + n2, crcs)
  {
    var m := MarkRomsIn(db, n1, crcs);
    var a, b := MarkRomsIn(m, n2, crcs), MarkRomsIn(db, n1 + n2, crcs);
    forall n | n in db ensures a[n] == b[n] {
      if n in n1 && n in n2 {
        MarkRomsTwice(db[n], crcs, crcs);
        assert crcs + crcs == crcs;
        assert a[n] == MarkRoms(m[n], crcs);
      }
    }
  }

  /** Marking one SHA-1 set in two groups of games is marking it in their union. */
  lemma MarkDisksInNames(db: Table, n1: set<string>, n2: set<string>, keys: set<string>)
    ensures MarkDisksIn(MarkDisksIn(db, n1, keys), n2, keys) == MarkDisksIn(db, n1 + n2, keys)
  {
    var m := MarkDisksIn(db, n1, keys);
    var a, b := MarkDisksIn(m, n2, keys), MarkDisksIn(db, n1 + n2, keys);
    forall n | n in db ensures a[n] == b[n] {
      if n in n1 && n in n2 {
        MarkDisksTwice(db[n], keys, keys);
        assert keys + keys == keys;
        assert a[n] == MarkDisks(m[n], keys);
      }
    }
  }

  /** Marking two SHA-1 sets one after the other is marking their union. */
  lemma MarkDisksInKeys(db: Table, names: set<string>, k1: set<string>, k2: set<string>)
    ensures MarkDisksIn(MarkDisksIn(db, names, k1), names, k2) == MarkDisksIn(db, names, k1 + k2)
  {
    var m := MarkDisksIn(db, names, k1);
    var a, b := MarkDisksIn(m, names, k2), MarkDisksIn(db, names, k1 + k2);
    forall n | n in db ensures a[n] == b[n] {
      if n in names {
        MarkDisksTwice(db[n], k1, k2);
        assert a[n] == MarkDisks(m[n], k2);
      }
    }
  }

  // ---------------------------------------------------------------------
  // Disk images: <rompath>/<game>/<name>.chd
  // ---------------------------------------------------------------------

  /** The SHA-1 keys of the disks of `g` named like the file's lower-cased base name. */
  function ChdMatches(g: GameInfo, chdFile: string): set<string>
  {
    set k | k in g.disks && g.disks[k].name == ToLower(BaseName(chdFile))
  }

  /** One `.chd` file in the directory of game `game`: the matching disks of
      the game, and the disks with the same SHA-1 in each of its clones. */
  function ScanChdFile(db: Table, game: string, chdFile: string): Table
    requires game in db
  {
    MarkDisksIn(db, {game} + db[game].clones, ChdMatches(db[game], chdFile))
  }

  /** One `.chd` file turns on, in the game and in each of its clones, exactly
      the disks whose SHA-1 is that of a disk of the game named like the
      file's lower-cased base name; roms and game states are unchanged. */
  lemma ScanChdFileSpec(db: Table, game: string, chdFile: string)
    requires game in db
    ensures var r := ScanChdFile(db, game, chdFile);
      FlagsGrow(db, r) &&
      (forall n :: n in db ==> r[n].roms == db[n].roms && r[n].available == db[n].available) &&
      forall n, k :: n in db && k in db[n].disks ==>
        r[n].disks[k].available ==
          (db[n].disks[k].available ||
           ((n == game || n in db[game].clones) &&
            k in db[game].disks && db[game].disks[k].name == ToLower(BaseName(chdFile))))
  {
    MarkDisksInSpec(db, {game} + db[game].clones, ChdMatches(db[game], chdFile));
  }

  function ScanChdFiles(db: Table, game: string, files: seq<string>): (r: Table)
    requires game in db
    ensures FlagsGrow(db, r)
    ensures forall n :: n in db ==> r[n].roms == db[n].roms && r[n].available == db[n].available
    decreases |files|
  {
    if files == [] then db
    else
      var prev := ScanChdFiles(db, game, files[..|files| - 1]);
      var r := ScanChdFile(prev, game, files[|files| - 1]);
      MarkDisksInSpec(prev, {game} + prev[game].clones, ChdMatches(prev[game], files[|files| - 1]));
      FlagsGrowTransitive(db, prev, r);
      r
  }

  /** The `.chd` files of a directory one more at a time; links stay in the table. */
  lemma ScanChdFilesStep(db: Table, game: string, files: seq<string>, i: nat)
    requires game in db && i < |files|
    ensures var prev := ScanChdFiles(db, game, files[..i]);
      game in prev && ScanChdFiles(db, game, files[..i + 1]) == ScanChdFile(prev, game, files[i]) &&
      (WellLinked(db) ==> WellLinked(prev))
  {
    assert files[..i + 1][..i] == files[..i];
    if WellLinked(db) {
      FlagsGrowWellLinked(db, ScanChdFiles(db, game, files[..i]));
    }
  }

  /** A sub-directory counts only when its lower-cased name is a game. */
  function ScanChdDir(db: Table, d: ChdDir): Table
  {
    var game := ToLower(d.dirName);
    if game in db then ScanChdFiles(db, game, d.chdFiles) else db
  }

  function ScanChdDirs(db: Table, ds: seq<ChdDir>): (r: Table)
    ensures FlagsGrow(db, r)
    ensures forall n :: n in db ==> r[n].roms == db[n].roms && r[n].available == db[n].available
    decreases |ds|
  {
    if ds == [] then db
    else
      var prev := ScanChdDirs(db, ds[..|ds| - 1]);
      var r := ScanChdDir(prev, ds[|ds| - 1]);
      FlagsGrowTransitive(db, prev, r);
      r
  }

  /** The sub-directories of a rom path one more at a time. */
  lemma ScanChdDirsStep(db: Table, ds: seq<ChdDir>, i: nat)
    requires i < |ds|
    ensures ScanChdDirs(db, ds[..i + 1]) == ScanChdDir(ScanChdDirs(db, ds[..i]), ds[i])
  {
    assert ds[..i + 1][..i] == ds[..i];
  }

  // ---------------------------------------------------------------------
  // Archives: <rompath>/<game>.zip and <rompath>/<game>.7z
  // ---------------------------------------------------------------------

  /** Which reader a listed file goes to and which game it names: the
      lower-cased name is matched with `contains` (not a suffix test) and every
      occurrence of the extension is removed. */
  function ArchiveTarget(fileName: string): Option<(ArchiveKind, string)>
  {
    var lower := ToLower(fileName);
    if Contains(lower, ZipExt) then Some((Zip, RemoveAll(lower, ZipExt)))
    else if Contains(lower, SevenZipExt) then Some((SevenZip, RemoveAll(lower, SevenZipExt)))
    else None
  }

  /** The CRCs of the zip entries whose info could be read. */
  function ReadableCrcs(es: seq<Option<Crc32>>): set<Crc32>
  {
    set i | 0 <= i < |es| && es[i].Some? :: es[i].value
  }

  /** The CRCs of the file items of a 7z archive. */
  function ItemCrcs(cs: seq<Crc32>): set<Crc32>
  {
    set i | 0 <= i < |cs| :: cs[i]
  }

  /** The readable entries one more at a time. */
  lemma ReadableCrcsStep(es: seq<Option<Crc32>>, i: nat)
    requires i < |es|
    ensures ReadableCrcs(es[..i + 1]) == ReadableCrcs(es[..i]) + (if es[i].Some? then {es[i].value} else {})
  {
    var a, b := es[..i + 1], es[..i];
    forall c | c in ReadableCrcs(a) ensures c in ReadableCrcs(b) + (if es[i].Some? then {es[i].value} else {}) {
      var j :| 0 <= j < |a| && a[j].Some? && a[j].value == c;
      if j < i {
        assert b[j] == a[j];
      }
    }
    forall c | c in ReadableCrcs(b) ensures c in ReadableCrcs(a) {
      var j :| 0 <= j < |b| && b[j].Some? && b[j].value == c;
      assert a[j] == b[j];
    }
    if es[i].Some? {
      assert a[i] == es[i];
    }
  }

  /** The 7z items one more at a time. */
  lemma ItemCrcsStep(cs: seq<Crc32>, i: nat)
    requires i < |cs|
    ensures ItemCrcs(cs[..i + 1]) == ItemCrcs(cs[..i]) + {cs[i]}
  {
    var a, b := cs[..i + 1], cs[..i];
    forall c | c in ItemCrcs(a) ensures c in ItemCrcs(b) + {cs[i]} {
      var j :| 0 <= j < |a| && a[j] == c;
      if j < i {
        assert b[j] == a[j];
      }
    }
    forall c | c in ItemCrcs(b) ensures c in ItemCrcs(a) {
      var j :| 0 <= j < |b| && b[j] == c;
      assert a[j] == b[j];
    }
    assert a[i] == cs[i];
  }

  /** An opened archive of game `game` with entry CRCs `crcs`: the roms with
      those CRCs in the game and its clones become available; the game is
      audited, and its clones too once at least one entry was read. */
  function MatchArchive(st: ScanState, game: string, crcs: set<Crc32>): ScanState
    requires game in st.db
  {
    var family := {game} + st.db[game].clones;
    ScanState(MarkRomsIn(st.db, family, crcs),
              st.audited + {game} + (if crcs == {} then {} else st.db[game].clones))
  }

  function ZipEffect(st: ScanState, game: string, l: ZipListing): ScanState
    requires game in st.db
  {
    match l
    case ZipOpenFailed => st.(audited := st.audited + {game})
    case ZipEntries(es) => MatchArchive(st, game, ReadableCrcs(es))
  }

  function SevenZipEffect(st: ScanState, game: string, l: SevenZipListing): ScanState
    requires game in st.db
  {
    match l
    case SevenZipOpenFailed => st.(audited := st.audited + {game})
    case SevenZipItems(cs) => MatchArchive(st, game, ItemCrcs(cs))
  }

  function ScanRomFile(st: ScanState, f: RomFile): ScanState
  {
    match ArchiveTarget(f.fileName)
    case None => st
    case Some((kind, game)) =>
      if game !in st.db then st
      else if kind == Zip then ZipEffect(st, game, f.asZip)
      else SevenZipEffect(st, game, f.asSevenZip)
  }

  function ScanRomFiles(st: ScanState, fs: seq<RomFile>): ScanState
    decreases |fs|
  {
    if fs == [] then st else ScanRomFile(ScanRomFiles(st, fs[..|fs| - 1]), fs[|fs| - 1])
  }

  /** One rom path: its `.chd` sub-directories first, then its archives. */
  function ScanRomPath(st: ScanState, p: RomPath): ScanState
  {
    ScanRomFiles(st.(db := ScanChdDirs(st.db, p.romDirs)), p.romFiles)
  }

  function ScanRomPaths(st: ScanState, ps: seq<RomPath>): ScanState
    decreases |ps|
  {
    if ps == [] then st else ScanRomPath(ScanRomPaths(st, ps[..|ps| - 1]), ps[|ps| - 1])
  }

  /** The archives of a rom path one more at a time. */
  lemma ScanRomFilesStep(st: ScanState, fs: seq<RomFile>, i: nat)
    requires i < |fs|
    ensures ScanRomFiles(st, fs[..i + 1]) == ScanRomFile(ScanRomFiles(st, fs[..i]), fs[i])
  {
    assert fs[..i + 1][..i] == fs[..i];
  }

  /** The rom paths one more at a time. */
  lemma ScanRomPathsStep(st: ScanState, ps: seq<RomPath>, i: nat)
    requires i < |ps|
    ensures ScanRomPaths(st, ps[..i + 1]) == ScanRomPath(ScanRomPaths(st, ps[..i]), ps[i])
  {
    assert ps[..i + 1][..i] == ps[..i];
  }

  // ---------------------------------------------------------------------
  // Properties
  // ---------------------------------------------------------------------

  /** The archive `name` followed by an extension that lower-cases to ".zip"
      names the game `name` lower-cased, provided ".zip" does not already
      occur in the lower-cased name. */
  lemma ZipArchiveNamesGame(name: string, ext: string)
    requires ToLower(ext) == ZipExt && !Contains(ToLower(name), ZipExt)
    ensures ArchiveTarget(name + ext) == Some((Zip, ToLower(name)))
  {
    ToLowerAppend(name, ext);
    var lower := ToLower(name) + ZipExt;
    assert OccursAt(lower, ZipExt, |ToLower(name)|);
    RemoveExtension(ToLower(name), ZipExt);
  }

  lemma ToLowerAppend(a: string, b: string)
    ensures ToLower(a + b) == ToLower(a) + ToLower(b)
  {
  }

  /** A zip and a 7z archive of the same game that yield the same CRC list
      have the same effect on the table and on the audited set. */
  lemma ContainerIndependence(st: ScanState, game: string, crcs: seq<Crc32>)
    requires game in st.db
    ensures ZipEffect(st, game, ZipEntries(seq(|crcs|, i requires 0 <= i < |crcs| => Some(crcs[i]))))
         == SevenZipEffect(st, game, SevenZipItems(crcs))
  {
    var es := seq(|crcs|, i requires 0 <= i < |crcs| => Some(crcs[i]));
    assert ReadableCrcs(es) == ItemCrcs(crcs) by {
      forall c | c in ReadableCrcs(es) ensures c in ItemCrcs(crcs) {
        var i :| 0 <= i < |es| && es[i].Some? && es[i].value == c;
        assert crcs[i] == c;
      }
      forall c | c in ItemCrcs(crcs) ensures c in ReadableCrcs(es) {
        var i :| 0 <= i < |crcs| && crcs[i] == c;
        assert es[i] == Some(c);
      }
    }
  }

  /** A recognised archive puts its game in the audited set even when it
      cannot be opened; its clones enter only when an entry is read. */
  lemma RecognisedArchiveIsAudited(st: ScanState, f: RomFile, kind: ArchiveKind, game: string)
    requires ArchiveTarget(f.fileName) == Some((kind, game)) && game in st.db
    ensures game in ScanRomFile(st, f).audited
    ensures kind == Zip && f.asZip.ZipOpenFailed? ==> ScanRomFile(st, f) == st.(audited := st.audited + {game})
    ensures kind == Zip && f.asZip.ZipEntries? && ReadableCrcs(f.asZip.entries) == {} ==>
      ScanRomFile(st, f).audited == st.audited + {game}
    ensures kind == SevenZip && f.asSevenZip.SevenZipOpenFailed? ==>
      ScanRomFile(st, f) == st.(audited := st.audited + {game})
    ensures kind == SevenZip && f.asSevenZip.SevenZipItems? && ItemCrcs(f.asSevenZip.crcs) == {} ==>
      ScanRomFile(st, f).audited == st.audited + {game}
  {
  }

  /** One archive never makes anything unavailable, never changes a game's
      state or disks, and only grows the audited set. */
  lemma ScanRomFileGrows(st: ScanState, f: RomFile)
    ensures FlagsGrow(st.db, ScanRomFile(st, f).db)
    ensures st.audited <= ScanRomFile(st, f).audited
    ensures forall n :: n in st.db ==>
      ScanRomFile(st, f).db[n].available == st.db[n].available &&
      ScanRomFile(st, f).db[n].disks == st.db[n].disks
  {
    match ArchiveTarget(f.fileName)
    case None => FlagsGrowReflexive(st.db);
    case Some((kind, game)) =>
      if game !in st.db {
        FlagsGrowReflexive(st.db);
      } else if kind == Zip {
        match f.asZip
        case ZipOpenFailed => FlagsGrowReflexive(st.db);
        case ZipEntries(es) => MarkRomsInSpec(st.db, {game} + st.db[game].clones, ReadableCrcs(es));
      } else {
        match f.asSevenZip
        case SevenZipOpenFailed => FlagsGrowReflexive(st.db);
        case SevenZipItems(cs) => MarkRomsInSpec(st.db, {game} + st.db[game].clones, ItemCrcs(cs));
      }
  }

  /** The archive scan of a rom path never makes anything unavailable, never
      changes a game's state or disks, and only grows the audited set. */
  lemma {:induction false} ScanRomFilesGrows(st: ScanState, fs: seq<RomFile>)
    ensures FlagsGrow(st.db, ScanRomFiles(st, fs).db)
    ensures st.audited <= ScanRomFiles(st, fs).audited
    ensures forall n :: n in st.db ==>
      ScanRomFiles(st, fs).db[n].available == st.db[n].available &&
      ScanRomFiles(st, fs).db[n].disks == st.db[n].disks
    decreases |fs|
  {
    if fs == [] {
      FlagsGrowReflexive(st.db);
    } else {
      var prev := ScanRomFiles(st, fs[..|fs| - 1]);
      ScanRomFilesGrows(st, fs[..|fs| - 1]);
      ScanRomFileGrows(prev, fs[|fs| - 1]);
      FlagsGrowTransitive(st.db, prev.db, ScanRomFile(prev, fs[|fs| - 1]).db);
    }
  }

  /** The whole of phase 1 only turns flags on. */
  lemma {:induction false} ScanRomPathsGrows(st: ScanState, ps: seq<RomPath>)
    ensures FlagsGrow(st.db, ScanRomPaths(st, ps).db)
    ensures st.audited <= ScanRomPaths(st, ps).audited
    ensures forall n :: n in st.db ==> ScanRomPaths(st, ps).db[n].available == st.db[n].available
    decreases |ps|
  {
    if ps != [] {
      var prev := ScanRomPaths(st, ps[..|ps| - 1]);
      ScanRomPathsGrows(st, ps[..|ps| - 1]);
      var p := ps[|ps| - 1];
      var mid := prev.(db := ScanChdDirs(prev.db, p.romDirs));
      ScanRomFilesGrows(mid, p.romFiles);
      FlagsGrowTransitive(prev.db, mid.db, ScanRomFiles(mid, p.romFiles).db);
      FlagsGrowTransitive(st.db, prev.db, ScanRomPath(prev, p).db);
    }
  }
}

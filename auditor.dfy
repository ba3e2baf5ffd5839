/** `RomAuditor`: the audit thread object. `audit` either exports the fix
    dat straight away or purges the stale console records and starts `run`;
    `run` clears the flags, scans the rom paths, classifies every game and
    then audits the selected console folders. The table it works on belongs
    to the `MameDat` object, whose `games` field the methods reassign. */
module Auditor {
  import opened RomData
  import opened Strings
  import opened Scan
  import opened ScanOrder
  import opened Classify
  import opened Export
  import opened Console

  // ---------------------------------------------------------------------
  // What the phases compute
  // ---------------------------------------------------------------------

  /** Lines 214-224: the external-media records of the consoles whose folders
      are to be audited are dropped; every other entry stays. */
  function Purged(db: Table, consoles: set<string>): Table
  {
    map n | n in db && !(db[n].isExtRom && db[n].romof in consoles) :: db[n]
  }

  /** The MAME part of `run` (lines 243-519): clear, scan every rom path
      starting with no audited game, then classify in key order. */
  ghost function MameAudit(db: Table, paths: seq<RomPath>, order: seq<string>): Table
  {
    var st := ScanRomPaths(ScanState(Cleared(db), {}), paths);
    ClassifyAll(st.db, st.audited, order)
  }

  /** All of `run`: the MAME part unless a console folder is selected, then
      the console pass over the same keys. */
  ghost function RunResult(db: Table, isConsoleFolder: bool, paths: seq<RomPath>, order: seq<string>,
                           consoles: set<string>, extra: map<string, ExtraSoftware>): Table
    requires forall n :: n in consoles ==> n in extra
  {
    ConsolePhase(if isConsoleFolder then db else MameAudit(db, paths, order), order, consoles, extra)
  }

  // ---------------------------------------------------------------------
  // Properties of the phases
  // ---------------------------------------------------------------------

  /** After the purge no external-media record of a purged console is left,
      and every other entry is kept: purging twice changes nothing more. */
  lemma PurgedSpec(db: Table, consoles: set<string>)
    ensures var r := Purged(db, consoles);
      (forall n :: n in r ==> r[n] == db[n] && !(r[n].isExtRom && r[n].romof in consoles)) &&
      (forall n :: n in db && !(db[n].isExtRom && db[n].romof in consoles) ==> n in r)
    ensures Purged(Purged(db, consoles), consoles) == Purged(db, consoles)
  {
  }

  /** Re-auditing a console after the purge leaves no stale record: every
      external-media record of that console is one of its listed files. */
  lemma ReauditLeavesNoStaleRecord(db: Table, consoles: set<string>, console: string, x: ExtraSoftware)
    requires console in consoles && console in Purged(db, consoles)
    requires x.setting != [] && x.dirExists
    ensures var r := ConsoleRecords(Purged(db, consoles), console, x);
      forall k :: k in r && r[k].isExtRom && r[k].romof == console ==> SoftwareKey(x, x.files, k)
  {
    PurgedSpec(db, consoles);
    ConsoleRecordsSpec(Purged(db, consoles), console, x);
  }

  /** When no link names an external-media record, the purge keeps every
      link inside the table: it removes only such records. */
  lemma PurgedWellLinked(db: Table, consoles: set<string>)
    requires WellLinked(db) && NoLinkToExt(db)
    ensures WellLinked(Purged(db, consoles)) && NoLinkToExt(Purged(db, consoles))
    ensures ExtWithoutDevices(db) ==> ExtWithoutDevices(Purged(db, consoles))
  {
    var r := Purged(db, consoles);
    forall n | n in r ensures (r[n].romof != "" ==> r[n].romof in r) && r[n].clones <= r.Keys {
      assert r[n] == db[n];
      forall c | c in r[n].clones ensures c in r {
        assert c in db && !db[c].isExtRom;
      }
    }
  }

  /** Clearing keeps every link inside the table. */
  lemma ClearedWellLinked(db: Table)
    requires WellLinked(db)
    ensures WellLinked(Cleared(db))
  {
    var r := Cleared(db);
    forall n | n in r ensures (r[n].romof != "" ==> r[n].romof in r) && r[n].clones <= r.Keys {
      assert r[n].romof == db[n].romof && r[n].clones == db[n].clones;
    }
  }

  /** Clearing keeps every link away from external-media records. */
  lemma ClearedNoLinkToExt(db: Table)
    requires NoLinkToExt(db) && ExtWithoutDevices(db)
    ensures NoLinkToExt(Cleared(db)) && ExtWithoutDevices(Cleared(db))
  {
    var r := Cleared(db);
    forall n | n in r
      ensures (r[n].romof != "" && r[n].romof in r ==> !r[r[n].romof].isExtRom) &&
              (forall c :: c in r[n].clones && c in r ==> !r[c].isExtRom)
    {
      assert r[n].romof == db[n].romof && r[n].clones == db[n].clones;
    }
  }

  /** The MAME part keeps the keys and every link, and changes no game's
      `isExtRom`. */
  lemma MameAuditShape(db: Table, paths: seq<RomPath>, order: seq<string>)
    ensures MameAudit(db, paths, order).Keys == db.Keys
    ensures forall n :: n in db ==> MameAudit(db, paths, order)[n].isExtRom == db[n].isExtRom
    ensures WellLinked(db) ==> WellLinked(MameAudit(db, paths, order))
  {
    var st := ScanRomPaths(ScanState(Cleared(db), {}), paths);
    ScanRomPathsGrows(ScanState(Cleared(db), {}), paths);
    ClassifyAllGrows(st.db, st.audited, order);
    if WellLinked(db) {
      ClearedWellLinked(db);
      FlagsGrowWellLinked(Cleared(db), st.db);
      FlagsGrowWellLinked(st.db, MameAudit(db, paths, order));
    }
  }

  /** After the clearing pass, the scan and the classification only turn
      rom and disk flags on. */
  lemma MameAuditFlagsGrow(db: Table, paths: seq<RomPath>, order: seq<string>)
    ensures FlagsGrow(Cleared(db), MameAudit(db, paths, order))
  {
    var st := ScanRomPaths(ScanState(Cleared(db), {}), paths);
    ScanRomPathsGrows(ScanState(Cleared(db), {}), paths);
    ClassifyAllGrows(st.db, st.audited, order);
    FlagsGrowTransitive(Cleared(db), st.db, MameAudit(db, paths, order));
  }

  /** The MAME part leaves the state of external-media records as it was. */
  lemma MameAuditKeepsExt(db: Table, paths: seq<RomPath>, order: seq<string>)
    ensures MameAudit(db, paths, order).Keys == db.Keys
    ensures forall n :: n in db && db[n].isExtRom ==> MameAudit(db, paths, order)[n].available == db[n].available
  {
    ScanRomPathsGrows(ScanState(Cleared(db), {}), paths);
  }

  /** Clearing after a run gives the cleared table again, but for the
      states of games that are not external media. */
  lemma ClearedAfterMameAudit(db: Table, paths: seq<RomPath>, order: seq<string>)
    ensures SameButStates(Cleared(db), Cleared(MameAudit(db, paths, order)), set n | n in db && !db[n].isExtRom)
  {
    var m := MameAudit(db, paths, order);
    MameAuditFlagsGrow(db, paths, order);
    MameAuditKeepsExt(db, paths, order);
    ClearedForgetsFlags(db, m);
    SameButStatesWiden(Cleared(db), Cleared(m), (set n | n in db && m[n].available != db[n].available),
                       set n | n in db && !db[n].isExtRom);
  }

  /** Scanning and classifying tables that differ only in the states of
      games the classification visits gives the same table. */
  lemma ScanClassifySameButStates(a: Table, b: Table, s: set<string>, paths: seq<RomPath>, order: seq<string>)
    requires SameButStates(a, b, s)
    requires forall n :: n in s ==> n in a && !a[n].isExtRom && n in order
    ensures var sa, sb := ScanRomPaths(ScanState(a, {}), paths), ScanRomPaths(ScanState(b, {}), paths);
      ClassifyAll(sa.db, sa.audited, order) == ClassifyAll(sb.db, sb.audited, order)
  {
    var sa, sb := ScanRomPaths(ScanState(a, {}), paths), ScanRomPaths(ScanState(b, {}), paths);
    SameButStatesShape(a, b, s);
    var h := RomPathsHits(a, paths);
    ScanRomPathsHits(a, ScanState(a, {}), paths);
    ScanRomPathsHits(a, ScanState(b, {}), paths);
    assert sa.db == MarkHits(a, h) && sb.db == MarkHits(b, h) && sa.audited == sb.audited;
    MarkHitsSameButStates(a, b, s, h);
    ClassifyAllSameButStates(sa.db, sb.db, sa.audited, order, s);
    var ra, rb := ClassifyAll(sa.db, sa.audited, order), ClassifyAll(sb.db, sb.audited, order);
    assert SameButStates(ra, rb, {});
    SameButNoStates(ra, rb);
  }

  /** Running the MAME part a second time gives the same table: clearing
      forgets every flag the first run turned on, the scan reads only what no
      run changes, and classification overwrites the state of every game
      that is not external media. */
  lemma MameAuditIdempotent(db: Table, paths: seq<RomPath>, order: seq<string>)
    requires EnumeratesKeys(order, db)
    ensures MameAudit(MameAudit(db, paths, order), paths, order) == MameAudit(db, paths, order)
  {
    var m := MameAudit(db, paths, order);
    ClearedAfterMameAudit(db, paths, order);
    ScanClassifySameButStates(Cleared(db), Cleared(m), (set n | n in db && !db[n].isExtRom), paths, order);
  }

  /** Every "nodump" rom and disk is available after the MAME part, so a
      rom that was never dumped is never reported missing. */
  lemma MameAuditNoDumpAvailable(db: Table, paths: seq<RomPath>, order: seq<string>)
    ensures var r := MameAudit(db, paths, order);
      (forall n, c :: n in r && c in r[n].roms && r[n].roms[c].status == NoDump ==> r[n].roms[c].available) &&
      (forall n, k :: n in r && k in r[n].disks && r[n].disks[k].status == NoDump ==> r[n].disks[k].available)
  {
    var r := MameAudit(db, paths, order);
    MameAuditFlagsGrow(db, paths, order);
    forall n | n in r ensures GameFlagsGrow(Cleared(db)[n], r[n]) {
    }
  }

  /** After the MAME part, every game that is not external media and is
      marked complete has every rom and every disk available. */
  lemma MameAuditCompleteIsAvailable(db: Table, paths: seq<RomPath>, order: seq<string>)
    requires EnumeratesKeys(order, db)
    ensures var r := MameAudit(db, paths, order);
      forall n :: n in r && !r[n].isExtRom && r[n].available == Complete ==>
        AllRomsAvailable(r[n]) && AllDisksAvailable(r[n])
  {
    var st := ScanRomPaths(ScanState(Cleared(db), {}), paths);
    ScanRomPathsGrows(ScanState(Cleared(db), {}), paths);
    ClassifyAllCompleteIsAvailable(st.db, st.audited, order);
  }

  /** The same holds after all of `run`: the console pass only adds
      external-media records. */
  lemma RunCompleteIsAvailable(db: Table, paths: seq<RomPath>, order: seq<string>, consoles: set<string>,
                               extra: map<string, ExtraSoftware>)
    requires EnumeratesKeys(order, db) && forall n :: n in consoles ==> n in extra
    ensures var r := RunResult(db, false, paths, order, consoles, extra);
      forall n :: n in r && !r[n].isExtRom && r[n].available == Complete ==>
        AllRomsAvailable(r[n]) && AllDisksAvailable(r[n])
  {
    var m := MameAudit(db, paths, order);
    MameAuditCompleteIsAvailable(db, paths, order);
    ConsolePhaseSpec(m, order, consoles, extra);
  }

  /** After a run, no "nodump" rom of a game that is not external media is
      listed as missing in the fix dat. */
  lemma RunNoDumpNeverListed(db: Table, paths: seq<RomPath>, order: seq<string>, consoles: set<string>,
                             extra: map<string, ExtraSoftware>)
    requires forall n :: n in consoles ==> n in extra
    ensures var r := RunResult(db, false, paths, order, consoles, extra);
      forall n, c :: n in r && !r[n].isExtRom && c in r[n].roms && r[n].roms[c].status == NoDump ==>
        !Listed(r, r[n], c)
  {
    var m := MameAudit(db, paths, order);
    MameAuditNoDumpAvailable(db, paths, order);
    ConsolePhaseSpec(m, order, consoles, extra);
  }

  /** `run` keeps every link away from external-media records, so that the
      purge before the next audit keeps the table well linked, provided the
      software keys name no game that is not external media. */
  lemma RunNoLinkToExt(db: Table, isConsoleFolder: bool, paths: seq<RomPath>, order: seq<string>,
                       consoles: set<string>, extra: map<string, ExtraSoftware>)
    requires forall n :: n in consoles ==> n in extra
    requires WellLinked(db) && NoLinkToExt(db) && ExtWithoutDevices(db) && SoftwareKeysApart(db, consoles, extra)
    ensures NoLinkToExt(RunResult(db, isConsoleFolder, paths, order, consoles, extra))
    ensures ExtWithoutDevices(RunResult(db, isConsoleFolder, paths, order, consoles, extra))
  {
    if isConsoleFolder {
      ConsolePhaseNoLinkToExt(db, order, consoles, extra);
    } else {
      var m := MameAudit(db, paths, order);
      MameAuditShape(db, paths, order);
      MameAuditFlagsGrow(db, paths, order);
      ClearedNoLinkToExt(db);
      FlagsGrowNoLinkToExt(Cleared(db), m);
      assert SoftwareKeysApart(m, consoles, extra);
      ConsolePhaseNoLinkToExt(m, order, consoles, extra);
    }
  }

  /** `run` keeps every link inside the table, so that `exportDat` can follow them. */
  lemma RunWellLinked(db: Table, isConsoleFolder: bool, paths: seq<RomPath>, order: seq<string>,
                      consoles: set<string>, extra: map<string, ExtraSoftware>)
    requires WellLinked(db) && forall n :: n in consoles ==> n in extra
    ensures WellLinked(RunResult(db, isConsoleFolder, paths, order, consoles, extra))
  {
    MameAuditShape(db, paths, order);
    ConsolePhaseWellLinked(if isConsoleFolder then db else MameAudit(db, paths, order), order, consoles, extra);
  }

  /** Taking one more element `x` of `rest` out of the remainder. */
  lemma JoinOneMore<T>(a: set<T>, all: set<T>, rest: set<T>, x: T)
    requires x in rest && rest <= all
    ensures a + (all - rest) + {x} == a + (all - (rest - {x}))
  {
  }

  // ---------------------------------------------------------------------
  // The thread object
  // ---------------------------------------------------------------------

  class RomAuditor {
    /** pMameDat: the database whose table the audit updates. */
    const dat: MameDat
    var hasAudited: bool
    /** The field `method` of the source: the export mode of the last request. */
    var mode: Mode
    var fixDatFileName: string
    var isConsoleFolder: bool

    /** Lines 17-22: not yet audited, audit-only mode. */
    constructor (dat: MameDat)
      ensures this.dat == dat && !hasAudited && mode == AuditOnly && fixDatFileName == [] && !isConsoleFolder
    {
      this.dat := dat;
      hasAudited := false;
      mode := AuditOnly;
      fixDatFileName := [];
      isConsoleFolder := false;
    }

    /** `roms.value(crc)->available = true` in game `name`, when it has that rom. */
    method MarkRom(name: string, crc: Crc32)
      requires name in dat.games
      modifies dat
      ensures dat.games == MarkRomsIn(old(dat.games), {name}, {crc})
    {
      var g := dat.games[name];
      if crc in g.roms {
        dat.games := dat.games[name := g.(roms := g.roms[crc := g.roms[crc].(available := true)])];
      }
      assert dat.games[name] == MarkRoms(g, {crc});
    }

    /** `disks[sha1]->available = true` in game `name`, when it has that disk. */
    method MarkDisk(name: string, sha1: string)
      requires name in dat.games
      modifies dat
      ensures dat.games == MarkDisksIn(old(dat.games), {name}, {sha1})
    {
      var g := dat.games[name];
      if sha1 in g.disks {
        dat.games := dat.games[name := g.(disks := g.disks[sha1 := g.disks[sha1].(available := true)])];
      }
      assert dat.games[name] == MarkDisks(g, {sha1});
    }

    /** One archive entry with CRC `crc` (lines 350-360 and 402-413): the
        game's rom, then each clone, which is also counted as audited. */
    method MarkFamily(game: string, crc: Crc32, audited: set<string>) returns (audited': set<string>)
      requires game in dat.games && WellLinked(dat.games)
      modifies dat
      ensures dat.games == MarkRomsIn(old(dat.games), {game} + old(dat.games)[game].clones, {crc})
      ensures audited' == audited + old(dat.games)[game].clones
    {
      ghost var db := dat.games;
      var clones := dat.games[game].clones;
      MarkRom(game, crc);
      audited' := audited;
      var rest := clones;
      assert {game} + (clones - rest) == {game} && audited + (clones - rest) == audited;
      while rest != {}
        invariant rest <= clones && clones <= db.Keys
        invariant dat.games == MarkRomsIn(db, {game} + (clones - rest), {crc})
        invariant audited' == audited + (clones - rest)
        decreases |rest|
      {
        var clone :| clone in rest;
        MarkClone(clone, crc, db, {game} + (clones - rest));
        JoinOneMore({game}, clones, rest, clone);
        JoinOneMore(audited, clones, rest, clone);
        audited' := audited' + {clone};
        rest := rest - {clone};
      }
      assert clones - rest == clones;
    }

    /** The rom with CRC `crc` of one more clone, while the games `family`
        are already marked. */
    method MarkClone(clone: string, crc: Crc32, ghost db: Table, ghost family: set<string>)
      requires clone in db && dat.games == MarkRomsIn(db, family, {crc})
      modifies dat
      ensures dat.games == MarkRomsIn(db, family + {clone}, {crc})
    {
      MarkRomsInShape(db, family, {crc});
      MarkRom(clone, crc);
      MarkRomsInNames(db, family, {clone}, {crc});
    }

    /** One disk key `sha1` whose disk matched (lines 300-311): the game's
        disk, then the disk with the same key in each clone that has one. */
    method MarkDiskFamily(game: string, sha1: string)
      requires game in dat.games && WellLinked(dat.games)
      modifies dat
      ensures dat.games == MarkDisksIn(old(dat.games), {game} + old(dat.games)[game].clones, {sha1})
    {
      ghost var db := dat.games;
      var clones := dat.games[game].clones;
      MarkDisk(game, sha1);
      var rest := clones;
      assert {game} + (clones - rest) == {game};
      while rest != {}
        invariant rest <= clones && clones <= db.Keys
        invariant dat.games == MarkDisksIn(db, {game} + (clones - rest), {sha1})
        decreases |rest|
      {
        var clone :| clone in rest;
        MarkDiskClone(clone, sha1, db, {game} + (clones - rest));
        JoinOneMore({game}, clones, rest, clone);
        rest := rest - {clone};
      }
      assert clones - rest == clones;
    }

    /** The disk with key `sha1` of one more clone, while the games `family`
        are already marked. */
    method MarkDiskClone(clone: string, sha1: string, ghost db: Table, ghost family: set<string>)
      requires clone in db && dat.games == MarkDisksIn(db, family, {sha1})
      modifies dat
      ensures dat.games == MarkDisksIn(db, family + {clone}, {sha1})
    {
      MarkDisksInShape(db, family, {sha1});
      MarkDisk(clone, sha1);
      MarkDisksInNames(db, family, {clone}, {sha1});
    }

    /** A disk matched while the disks `matched` of the family of `game` are
        already marked: afterwards `matched` and `sha1` are. */
    method MatchDisk(game: string, sha1: string, ghost db: Table, ghost matched: set<string>)
      requires game in db && WellLinked(db)
      requires dat.games == MarkDisksIn(db, {game} + db[game].clones, matched)
      modifies dat
      ensures dat.games == MarkDisksIn(db, {game} + db[game].clones, matched + {sha1})
    {
      MarkDiskFamilyStep(db, game, matched, sha1);
      MarkDiskFamily(game, sha1);
    }

    /** Lines 294-313 for one `.chd` file in the directory of `game`: every
        disk of the game named like the file's lower-cased base name, and the
        same disk in the clones. */
    method AuditChdFile(game: string, chdFile: string)
      requires game in dat.games && WellLinked(dat.games)
      modifies dat
      ensures dat.games == ScanChdFile(old(dat.games), game, chdFile)
    {
      ghost var db := dat.games;
      var g := dat.games[game];
      var baseName := ToLower(BaseName(chdFile));
      ghost var family := {game} + g.clones;
      var rest := g.disks.Keys;
      ghost var matched: set<string> := {};
      MarkDisksInNothing(db, family);
      while rest != {}
        invariant rest <= g.disks.Keys && game in db && WellLinked(db)
        invariant matched == ChdMatches(g, chdFile) - rest
        invariant dat.games == MarkDisksIn(db, family, matched)
        decreases |rest|
      {
        var sha1 :| sha1 in rest;
        if g.disks[sha1].name == baseName {
          MatchDisk(game, sha1, db, matched);
          matched := matched + {sha1};
        }
        rest := rest - {sha1};
      }
      assert matched == ChdMatches(g, chdFile);
    }

    /** Lines 286-314 for one sub-directory of a rom path: when its
        lower-cased name is a game, each `.chd` file in it in turn. */
    method AuditChdDir(d: ChdDir)
      requires WellLinked(dat.games)
      modifies dat
      ensures dat.games == ScanChdDir(old(dat.games), d)
      ensures WellLinked(dat.games)
    {
      ghost var db := dat.games;
      var game := ToLower(d.dirName);
      if game !in dat.games {
        return;
      }
      var files := d.chdFiles;
      var i := 0;
      while i < |files|
        invariant 0 <= i <= |files| && game in db
        invariant WellLinked(db) && dat.games == ScanChdFiles(db, game, files[..i])
      {
        ScanChdFilesStep(db, game, files, i);
        AuditChdFile(game, files[i]);
        i := i + 1;
      }
      FlagsGrowWellLinked(db, dat.games);
      assert files[..i] == files;
    }

    /** Lines 280-315: the sub-directories of one rom path in listing order. */
    method AuditChdDirs(ds: seq<ChdDir>)
      requires WellLinked(dat.games)
      modifies dat
      ensures dat.games == ScanChdDirs(old(dat.games), ds)
      ensures WellLinked(dat.games)
    {
      ghost var db := dat.games;
      var i := 0;
      while i < |ds|
        invariant 0 <= i <= |ds|
        invariant dat.games == ScanChdDirs(db, ds[..i])
        invariant WellLinked(dat.games)
      {
        ScanChdDirsStep(db, ds, i);
        AuditChdDir(ds[i]);
        i := i + 1;
      }
      assert ds[..i] == ds;
    }

    /** An archive entry read while the CRCs `done` are already marked in
        the family of `game`: afterwards `done` and `crc` are. */
    method MatchRom(game: string, crc: Crc32, audited: set<string>, ghost db: Table, ghost done: set<Crc32>)
      returns (audited': set<string>)
      requires game in db && WellLinked(db)
      requires dat.games == MarkRomsIn(db, {game} + db[game].clones, done)
      modifies dat
      ensures dat.games == MarkRomsIn(db, {game} + db[game].clones, done + {crc})
      ensures audited' == audited + db[game].clones
    {
      MarkFamilyStep(db, game, done, crc);
      audited' := MarkFamily(game, crc, audited);
    }

    /** Lines 341-360: every zip entry whose info can be read marks its CRC
        in the game and its clones, and counts the clones as audited. */
    method AuditZipEntries(game: string, es: seq<Option<Crc32>>, audited: set<string>) returns (audited': set<string>)
      requires game in dat.games && WellLinked(dat.games) && game in audited
      modifies dat
      ensures ScanState(dat.games, audited') == MatchArchive(ScanState(old(dat.games), audited), game, ReadableCrcs(es))
      ensures WellLinked(dat.games)
    {
      ghost var db := dat.games;
      ghost var clones := db[game].clones;
      ghost var family := {game} + clones;
      audited' := audited;
      MarkRomsInNothing(db, family);
      var i := 0;
      assert ReadableCrcs(es[..0]) == {};
      while i < |es|
        invariant 0 <= i <= |es| && game in db && WellLinked(db) && game in audited
        invariant dat.games == MarkRomsIn(db, family, ReadableCrcs(es[..i]))
        invariant audited' == audited + (if ReadableCrcs(es[..i]) == {} then {} else clones)
      {
        ReadableCrcsStep(es, i);
        if es[i].Some? {
          audited' := MatchRom(game, es[i].value, audited', db, ReadableCrcs(es[..i]));
        } else {
          assert ReadableCrcs(es[..i + 1]) == ReadableCrcs(es[..i]);
        }
        i := i + 1;
      }
      assert es[..i] == es;
      MarkRomsInShape(db, family, ReadableCrcs(es));
    }

    /** Lines 400-414: every file item of an opened 7z archive marks its CRC
        in the game and its clones, and counts the clones as audited. */
    method AuditSevenZipItems(game: string, cs: seq<Crc32>, audited: set<string>) returns (audited': set<string>)
      requires game in dat.games && WellLinked(dat.games) && game in audited
      modifies dat
      ensures ScanState(dat.games, audited') == MatchArchive(ScanState(old(dat.games), audited), game, ItemCrcs(cs))
      ensures WellLinked(dat.games)
    {
      ghost var db := dat.games;
      ghost var clones := db[game].clones;
      ghost var family := {game} + clones;
      audited' := audited;
      MarkRomsInNothing(db, family);
      var i := 0;
      assert ItemCrcs(cs[..0]) == {};
      while i < |cs|
        invariant 0 <= i <= |cs| && game in db && WellLinked(db) && game in audited
        invariant dat.games == MarkRomsIn(db, family, ItemCrcs(cs[..i]))
        invariant audited' == audited + (if ItemCrcs(cs[..i]) == {} then {} else clones)
      {
        ItemCrcsStep(cs, i);
        audited' := MatchRom(game, cs[i], audited', db, ItemCrcs(cs[..i]));
        i := i + 1;
      }
      assert cs[..i] == cs;
      MarkRomsInShape(db, family, ItemCrcs(cs));
    }

    /** Lines 323-414 for one listed file: its lower-cased name selects the
        reader and names the game; a file of no game is skipped, the game of
        any other is audited, and an archive that opens has its entries matched. */
    method AuditArchive(f: RomFile, audited: set<string>) returns (audited': set<string>)
      requires WellLinked(dat.games)
      modifies dat
      ensures ScanState(dat.games, audited') == ScanRomFile(ScanState(old(dat.games), audited), f)
      ensures WellLinked(dat.games)
    {
      var lower := ToLower(f.fileName);
      audited' := audited;
      if Contains(lower, ZipExt) {
        var game := RemoveAll(lower, ZipExt);
        if game !in dat.games {
          return;
        }
        audited' := audited' + {game};
        match f.asZip
        case ZipOpenFailed =>
        case ZipEntries(es) =>
          audited' := AuditZipEntries(game, es, audited');
      } else if Contains(lower, SevenZipExt) {
        var game := RemoveAll(lower, SevenZipExt);
        if game !in dat.games {
          return;
        }
        audited' := audited' + {game};
        match f.asSevenZip
        case SevenZipOpenFailed =>
        case SevenZipItems(cs) =>
          audited' := AuditSevenZipItems(game, cs, audited');
      }
    }

    /** Lines 317-415: the listed archives of one rom path in order. */
    method AuditArchives(fs: seq<RomFile>, audited: set<string>) returns (audited': set<string>)
      requires WellLinked(dat.games)
      modifies dat
      ensures ScanState(dat.games, audited') == ScanRomFiles(ScanState(old(dat.games), audited), fs)
      ensures WellLinked(dat.games)
    {
      ghost var st := ScanState(dat.games, audited);
      audited' := audited;
      var i := 0;
      while i < |fs|
        invariant 0 <= i <= |fs| && WellLinked(dat.games)
        invariant ScanState(dat.games, audited') == ScanRomFiles(st, fs[..i])
      {
        ScanRomFilesStep(st, fs, i);
        audited' := AuditArchive(fs[i], audited');
        i := i + 1;
      }
      assert fs[..i] == fs;
    }

    /** Lines 270-416 for one rom path: its `.chd` directories, then its archives. */
    method AuditRomPath(p: RomPath, audited: set<string>) returns (audited': set<string>)
      requires WellLinked(dat.games)
      modifies dat
      ensures ScanState(dat.games, audited') == ScanRomPath(ScanState(old(dat.games), audited), p)
      ensures WellLinked(dat.games)
    {
      AuditChdDirs(p.romDirs);
      audited' := AuditArchives(p.romFiles, audited);
    }

    /** Lines 267-417: every rom path in order. */
    method AuditRomPaths(ps: seq<RomPath>, audited: set<string>) returns (audited': set<string>)
      requires WellLinked(dat.games)
      modifies dat
      ensures ScanState(dat.games, audited') == ScanRomPaths(ScanState(old(dat.games), audited), ps)
      ensures WellLinked(dat.games)
    {
      ghost var st := ScanState(dat.games, audited);
      audited' := audited;
      var i := 0;
      while i < |ps|
        invariant 0 <= i <= |ps| && WellLinked(dat.games)
        invariant ScanState(dat.games, audited') == ScanRomPaths(st, ps[..i])
      {
        ScanRomPathsStep(st, ps, i);
        audited' := AuditRomPath(ps[i], audited');
        i := i + 1;
      }
      assert ps[..i] == ps;
    }

    /** Lines 251-256 for one game: each rom is available exactly when its
        status is "nodump". */
    static method ClearRomFlags(roms: map<Crc32, Rom>) returns (r: map<Crc32, Rom>)
      ensures r == ClearedRoms(roms)
    {
      r := roms;
      var rest := roms.Keys;
      while rest != {}
        invariant rest <= roms.Keys && r.Keys == roms.Keys
        invariant forall c :: c in roms ==>
          r[c] == if c in rest then roms[c] else roms[c].(available := roms[c].status == NoDump)
        decreases |rest|
      {
        var c :| c in rest;
        r := r[c := r[c].(available := r[c].status == NoDump)];
        rest := rest - {c};
      }
    }

    /** Lines 257-263 for one game: each disk is available exactly when its
        status is "nodump". */
    static method ClearDiskFlags(disks: map<string, Disk>) returns (r: map<string, Disk>)
      ensures r == ClearedDisks(disks)
    {
      r := disks;
      var rest := disks.Keys;
      while rest != {}
        invariant rest <= disks.Keys && r.Keys == disks.Keys
        invariant forall k :: k in disks ==>
          r[k] == if k in rest then disks[k] else disks[k].(available := disks[k].status == NoDump)
        decreases |rest|
      {
        var k :| k in rest;
        r := r[k := r[k].(available := r[k].status == NoDump)];
        rest := rest - {k};
      }
    }

    /** Lines 247-264: the clearing pass over every game. */
    method ClearState()
      modifies dat
      ensures dat.games == Cleared(old(dat.games))
    {
      ghost var db := dat.games;
      var rest := dat.games.Keys;
      ClearedExceptEnds(db);
      while rest != {}
        invariant rest <= db.Keys && dat.games == ClearedExcept(db, rest)
        decreases |rest|
      {
        var n :| n in rest;
        var g := dat.games[n];
        var roms := ClearRomFlags(g.roms);
        var disks := ClearDiskFlags(g.disks);
        ClearedExceptStep(db, rest, n);
        dat.games := dat.games[n := g.(roms := roms, disks := disks)];
        rest := rest - {n};
      }
    }

    /** Lines 436-516 for the game `name`, on the table as the earlier games
        left it. */
    method ClassifyGame(name: string, audited: set<string>)
      requires name in dat.games
      modifies dat
      ensures dat.games == ClassifyOne(old(dat.games), audited, name)
    {
      var g := dat.games[name];
      if g.isExtRom {
        return;
      }
      var state := Complete;
      if name !in audited {
        var allInParent := AllAvailableScan(g.roms);
        var allNoDump := AllNoDumpScan(g.roms);
        state := if !allNoDump && !allInParent && g.disks == map[] then Missing else Complete;
      }
      assert state == InitialState(name in audited, AllNoDump(g), AllRomsAvailable(g), g.disks == map[]);
      var diskMissing := DiskMissingScan(g.disks);
      if diskMissing {
        state := Missing;
      }
      var roms, romMissing := InheritScan(dat.games, g);
      if romMissing {
        state := Missing;
      }
      dat.games := dat.games[name := g.(roms := roms, available := state)];
    }

    /** Lines 433-517: every game in iteration order. */
    method ClassifyGames(order: seq<string>, audited: set<string>)
      modifies dat
      ensures dat.games == ClassifyAll(old(dat.games), audited, order)
    {
      ghost var db := dat.games;
      var i := 0;
      while i < |order|
        invariant 0 <= i <= |order| && dat.games == ClassifyAll(db, audited, order[..i])
      {
        ClassifyAllStep(db, audited, order, i);
        if order[i] in dat.games {
          ClassifyGame(order[i], audited);
        }
        i := i + 1;
      }
      assert order[..i] == order;
    }

    /** Lines 575-591: one record per software file listed in an archive of
        the console's directory, keyed by archive path and file name. */
    method AuditMembers(console: string, sourcefile: string, prefix: string, ms: seq<string>)
      modifies dat
      ensures dat.games == MemberRecords(old(dat.games), console, sourcefile, prefix, ms)
    {
      ghost var db := dat.games;
      var i := 0;
      while i < |ms|
        invariant 0 <= i <= |ms| && dat.games == MemberRecords(db, console, sourcefile, prefix, ms[..i])
      {
        MemberRecordsStep(db, console, sourcefile, prefix, ms, i);
        var g := ExtRecord(console, sourcefile, CompleteBaseName(FileNamePart(ms[i])));
        dat.games := dat.games[prefix + "/" + ms[i] := g];
        i := i + 1;
      }
      assert ms[..i] == ms;
    }

    /** `auditConsole` (lines 540-609): nothing when the setting is empty or
        the directory is missing; otherwise a record for every listed file,
        or for every software file inside a listed archive. */
    method AuditConsole(console: string, x: ExtraSoftware)
      requires console in dat.games
      modifies dat
      ensures dat.games == ConsoleRecords(old(dat.games), console, x)
    {
      if x.setting == [] || !x.dirExists {
        return;
      }
      ghost var db := dat.games;
      var sourcefile := dat.games[console].sourcefile;
      var i := 0;
      while i < |x.files|
        invariant 0 <= i <= |x.files| && dat.games == FilesRecords(db, console, sourcefile, x, x.files[..i])
      {
        FilesRecordsStep(db, console, sourcefile, x, x.files, i);
        var f := x.files[i];
        if IsArchive(f) {
          AuditMembers(console, sourcefile, x.dirPath + f, MembersOf(x, f));
        } else {
          dat.games := dat.games[x.dirPath + f := ExtRecord(console, sourcefile, CompleteBaseName(f))];
        }
        i := i + 1;
      }
      assert x.files[..i] == x.files;
    }

    /** Lines 524-535: in iteration order, every game with devices whose
        folder is selected for auditing has its software audited. */
    method AuditConsoles(order: seq<string>, consoles: set<string>, extra: map<string, ExtraSoftware>)
      requires forall n :: n in consoles ==> n in extra
      modifies dat
      ensures dat.games == ConsolePhase(old(dat.games), order, consoles, extra)
    {
      ghost var db := dat.games;
      var i := 0;
      while i < |order|
        invariant 0 <= i <= |order| && dat.games == ConsolePhase(db, order[..i], consoles, extra)
      {
        ConsolePhaseStep(db, order, consoles, extra, i);
        var n := order[i];
        if n in dat.games && dat.games[n].devices != [] && n in consoles {
          AuditConsole(n, extra[n]);
        }
        i := i + 1;
      }
      assert order[..i] == order;
    }

    /** `run` (lines 236-539): unless a console folder is selected, clear
        the flags, scan every rom path and classify every game; then audit
        the selected consoles' software. `order` is the iteration order of
        the table's keys. */
    method Run(paths: seq<RomPath>, order: seq<string>, consoles: set<string>, extra: map<string, ExtraSoftware>)
      requires WellLinked(dat.games) && EnumeratesKeys(order, dat.games)
      requires forall n :: n in consoles ==> n in extra
      modifies dat
      ensures dat.games == RunResult(old(dat.games), isConsoleFolder, paths, order, consoles, extra)
      ensures WellLinked(dat.games)
      ensures NoLinkToExt(old(dat.games)) && ExtWithoutDevices(old(dat.games)) &&
              SoftwareKeysApart(old(dat.games), consoles, extra) ==>
        NoLinkToExt(dat.games) && ExtWithoutDevices(dat.games)
    {
      ghost var db := dat.games;
      RunWellLinked(db, isConsoleFolder, paths, order, consoles, extra);
      if NoLinkToExt(db) && ExtWithoutDevices(db) && SoftwareKeysApart(db, consoles, extra) {
        RunNoLinkToExt(db, isConsoleFolder, paths, order, consoles, extra);
      }
      if !isConsoleFolder {
        ClearedWellLinked(dat.games);
        ClearState();
        var audited := AuditRomPaths(paths, {});
        ClassifyGames(order, audited);
      }
      AuditConsoles(order, consoles, extra);
    }

    /** `exportDat` (lines 29-195): nothing in audit-only mode, without a
        file name, or when the file does not open; otherwise the report of
        the current mode over the export order. */
    method ExportDat(fileOpens: bool, crcOrder: map<string, seq<Crc32>>) returns (out: Option<seq<DatGame>>)
      requires WellLinked(dat.games) && RomOrders(dat.games, crcOrder)
      ensures out == if mode == AuditOnly || fixDatFileName == [] || !fileOpens then None
                     else Some(Report(dat.games, mode, ExportOrder(dat.games), crcOrder))
    {
      if mode == AuditOnly || fixDatFileName == [] || !fileOpens {
        return None;
      }
      var written := WriteDat(dat.games, mode, crcOrder);
      out := Some(written);
    }

    /** Lines 214-224: the external-media records of every console whose
        folder is selected for auditing are removed. */
    method PurgeConsoles(consoles: set<string>)
      modifies dat
      ensures dat.games == Purged(old(dat.games), consoles)
      ensures WellLinked(old(dat.games)) && NoLinkToExt(old(dat.games)) ==>
        WellLinked(dat.games) && NoLinkToExt(dat.games)
    {
      ghost var db := dat.games;
      var rest := dat.games.Keys;
      while rest != {}
        invariant rest <= db.Keys
        invariant dat.games == map n | n in db && (n in rest || !(db[n].isExtRom && db[n].romof in consoles)) :: db[n]
        decreases |rest|
      {
        var n :| n in rest;
        var g := dat.games[n];
        if g.isExtRom && g.romof in consoles {
          dat.games := dat.games - {n};
        }
        rest := rest - {n};
      }
      if WellLinked(db) && NoLinkToExt(db) {
        PurgedWellLinked(db, consoles);
      }
    }

    /** `audit` (lines 197-235). While the thread runs nothing happens.
        Otherwise the mode and file name are recorded; a complete-set export,
        or any export after an audit, is written straight away; any other
        request purges the selected consoles' records, decides whether only
        the console folder is audited, and starts `run`. `fileOpens` says
        whether the output file would open, `crcOrder` the order in which
        each game's roms are iterated. When no link names an external-media
        record, the table stays well linked for the `run` that follows. */
    method Audit(running: bool, autoAudit: bool, newMode: Mode, fileName: string, consoleFolderSelected: bool,
                 consoles: set<string>, fileOpens: bool, crcOrder: map<string, seq<Crc32>>)
      returns (exported: Option<seq<DatGame>>, started: bool)
      requires WellLinked(dat.games) && RomOrders(dat.games, crcOrder)
      modifies this, dat
      ensures NoLinkToExt(old(dat.games)) ==> WellLinked(dat.games) && NoLinkToExt(dat.games)
      ensures running ==>
        exported == None && !started && dat.games == old(dat.games) &&
        mode == old(mode) && fixDatFileName == old(fixDatFileName) &&
        hasAudited == old(hasAudited) && isConsoleFolder == old(isConsoleFolder)
      ensures !running ==> mode == newMode && fixDatFileName == fileName
      ensures !running && ExportsDirectly(newMode, old(hasAudited)) ==>
        !started && dat.games == old(dat.games) && hasAudited == old(hasAudited) &&
        isConsoleFolder == old(isConsoleFolder) &&
        exported == if newMode == AuditOnly || fileName == [] || !fileOpens then None
                    else Some(Report(dat.games, newMode, ExportOrder(dat.games), crcOrder))
      ensures !running && !ExportsDirectly(newMode, old(hasAudited)) ==>
        started && exported == None && dat.games == Purged(old(dat.games), consoles) &&
        hasAudited && isConsoleFolder == (consoleFolderSelected && !autoAudit)
    {
      exported := None;
      started := false;
      if running {
        return;
      }
      mode := newMode;
      fixDatFileName := fileName;
      if ExportsDirectly(mode, hasAudited) {
        exported := ExportDat(fileOpens, crcOrder);
        return;
      }
      PurgeConsoles(consoles);
      isConsoleFolder := consoleFolderSelected;
      if autoAudit {
        isConsoleFolder := false;
      }
      hasAudited := true;
      started := true;
    }
  }
}

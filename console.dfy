/** `RomAuditor::auditConsole` and the console pass at the end of
    `RomAuditor::run`: each file found in a console's software directory
    becomes an external-media record of the table, and an archive contributes
    one record per software file it holds. The directory listing and the
    archive member lists are inputs. */
module Console {
  import opened RomData
  import opened Strings

  /** What `auditConsole` learns about one console's software directory:
      the `<console>_extra_software` setting as written, whether that
      directory exists, the directory path with its trailing separator, the
      files listed there (already filtered by extension), and the names of
      the software files `iterateMameFile` reports for the directory and an
      archive's complete base name. */
  datatype ExtraSoftware = ExtraSoftware(setting: string, dirExists: bool, dirPath: string,
                                         files: seq<string>, members: map<string, seq<string>>)

  /** An archive is recognised by its suffix after the last dot, compared
      case-sensitively with ".zip" and ".7z" (lines 569-571). */
  predicate IsArchive(f: string)
  {
    "." + Suffix(f) == ZipExt || "." + Suffix(f) == SevenZipExt
  }

  /** The record made for one piece of console software (lines 580-585 and
      595-600): an external-media game of console `console`, complete, with
      the console's source file, and empty otherwise. */
  function ExtRecord(console: string, sourcefile: string, description: string): (g: GameInfo)
    ensures g.isExtRom && g.romof == console && g.clones == {} && g.available == Complete
    ensures g.roms == map[] && g.disks == map[] && g.devices == []
  {
    GameInfo(description, "", "", sourcefile, console, "", false, true, {}, Complete, map[], map[], [])
  }

  /** The members of an archive as inserted: key `dirPath + file + "/" + m`,
      described by the complete base name of `m`'s own file name. */
  function MemberRecords(db: Table, console: string, sourcefile: string, prefix: string, ms: seq<string>): Table
    decreases |ms|
  {
    if ms == [] then db
    else
      var m := ms[|ms| - 1];
      MemberRecords(db, console, sourcefile, prefix, ms[..|ms| - 1])
        [prefix + "/" + m := ExtRecord(console, sourcefile, CompleteBaseName(FileNamePart(m)))]
  }

  /** The members listed for an archive, looked up by its complete base name
      as line 574 asks for them (none when that listing is absent). */
  function MembersOf(x: ExtraSoftware, f: string): seq<string>
  {
    var base := CompleteBaseName(f);
    if base in x.members then x.members[base] else []
  }

  /** One listed file: an archive inserts its members, any other file one
      record keyed `dirPath + file`. */
  function FileRecords(db: Table, console: string, sourcefile: string, x: ExtraSoftware, f: string): Table
  {
    if IsArchive(f) then MemberRecords(db, console, sourcefile, x.dirPath + f, MembersOf(x, f))
    else db[x.dirPath + f := ExtRecord(console, sourcefile, CompleteBaseName(f))]
  }

  function FilesRecords(db: Table, console: string, sourcefile: string, x: ExtraSoftware, fs: seq<string>): Table
    decreases |fs|
  {
    if fs == [] then db
    else FileRecords(FilesRecords(db, console, sourcefile, x, fs[..|fs| - 1]), console, sourcefile, x, fs[|fs| - 1])
  }

  /** `auditConsole(console)`: nothing when the setting is empty or the
      directory does not exist; otherwise every listed file's records, with
      the console's own source file. */
  function ConsoleRecords(db: Table, console: string, x: ExtraSoftware): Table
    requires console in db
  {
    if x.setting == [] || !x.dirExists then db
    else FilesRecords(db, console, db[console].sourcefile, x, x.files)
  }

  /** `g` is a software record of console `console` with source file `sourcefile`. */
  ghost predicate IsSoftwareOf(g: GameInfo, console: string, sourcefile: string)
  {
    g == ExtRecord(console, sourcefile, g.description)
  }

  /** The keys the file `f` of the listing is stored under. */
  ghost predicate FileKey(x: ExtraSoftware, f: string, k: string)
  {
    if IsArchive(f) then exists m :: m in MembersOf(x, f) && k == x.dirPath + f + "/" + m
    else k == x.dirPath + f
  }

  /** The keys the files `fs` are stored under. */
  ghost predicate SoftwareKey(x: ExtraSoftware, fs: seq<string>, k: string)
  {
    exists i :: 0 <= i < |fs| && FileKey(x, fs[i], k)
  }

  /** Inserting an archive's members adds exactly the member keys, each
      holding a software record, and keeps every other entry. */
  lemma {:induction false} MemberRecordsSpec(db: Table, console: string, sourcefile: string, prefix: string,
                                             ms: seq<string>)
    ensures var r := MemberRecords(db, console, sourcefile, prefix, ms);
      forall k :: k in r <==> k in db || exists m :: m in ms && k == prefix + "/" + m
    ensures var r := MemberRecords(db, console, sourcefile, prefix, ms);
      forall k :: k in r ==>
        if exists m :: m in ms && k == prefix + "/" + m then IsSoftwareOf(r[k], console, sourcefile)
        else r[k] == db[k]
    decreases |ms|
  {
    if ms != [] {
      var front, last := ms[..|ms| - 1], ms[|ms| - 1];
      MemberRecordsSpec(db, console, sourcefile, prefix, front);
      assert ms == front + [last];
    }
  }

  lemma FileRecordsSpec(db: Table, console: string, sourcefile: string, x: ExtraSoftware, f: string)
    ensures var r := FileRecords(db, console, sourcefile, x, f);
      forall k :: k in r <==> k in db || FileKey(x, f, k)
    ensures var r := FileRecords(db, console, sourcefile, x, f);
      forall k :: k in r ==> if FileKey(x, f, k) then IsSoftwareOf(r[k], console, sourcefile) else r[k] == db[k]
  {
    if IsArchive(f) {
      MemberRecordsSpec(db, console, sourcefile, x.dirPath + f, MembersOf(x, f));
    }
  }

  /** Auditing the files `fs` adds exactly their keys; every entry stored
      under one of them is a software record of the console and every other
      entry is kept. */
  lemma {:induction false} FilesRecordsSpec(db: Table, console: string, sourcefile: string, x: ExtraSoftware,
                                            fs: seq<string>)
    ensures var r := FilesRecords(db, console, sourcefile, x, fs);
      forall k :: k in r <==> k in db || SoftwareKey(x, fs, k)
    ensures var r := FilesRecords(db, console, sourcefile, x, fs);
      forall k :: k in r ==> if SoftwareKey(x, fs, k) then IsSoftwareOf(r[k], console, sourcefile) else r[k] == db[k]
    decreases |fs|
  {
    if fs != [] {
      var front, last := fs[..|fs| - 1], fs[|fs| - 1];
      var prev := FilesRecords(db, console, sourcefile, x, front);
      FilesRecordsSpec(db, console, sourcefile, x, front);
      FileRecordsSpec(prev, console, sourcefile, x, last);
      forall k ensures SoftwareKey(x, fs, k) <==> SoftwareKey(x, front, k) || FileKey(x, last, k) {
        if SoftwareKey(x, fs, k) {
          var i :| 0 <= i < |fs| && FileKey(x, fs[i], k);
          if i < |front| {
            assert fs[i] == front[i];
          }
        }
        if SoftwareKey(x, front, k) {
          var i :| 0 <= i < |front| && FileKey(x, front[i], k);
          assert fs[i] == front[i];
        }
        if FileKey(x, last, k) {
          assert FileKey(x, fs[|fs| - 1], k);
        }
      }
    }
  }

  /** The console pass of lines 524-535: in iteration order, each game with
      devices whose folder is among `consoles` gets its software audited. */
  function ConsolePhase(db: Table, order: seq<string>, consoles: set<string>,
                        extra: map<string, ExtraSoftware>): Table
    requires forall n :: n in consoles ==> n in extra
    decreases |order|
  {
    if order == [] then db
    else
      var prev := ConsolePhase(db, order[..|order| - 1], consoles, extra);
      var n := order[|order| - 1];
      if n in prev && prev[n].devices != [] && n in consoles then ConsoleRecords(prev, n, extra[n]) else prev
  }

  /** One console's audit keeps every entry it does not overwrite and writes
      only software records of that console; when its directory is set and
      exists, the new keys are exactly those of its listed files. */
  lemma ConsoleRecordsSpec(db: Table, console: string, x: ExtraSoftware)
    requires console in db
    ensures var r := ConsoleRecords(db, console, x);
      db.Keys <= r.Keys &&
      forall k :: k in r ==> (k in db && r[k] == db[k]) || IsSoftwareOf(r[k], console, db[console].sourcefile)
    ensures x.setting != [] && x.dirExists ==>
      var r := ConsoleRecords(db, console, x);
      (forall k :: k in r <==> k in db || SoftwareKey(x, x.files, k)) &&
      forall k :: k in r ==>
        if SoftwareKey(x, x.files, k) then IsSoftwareOf(r[k], console, db[console].sourcefile) else r[k] == db[k]
    ensures x.setting == [] || !x.dirExists ==> ConsoleRecords(db, console, x) == db
  {
    if x.setting != [] && x.dirExists {
      FilesRecordsSpec(db, console, db[console].sourcefile, x, x.files);
    }
  }

  /** The console pass only adds records: every entry is the one the table
      had, or an external-media record without clones whose console is a
      game of the result among `consoles`. */
  lemma {:induction false} ConsolePhaseSpec(db: Table, order: seq<string>, consoles: set<string>,
                                            extra: map<string, ExtraSoftware>)
    requires forall n :: n in consoles ==> n in extra
    ensures var r := ConsolePhase(db, order, consoles, extra);
      db.Keys <= r.Keys &&
      forall k :: k in r ==>
        (k in db && r[k] == db[k]) ||
        (r[k].isExtRom && r[k].romof in consoles && r[k].romof in r && r[k].clones == {})
    decreases |order|
  {
    if order != [] {
      var prev := ConsolePhase(db, order[..|order| - 1], consoles, extra);
      ConsolePhaseSpec(db, order[..|order| - 1], consoles, extra);
      var n := order[|order| - 1];
      if n in prev && prev[n].devices != [] && n in consoles {
        var r := ConsoleRecords(prev, n, extra[n]);
        ConsoleRecordsSpec(prev, n, extra[n]);
        forall k | k in r && !(k in db && r[k] == db[k])
          ensures r[k].isExtRom && r[k].romof in consoles && r[k].romof in r && r[k].clones == {}
        {
          if !(k in prev && r[k] == prev[k]) {
            var e := ExtRecord(n, prev[n].sourcefile, r[k].description);
            assert r[k] == e;
          }
        }
      }
    }
  }

  /** The console pass keeps every `romof` and clone link pointing into the table. */
  lemma ConsolePhaseWellLinked(db: Table, order: seq<string>, consoles: set<string>,
                               extra: map<string, ExtraSoftware>)
    requires forall n :: n in consoles ==> n in extra
    requires WellLinked(db)
    ensures WellLinked(ConsolePhase(db, order, consoles, extra))
  {
    ConsolePhaseSpec(db, order, consoles, extra);
  }

  /** The members of an archive one more at a time. */
  lemma MemberRecordsStep(db: Table, console: string, sourcefile: string, prefix: string, ms: seq<string>, i: nat)
    requires i < |ms|
    ensures MemberRecords(db, console, sourcefile, prefix, ms[..i + 1]) ==
      MemberRecords(db, console, sourcefile, prefix, ms[..i])
        [prefix + "/" + ms[i] := ExtRecord(console, sourcefile, CompleteBaseName(FileNamePart(ms[i])))]
  {
    assert ms[..i + 1][..i] == ms[..i];
  }

  /** The listed files one more at a time. */
  lemma FilesRecordsStep(db: Table, console: string, sourcefile: string, x: ExtraSoftware, fs: seq<string>, i: nat)
    requires i < |fs|
    ensures FilesRecords(db, console, sourcefile, x, fs[..i + 1]) ==
      FileRecords(FilesRecords(db, console, sourcefile, x, fs[..i]), console, sourcefile, x, fs[i])
  {
    assert fs[..i + 1][..i] == fs[..i];
  }

  /** The games of the console pass one more at a time. */
  lemma ConsolePhaseStep(db: Table, order: seq<string>, consoles: set<string>, extra: map<string, ExtraSoftware>,
                         i: nat)
    requires forall n :: n in consoles ==> n in extra
    requires i < |order|
    ensures var prev := ConsolePhase(db, order[..i], consoles, extra);
      ConsolePhase(db, order[..i + 1], consoles, extra) ==
        if order[i] in prev && prev[order[i]].devices != [] && order[i] in consoles
        then ConsoleRecords(prev, order[i], extra[order[i]]) else prev
  {
    assert order[..i + 1][..i] == order[..i];
  }

  /** The software of the selected consoles is never stored under the key of
      a game that is not external media: the keys are directory paths. */
  ghost predicate SoftwareKeysApart(db: Table, consoles: set<string>, extra: map<string, ExtraSoftware>)
    requires forall n :: n in consoles ==> n in extra
  {
    forall n, k :: n in consoles && k in db && !db[k].isExtRom ==> !SoftwareKey(extra[n], extra[n].files, k)
  }

  /** Auditing a console that is not itself external media, whose software
      keys name no other game, keeps every link away from external-media
      records: the new records link only to the console. */
  lemma ConsoleRecordsNoLinkToExt(db: Table, console: string, x: ExtraSoftware)
    requires console in db && !db[console].isExtRom
    requires WellLinked(db) && NoLinkToExt(db) && ExtWithoutDevices(db)
    requires forall k :: k in db && !db[k].isExtRom ==> !SoftwareKey(x, x.files, k)
    ensures NoLinkToExt(ConsoleRecords(db, console, x)) && ExtWithoutDevices(ConsoleRecords(db, console, x))
  {
    var r := ConsoleRecords(db, console, x);
    ConsoleRecordsSpec(db, console, x);
    if x.setting != [] && x.dirExists {
      assert forall k :: k in db && !db[k].isExtRom ==> r[k] == db[k];
      forall n | n in r
        ensures (r[n].romof != "" && r[n].romof in r ==> !r[r[n].romof].isExtRom) &&
                (forall c :: c in r[n].clones && c in r ==> !r[c].isExtRom)
      {
        if !SoftwareKey(x, x.files, n) {
          assert r[n] == db[n];
        }
      }
    }
  }

  /** The console pass keeps every link away from external-media records. */
  lemma {:induction false} ConsolePhaseNoLinkToExt(db: Table, order: seq<string>, consoles: set<string>,
                                                   extra: map<string, ExtraSoftware>)
    requires forall n :: n in consoles ==> n in extra
    requires WellLinked(db) && NoLinkToExt(db) && ExtWithoutDevices(db) && SoftwareKeysApart(db, consoles, extra)
    ensures NoLinkToExt(ConsolePhase(db, order, consoles, extra))
    ensures ExtWithoutDevices(ConsolePhase(db, order, consoles, extra))
    decreases |order|
  {
    if order != [] {
      var front, n := order[..|order| - 1], order[|order| - 1];
      var prev := ConsolePhase(db, front, consoles, extra);
      ConsolePhaseNoLinkToExt(db, front, consoles, extra);
      if n in prev && prev[n].devices != [] && n in consoles {
        ConsolePhaseSpec(db, front, consoles, extra);
        ConsolePhaseWellLinked(db, front, consoles, extra);
        forall k | k in prev && !prev[k].isExtRom ensures !SoftwareKey(extra[n], extra[n].files, k) {
          assert k in db && prev[k] == db[k];
        }
        ConsoleRecordsNoLinkToExt(prev, n, extra[n]);
      }
    }
  }
}

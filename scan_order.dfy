/** The scan phase does not depend on the order of the rom paths. Every
    effect of a rom path turns on rom and disk flags chosen by what the scan
    never changes (the keys, the clone sets, the disk names), and adds games
    to the audited set; so each rom path is one set of hits applied to the
    state, and applying two sets of hits is applying their union. */
module ScanOrder {
  import opened RomData
  import opened Strings
  import opened Scan

  /** What part of the scan turns on: rom flags by (game, CRC), disk flags
      by (game, SHA-1), and the games it adds to the audited set. */
  datatype Hits = Hits(roms: set<(string, Crc32)>, disks: set<(string, string)>, audited: set<string>)

  const NoHits: Hits := Hits({}, {}, {})

  function Join(a: Hits, b: Hits): Hits
  {
    Hits(a.roms + b.roms, a.disks + b.disks, a.audited + b.audited)
  }

  /** Every pairing of a name with a key. */
  function Pairs<T(==)>(names: set<string>, keys: set<T>): set<(string, T)>
  {
    set n, k | n in names && k in keys :: (n, k)
  }

  function MarkHitsGame(n: string, g: GameInfo, h: Hits): GameInfo
  {
    g.(roms := map c | c in g.roms :: if (n, c) in h.roms then g.roms[c].(available := true) else g.roms[c],
       disks := map k | k in g.disks :: if (n, k) in h.disks then g.disks[k].(available := true) else g.disks[k])
  }

  function MarkHits(db: Table, h: Hits): Table
  {
    map n | n in db :: MarkHitsGame(n, db[n], h)
  }

  function Apply(st: ScanState, h: Hits): ScanState
  {
    ScanState(MarkHits(st.db, h), st.audited + h.audited)
  }

  /** What the scan reads of the table: the keys, the clone sets and the
      disk names. */
  ghost predicate SameShape(a: Table, b: Table)
  {
    a.Keys == b.Keys &&
    forall n :: n in a ==>
      a[n].clones == b[n].clones && a[n].disks.Keys == b[n].disks.Keys &&
      forall k :: k in a[n].disks ==> a[n].disks[k].name == b[n].disks[k].name
  }

  // ---------------------------------------------------------------------
  // The hits of each part of a rom path, read off one table
  // ---------------------------------------------------------------------

  function ChdFileHits(db: Table, game: string, chdFile: string): (h: Hits)
    requires game in db
    ensures h.roms == {} && h.audited == {}
  {
    Hits({}, Pairs({game} + db[game].clones, ChdMatches(db[game], chdFile)), {})
  }

  function ChdFilesHits(db: Table, game: string, files: seq<string>): (h: Hits)
    requires game in db
    ensures h.roms == {} && h.audited == {}
    decreases |files|
  {
    if files == [] then NoHits
    else Join(ChdFilesHits(db, game, files[..|files| - 1]), ChdFileHits(db, game, files[|files| - 1]))
  }

  function ChdDirHits(db: Table, d: ChdDir): (h: Hits)
    ensures h.roms == {} && h.audited == {}
  {
    var game := ToLower(d.dirName);
    if game in db then ChdFilesHits(db, game, d.chdFiles) else NoHits
  }

  function ChdDirsHits(db: Table, ds: seq<ChdDir>): (h: Hits)
    ensures h.roms == {} && h.audited == {}
    decreases |ds|
  {
    if ds == [] then NoHits else Join(ChdDirsHits(db, ds[..|ds| - 1]), ChdDirHits(db, ds[|ds| - 1]))
  }

  function ArchiveHits(db: Table, game: string, crcs: set<Crc32>): Hits
    requires game in db
  {
    Hits(Pairs({game} + db[game].clones, crcs), {}, {game} + (if crcs == {} then {} else db[game].clones))
  }

  function RomFileHits(db: Table, f: RomFile): Hits
  {
    match ArchiveTarget(f.fileName)
    case None => NoHits
    case Some((kind, game)) =>
      if game !in db then NoHits
      else if kind == Zip then
        (match f.asZip
         case ZipOpenFailed => Hits({}, {}, {game})
         case ZipEntries(es) => ArchiveHits(db, game, ReadableCrcs(es)))
      else
        (match f.asSevenZip
         case SevenZipOpenFailed => Hits({}, {}, {game})
         case SevenZipItems(cs) => ArchiveHits(db, game, ItemCrcs(cs)))
  }

  function RomFilesHits(db: Table, fs: seq<RomFile>): Hits
    decreases |fs|
  {
    if fs == [] then NoHits else Join(RomFilesHits(db, fs[..|fs| - 1]), RomFileHits(db, fs[|fs| - 1]))
  }

  function RomPathHits(db: Table, p: RomPath): Hits
  {
    Join(ChdDirsHits(db, p.romDirs), RomFilesHits(db, p.romFiles))
  }

  function RomPathsHits(db: Table, ps: seq<RomPath>): Hits
    decreases |ps|
  {
    if ps == [] then NoHits else Join(RomPathsHits(db, ps[..|ps| - 1]), RomPathHits(db, ps[|ps| - 1]))
  }

  // ---------------------------------------------------------------------
  // Applying hits
  // ---------------------------------------------------------------------

  /** Applying two sets of hits in turn is applying their union. */
  lemma MarkHitsJoin(db: Table, a: Hits, b: Hits)
    ensures MarkHits(MarkHits(db, a), b) == MarkHits(db, Join(a, b))
  {
    var m := MarkHits(db, a);
    var l, r := MarkHits(m, b), MarkHits(db, Join(a, b));
    forall n | n in db ensures l[n] == r[n] {
      assert l[n].roms == r[n].roms;
      assert l[n].disks == r[n].disks;
    }
  }

  lemma MarkHitsNothing(db: Table, h: Hits)
    requires h.roms == {} && h.disks == {}
    ensures MarkHits(db, h) == db
  {
    forall n | n in db ensures MarkHits(db, h)[n] == db[n] {
      assert MarkHits(db, h)[n].roms == db[n].roms;
      assert MarkHits(db, h)[n].disks == db[n].disks;
    }
  }

  /** Applying hits only turns flags on. */
  lemma MarkHitsGrows(db: Table, h: Hits)
    ensures FlagsGrow(db, MarkHits(db, h))
  {
  }

  /** Applying the same hits to tables that differ only in game states
      keeps them so. */
  lemma MarkHitsSameButStates(a: Table, b: Table, s: set<string>, h: Hits)
    requires SameButStates(a, b, s)
    ensures SameButStates(MarkHits(a, h), MarkHits(b, h), s)
  {
    var l, r := MarkHits(a, h), MarkHits(b, h);
    forall n | n in l ensures r[n] == l[n].(available := r[n].available) {
      assert a[n].roms == b[n].roms && a[n].disks == b[n].disks;
    }
  }

  lemma SameButStatesShape(a: Table, b: Table, s: set<string>)
    requires SameButStates(a, b, s)
    ensures SameShape(a, b)
  {
    forall n | n in a
      ensures a[n].clones == b[n].clones && a[n].disks.Keys == b[n].disks.Keys &&
              forall k :: k in a[n].disks ==> a[n].disks[k].name == b[n].disks[k].name
    {
      assert b[n] == a[n].(available := b[n].available);
    }
  }

  lemma FlagsGrowSameShape(a: Table, b: Table)
    requires FlagsGrow(a, b)
    ensures SameShape(a, b)
  {
    forall n | n in a
      ensures a[n].clones == b[n].clones && a[n].disks.Keys == b[n].disks.Keys &&
              forall k :: k in a[n].disks ==> a[n].disks[k].name == b[n].disks[k].name
    {
      assert GameFlagsGrow(a[n], b[n]);
    }
  }

  /** Marking roms of a group of games is applying the hits that pair them. */
  lemma MarkRomsInHits(db: Table, names: set<string>, crcs: set<Crc32>, h: Hits)
    requires h.roms == Pairs(names, crcs) && h.disks == {}
    ensures MarkRomsIn(db, names, crcs) == MarkHits(db, h)
  {
    var l, r := MarkRomsIn(db, names, crcs), MarkHits(db, h);
    forall n | n in db ensures l[n] == r[n] {
      forall c | c in db[n].roms ensures ((n, c) in h.roms) == (n in names && c in crcs) {
        if n in names && c in crcs {
          assert (n, c) in Pairs(names, crcs);
        }
      }
      assert l[n].roms == r[n].roms;
      assert r[n].disks == db[n].disks;
    }
  }

  /** Marking disks of a group of games is applying the hits that pair them. */
  lemma MarkDisksInHits(db: Table, names: set<string>, keys: set<string>, h: Hits)
    requires h.roms == {} && h.disks == Pairs(names, keys)
    ensures MarkDisksIn(db, names, keys) == MarkHits(db, h)
  {
    var l, r := MarkDisksIn(db, names, keys), MarkHits(db, h);
    forall n | n in db ensures l[n] == r[n] {
      forall k | k in db[n].disks ensures ((n, k) in h.disks) == (n in names && k in keys) {
        if n in names && k in keys {
          assert (n, k) in Pairs(names, keys);
        }
      }
      assert l[n].disks == r[n].disks;
      assert r[n].roms == db[n].roms;
    }
  }

  // ---------------------------------------------------------------------
  // Each part of the scan is its hits, read off any table of the same shape
  // ---------------------------------------------------------------------

  lemma ChdFileHitsShape(a: Table, b: Table, game: string, chdFile: string)
    requires SameShape(a, b) && game in a
    ensures ChdFileHits(a, game, chdFile) == ChdFileHits(b, game, chdFile)
  {
    assert ChdMatches(a[game], chdFile) == ChdMatches(b[game], chdFile);
  }

  lemma {:induction false} ScanChdFilesHits(db0: Table, db: Table, game: string, files: seq<string>)
    requires SameShape(db0, db) && game in db0
    ensures ScanChdFiles(db, game, files) == MarkHits(db, ChdFilesHits(db0, game, files))
    decreases |files|
  {
    if files == [] {
      MarkHitsNothing(db, NoHits);
    } else {
      var front, last := files[..|files| - 1], files[|files| - 1];
      var prev := ScanChdFiles(db, game, front);
      ScanChdFilesHits(db0, db, game, front);
      FlagsGrowSameShape(db, prev);
      ChdFileHitsShape(db0, prev, game, last);
      MarkDisksInHits(prev, {game} + prev[game].clones, ChdMatches(prev[game], last), ChdFileHits(prev, game, last));
      MarkHitsJoin(db, ChdFilesHits(db0, game, front), ChdFileHits(db0, game, last));
    }
  }

  lemma {:induction false} ScanChdDirsHits(db0: Table, db: Table, ds: seq<ChdDir>)
    requires SameShape(db0, db)
    ensures ScanChdDirs(db, ds) == MarkHits(db, ChdDirsHits(db0, ds))
    decreases |ds|
  {
    if ds == [] {
      MarkHitsNothing(db, NoHits);
    } else {
      var front, d := ds[..|ds| - 1], ds[|ds| - 1];
      var prev := ScanChdDirs(db, front);
      ScanChdDirsHits(db0, db, front);
      FlagsGrowSameShape(db, prev);
      var game := ToLower(d.dirName);
      if game in db0 {
        ScanChdFilesHits(db0, prev, game, d.chdFiles);
      } else {
        MarkHitsNothing(prev, NoHits);
      }
      MarkHitsJoin(db, ChdDirsHits(db0, front), ChdDirHits(db0, d));
    }
  }

  lemma ScanRomFileHits(db0: Table, st: ScanState, f: RomFile)
    requires SameShape(db0, st.db)
    ensures ScanRomFile(st, f) == Apply(st, RomFileHits(db0, f))
  {
    match ArchiveTarget(f.fileName)
    case None => MarkHitsNothing(st.db, NoHits);
    case Some((kind, game)) =>
      if game !in st.db {
        MarkHitsNothing(st.db, NoHits);
      } else {
        var crcs: set<Crc32>;
        var isOpen: bool;
        if kind == Zip {
          isOpen := f.asZip.ZipEntries?;
          crcs := if isOpen then ReadableCrcs(f.asZip.entries) else {};
        } else {
          isOpen := f.asSevenZip.SevenZipItems?;
          crcs := if isOpen then ItemCrcs(f.asSevenZip.crcs) else {};
        }
        if isOpen {
          var h := ArchiveHits(db0, game, crcs);
          assert h == ArchiveHits(st.db, game, crcs);
          MarkRomsInHits(st.db, {game} + st.db[game].clones, crcs, h);
        } else {
          MarkHitsNothing(st.db, Hits({}, {}, {game}));
        }
      }
  }

  lemma {:induction false} ScanRomFilesHits(db0: Table, st: ScanState, fs: seq<RomFile>)
    requires SameShape(db0, st.db)
    ensures ScanRomFiles(st, fs) == Apply(st, RomFilesHits(db0, fs))
    decreases |fs|
  {
    if fs == [] {
      MarkHitsNothing(st.db, NoHits);
    } else {
      var front, f := fs[..|fs| - 1], fs[|fs| - 1];
      var prev := ScanRomFiles(st, front);
      ScanRomFilesHits(db0, st, front);
      MarkHitsGrows(st.db, RomFilesHits(db0, front));
      FlagsGrowSameShape(st.db, prev.db);
      ScanRomFileHits(db0, prev, f);
      MarkHitsJoin(st.db, RomFilesHits(db0, front), RomFileHits(db0, f));
    }
  }

  /** One rom path is the single set of hits read off any table of the same
      shape as the one it starts from. */
  lemma ScanRomPathHits(db0: Table, st: ScanState, p: RomPath)
    requires SameShape(db0, st.db)
    ensures ScanRomPath(st, p) == Apply(st, RomPathHits(db0, p))
  {
    var mid := st.(db := ScanChdDirs(st.db, p.romDirs));
    ScanChdDirsHits(db0, st.db, p.romDirs);
    MarkHitsGrows(st.db, ChdDirsHits(db0, p.romDirs));
    FlagsGrowSameShape(st.db, mid.db);
    ScanRomFilesHits(db0, mid, p.romFiles);
    MarkHitsJoin(st.db, ChdDirsHits(db0, p.romDirs), RomFilesHits(db0, p.romFiles));
  }

  /** The whole scan phase is the hits of its rom paths, read off any
      table of the same shape as the one it starts from. */
  lemma {:induction false} ScanRomPathsHits(db0: Table, st: ScanState, ps: seq<RomPath>)
    requires SameShape(db0, st.db)
    ensures ScanRomPaths(st, ps) == Apply(st, RomPathsHits(db0, ps))
    decreases |ps|
  {
    if ps == [] {
      MarkHitsNothing(st.db, NoHits);
    } else {
      var front, p := ps[..|ps| - 1], ps[|ps| - 1];
      var prev := ScanRomPaths(st, front);
      ScanRomPathsHits(db0, st, front);
      MarkHitsGrows(st.db, RomPathsHits(db0, front));
      FlagsGrowSameShape(st.db, prev.db);
      ScanRomPathHits(db0, prev, p);
      MarkHitsJoin(st.db, RomPathsHits(db0, front), RomPathHits(db0, p));
    }
  }

  lemma ClearGameForgetsFlags(g: GameInfo, h: GameInfo)
    requires GameFlagsGrow(ClearGame(g), h)
    ensures ClearGame(h) == ClearGame(g).(available := h.available)
  {
    assert ClearGame(h).roms == ClearGame(g).roms;
    assert ClearGame(h).disks == ClearGame(g).disks;
  }

  /** Clearing forgets every flag: a table grown from a cleared one clears
      back to it, but for the game states that changed. */
  lemma ClearedForgetsFlags(a: Table, b: Table)
    requires FlagsGrow(Cleared(a), b)
    ensures SameButStates(Cleared(a), Cleared(b), set n | n in a && b[n].available != a[n].available)
  {
    forall n | n in a ensures Cleared(b)[n] == Cleared(a)[n].(available := Cleared(b)[n].available) {
      assert Cleared(a)[n] == ClearGame(a[n]) && Cleared(b)[n] == ClearGame(b[n]);
      ClearGameForgetsFlags(a[n], b[n]);
    }
  }

  // ---------------------------------------------------------------------
  // Order independence
  // ---------------------------------------------------------------------

  /** Two rom paths give the same table and the same audited set in either
      order. */
  lemma ScanRomPathCommutes(st: ScanState, p: RomPath, q: RomPath)
    ensures ScanRomPath(ScanRomPath(st, p), q) == ScanRomPath(ScanRomPath(st, q), p)
  {
    var hp, hq := RomPathHits(st.db, p), RomPathHits(st.db, q);
    ScanRomPathHits(st.db, st, p);
    ScanRomPathHits(st.db, st, q);
    MarkHitsGrows(st.db, hp);
    MarkHitsGrows(st.db, hq);
    FlagsGrowSameShape(st.db, Apply(st, hp).db);
    FlagsGrowSameShape(st.db, Apply(st, hq).db);
    ScanRomPathHits(st.db, Apply(st, hp), q);
    ScanRomPathHits(st.db, Apply(st, hq), p);
    MarkHitsJoin(st.db, hp, hq);
    MarkHitsJoin(st.db, hq, hp);
    assert Join(hp, hq) == Join(hq, hp);
  }

  lemma ScanRomPathsSnoc(st: ScanState, ps: seq<RomPath>, p: RomPath)
    ensures ScanRomPaths(st, ps + [p]) == ScanRomPath(ScanRomPaths(st, ps), p)
  {
    assert (ps + [p])[..|ps|] == ps;
  }

  /** Swapping two adjacent entries of the rom path list changes neither the
      table nor the audited set the scan ends with. */
  lemma {:induction false} ScanRomPathsSwap(st: ScanState, front: seq<RomPath>, p: RomPath, q: RomPath,
                                            back: seq<RomPath>)
    ensures ScanRomPaths(st, front + [p, q] + back) == ScanRomPaths(st, front + [q, p] + back)
    decreases |back|
  {
    if back == [] {
      assert front + [p, q] + back == (front + [p]) + [q];
      assert front + [q, p] + back == (front + [q]) + [p];
      ScanRomPathsSnoc(st, front + [p], q);
      ScanRomPathsSnoc(st, front, p);
      ScanRomPathsSnoc(st, front + [q], p);
      ScanRomPathsSnoc(st, front, q);
      ScanRomPathCommutes(ScanRomPaths(st, front), p, q);
    } else {
      var init, last := back[..|back| - 1], back[|back| - 1];
      assert front + [p, q] + back == (front + [p, q] + init) + [last];
      assert front + [q, p] + back == (front + [q, p] + init) + [last];
      ScanRomPathsSnoc(st, front + [p, q] + init, last);
      ScanRomPathsSnoc(st, front + [q, p] + init, last);
      ScanRomPathsSwap(st, front, p, q, init);
    }
  }
}

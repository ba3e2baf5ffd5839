/** Phases 2 and 3 of `RomAuditor::run`: each game's coarse classification
    and the rom-level inheritance cascade from its `romof` parent and that
    parent's own `romof` game. */
module Classify {
  import opened RomData

  ghost predicate AllRomsAvailable(g: GameInfo)
  {
    forall c :: c in g.roms ==> g.roms[c].available
  }

  ghost predicate AllDisksAvailable(g: GameInfo)
  {
    forall k :: k in g.disks ==> g.disks[k].available
  }

  ghost predicate AllNoDump(g: GameInfo)
  {
    forall c :: c in g.roms ==> g.roms[c].status == NoDump
  }

  /** Game `name` holds a rom with CRC `crc` and that rom is available. */
  ghost predicate HeldAvailable(db: Table, name: string, crc: Crc32)
  {
    name in db && crc in db[name].roms && db[name].roms[crc].available
  }

  /** The rom with CRC `crc` of `g` can be taken from its `romof` game or from
      that game's own `romof` game. */
  ghost predicate Inherits(db: Table, g: GameInfo, crc: Crc32)
  {
    g.romof != "" &&
    (HeldAvailable(db, g.romof, crc) ||
     (g.romof in db && db[g.romof].romof != "" && HeldAvailable(db, db[g.romof].romof, crc)))
  }

  /** The classification before disks and inheritance are looked at: an
      audited game starts Complete; any other starts Missing unless all its
      roms are "nodump", all are already available, or it has disks. */
  function InitialState(audited: bool, allNoDump: bool, allAvailable: bool, noDisks: bool): GameState
  {
    if audited then Complete
    else if !allNoDump && !allAvailable && noDisks then Missing
    else Complete
  }

  /** The roms of `g` after the cascade: each unavailable one that can be
      inherited becomes available. */
  ghost function InheritedRoms(db: Table, g: GameInfo): map<Crc32, Rom>
  {
    map c | c in g.roms :: g.roms[c].(available := g.roms[c].available || Inherits(db, g, c))
  }

  /** Some rom of `g` is neither available nor inheritable. */
  ghost predicate RomMissing(db: Table, g: GameInfo)
  {
    exists c :: c in g.roms && !g.roms[c].available && !Inherits(db, g, c)
  }

  /** Some disk of `g` is unavailable. */
  ghost predicate DiskMissing(g: GameInfo)
  {
    exists k :: k in g.disks && !g.disks[k].available
  }

  /** Phases 2 and 3 for the game `name`, on the table as the earlier games
      left it; `ClassifyOneSpec` states what it does. */
  ghost function ClassifyOne(db: Table, audited: set<string>, name: string): (r: Table)
    requires name in db
    ensures r.Keys == db.Keys && r[name].isExtRom == db[name].isExtRom
    ensures forall n :: n in db && n != name ==> r[n] == db[n]
  {
    var g := db[name];
    if g.isExtRom then db
    else
      var init := InitialState(name in audited, AllNoDump(g), AllRomsAvailable(g), g.disks == map[]);
      var state := if DiskMissing(g) || RomMissing(db, g) then Missing else init;
      db[name := g.(roms := InheritedRoms(db, g), available := state)]
  }

  /** External-media games are left alone. Otherwise each unavailable rom
      that can be inherited becomes available, nothing else of the game but
      its state changes, and the game ends Missing exactly when it started
      Missing, has an unavailable disk, or has a rom that is neither
      available nor inheritable. */
  lemma ClassifyOneSpec(db: Table, audited: set<string>, name: string)
    requires name in db
    ensures var r := ClassifyOne(db, audited, name);
      db[name].isExtRom ==> r == db
    ensures var r := ClassifyOne(db, audited, name);
      !db[name].isExtRom ==>
      var g, h := db[name], r[name];
      h == g.(roms := h.roms, available := h.available) &&
      h.roms.Keys == g.roms.Keys &&
      (forall c :: c in g.roms ==>
         h.roms[c] == g.roms[c].(available := g.roms[c].available || Inherits(db, g, c))) &&
      (h.available == Missing <==>
         InitialState(name in audited, AllNoDump(g), AllRomsAvailable(g), g.disks == map[]) == Missing ||
         (exists k :: k in g.disks && !g.disks[k].available) ||
         (exists c :: c in g.roms && !g.roms[c].available && !Inherits(db, g, c)))
  {
  }

  /** Phases 2 and 3 over the games in iteration order. */
  ghost function ClassifyAll(db: Table, audited: set<string>, order: seq<string>): (r: Table)
    ensures r.Keys == db.Keys
    ensures forall n :: n in db ==> r[n].isExtRom == db[n].isExtRom
    ensures forall n :: n in db && db[n].isExtRom ==> r[n] == db[n]
    decreases |order|
  {
    if order == [] then db
    else
      var prev := ClassifyAll(db, audited, order[..|order| - 1]);
      var n := order[|order| - 1];
      if n in prev then ClassifyOne(prev, audited, n) else prev
  }

  lemma InheritsSameButStates(a: Table, b: Table, s: set<string>, g: GameInfo)
    requires SameButStates(a, b, s)
    ensures forall c :: Inherits(a, g, c) == Inherits(b, g, c)
  {
    if g.romof in a {
      assert b[g.romof].roms == a[g.romof].roms && b[g.romof].romof == a[g.romof].romof;
      var bios := a[g.romof].romof;
      if bios in a {
        assert b[bios].roms == a[bios].roms;
      }
    }
  }

  /** The game classified gets the same record from tables that differ
      only in game states. */
  lemma ClassifiedGameSameButStates(a: Table, b: Table, audited: set<string>, name: string, s: set<string>)
    requires SameButStates(a, b, s) && name in a && !a[name].isExtRom
    ensures ClassifyOne(a, audited, name)[name] == ClassifyOne(b, audited, name)[name]
  {
    var g, g' := a[name], b[name];
    assert g' == g.(available := g'.available);
    InheritsSameButStates(a, b, s, g);
    assert InheritedRoms(a, g) == InheritedRoms(b, g');
    assert RomMissing(a, g) == RomMissing(b, g');
  }

  lemma SameButStatesWiden(a: Table, b: Table, s: set<string>, t: set<string>)
    requires SameButStates(a, b, s) && forall n :: n in a && n in s ==> n in t
    ensures SameButStates(a, b, t)
  {
  }

  /** A game's own state before classification does not matter: tables
      that differ only in game states classify alike, and the classified
      game then has the same record in both. */
  lemma ClassifyOneSameButStates(a: Table, b: Table, audited: set<string>, name: string, s: set<string>)
    requires SameButStates(a, b, s) && name in a
    requires forall n :: n in s && n in a ==> !a[n].isExtRom
    ensures var ra, rb := ClassifyOne(a, audited, name), ClassifyOne(b, audited, name);
      SameButStates(ra, rb, s) && ra[name] == rb[name]
  {
    var ra, rb := ClassifyOne(a, audited, name), ClassifyOne(b, audited, name);
    if !a[name].isExtRom {
      ClassifiedGameSameButStates(a, b, audited, name, s);
      forall n | n in ra ensures rb[n] == ra[n].(available := rb[n].available) &&
                                 (n !in s ==> rb[n].available == ra[n].available) {
        if n != name {
          assert ra[n] == a[n] && rb[n] == b[n];
        }
      }
    } else {
      assert b[name] == a[name].(available := b[name].available);
    }
  }

  /** One more game of the order keeps the agreement of
      `ClassifyAllSameButStates`. */
  lemma ClassifyStepSameButStates(a: Table, b: Table, audited: set<string>, done: seq<string>, name: string,
                                  s: set<string>)
    requires SameButStates(a, b, s)
    requires forall n :: n in s && n in a ==> !a[n].isExtRom
    requires forall n :: n in done && n in a ==> a[n].available == b[n].available
    ensures var ra := if name in a then ClassifyOne(a, audited, name) else a;
      var rb := if name in a then ClassifyOne(b, audited, name) else b;
      SameButStates(ra, rb, s) && forall n :: n in done + [name] && n in ra ==> ra[n].available == rb[n].available
  {
    if name in a {
      ClassifyOneSameButStates(a, b, audited, name, s);
    }
  }

  /** Classifying, in the same order, tables that differ only in game
      states gives tables that differ at most in the states of games the
      order does not visit. */
  lemma {:induction false} ClassifyAllSameButStates(a: Table, b: Table, audited: set<string>, order: seq<string>,
                                                    s: set<string>)
    requires SameButStates(a, b, s)
    requires forall n :: n in s && n in a ==> !a[n].isExtRom
    ensures var ra, rb := ClassifyAll(a, audited, order), ClassifyAll(b, audited, order);
      SameButStates(ra, rb, s) && forall n :: n in order && n in ra ==> ra[n].available == rb[n].available
    decreases |order|
  {
    if order != [] {
      var front, last := order[..|order| - 1], order[|order| - 1];
      assert order == front + [last];
      ClassifyAllSameButStates(a, b, audited, front, s);
      ClassifyStepSameButStates(ClassifyAll(a, audited, front), ClassifyAll(b, audited, front), audited, front, last, s);
    }
  }

  /** A game classified Complete has every rom and every disk available. */
  lemma ClassifiedCompleteIsAvailable(db: Table, audited: set<string>, name: string)
    requires name in db && !db[name].isExtRom
    requires ClassifyOne(db, audited, name)[name].available == Complete
    ensures AllRomsAvailable(ClassifyOne(db, audited, name)[name])
    ensures AllDisksAvailable(ClassifyOne(db, audited, name)[name])
  {
    ClassifyOneSpec(db, audited, name);
    var g, h := db[name], ClassifyOne(db, audited, name)[name];
    forall c | c in h.roms ensures h.roms[c].available {
      assert c in g.roms;
    }
  }

  /** The exact converse: a game ends Complete if and only if its starting
      state was Complete and, after the cascade, every rom and every disk is
      available. Availability alone is not enough (`InheritedOnlyStaysMissing`). */
  lemma ClassifyOneCompleteIff(db: Table, audited: set<string>, name: string)
    requires name in db && !db[name].isExtRom
    ensures var g, h := db[name], ClassifyOne(db, audited, name)[name];
      h.available == Complete <==>
        InitialState(name in audited, AllNoDump(g), AllRomsAvailable(g), g.disks == map[]) == Complete &&
        AllRomsAvailable(h) && AllDisksAvailable(h)
  {
    ClassifyOneSpec(db, audited, name);
    var g, h := db[name], ClassifyOne(db, audited, name)[name];
    if AllRomsAvailable(h) {
      forall c | c in g.roms ensures g.roms[c].available || Inherits(db, g, c) {
        assert c in h.roms && h.roms[c].available;
      }
    }
    if !RomMissing(db, g) {
      forall c | c in h.roms ensures h.roms[c].available {
        assert c in g.roms;
      }
    }
  }

  /** The line 444 comment lets a game pass when all its roms come from its
      parent, but the early test at lines 449-457 runs before the cascade:
      a game with no archive of its own, some rom that is not "nodump", no
      disk and every rom inheritable ends Missing although every rom and
      disk is then available. */
  lemma InheritedOnlyStaysMissing(db: Table, audited: set<string>, name: string)
    requires name in db && !db[name].isExtRom && name !in audited && db[name].disks == map[]
    requires !AllNoDump(db[name]) && !AllRomsAvailable(db[name])
    requires forall c :: c in db[name].roms ==> db[name].roms[c].available || Inherits(db, db[name], c)
    ensures var h := ClassifyOne(db, audited, name)[name];
      h.available == Missing && AllRomsAvailable(h) && AllDisksAvailable(h)
  {
    ClassifyOneCompleteIff(db, audited, name);
    ClassifyOneSpec(db, audited, name);
  }

  /** A table that meets `InheritedOnlyStaysMissing`: `x` lacks the rom with
      CRC 1, which its `romof` game `bios` holds. */
  lemma InheritedOnlyExample()
    ensures var bios := GameInfo("", "", "", "", "", "", true, false, {}, Complete,
                                 map[1 := Rom("a", 1, "", true)], map[], []);
      var x := GameInfo("", "", "", "", "bios", "", false, false, {}, Complete,
                        map[1 := Rom("a", 1, "", false)], map[], []);
      var db := map["bios" := bios, "x" := x];
      var h := ClassifyOne(db, {}, "x")["x"];
      h.available == Missing && AllRomsAvailable(h) && AllDisksAvailable(h)
  {
    var bios := GameInfo("", "", "", "", "", "", true, false, {}, Complete,
                         map[1 := Rom("a", 1, "", true)], map[], []);
    var x := GameInfo("", "", "", "", "bios", "", false, false, {}, Complete,
                      map[1 := Rom("a", 1, "", false)], map[], []);
    var db := map["bios" := bios, "x" := x];
    assert HeldAvailable(db, "bios", 1);
    assert !AllNoDump(x) && !AllRomsAvailable(x) by {
      assert 1 in x.roms && x.roms[1].status != NoDump;
    }
    InheritedOnlyStaysMissing(db, {}, "x");
  }

  /** Classifying one game only turns rom flags on. */
  lemma ClassifyOneGrows(db: Table, audited: set<string>, name: string)
    requires name in db
    ensures FlagsGrow(db, ClassifyOne(db, audited, name))
  {
    var r := ClassifyOne(db, audited, name);
    var g := db[name];
    if !g.isExtRom {
      var roms := InheritedRoms(db, g);
      assert r[name] == g.(roms := roms, available := r[name].available);
      assert GameFlagsGrow(g, r[name]);
    }
    forall n | n in db ensures GameFlagsGrow(db[n], r[n]) {
    }
  }

  /** Classification only turns rom flags on and touches nothing but rom flags
      and game states. */
  lemma {:induction false} ClassifyAllGrows(db: Table, audited: set<string>, order: seq<string>)
    ensures FlagsGrow(db, ClassifyAll(db, audited, order))
    decreases |order|
  {
    if order == [] {
      FlagsGrowReflexive(db);
    } else {
      var prev := ClassifyAll(db, audited, order[..|order| - 1]);
      ClassifyAllGrows(db, audited, order[..|order| - 1]);
      var n := order[|order| - 1];
      if n in prev {
        ClassifyOneGrows(prev, audited, n);
        FlagsGrowTransitive(db, prev, ClassifyOne(prev, audited, n));
      }
    }
  }

  /** After the classification of every game, each non-external game marked
      Complete has every rom and every disk available. */
  lemma {:induction false} ClassifyAllCompleteIsAvailable(db: Table, audited: set<string>, order: seq<string>)
    requires forall i, j :: 0 <= i < j < |order| ==> order[i] != order[j]
    ensures var r := ClassifyAll(db, audited, order);
      forall n :: n in order && n in r && !r[n].isExtRom && r[n].available == Complete ==>
        AllRomsAvailable(r[n]) && AllDisksAvailable(r[n])
    decreases |order|
  {
    if order != [] {
      var front := order[..|order| - 1];
      var prev := ClassifyAll(db, audited, front);
      ClassifyAllCompleteIsAvailable(db, audited, front);
      var last := order[|order| - 1];
      var r := ClassifyAll(db, audited, order);
      forall n | n in order && n in r && !r[n].isExtRom && r[n].available == Complete
        ensures AllRomsAvailable(r[n]) && AllDisksAvailable(r[n])
      {
        if n == last {
          ClassifiedCompleteIsAvailable(prev, audited, n);
        } else {
          var i :| 0 <= i < |order| && order[i] == n;
          assert i < |order| - 1;
          assert n in front;
          assert r[n] == prev[n];
        }
      }
    }
  }

  /** The loop of lines 449-457: are all roms available? */
  method AllAvailableScan(roms: map<Crc32, Rom>) returns (allAvailable: bool)
    ensures allAvailable <==> forall c :: c in roms ==> roms[c].available
  {
    allAvailable := true;
    var rest := roms.Keys;
    while rest != {}
      invariant rest <= roms.Keys
      invariant forall c :: c in roms && c !in rest ==> roms[c].available
      decreases |rest|
    {
      var c :| c in rest;
      if !roms[c].available {
        allAvailable := false;
        break;
      }
      rest := rest - {c};
    }
  }

  /** The loop of lines 459-466: are all roms "nodump"? */
  method AllNoDumpScan(roms: map<Crc32, Rom>) returns (allNoDump: bool)
    ensures allNoDump <==> forall c :: c in roms ==> roms[c].status == NoDump
  {
    allNoDump := true;
    var rest := roms.Keys;
    while rest != {}
      invariant rest <= roms.Keys
      invariant forall c :: c in roms && c !in rest ==> roms[c].status == NoDump
      decreases |rest|
    {
      var c :| c in rest;
      if roms[c].status != NoDump {
        allNoDump := false;
        break;
      }
      rest := rest - {c};
    }
  }

  /** The loop of lines 469-474: is some disk unavailable? */
  method DiskMissingScan(disks: map<string, Disk>) returns (missing: bool)
    ensures missing <==> exists k :: k in disks && !disks[k].available
  {
    missing := false;
    var rest := disks.Keys;
    while rest != {}
      invariant rest <= disks.Keys
      invariant missing <==> exists k :: k in disks && k !in rest && !disks[k].available
      decreases |rest|
    {
      var k :| k in rest;
      if !disks[k].available {
        missing := true;
      }
      rest := rest - {k};
    }
  }

  /** Lines 482-512 for one unavailable rom: is it held available by the
      `romof` game, or else by that game's own `romof` game? */
  method InheritCheck(db: Table, g: GameInfo, crc: Crc32) returns (found: bool)
    ensures found == Inherits(db, g, crc)
  {
    found := false;
    if g.romof != "" && g.romof in db {
      var parent := db[g.romof];
      if crc in parent.roms && parent.roms[crc].available {
        found := true;
      } else if parent.romof != "" && parent.romof in db {
        var bios := db[parent.romof];
        found := crc in bios.roms && bios.roms[crc].available;
      }
    }
  }

  /** The cascade part-way: the roms in `rest` are still to be looked at. */
  ghost predicate InheritedSoFar(db: Table, g: GameInfo, rest: set<Crc32>, roms: map<Crc32, Rom>, romMissing: bool)
  {
    rest <= g.roms.Keys && roms.Keys == g.roms.Keys &&
    (forall c :: c in g.roms ==> roms[c] == if c in rest then g.roms[c] else InheritedRoms(db, g)[c]) &&
    (romMissing <==> exists c :: c in g.roms && c !in rest && !g.roms[c].available && !Inherits(db, g, c))
  }

  lemma InheritStep(db: Table, g: GameInfo, rest: set<Crc32>, roms: map<Crc32, Rom>, romMissing: bool, c: Crc32)
    requires InheritedSoFar(db, g, rest, roms, romMissing) && c in rest
    ensures roms[c] == g.roms[c]
    ensures var avail, found := roms[c].available, Inherits(db, g, c);
      InheritedSoFar(db, g, rest - {c}, if !avail && found then roms[c := roms[c].(available := true)] else roms,
                     romMissing || (!avail && !found))
  {
    var avail, found := roms[c].available, Inherits(db, g, c);
    var roms' := if !avail && found then roms[c := roms[c].(available := true)] else roms;
    var missing' := romMissing || (!avail && !found);
    if missing' && !romMissing {
      assert c in g.roms && c !in rest - {c} && !g.roms[c].available && !Inherits(db, g, c);
    }
  }

  lemma InheritDone(db: Table, g: GameInfo, roms: map<Crc32, Rom>, romMissing: bool)
    requires InheritedSoFar(db, g, {}, roms, romMissing)
    ensures roms == InheritedRoms(db, g) && romMissing == RomMissing(db, g)
  {
  }

  /** The loop of lines 478-515 over the roms of `g`: each unavailable rom
      that can be inherited becomes available; `romMissing` tells whether
      some rom could not. */
  method InheritScan(db: Table, g: GameInfo) returns (roms: map<Crc32, Rom>, romMissing: bool)
    ensures roms == InheritedRoms(db, g) && romMissing == RomMissing(db, g)
  {
    roms := g.roms;
    romMissing := false;
    var rest := g.roms.Keys;
    while rest != {}
      invariant InheritedSoFar(db, g, rest, roms, romMissing)
      decreases |rest|
    {
      var c :| c in rest;
      InheritStep(db, g, rest, roms, romMissing, c);
      if !roms[c].available {
        var found := InheritCheck(db, g, c);
        if found {
          roms := roms[c := roms[c].(available := true)];
        } else {
          romMissing := true;
        }
      }
      rest := rest - {c};
    }
    InheritDone(db, g, roms, romMissing);
  }

  /** The games in iteration order one more at a time. */
  lemma ClassifyAllStep(db: Table, audited: set<string>, order: seq<string>, i: nat)
    requires i < |order|
    ensures var prev := ClassifyAll(db, audited, order[..i]);
      ClassifyAll(db, audited, order[..i + 1]) ==
        if order[i] in prev then ClassifyOne(prev, audited, order[i]) else prev
  {
    assert order[..i + 1][..i] == order[..i];
  }
}

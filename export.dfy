/** `RomAuditor::exportDat`: the "fix dat" listing, per game, the roms still
    needed, in the game order parents-then-their-clones and filtered by the
    export mode. The XML text itself is not produced: each written `game`
    element is a `DatGame` record, each `rom` child a `DatRom`. */
module Export {
  import opened RomData
  import opened Strings

  /** AUDIT_ONLY, AUDIT_EXPORT_COMPLETE, AUDIT_EXPORT_INCOMPLETE, AUDIT_EXPORT_MISSING. */
  datatype Mode = AuditOnly | ExportComplete | ExportIncomplete | ExportMissing

  /** A `rom` element: name, size, and the CRC as 8 lower-case hex digits. */
  datatype DatRom = DatRom(name: string, size: nat, crc: string)

  /** A `game` element; an empty `romof` or `year` is an attribute or element
      that is not written. */
  datatype DatGame = DatGame(name: string, sourcefile: string, romof: string, description: string,
                             year: string, manufacturer: string, roms: seq<DatRom>)

  /** The test of line 206: export straight away, without a new audit. */
  function ExportsDirectly(mode: Mode, hasAudited: bool): bool
  {
    mode == ExportComplete || (mode != AuditOnly && hasAudited)
  }

  // ---------------------------------------------------------------------
  // Game order
  // ---------------------------------------------------------------------

  /** The games without a `cloneof`. */
  function ParentNames(db: Table): (ps: set<string>)
    ensures forall n :: n in ps <==> n in db && db[n].cloneof == ""
  {
    set n | n in db && db[n].cloneof == ""
  }

  /** Each parent of `ps`, in that order, immediately followed by its own
      clones in sorted order. */
  ghost function Groups(db: Table, ps: seq<string>): seq<string>
    requires forall i :: 0 <= i < |ps| ==> ps[i] in db
    decreases |ps|
  {
    if ps == [] then []
    else Groups(db, ps[..|ps| - 1]) + [ps[|ps| - 1]] + SortedSeq(db[ps[|ps| - 1]].clones)
  }

  /** The order in which `exportDat` visits the games. */
  ghost function ExportOrder(db: Table): (r: seq<string>)
    ensures WellLinked(db) ==> forall i :: 0 <= i < |r| ==> r[i] in db
  {
    ParentsInTable(db);
    GroupsInTable(db, SortedSeq(ParentNames(db)));
    Groups(db, SortedSeq(ParentNames(db)))
  }

  /** With every link inside the table, the groups hold only games of the table. */
  lemma GroupsInTable(db: Table, ps: seq<string>)
    requires forall i :: 0 <= i < |ps| ==> ps[i] in db
    ensures WellLinked(db) ==> forall i :: 0 <= i < |Groups(db, ps)| ==> Groups(db, ps)[i] in db
  {
    if WellLinked(db) {
      GroupsMembers(db, ps);
      forall i | 0 <= i < |Groups(db, ps)| ensures Groups(db, ps)[i] in db {
        var x := Groups(db, ps)[i];
        assert x in Groups(db, ps);
        if !(x in ps) {
          var k :| 0 <= k < |ps| && x in db[ps[k]].clones;
        }
      }
    }
  }

  /** `x` is a clone of one of the parents `ps`. */
  ghost predicate CloneOfSome(db: Table, ps: seq<string>, x: string)
    requires forall i :: 0 <= i < |ps| ==> ps[i] in db
  {
    exists i :: 0 <= i < |ps| && x in db[ps[i]].clones
  }

  lemma CloneOfSomeSnoc(db: Table, ps: seq<string>, x: string)
    requires ps != [] && forall i :: 0 <= i < |ps| ==> ps[i] in db
    ensures CloneOfSome(db, ps, x) <==>
      CloneOfSome(db, ps[..|ps| - 1], x) || x in db[ps[|ps| - 1]].clones
  {
    var front := ps[..|ps| - 1];
    if CloneOfSome(db, ps, x) {
      var i :| 0 <= i < |ps| && x in db[ps[i]].clones;
      if i < |front| {
        assert front[i] == ps[i];
      }
    }
    if CloneOfSome(db, front, x) {
      var i :| 0 <= i < |front| && x in db[front[i]].clones;
      assert ps[i] == front[i];
    }
  }

  lemma {:induction false} GroupsMember(db: Table, ps: seq<string>, x: string)
    requires forall i :: 0 <= i < |ps| ==> ps[i] in db
    ensures x in Groups(db, ps) <==> x in ps || CloneOfSome(db, ps, x)
    decreases |ps|
  {
    if ps != [] {
      var front, last := ps[..|ps| - 1], ps[|ps| - 1];
      GroupsMember(db, front, x);
      SortedSeqSpec(db[last].clones);
      CloneOfSomeSnoc(db, ps, x);
      assert ps == front + [last];
    }
  }

  lemma GroupsMembers(db: Table, ps: seq<string>)
    requires forall i :: 0 <= i < |ps| ==> ps[i] in db
    ensures forall x :: x in Groups(db, ps) <==> x in ps || CloneOfSome(db, ps, x)
  {
    forall x ensures x in Groups(db, ps) <==> x in ps || CloneOfSome(db, ps, x) {
      GroupsMember(db, ps, x);
    }
  }

  /** The export visits exactly the parents and the clones of parents. */
  lemma ExportOrderMembers(db: Table)
    ensures forall x :: x in ExportOrder(db) <==>
      (x in db && db[x].cloneof == "") ||
      exists p :: p in db && db[p].cloneof == "" && x in db[p].clones
  {
    var ps := SortedSeq(ParentNames(db));
    SortedSeqSpec(ParentNames(db));
    GroupsMembers(db, ps);
    forall x ensures x in ExportOrder(db) <==>
      (x in db && db[x].cloneof == "") ||
      exists p :: p in db && db[p].cloneof == "" && x in db[p].clones
    {
      if exists p :: p in db && db[p].cloneof == "" && x in db[p].clones {
        var p :| p in db && db[p].cloneof == "" && x in db[p].clones;
        var i :| 0 <= i < |ps| && ps[i] == p;
      }
    }
  }

  lemma ParentsInTable(db: Table)
    ensures forall i :: 0 <= i < |SortedSeq(ParentNames(db))| ==> SortedSeq(ParentNames(db))[i] in db
  {
    SortedSeqSpec(ParentNames(db));
  }

  /** One more parent adds its group at the end. */
  lemma GroupsSnoc(db: Table, ps: seq<string>, j: int)
    requires 0 <= j < |ps| && forall i :: 0 <= i < |ps| ==> ps[i] in db
    ensures Groups(db, ps[..j + 1]) == Groups(db, ps[..j]) + [ps[j]] + SortedSeq(db[ps[j]].clones)
  {
    assert ps[..j + 1][..j] == ps[..j];
  }

  lemma TakeOneMore(a: seq<string>, s: seq<string>, k: int)
    requires 0 <= k < |s|
    ensures a + s[..k + 1] == a + s[..k] + [s[k]]
  {
    assert s[..k + 1] == s[..k] + [s[k]];
  }

  /** The insertion of parent `ps[j]`'s sorted clones right after it turns
      the groups of the first `j` parents into those of the first `j + 1`. */
  lemma GroupStep(db: Table, ps: seq<string>, j: int, names: seq<string>)
    requires 0 <= j < |ps| && forall i :: 0 <= i < |ps| ==> ps[i] in db
    requires names == Groups(db, ps[..j]) + ps[j..]
    ensures var i, clones := |Groups(db, ps[..j])|, SortedSeq(db[ps[j]].clones);
      i < |names| &&
      names[..i + 1] + clones + names[i + 1..] == Groups(db, ps[..j + 1]) + ps[j + 1..] &&
      i + |clones| + 1 == |Groups(db, ps[..j + 1])|
  {
    var front := Groups(db, ps[..j]);
    assert ps[j..] == [ps[j]] + ps[j + 1..];
    assert names[..|front| + 1] == front + [ps[j]];
    assert names[|front| + 1..] == ps[j + 1..];
    GroupsSnoc(db, ps, j);
  }

  /** Inserting `x` right after the first `|a|` elements of `a + b`. */
  lemma InsertAfter(a: seq<string>, x: string, b: seq<string>)
    ensures (a + b)[..|a|] + [x] + (a + b)[|a|..] == a + [x] + b
  {
    assert (a + b)[..|a|] == a;
    assert (a + b)[|a|..] == b;
  }

  /** The inner loop of lines 63-64: each clone goes in at the pre-incremented
      index, so the list lands, in order, right after position `i`. */
  method InsertClones(names: seq<string>, i: nat, cloneList: seq<string>) returns (names': seq<string>, i': nat)
    requires i < |names|
    ensures names' == names[..i + 1] + cloneList + names[i + 1..]
    ensures i' == i + |cloneList|
  {
    names', i' := names, i;
    var k := 0;
    while k < |cloneList|
      invariant k <= |cloneList| && i' == i + k
      invariant names' == names[..i + 1] + cloneList[..k] + names[i + 1..]
    {
      i' := i' + 1;
      InsertAfter(names[..i + 1] + cloneList[..k], cloneList[k], names[i + 1..]);
      names' := names'[..i'] + [cloneList[k]] + names'[i'..];
      TakeOneMore(names[..i + 1], cloneList, k);
      k := k + 1;
    }
    assert cloneList[..k] == cloneList;
  }

  /** One turn of the loop of lines 58-67: parent `ps[j]`'s clones, sorted,
      go in right after it and the index moves past them. */
  method InsertGroup(db: Table, ps: seq<string>, j: nat, names: seq<string>, i: nat)
    returns (names': seq<string>, i': nat)
    requires j < |ps| && forall k :: 0 <= k < |ps| ==> ps[k] in db
    requires names == Groups(db, ps[..j]) + ps[j..] && i == |Groups(db, ps[..j])|
    ensures names' == Groups(db, ps[..j + 1]) + ps[j + 1..] && i' == |Groups(db, ps[..j + 1])|
  {
    var cloneList := SortNames(db[ps[j]].clones);
    GroupStep(db, ps, j, names);
    names', i' := InsertClones(names, i, cloneList);
    i' := i' + 1;
  }

  /** `gameNames` as lines 44-69 build it: the sorted parents, then each
      parent's sorted clones inserted right after it at a moving index. */
  method BuildGameNames(db: Table) returns (gameNames: seq<string>)
    requires WellLinked(db)
    ensures gameNames == ExportOrder(db)
  {
    var parents := SortNames(ParentNames(db));
    ParentsInTable(db);
    gameNames := parents;
    var i := 0;
    var j := 0;
    while j < |parents|
      invariant j <= |parents|
      invariant gameNames == Groups(db, parents[..j]) + parents[j..]
      invariant i == |Groups(db, parents[..j])|
    {
      gameNames, i := InsertGroup(db, parents, j, gameNames, i);
      j := j + 1;
    }
    assert parents[..j] == parents;
  }

  // ---------------------------------------------------------------------
  // One game's missing roms and counters
  // ---------------------------------------------------------------------

  /** BIOS resolution: the parent's `romof` game; failing that the parent
      itself when it is a BIOS; failing that none. */
  function BiosOf(db: Table, g: GameInfo): Option<string>
    requires g.romof != "" ==> g.romof in db
  {
    if g.romof == "" then None
    else if db[g.romof].romof != "" then Some(db[g.romof].romof)
    else if db[g.romof].isBios then Some(g.romof)
    else None
  }

  /** The resolved BIOS of `g` has a rom with CRC `c`. */
  ghost predicate BiosHolds(db: Table, g: GameInfo, c: Crc32)
    requires g.romof != "" ==> g.romof in db
  {
    match BiosOf(db, g)
    case None => false
    case Some(b) => b in db && c in db[b].roms
  }

  /** The parent of `g` has a rom with CRC `c` and lacks it too. */
  ghost predicate ParentAlsoLacks(db: Table, g: GameInfo, c: Crc32)
  {
    g.romof != "" && g.romof in db && c in db[g.romof].roms && !db[g.romof].roms[c].available
  }

  /** A rom of `g` that goes on the list: unavailable, and not one the parent
      lacks too. */
  ghost predicate Listed(db: Table, g: GameInfo, c: Crc32)
  {
    c in g.roms && !g.roms[c].available && !ParentAlsoLacks(db, g, c)
  }

  /** The largest CRC of a non-empty set (0 for the empty set). */
  ghost function MaxCrc(s: set<Crc32>): (m: Crc32)
    ensures s != {} ==> m in s && forall d :: d in s ==> d <= m
    decreases |s|
  {
    if s == {} then 0
    else
    var x :| x in s;
    if s == {x} then
      assert forall d :: d in s ==> d == x;
      x
    else
      assert s == (s - {x}) + {x};
      var m := MaxCrc(s - {x});
      if x < m then m else x
  }

  /** The listed roms of `g` among the CRCs `dom` that are named `n`. */
  ghost function ListedNamed(db: Table, g: GameInfo, dom: set<Crc32>, n: string): set<Crc32>
  {
    set c | c in dom && Listed(db, g, c) && g.roms[c].name == n
  }

  /** The names of the listed roms of `g` among the CRCs `dom`. */
  ghost function ListedNames(db: Table, g: GameInfo, dom: set<Crc32>): set<string>
  {
    set c | c in dom && Listed(db, g, c) :: g.roms[c].name
  }

  /** The missing-rom map of `g` over the CRCs `dom`, keyed by rom name, when
      the CRCs are visited in ascending order: roms sharing a name collapse
      into one entry, the one with the largest CRC. */
  ghost function MissingMapOf(db: Table, g: GameInfo, dom: set<Crc32>): map<string, Crc32>
  {
    map n | n in ListedNames(db, g, dom) :: MaxCrc(ListedNamed(db, g, dom, n))
  }

  /** The missing-rom map of `g` over all its roms, CRCs ascending. */
  ghost function MissingMap(db: Table, g: GameInfo): map<string, Crc32>
  {
    MissingMapOf(db, g, g.roms.Keys)
  }

  /** The roms counted in `missingCount`: unavailable and not held by the BIOS. */
  ghost function CountedMissing(db: Table, g: GameInfo): set<Crc32>
    requires g.romof != "" ==> g.romof in db
  {
    set c | c in g.roms && !g.roms[c].available && !BiosHolds(db, g, c)
  }

  ghost function NoDumps(g: GameInfo): set<Crc32>
  {
    set c | c in g.roms && g.roms[c].status == NoDump
  }

  /** `completelyMissingClone` after the loop: `g` has a parent and none of
      its available roms is one the parent does not have. */
  ghost predicate NoCloneRomFound(db: Table, g: GameInfo)
  {
    g.romof != "" && g.romof in db &&
    forall c :: c in g.roms && g.roms[c].available ==> c in db[g.romof].roms
  }

  /** With CRCs visited in ascending order, each entry of the missing-rom map
      is an unavailable rom of the game with that name, one the parent does
      not lack too, and the largest such CRC; every such rom's name is a key. */
  lemma MissingMapSpec(db: Table, g: GameInfo)
    ensures forall n :: n in MissingMap(db, g) ==>
      var c := MissingMap(db, g)[n];
      c in g.roms && !g.roms[c].available && g.roms[c].name == n && !ParentAlsoLacks(db, g, c) &&
      forall d :: Listed(db, g, d) && g.roms[d].name == n ==> d <= c
    ensures forall c :: Listed(db, g, c) ==> g.roms[c].name in MissingMap(db, g)
  {
    forall c | Listed(db, g, c) ensures g.roms[c].name in MissingMap(db, g) {
      assert g.roms[c].name in ListedNames(db, g, g.roms.Keys);
    }
    forall n | n in MissingMap(db, g)
      ensures forall d :: Listed(db, g, d) && g.roms[d].name == n ==> d <= MissingMap(db, g)[n]
    {
      forall d | Listed(db, g, d) && g.roms[d].name == n ensures d <= MissingMap(db, g)[n] {
        assert d in ListedNamed(db, g, g.roms.Keys, n);
      }
    }
  }

  lemma MaxCrcInsert(s: set<Crc32>, c: Crc32)
    requires forall d :: d in s ==> d < c
    ensures MaxCrc(s + {c}) == c
  {
  }

  lemma ListedNamedStep(db: Table, g: GameInfo, dom: set<Crc32>, c: Crc32, n: string)
    ensures ListedNamed(db, g, dom + {c}, n) ==
      ListedNamed(db, g, dom, n) + (if Listed(db, g, c) && g.roms[c].name == n then {c} else {})
  {
  }

  lemma ListedNamesStep(db: Table, g: GameInfo, dom: set<Crc32>, c: Crc32)
    ensures ListedNames(db, g, dom + {c}) ==
      ListedNames(db, g, dom) + (if Listed(db, g, c) then {g.roms[c].name} else {})
  {
    if Listed(db, g, c) {
      assert g.roms[c].name in ListedNames(db, g, dom + {c});
    }
  }

  lemma MissingMapKeysStep(db: Table, g: GameInfo, dom: set<Crc32>, c: Crc32)
    ensures MissingMapOf(db, g, dom + {c}).Keys ==
      MissingMapOf(db, g, dom).Keys + (if Listed(db, g, c) then {g.roms[c].name} else {})
  {
    ListedNamesStep(db, g, dom, c);
  }

  lemma MissingMapValueStep(db: Table, g: GameInfo, dom: set<Crc32>, c: Crc32, n: string)
    requires forall d :: d in dom ==> d < c
    requires n in MissingMapOf(db, g, dom + {c})
    ensures Listed(db, g, c) && g.roms[c].name == n ==> MissingMapOf(db, g, dom + {c})[n] == c
    ensures !(Listed(db, g, c) && g.roms[c].name == n) ==>
      n in MissingMapOf(db, g, dom) && MissingMapOf(db, g, dom + {c})[n] == MissingMapOf(db, g, dom)[n]
  {
    ListedNamedStep(db, g, dom, c, n);
    MissingMapKeysStep(db, g, dom, c);
    if Listed(db, g, c) && g.roms[c].name == n {
      MaxCrcInsert(ListedNamed(db, g, dom, n), c);
    }
  }

  /** A map that agrees with `m` off `k` and holds `v` at `k` is `m[k := v]`. */
  lemma MapUpdated<K, V>(a: map<K, V>, m: map<K, V>, k: K, v: V)
    requires a.Keys == m.Keys + {k} && a[k] == v
    requires forall n :: n in a && n != k ==> a[n] == m[n]
    ensures a == m[k := v]
  {
  }

  /** A map whose keys and values are those of `m` is `m`. */
  lemma MapSame<K, V>(a: map<K, V>, m: map<K, V>)
    requires a.Keys == m.Keys
    requires forall n :: n in a ==> a[n] == m[n]
    ensures a == m
  {
  }

  lemma MissingMapInsert(db: Table, g: GameInfo, dom: set<Crc32>, c: Crc32)
    requires forall d :: d in dom ==> d < c
    requires Listed(db, g, c)
    ensures MissingMapOf(db, g, dom + {c}) == MissingMapOf(db, g, dom)[g.roms[c].name := c]
  {
    MissingMapKeysStep(db, g, dom, c);
    MissingMapNewest(db, g, dom, c);
    MissingMapOthers(db, g, dom, c);
    MapUpdated(MissingMapOf(db, g, dom + {c}), MissingMapOf(db, g, dom), g.roms[c].name, c);
  }

  lemma MissingMapNewest(db: Table, g: GameInfo, dom: set<Crc32>, c: Crc32)
    requires forall d :: d in dom ==> d < c
    requires Listed(db, g, c)
    ensures g.roms[c].name in MissingMapOf(db, g, dom + {c}) && MissingMapOf(db, g, dom + {c})[g.roms[c].name] == c
  {
    MissingMapKeysStep(db, g, dom, c);
    MissingMapValueStep(db, g, dom, c, g.roms[c].name);
  }

  lemma MissingMapOthers(db: Table, g: GameInfo, dom: set<Crc32>, c: Crc32)
    requires forall d :: d in dom ==> d < c
    requires c in g.roms
    ensures forall n :: n in MissingMapOf(db, g, dom + {c}) && n != g.roms[c].name ==>
      MissingMapOf(db, g, dom + {c})[n] == MissingMapOf(db, g, dom)[n]
  {
    forall n | n in MissingMapOf(db, g, dom + {c}) && n != g.roms[c].name
      ensures MissingMapOf(db, g, dom + {c})[n] == MissingMapOf(db, g, dom)[n]
    {
      MissingMapValueStep(db, g, dom, c, n);
    }
  }

  lemma MissingMapSkip(db: Table, g: GameInfo, dom: set<Crc32>, c: Crc32)
    requires forall d :: d in dom ==> d < c
    requires !Listed(db, g, c)
    ensures MissingMapOf(db, g, dom + {c}) == MissingMapOf(db, g, dom)
  {
    var a, m := MissingMapOf(db, g, dom + {c}), MissingMapOf(db, g, dom);
    MissingMapKeysStep(db, g, dom, c);
    forall n | n in a ensures a[n] == m[n] {
      MissingMapValueStep(db, g, dom, c, n);
    }
    MapSame(a, m);
  }

  /** Visiting one more CRC, larger than all visited so far, inserts it under
      its name when it is listed. */
  lemma MissingMapStep(db: Table, g: GameInfo, dom: set<Crc32>, c: Crc32)
    requires forall d :: d in dom ==> d < c
    ensures MissingMapOf(db, g, dom + {c}) ==
      if Listed(db, g, c) then MissingMapOf(db, g, dom)[g.roms[c].name := c] else MissingMapOf(db, g, dom)
  {
    if Listed(db, g, c) {
      MissingMapInsert(db, g, dom, c);
    } else {
      MissingMapSkip(db, g, dom, c);
    }
  }

  /** The missing-rom map as the loop of lines 117-146 builds it, visiting
      the CRCs `crcs` in order: each listed rom is inserted under its name,
      replacing the rom of that name inserted before. */
  ghost function LastMissing(db: Table, g: GameInfo, crcs: seq<Crc32>): map<string, Crc32>
    decreases |crcs|
  {
    if crcs == [] then map[]
    else
      var m := LastMissing(db, g, crcs[..|crcs| - 1]);
      var c := crcs[|crcs| - 1];
      if Listed(db, g, c) then m[g.roms[c].name := c] else m
  }

  /** No CRC after `c` in `crcs` is a listed rom named `n`. */
  ghost predicate NoLaterNamed(db: Table, g: GameInfo, crcs: seq<Crc32>, c: Crc32, n: string)
  {
    forall i, j :: 0 <= i < j < |crcs| && crcs[i] == c ==> !(Listed(db, g, crcs[j]) && g.roms[crcs[j]].name == n)
  }

  /** Each entry of the map is a listed rom of `crcs` with that name. */
  lemma {:induction false} LastMissingEntries(db: Table, g: GameInfo, crcs: seq<Crc32>)
    ensures forall n :: n in LastMissing(db, g, crcs) ==>
      LastMissing(db, g, crcs)[n] in crcs && Listed(db, g, LastMissing(db, g, crcs)[n]) &&
      g.roms[LastMissing(db, g, crcs)[n]].name == n
    decreases |crcs|
  {
    if crcs != [] {
      var front, c := crcs[..|crcs| - 1], crcs[|crcs| - 1];
      LastMissingEntries(db, g, front);
      var m, m' := LastMissing(db, g, front), LastMissing(db, g, crcs);
      forall n | n in m' ensures m'[n] in crcs && Listed(db, g, m'[n]) && g.roms[m'[n]].name == n {
        if !(Listed(db, g, c) && g.roms[c].name == n) {
          assert m'[n] == m[n] && n in m;
          assert m[n] in front;
        }
      }
    }
  }

  /** Visiting the CRCs `crcs` once each, the map holds, for every name of a
      listed rom among them, the last listed CRC of that name. */
  lemma {:induction false} LastMissingSpec(db: Table, g: GameInfo, crcs: seq<Crc32>)
    requires forall i, j :: 0 <= i < j < |crcs| ==> crcs[i] != crcs[j]
    ensures var m := LastMissing(db, g, crcs);
      forall n :: n in m ==>
        m[n] in crcs && Listed(db, g, m[n]) && g.roms[m[n]].name == n && NoLaterNamed(db, g, crcs, m[n], n)
    ensures var m := LastMissing(db, g, crcs);
      forall c :: c in crcs && Listed(db, g, c) ==> g.roms[c].name in m
    decreases |crcs|
  {
    LastMissingEntries(db, g, crcs);
    if crcs != [] {
      var front, c := crcs[..|crcs| - 1], crcs[|crcs| - 1];
      LastMissingSpec(db, g, front);
      assert crcs == front + [c];
      var m, m' := LastMissing(db, g, front), LastMissing(db, g, crcs);
      forall n | n in m' ensures NoLaterNamed(db, g, crcs, m'[n], n) {
        forall i, j | 0 <= i < j < |crcs| && crcs[i] == m'[n]
          ensures !(Listed(db, g, crcs[j]) && g.roms[crcs[j]].name == n)
        {
          if !(Listed(db, g, c) && g.roms[c].name == n) {
            assert m'[n] == m[n] && n in m;
            if j < |crcs| - 1 {
              assert front[i] == crcs[i] && front[j] == crcs[j];
            }
          }
        }
      }
    }
  }

  /** Visiting the CRCs in ascending order, as iterating a map keyed by CRC
      does, builds `MissingMapOf` the visited CRCs: the largest CRC of a name
      wins. */
  lemma {:induction false} LastMissingAscending(db: Table, g: GameInfo, crcs: seq<Crc32>)
    requires forall i, j :: 0 <= i < j < |crcs| ==> crcs[i] < crcs[j]
    ensures LastMissing(db, g, crcs) == MissingMapOf(db, g, Seen(crcs, |crcs|))
    decreases |crcs|
  {
    if crcs != [] {
      var last := |crcs| - 1;
      var front, c := crcs[..last], crcs[last];
      LastMissingAscending(db, g, front);
      AscendingLast(crcs, last);
      assert Seen(front, |front|) == Seen(crcs, last) by {
        assert front[..|front|] == crcs[..last];
      }
      MissingMapStep(db, g, Seen(crcs, last), c);
      assert LastMissing(db, g, crcs) ==
        if Listed(db, g, c) then LastMissing(db, g, front)[g.roms[c].name := c] else LastMissing(db, g, front);
    }
  }

  /** Over all the roms of the game, visited in ascending CRC order, the map
      is `MissingMap`: for each name, the largest listed CRC. */
  lemma LastMissingAscendingAll(db: Table, g: GameInfo, crcs: seq<Crc32>)
    requires forall i, j :: 0 <= i < j < |crcs| ==> crcs[i] < crcs[j]
    requires forall c :: c in g.roms <==> c in crcs
    ensures LastMissing(db, g, crcs) == MissingMap(db, g)
  {
    LastMissingAscending(db, g, crcs);
    assert crcs[..|crcs|] == crcs;
    assert Seen(crcs, |crcs|) == g.roms.Keys;
  }

  /** In a strictly ascending sequence the last CRC is above all earlier ones. */
  lemma AscendingLast(crcs: seq<Crc32>, last: nat)
    requires last + 1 == |crcs| && forall i, j :: 0 <= i < j < |crcs| ==> crcs[i] < crcs[j]
    ensures Seen(crcs, |crcs|) == Seen(crcs, last) + {crcs[last]}
    ensures forall d :: d in Seen(crcs, last) ==> d < crcs[last]
  {
    var front := crcs[..last];
    assert crcs[..|crcs|] == front + [crcs[last]];
    forall d | d in Seen(crcs, last) ensures d < crcs[last] {
      var k :| 0 <= k < |front| && front[k] == d;
      assert crcs[k] == d;
    }
  }

  /** The threshold of lines 152-156. */
  function CompletelyMissing(missingCount: int, romCount: int, biosRomsCount: int, nodumpCount: int,
                             hasParent: bool, completelyMissingClone: bool): bool
  {
    missingCount >= romCount - biosRomsCount - nodumpCount || (hasParent && completelyMissingClone)
  }

  /** The number of roms of the resolved BIOS (0 without one). */
  function BiosRomsCount(db: Table, g: GameInfo): nat
    requires g.romof != "" ==> g.romof in db
  {
    match BiosOf(db, g)
    case None => 0
    case Some(b) => if b in db then |db[b].roms| else 0
  }

  /** Counting the members of `s` among the visited elements, one more at a time. */
  lemma CountStep<T>(done: set<T>, s: set<T>, c: T)
    requires c !in done
    ensures |(done + {c}) * s| == |done * s| + (if c in s then 1 else 0)
  {
    if c in s {
      assert (done + {c}) * s == done * s + {c};
    } else {
      assert (done + {c}) * s == done * s;
    }
  }

  /** Every available rom of `g` among `done` is one its parent also has. */
  ghost predicate ParentHasAvailable(db: Table, g: GameInfo, done: set<Crc32>)
    requires g.romof != "" ==> g.romof in db
  {
    g.romof != "" && forall c :: c in done && c in g.roms && g.roms[c].available ==> c in db[g.romof].roms
  }

  lemma ParentHasAvailableStep(db: Table, g: GameInfo, done: set<Crc32>, c: Crc32)
    requires c in g.roms && (g.romof != "" ==> g.romof in db)
    ensures ParentHasAvailable(db, g, done + {c}) ==
      (ParentHasAvailable(db, g, done) && !(g.roms[c].available && g.romof != "" && c !in db[g.romof].roms))
  {
  }

  /** Once every rom is visited, the loop's running values are the game's. */
  lemma AllVisited(db: Table, g: GameInfo)
    requires g.romof != "" ==> g.romof in db
    ensures g.roms.Keys * CountedMissing(db, g) == CountedMissing(db, g)
    ensures g.roms.Keys * NoDumps(g) == NoDumps(g)
    ensures ParentHasAvailable(db, g, g.roms.Keys) == NoCloneRomFound(db, g)
  {
  }

  /** The body of the loop of lines 117-146 for the rom with CRC `c`: the
      counters and the map after that rom is looked at. */
  method VisitRom(db: Table, g: GameInfo, c: Crc32, missing: map<string, Crc32>, missingCount: nat,
                  nodumpCount: nat, completelyMissingClone: bool)
    returns (missing': map<string, Crc32>, missingCount': nat, nodumpCount': nat, completelyMissingClone': bool)
    requires c in g.roms && (g.romof != "" ==> g.romof in db) && WellLinked(db)
    ensures missing' == if Listed(db, g, c) then missing[g.roms[c].name := c] else missing
    ensures missingCount' == missingCount + if c in CountedMissing(db, g) then 1 else 0
    ensures nodumpCount' == nodumpCount + if c in NoDumps(g) then 1 else 0
    ensures completelyMissingClone' ==
      (completelyMissingClone && !(g.roms[c].available && g.romof != "" && c !in db[g.romof].roms))
  {
    missing', missingCount', nodumpCount', completelyMissingClone' :=
      missing, missingCount, nodumpCount, completelyMissingClone;
    var rom := g.roms[c];
    var bios := BiosOf(db, g);
    if rom.status == NoDump {
      nodumpCount' := nodumpCount' + 1;
    }
    var biosHas := bios.Some? && c in db[bios.value].roms;
    assert biosHas == BiosHolds(db, g, c);
    if !rom.available {
      if g.romof != "" && c in db[g.romof].roms && !db[g.romof].roms[c].available {
        if !biosHas {
          missingCount' := missingCount' + 1;
        }
      } else {
        missing' := missing'[rom.name := c];
        if !biosHas {
          missingCount' := missingCount' + 1;
        }
      }
    } else if completelyMissingClone' && g.romof != "" && c !in db[g.romof].roms {
      completelyMissingClone' := false;
    }
  }

  /** The CRCs among the first `i` of `crcs`. */
  ghost function Seen(crcs: seq<Crc32>, i: nat): set<Crc32>
    requires i <= |crcs|
  {
    set c | c in crcs[..i]
  }

  lemma SeenStep(crcs: seq<Crc32>, i: nat)
    requires i < |crcs| && forall k, l :: 0 <= k < l < |crcs| ==> crcs[k] != crcs[l]
    ensures Seen(crcs, i + 1) == Seen(crcs, i) + {crcs[i]} && crcs[i] !in Seen(crcs, i)
  {
    assert crcs[..i + 1] == crcs[..i] + [crcs[i]];
  }

  /** What the loop of lines 117-146 keeps after the first `i` CRCs of
      `crcs`: the map is built from them, and the counters count them. */
  ghost predicate VisitedSoFar(db: Table, g: GameInfo, crcs: seq<Crc32>, i: nat,
                               missing: map<string, Crc32>, missingCount: nat, nodumpCount: nat,
                               completelyMissingClone: bool)
    requires g.romof != "" ==> g.romof in db
  {
    i <= |crcs| &&
    missing == LastMissing(db, g, crcs[..i]) &&
    missingCount == |Seen(crcs, i) * CountedMissing(db, g)| &&
    nodumpCount == |Seen(crcs, i) * NoDumps(g)| &&
    completelyMissingClone == ParentHasAvailable(db, g, Seen(crcs, i))
  }

  lemma VisitStep(db: Table, g: GameInfo, crcs: seq<Crc32>, i: nat,
                  missing: map<string, Crc32>, missingCount: nat, nodumpCount: nat, completelyMissingClone: bool,
                  missing': map<string, Crc32>, missingCount': nat, nodumpCount': nat, completelyMissingClone': bool)
    requires g.romof != "" ==> g.romof in db
    requires EnumeratesCrcs(crcs, g.roms.Keys) && i < |crcs|
    requires VisitedSoFar(db, g, crcs, i, missing, missingCount, nodumpCount, completelyMissingClone)
    requires var c := crcs[i];
      missing' == (if Listed(db, g, c) then missing[g.roms[c].name := c] else missing) &&
      missingCount' == missingCount + (if c in CountedMissing(db, g) then 1 else 0) &&
      nodumpCount' == nodumpCount + (if c in NoDumps(g) then 1 else 0) &&
      completelyMissingClone' ==
        (completelyMissingClone && !(g.roms[c].available && g.romof != "" && c !in db[g.romof].roms))
    ensures VisitedSoFar(db, g, crcs, i + 1, missing', missingCount', nodumpCount', completelyMissingClone')
  {
    var c := crcs[i];
    assert crcs[..i + 1][..i] == crcs[..i];
    SeenStep(crcs, i);
    ParentHasAvailableStep(db, g, Seen(crcs, i), c);
    CountStep(Seen(crcs, i), CountedMissing(db, g), c);
    CountStep(Seen(crcs, i), NoDumps(g), c);
  }

  /** Once every CRC is visited, the visited set is the game's. */
  lemma SeenAll(g: GameInfo, crcs: seq<Crc32>)
    requires EnumeratesCrcs(crcs, g.roms.Keys)
    ensures Seen(crcs, |crcs|) == g.roms.Keys
  {
    assert crcs[..|crcs|] == crcs;
  }

  /** The loop of lines 117-146 over the roms of game `name`, visited in the
      order `crcs` of `roms.keys()`. */
  method MissingRoms(db: Table, name: string, crcs: seq<Crc32>)
    returns (missing: map<string, Crc32>, missingCount: nat, nodumpCount: nat, completelyMissingClone: bool)
    requires name in db && WellLinked(db) && EnumeratesCrcs(crcs, db[name].roms.Keys)
    ensures missing == LastMissing(db, db[name], crcs)
    ensures missingCount == |CountedMissing(db, db[name])|
    ensures nodumpCount == |NoDumps(db[name])|
    ensures completelyMissingClone == NoCloneRomFound(db, db[name])
  {
    var g := db[name];
    completelyMissingClone := g.romof != "";
    missing, missingCount, nodumpCount := map[], 0, 0;
    for i := 0 to |crcs|
      invariant VisitedSoFar(db, g, crcs, i, missing, missingCount, nodumpCount, completelyMissingClone)
    {
      var missing', missingCount', nodumpCount', completelyMissingClone' :=
        VisitRom(db, g, crcs[i], missing, missingCount, nodumpCount, completelyMissingClone);
      VisitStep(db, g, crcs, i, missing, missingCount, nodumpCount, completelyMissingClone,
                missing', missingCount', nodumpCount', completelyMissingClone');
      missing, missingCount, nodumpCount, completelyMissingClone :=
        missing', missingCount', nodumpCount', completelyMissingClone';
    }
    assert crcs[..|crcs|] == crcs;
    SeenAll(g, crcs);
    AllVisited(db, g);
  }

  // ---------------------------------------------------------------------
  // One game's record, and the whole listing
  // ---------------------------------------------------------------------

  /** Every entry of the missing-rom map is a rom of the game. */
  lemma LastMissingInRoms(db: Table, g: GameInfo, crcs: seq<Crc32>)
    ensures forall n :: n in LastMissing(db, g, crcs) ==> LastMissing(db, g, crcs)[n] in g.roms
  {
    LastMissingEntries(db, g, crcs);
  }

  /** The `rom` elements for the map keys `names`, in that order: name, size
      and the CRC as 8 lower-case hex digits (lines 172-183). */
  function DatRoms(g: GameInfo, missing: map<string, Crc32>, names: seq<string>): (r: seq<DatRom>)
    requires forall i :: 0 <= i < |names| ==> names[i] in missing && missing[names[i]] in g.roms
    ensures |r| == |names|
    ensures forall i :: 0 <= i < |names| ==> r[i].name == g.roms[missing[names[i]]].name
  {
    seq(|names|, i requires 0 <= i < |names| =>
      var c := missing[names[i]];
      DatRom(g.roms[c].name, g.roms[c].size, HexPadded(c as nat, 8)))
  }

  /** The `rom` elements: the missing-rom map in name order. */
  ghost function RomLines(g: GameInfo, missing: map<string, Crc32>): seq<DatRom>
    requires forall n :: n in missing ==> missing[n] in g.roms
  {
    SortedSeqSpec(missing.Keys);
    DatRoms(g, missing, SortedSeq(missing.Keys))
  }

  /** Lines 80-187 for game `name`, whose roms are visited in the order
      `crcs`: whether it is written and with which roms. */
  ghost function GameEntry(db: Table, mode: Mode, name: string, crcs: seq<Crc32>): Option<DatGame>
    requires name in db && WellLinked(db)
  {
    var g := db[name];
    if !((mode == ExportComplete && !g.isExtRom) || g.available == Missing) then None
    else
      var missing := LastMissing(db, g, crcs);
      if mode != ExportComplete && |missing| == 0 then None
      else
        var cm := CompletelyMissing(|CountedMissing(db, g)|, |g.roms|, BiosRomsCount(db, g), |NoDumps(g)|,
                                    g.romof != "", NoCloneRomFound(db, g));
        if (mode == ExportIncomplete && cm) || (mode == ExportMissing && !cm) then None
        else
          LastMissingInRoms(db, g, crcs);
          Some(DatGame(name, g.sourcefile, g.romof, g.description, g.year, g.manufacturer, RomLines(g, missing)))
  }

  /** The entry of each of the games `names`, in that order, each game's
      roms visited in the order `crcOrder` gives. */
  ghost function Entries(db: Table, mode: Mode, names: seq<string>, crcOrder: map<string, seq<Crc32>>)
    : (r: seq<Option<DatGame>>)
    requires WellLinked(db) && RomOrders(db, crcOrder) && forall i :: 0 <= i < |names| ==> names[i] in db
    ensures |r| == |names| &&
      forall i :: 0 <= i < |names| ==> r[i] == GameEntry(db, mode, names[i], crcOrder[names[i]])
  {
    seq(|names|, i requires 0 <= i < |names| => GameEntry(db, mode, names[i], crcOrder[names[i]]))
  }

  /** The values of the present options, in order. */
  ghost function Present(xs: seq<Option<DatGame>>): seq<DatGame>
    decreases |xs|
  {
    if xs == [] then []
    else
      var front := Present(xs[..|xs| - 1]);
      match xs[|xs| - 1]
      case None => front
      case Some(e) => front + [e]
  }

  /** The records written for the games `names`, in that order. */
  ghost function Report(db: Table, mode: Mode, names: seq<string>, crcOrder: map<string, seq<Crc32>>)
    : seq<DatGame>
    requires WellLinked(db) && RomOrders(db, crcOrder) && forall i :: 0 <= i < |names| ==> names[i] in db
  {
    Present(Entries(db, mode, names, crcOrder))
  }

  /** The `game` element for `name`, as the body of the loop of lines 76-188
      computes it. */
  method WriteGame(db: Table, mode: Mode, name: string, crcs: seq<Crc32>) returns (e: Option<DatGame>)
    requires name in db && WellLinked(db) && EnumeratesCrcs(crcs, db[name].roms.Keys)
    ensures e == GameEntry(db, mode, name, crcs)
  {
    var g := db[name];
    if !((mode == ExportComplete && !g.isExtRom) || g.available == Missing) {
      return None;
    }
    var missing, missingCount, nodumpCount, completelyMissingClone := MissingRoms(db, name, crcs);
    if mode != ExportComplete && |missing| == 0 {
      return None;
    }
    var cm := CompletelyMissing(missingCount, |g.roms|, BiosRomsCount(db, g), nodumpCount,
                                g.romof != "", completelyMissingClone);
    if (mode == ExportIncomplete && cm) || (mode == ExportMissing && !cm) {
      return None;
    }
    LastMissingInRoms(db, g, crcs);
    var names := SortNames(missing.Keys);
    SortedSeqSpec(missing.Keys);
    assert forall i :: 0 <= i < |names| ==> names[i] in missing;
    e := Some(DatGame(name, g.sourcefile, g.romof, g.description, g.year, g.manufacturer,
                      DatRoms(g, missing, names)));
  }

  /** Visiting one more game appends its record, if it has one. */
  lemma ReportStep(db: Table, mode: Mode, names: seq<string>, crcOrder: map<string, seq<Crc32>>, i: int)
    requires WellLinked(db) && RomOrders(db, crcOrder)
    requires 0 <= i < |names| && forall k :: 0 <= k < |names| ==> names[k] in db
    ensures Report(db, mode, names[..i + 1], crcOrder) ==
      match GameEntry(db, mode, names[i], crcOrder[names[i]])
      case None => Report(db, mode, names[..i], crcOrder)
      case Some(e) => Report(db, mode, names[..i], crcOrder) + [e]
  {
    var xs := Entries(db, mode, names[..i + 1], crcOrder);
    assert xs[..i] == Entries(db, mode, names[..i], crcOrder);
  }

  /** Lines 44-188: every game in export order, each written or skipped. */
  method WriteDat(db: Table, mode: Mode, crcOrder: map<string, seq<Crc32>>) returns (written: seq<DatGame>)
    requires WellLinked(db) && RomOrders(db, crcOrder)
    ensures written == Report(db, mode, ExportOrder(db), crcOrder)
  {
    var gameNames := BuildGameNames(db);
    written := [];
    var i := 0;
    while i < |gameNames|
      invariant i <= |gameNames|
      invariant written == Report(db, mode, gameNames[..i], crcOrder)
    {
      var e := WriteGame(db, mode, gameNames[i], crcOrder[gameNames[i]]);
      ReportStep(db, mode, gameNames, crcOrder, i);
      if e.Some? {
        written := written + [e.value];
      }
      i := i + 1;
    }
    assert gameNames[..i] == gameNames;
  }

  /** Each `rom` element's CRC text is 8 hex digits that read back as the
      CRC its name maps to. */
  lemma DatRomsCrc(g: GameInfo, missing: map<string, Crc32>, names: seq<string>)
    requires forall i :: 0 <= i < |names| ==> names[i] in missing && missing[names[i]] in g.roms
    ensures forall i :: 0 <= i < |names| ==>
      |DatRoms(g, missing, names)[i].crc| == 8 &&
      ParseHex(DatRoms(g, missing, names)[i].crc) == missing[names[i]] as int
  {
    assert Pow16(8) == 0x1_0000_0000;
    forall i | 0 <= i < |names|
      ensures |DatRoms(g, missing, names)[i].crc| == 8
      ensures ParseHex(DatRoms(g, missing, names)[i].crc) == missing[names[i]] as int
    {
      HexPaddedRoundTrip(missing[names[i]] as nat, 8);
    }
  }

  /** The `rom` elements of a game list its missing roms once each by name,
      in strictly increasing name order: each is an unavailable rom of the
      game that the parent does not lack too, the last of that name in the
      visiting order `crcs`, with its CRC written as 8 hex digits that read
      back as that rom's CRC; and every such rom's name is listed. */
  lemma RomLinesSpec(db: Table, g: GameInfo, crcs: seq<Crc32>)
    requires EnumeratesCrcs(crcs, g.roms.Keys)
    ensures (LastMissingInRoms(db, g, crcs); var r := RomLines(g, LastMissing(db, g, crcs));
      (forall i, j :: 0 <= i < j < |r| ==> LexLe(r[i].name, r[j].name) && r[i].name != r[j].name) &&
      (forall i :: 0 <= i < |r| ==>
        |r[i].crc| == 8 && 0 <= ParseHex(r[i].crc) < 0x1_0000_0000 &&
        Listed(db, g, ParseHex(r[i].crc) as Crc32) &&
        g.roms[ParseHex(r[i].crc) as Crc32].name == r[i].name &&
        NoLaterNamed(db, g, crcs, ParseHex(r[i].crc) as Crc32, r[i].name)) &&
      (forall c :: Listed(db, g, c) ==> exists i :: 0 <= i < |r| && r[i].name == g.roms[c].name))
  {
    var missing := LastMissing(db, g, crcs);
    LastMissingSpec(db, g, crcs);
    RomLinesOf(db, g, missing);
  }

  /** The `rom` elements of any name-to-CRC map of listed roms named by
      their keys: sorted, CRC text reading back, every key present. */
  lemma RomLinesOf(db: Table, g: GameInfo, missing: map<string, Crc32>)
    requires forall n :: n in missing ==> missing[n] in g.roms && Listed(db, g, missing[n]) && g.roms[missing[n]].name == n
    ensures var r := RomLines(g, missing);
      (forall i, j :: 0 <= i < j < |r| ==> LexLe(r[i].name, r[j].name) && r[i].name != r[j].name) &&
      (forall i :: 0 <= i < |r| ==>
        |r[i].crc| == 8 && r[i].name in missing && ParseHex(r[i].crc) == missing[r[i].name] as int &&
        Listed(db, g, ParseHex(r[i].crc) as Crc32) &&
        g.roms[ParseHex(r[i].crc) as Crc32].name == r[i].name) &&
      (forall n :: n in missing ==> exists i :: 0 <= i < |r| && r[i].name == n)
  {
    SortedSeqSpec(missing.Keys);
    DatRomsOf(db, g, missing, SortedSeq(missing.Keys));
  }

  /** The same for the `rom` elements of the keys `names`, listed in
      strictly increasing order and covering the map. */
  lemma DatRomsOf(db: Table, g: GameInfo, missing: map<string, Crc32>, names: seq<string>)
    requires forall n :: n in missing ==> missing[n] in g.roms && Listed(db, g, missing[n]) && g.roms[missing[n]].name == n
    requires StrictlySorted(names) && forall n :: n in names <==> n in missing
    ensures var r := DatRoms(g, missing, names);
      (forall i, j :: 0 <= i < j < |r| ==> LexLe(r[i].name, r[j].name) && r[i].name != r[j].name) &&
      (forall i :: 0 <= i < |r| ==>
        |r[i].crc| == 8 && r[i].name in missing && ParseHex(r[i].crc) == missing[r[i].name] as int &&
        Listed(db, g, ParseHex(r[i].crc) as Crc32) &&
        g.roms[ParseHex(r[i].crc) as Crc32].name == r[i].name) &&
      (forall n :: n in missing ==> exists i :: 0 <= i < |r| && r[i].name == n)
  {
    var r := DatRoms(g, missing, names);
    DatRomsCrc(g, missing, names);
    assert forall i :: 0 <= i < |r| ==> r[i].name == names[i];
    forall n | n in missing ensures exists i :: 0 <= i < |r| && r[i].name == n {
      var i :| 0 <= i < |names| && names[i] == n;
      assert r[i].name == n;
    }
  }

  /** A game none of whose roms was found reaches the threshold of lines
      152-156: the roms its BIOS holds are at most the BIOS's rom count, so
      the counted missing roms are at least all the others. */
  lemma NothingFoundIsCompletelyMissing(db: Table, g: GameInfo)
    requires g.romof != "" ==> g.romof in db
    requires forall c :: c in g.roms ==> !g.roms[c].available
    ensures CompletelyMissing(|CountedMissing(db, g)|, |g.roms|, BiosRomsCount(db, g), |NoDumps(g)|,
                              g.romof != "", NoCloneRomFound(db, g))
  {
    var held := BiosHeld(db, g);
    assert CountedMissing(db, g) == g.roms.Keys - held by {
      assert forall c :: c in CountedMissing(db, g) <==> c in g.roms.Keys - held;
    }
    BiosHeldBound(db, g);
    DiffCard(g.roms.Keys, held);
  }

  /** The roms of `g` that its resolved BIOS holds. */
  ghost function BiosHeld(db: Table, g: GameInfo): set<Crc32>
    requires g.romof != "" ==> g.romof in db
  {
    set c | c in g.roms && BiosHolds(db, g, c)
  }

  /** The BIOS holds no more of `g`'s roms than it has. */
  lemma BiosHeldBound(db: Table, g: GameInfo)
    requires g.romof != "" ==> g.romof in db
    ensures BiosHeld(db, g) <= g.roms.Keys && |BiosHeld(db, g)| <= BiosRomsCount(db, g)
  {
    var held := BiosHeld(db, g);
    match BiosOf(db, g)
    case None =>
      assert held == {};
    case Some(b) =>
      if b in db {
        assert held <= db[b].roms.Keys;
        SubsetCard(held, db[b].roms.Keys);
      } else {
        assert held == {};
      }
  }

  lemma SubsetCard<T>(a: set<T>, b: set<T>)
    requires a <= b
    ensures |a| <= |b|
  {
    assert b == a + (b - a);
  }

  lemma DiffCard<T>(a: set<T>, h: set<T>)
    requires h <= a
    ensures |a - h| == |a| - |h|
  {
    assert a == (a - h) + h;
  }

  /** With every rom missing and some rom to list, the game is written by
      the "missing" export and skipped by the "incomplete" one. */
  lemma NothingFoundExportMode(db: Table, name: string, crcs: seq<Crc32>, c: Crc32)
    requires name in db && WellLinked(db) && EnumeratesCrcs(crcs, db[name].roms.Keys)
    requires db[name].available == Missing && Listed(db, db[name], c)
    requires forall d :: d in db[name].roms ==> !db[name].roms[d].available
    ensures GameEntry(db, ExportMissing, name, crcs).Some?
    ensures GameEntry(db, ExportIncomplete, name, crcs) == None
  {
    LastMissingHas(db, db[name], crcs, c);
    NothingFoundIsCompletelyMissing(db, db[name]);
  }

  /** A listed rom leaves the map non-empty. */
  lemma LastMissingHas(db: Table, g: GameInfo, crcs: seq<Crc32>, c: Crc32)
    requires EnumeratesCrcs(crcs, g.roms.Keys) && Listed(db, g, c)
    ensures |LastMissing(db, g, crcs)| != 0
  {
    LastMissingSpec(db, g, crcs);
    assert g.roms[c].name in LastMissing(db, g, crcs);
  }

  /** An entry is among the present values exactly when it is present. */
  lemma {:induction false} PresentMembers(xs: seq<Option<DatGame>>)
    ensures forall e :: e in Present(xs) <==> Some(e) in xs
    decreases |xs|
  {
    if xs != [] {
      var front := xs[..|xs| - 1];
      PresentMembers(front);
      assert xs == front + [xs[|xs| - 1]];
    }
  }

  /** The report holds exactly the entries of the visited games that are
      written. */
  lemma ReportMembers(db: Table, mode: Mode, names: seq<string>, crcOrder: map<string, seq<Crc32>>)
    requires WellLinked(db) && RomOrders(db, crcOrder) && forall i :: 0 <= i < |names| ==> names[i] in db
    ensures forall e :: e in Report(db, mode, names, crcOrder) <==>
      exists i :: 0 <= i < |names| && GameEntry(db, mode, names[i], crcOrder[names[i]]) == Some(e)
  {
    var xs := Entries(db, mode, names, crcOrder);
    PresentMembers(xs);
    forall e ensures Some(e) in xs <==>
      exists i :: 0 <= i < |names| && GameEntry(db, mode, names[i], crcOrder[names[i]]) == Some(e)
    {
      if Some(e) in xs {
        var i :| 0 <= i < |xs| && xs[i] == Some(e);
      }
    }
  }
}

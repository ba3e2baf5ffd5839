/** The in-memory rom set database the auditor works on: games keyed by
    name, each with roms keyed by CRC32, disks keyed by SHA-1, clone names and
    a `romof` parent link. */
module RomData {

  datatype Option<T> = None | Some(value: T)

  /** A CRC32 as stored in the database and in archive directories (quint32). */
  newtype Crc32 = x: int | 0 <= x < 0x1_0000_0000

  /** Availability of a whole game (GAME_COMPLETE / GAME_MISSING). */
  datatype GameState = Complete | Missing

  datatype Rom = Rom(name: string, size: nat, status: string, available: bool)

  datatype Disk = Disk(name: string, status: string, available: bool)

  /** A console's device: the file extensions its software may carry. */
  datatype Device = Device(extensionNames: seq<string>)

  datatype GameInfo = GameInfo(
    description: string,
    year: string,
    manufacturer: string,
    sourcefile: string,
    romof: string,
    cloneof: string,
    isBios: bool,
    isExtRom: bool,
    clones: set<string>,
    available: GameState,
    roms: map<Crc32, Rom>,
    disks: map<string, Disk>,
    devices: seq<Device>)

  /** pMameDat->games: game name to game. */
  type Table = map<string, GameInfo>

  /** The dump status that needs no file. */
  const NoDump: string := "nodump"

  /** Every `romof` and every clone name refers to a game of the table: the
      auditor and the exporter look them up without checking. */
  ghost predicate WellLinked(db: Table)
  {
    forall n :: n in db ==>
      (db[n].romof != "" ==> db[n].romof in db) && db[n].clones <= db.Keys
  }

  /** `order` enumerates the keys of `db` once each: the iteration order of
      `pMameDat->games.keys()`. */
  ghost predicate EnumeratesKeys(order: seq<string>, db: Table)
  {
    (forall k :: k in db <==> k in order) &&
    (forall i, j :: 0 <= i < j < |order| ==> order[i] != order[j])
  }

  /** `crcs` lists the CRCs `keys` once each: the iteration order of a
      game's `roms.keys()`. */
  ghost predicate EnumeratesCrcs(crcs: seq<Crc32>, keys: set<Crc32>)
  {
    (forall c :: c in keys <==> c in crcs) &&
    (forall i, j :: 0 <= i < j < |crcs| ==> crcs[i] != crcs[j])
  }

  /** `crcOrder` gives every game of `db` the iteration order of its roms. */
  ghost predicate RomOrders(db: Table, crcOrder: map<string, seq<Crc32>>)
  {
    forall n :: n in db ==> n in crcOrder && EnumeratesCrcs(crcOrder[n], db[n].roms.Keys)
  }

  /** No `romof` and no clone name of a game refers to an external-media
      record: those records are dropped by the purge before a new audit. */
  ghost predicate NoLinkToExt(db: Table)
  {
    forall n :: n in db ==>
      (db[n].romof != "" && db[n].romof in db ==> !db[db[n].romof].isExtRom) &&
      (forall c :: c in db[n].clones && c in db ==> !db[c].isExtRom)
  }

  /** External-media records have no devices, so they are never audited as
      consoles themselves. */
  ghost predicate ExtWithoutDevices(db: Table)
  {
    forall n :: n in db && db[n].isExtRom ==> db[n].devices == []
  }

  /** The database object that owns the table. */
  class MameDat {
    var games: Table

    constructor (games: Table)
      ensures this.games == games
    {
      this.games := games;
    }
  }

  /** `h` is `g` with at most some flags turned on and its state changed. */
  ghost predicate GameFlagsGrow(g: GameInfo, h: GameInfo)
  {
    h == g.(roms := h.roms, disks := h.disks, available := h.available) &&
    g.roms.Keys == h.roms.Keys && g.disks.Keys == h.disks.Keys &&
    (forall c :: c in g.roms ==>
       h.roms[c] == g.roms[c].(available := h.roms[c].available) &&
       (g.roms[c].available ==> h.roms[c].available)) &&
    (forall k :: k in g.disks ==>
       h.disks[k] == g.disks[k].(available := h.disks[k].available) &&
       (g.disks[k].available ==> h.disks[k].available))
  }

  /** Flags and states only ever go from unavailable to available between
      `a` and `b`; nothing else about any game changes. */
  ghost predicate FlagsGrow(a: Table, b: Table)
  {
    a.Keys == b.Keys && forall n :: n in a ==> GameFlagsGrow(a[n], b[n])
  }

  /** `a` and `b` hold the same games, identical but for the states of the
      games in `s`. */
  ghost predicate SameButStates(a: Table, b: Table, s: set<string>)
  {
    a.Keys == b.Keys &&
    forall n :: n in a ==>
      b[n] == a[n].(available := b[n].available) && (n !in s ==> b[n].available == a[n].available)
  }

  lemma SameButNoStates(a: Table, b: Table)
    requires SameButStates(a, b, {})
    ensures a == b
  {
    forall n | n in a ensures a[n] == b[n] {
      assert b[n] == a[n].(available := b[n].available);
    }
  }

  lemma FlagsGrowTransitive(a: Table, b: Table, c: Table)
    requires FlagsGrow(a, b) && FlagsGrow(b, c)
    ensures FlagsGrow(a, c)
  {
  }

  lemma FlagsGrowReflexive(a: Table)
    ensures FlagsGrow(a, a)
  {
  }

  /** Changing only flags and states keeps every link inside the table. */
  lemma FlagsGrowWellLinked(a: Table, b: Table)
    requires FlagsGrow(a, b) && WellLinked(a)
    ensures WellLinked(b)
  {
    forall n | n in b ensures (b[n].romof != "" ==> b[n].romof in b) && b[n].clones <= b.Keys {
      assert b[n].romof == a[n].romof && b[n].clones == a[n].clones;
    }
  }

  /** Changing only flags and states keeps external-media records apart. */
  lemma FlagsGrowNoLinkToExt(a: Table, b: Table)
    requires FlagsGrow(a, b) && NoLinkToExt(a) && ExtWithoutDevices(a)
    ensures NoLinkToExt(b) && ExtWithoutDevices(b)
  {
    forall n | n in b
      ensures (b[n].romof != "" && b[n].romof in b ==> !b[b[n].romof].isExtRom) &&
              (forall c :: c in b[n].clones && c in b ==> !b[c].isExtRom)
    {
      assert b[n].romof == a[n].romof && b[n].clones == a[n].clones;
    }
  }
}

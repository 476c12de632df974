/**
  A FAT volume with 512-byte sectors: reading its sectors from a device that may
  fail now and then, and following the file allocation table from one cluster to
  the next.
 */
module FatVolume {
  import opened Common

  type Sector = s: seq<byte> | |s| == 512 witness seq(512, _ => 0)

  /** The errors of the file system; `Panicked` is none of them, it says that the program stopped. */
  datatype Error = BlockError | Unsupported | NotFound | EndOfFile | InvalidOffset | Panicked

  type IoResult<+T> = Result<T, Error>

  datatype FatType = Unknown | FAT12 | FAT16 | FAT32

  datatype Volume = Volume(
    disk: nat -> Sector,
    start: nat,
    last: nat,
    fatType: FatType,
    sectorsPerCluster: nat,
    rootDirSectors: nat,
    firstFatSector: nat,
    firstDataSector: nat,
    rootCluster: nat)

  /** A device whose reads may fail at any time, but never return wrong data. */
  class Device {
    const works: (nat, nat) -> bool  // does a read at this time of this sector succeed?
    var time: nat
    ghost var failures: nat  // how many reads have failed

    constructor (works: (nat, nat) -> bool)
      ensures this.works == works && time == 0 && failures == 0
    {
      this.works := works;
      time := 0;
      failures := 0;
    }

    /** From now on no read fails. */
    ghost predicate Reliable()
      reads this
    {
      QuietFrom(time)
    }

    ghost predicate QuietFrom(t: nat) {
      forall t', s :: t' >= t ==> works(t', s)
    }

    ghost predicate NeverWorks() {
      forall t, s :: !works(t, s)
    }

    lemma QuietLater(t: nat, later: nat)
      requires t <= later && QuietFrom(t)
      ensures QuietFrom(later)
    {
    }

    /** Time passes, and a device that never fails from now on has not failed since. */
    twostate predicate Ran()
      reads this
    {
      && old(time) <= time && old(failures) <= failures
      && (old(failures) < failures ==> old(time) < time && !old(Reliable()))
    }
  }

  /** What a sector of the volume holds; nothing lies behind the last sector of the partition. */
  function SectorAt(v: Volume, sector: nat): Option<Sector> {
    if v.start + sector > v.last then None else Some(v.disk(v.start + sector))
  }

  method ReadSector(v: Volume, dev: Device, sector: nat) returns (r: Option<Sector>)
    modifies dev
    ensures dev.Ran()
    ensures r == if dev.failures == old(dev.failures) then SectorAt(v, sector) else None
    ensures r.Some? ==> !dev.NeverWorks()
  {
    if v.start + sector > v.last {
      return None;
    }
    var now := dev.time;
    dev.time := dev.time + 1;
    if dev.works(now, v.start + sector) {
      return Some(v.disk(v.start + sector));
    }
    dev.failures := dev.failures + 1;
    return None;
  }

  // ---------------------------------------------------------------------------
  // Following the allocation table
  // ---------------------------------------------------------------------------

  function Word16(data: Sector, offset: nat): nat
    requires offset + 1 < 512
  {
    var lo: nat, hi: nat := data[offset], data[offset+1];
    lo + 256 * hi
  }

  function Word32(data: Sector, offset: nat): nat
    requires offset + 3 < 512
  {
    Word16(data, offset) + 65536 * Word16(data, offset + 2)
  }

  /** Byte position of a cluster's entry in the table. */
  function EntryOffset(t: FatType, cluster: nat): nat {
    match t
    case FAT12 => cluster + cluster / 2
    case FAT16 => cluster * 2
    case FAT32 => cluster * 4
    case Unknown => 0
  }

  /** The whole entry lies in one sector; the reader looks at one sector only. */
  predicate InOneSector(t: FatType, cluster: nat) {
    t == FAT12 ==> EntryOffset(t, cluster) % 512 != 511
  }

  function DecodeEntry(t: FatType, cluster: nat, data: Sector): (r: IoResult<nat>)
    requires InOneSector(t, cluster)
  {
    var offset := EntryOffset(t, cluster) % 512;
    match t
    case FAT12 =>
      var raw := Word16(data, offset);
      var next := if cluster % 2 == 0 then raw % 4096 else raw / 16;
      if next >= 0xff8 then Err(EndOfFile) else Ok(next)
    case FAT16 =>
      var next := Word16(data, offset);
      if next >= 0xfff8 then Err(EndOfFile) else Ok(next)
    case FAT32 =>
      var next := Word32(data, offset) % 0x1000_0000;
      if next >= 0x0fff_fff8 then Err(EndOfFile) else Ok(next)
    case Unknown => Err(Unsupported)
  }

  /** Reading a table entry from its sector; `behind` is the byte in memory behind the sector buffer. */
  function DecodePast(t: FatType, cluster: nat, data: Sector, behind: byte): IoResult<nat> {
    if InOneSector(t, cluster) then DecodeEntry(t, cluster, data)
    else
      var lo: nat, hi: nat := data[511], behind;
      var raw := lo + 256 * hi;
      var next := if cluster % 2 == 0 then raw % 4096 else raw / 16;
      if next >= 0xff8 then Err(EndOfFile) else Ok(next)
  }

  /** The cluster after this one, as the table on the disk has it. */
  function NextCluster(v: Volume, cluster: nat): IoResult<nat>
    requires InOneSector(v.fatType, cluster)
  {
    if v.fatType == Unknown then Err(Unsupported)
    else
      match SectorAt(v, v.firstFatSector + EntryOffset(v.fatType, cluster) / 512)
      case None => Err(BlockError)
      case Some(data) => DecodeEntry(v.fatType, cluster, data)
  }

  /** What the reader takes for the next cluster, for every entry. */
  function NextClusterPast(v: Volume, cluster: nat, behind: byte): IoResult<nat> {
    if v.fatType == Unknown then Err(Unsupported)
    else
      match SectorAt(v, v.firstFatSector + EntryOffset(v.fatType, cluster) / 512)
      case None => Err(BlockError)
      case Some(data) => DecodePast(v.fatType, cluster, data, behind)
  }

  method FollowChain(v: Volume, dev: Device, cluster: nat, behind: byte) returns (r: IoResult<nat>)
    modifies dev
    ensures dev.Ran()
    ensures r == if dev.failures == old(dev.failures) then NextClusterPast(v, cluster, behind) else Err(BlockError)
    ensures InOneSector(v.fatType, cluster) ==> NextClusterPast(v, cluster, behind) == NextCluster(v, cluster)
  {
    if v.fatType == Unknown {
      return Err(Unsupported);
    }
    var data := ReadSector(v, dev, v.firstFatSector + EntryOffset(v.fatType, cluster) / 512);
    if data == None {
      return Err(BlockError);
    }
    return DecodePast(v.fatType, cluster, data.value, behind);
  }

  // ---------------------------------------------------------------------------
  // The table on disk
  // ---------------------------------------------------------------------------

  /** Byte b of a packed table: two 12-bit entries share three bytes. */
  function Packed12(table: nat -> nat, b: nat): nat {
    var even, odd := table(2 * (b / 3)), table(2 * (b / 3) + 1);
    if b % 3 == 0 then even % 256
    else if b % 3 == 1 then even / 256 + 16 * (odd % 16)
    else odd / 16
  }

  function Packed16(table: nat -> nat, b: nat): nat {
    if b % 2 == 0 then table(b / 2) % 256 else table(b / 2) / 256
  }

  function Packed32(table: nat -> nat, b: nat): nat {
    var e := table(b / 4);
    if b % 4 == 0 then e % 256
    else if b % 4 == 1 then e / 256 % 256
    else if b % 4 == 2 then e / 256 / 256 % 256
    else e / 256 / 256 / 256
  }

  function Packed(t: FatType, table: nat -> nat, b: nat): nat {
    match t
    case FAT12 => Packed12(table, b)
    case FAT16 => Packed16(table, b)
    case FAT32 => Packed32(table, b)
    case Unknown => 0
  }

  function EntryLimit(t: FatType): nat {
    match t
    case FAT12 => 0x1000
    case FAT16 => 0x1_0000
    case FAT32 => 0x1_0000_0000
    case Unknown => 1
  }

  /** Byte b of the table area, if its sector is the given data, is byte b of the packed table. */
  ghost predicate ByteHolds(t: FatType, table: nat -> nat, data: Sector, b: nat) {
    data[b % 512] == Packed(t, table, b)
  }

  /** A sector of the table area holds its part of the packed table. */
  ghost predicate SectorHolds(v: Volume, table: nat -> nat, j: nat) {
    var data := SectorAt(v, v.firstFatSector + j);
    data.Some? && forall b: nat :: b / 512 == j ==> ByteHolds(v.fatType, table, data.value, b)
  }

  ghost predicate TableInRange(t: FatType, table: nat -> nat) {
    forall n :: table(n) < EntryLimit(t)
  }

  /** The value a table entry stands for: the next cluster, or the end of the chain. */
  function Meaning(t: FatType, entry: nat): IoResult<nat> {
    match t
    case FAT12 => if entry >= 0xff8 then Err(EndOfFile) else Ok(entry)
    case FAT16 => if entry >= 0xfff8 then Err(EndOfFile) else Ok(entry)
    case FAT32 => if entry % 0x1000_0000 >= 0x0fff_fff8 then Err(EndOfFile) else Ok(entry % 0x1000_0000)
    case Unknown => Err(Unsupported)
  }

  lemma Even12(x: nat, y: nat)
    requires x < 4096
    ensures (x % 256 + 256 * (x / 256 + 16 * (y % 16))) % 4096 == x
  {
    var k := y % 16;
    assert x % 256 + 256 * (x / 256 + 16 * k) == x + 4096 * k;
  }

  lemma Odd12(x: nat, y: nat)
    requires x < 4096
    ensures (x / 256 + 16 * (y % 16) + 256 * (y / 16)) / 16 == y
  {
    assert x / 256 < 16;
    assert x / 256 + 16 * (y % 16) + 256 * (y / 16) == x / 256 + 16 * y;
  }

  lemma Bytes32(e: nat)
    ensures e % 256 + 256 * (e / 256 % 256) + 65536 * (e / 256 / 256 % 256 + 256 * (e / 256 / 256 / 256)) == e
  {
    var e1 := e / 256;
    var e2 := e1 / 256;
    assert e == e % 256 + 256 * e1 && e1 == e1 % 256 + 256 * e2 && e2 == e2 % 256 + 256 * (e2 / 256);
  }

  lemma Thirds(q: nat, r: nat)
    requires r < 3
    ensures (3 * q + r) / 3 == q && (3 * q + r) % 3 == r
  {
  }

  lemma Quarters(q: nat, r: nat)
    requires r < 4
    ensures (4 * q + r) / 4 == q && (4 * q + r) % 4 == r
  {
  }

  lemma Sectors(q: nat, r: nat)
    requires r < 512
    ensures (512 * q + r) / 512 == q && (512 * q + r) % 512 == r
  {
  }

  /** Three bytes hold two 12-bit entries. */
  lemma Bytes12(table: nat -> nat, q: nat)
    ensures var x, y := table(2 * q), table(2 * q + 1);
            && Packed12(table, 3 * q) == x % 256
            && Packed12(table, 3 * q + 1) == x / 256 + 16 * (y % 16)
            && Packed12(table, 3 * q + 2) == y / 16
  {
    Thirds(q, 0);
    Thirds(q, 1);
    Thirds(q, 2);
  }

  /** The two bytes of a packed 12-bit entry, read as one word. */
  lemma Raw12(table: nat -> nat, n: nat)
    requires TableInRange(FAT12, table)
    ensures var at := n + n / 2;
            var raw := Packed12(table, at) + 256 * Packed12(table, at + 1);
            (if n % 2 == 0 then raw % 4096 else raw / 16) == table(n)
  {
    hide Packed12;
    var q := n / 2;
    var x, y := table(2 * q), table(2 * q + 1);
    assert x < 4096;
    Bytes12(table, q);
    if n % 2 == 0 {
      assert n == 2 * q && n + n / 2 == 3 * q;
      Even12(x, y);
    } else {
      assert n == 2 * q + 1 && n + n / 2 == 3 * q + 1;
      Odd12(x, y);
    }
  }

  lemma Decode12(table: nat -> nat, n: nat, j: nat, m: nat, data: Sector)
    requires TableInRange(FAT12, table) && n + n / 2 == 512 * j + m && m < 511
    requires data[m] == Packed12(table, 512 * j + m) && data[m+1] == Packed12(table, 512 * j + (m + 1))
    ensures InOneSector(FAT12, n) && DecodeEntry(FAT12, n, data) == Meaning(FAT12, table(n))
  {
    hide Packed12, TableInRange;
    Sectors(j, m);
    Raw12(table, n);
  }

  lemma Decode16(table: nat -> nat, n: nat, j: nat, m: nat, data: Sector)
    requires n * 2 == 512 * j + m && m < 511
    requires data[m] == Packed16(table, 512 * j + m) && data[m+1] == Packed16(table, 512 * j + (m + 1))
    ensures DecodeEntry(FAT16, n, data) == Meaning(FAT16, table(n))
  {
    Sectors(j, m);
    assert (2 * n) / 2 == n && (2 * n + 1) / 2 == n && (2 * n + 1) % 2 == 1;
  }

  lemma Decode32(table: nat -> nat, n: nat, j: nat, m: nat, data: Sector)
    requires n * 4 == 512 * j + m && m < 509
    requires data[m] == Packed32(table, 512 * j + m) && data[m+1] == Packed32(table, 512 * j + (m + 1))
    requires data[m+2] == Packed32(table, 512 * j + (m + 2)) && data[m+3] == Packed32(table, 512 * j + (m + 3))
    ensures DecodeEntry(FAT32, n, data) == Meaning(FAT32, table(n))
  {
    Sectors(j, m);
    hide Packed32;
    Raw32(table, n);
  }

  lemma Raw32(table: nat -> nat, n: nat)
    ensures Packed32(table, 4 * n) + 256 * Packed32(table, 4 * n + 1)
            + 65536 * (Packed32(table, 4 * n + 2) + 256 * Packed32(table, 4 * n + 3)) == table(n)
  {
    Quarters(n, 0);
    Quarters(n, 1);
    Quarters(n, 2);
    Quarters(n, 3);
    Bytes32(table(n));
  }

  lemma ByteOfSector(t: FatType, table: nat -> nat, data: Sector, j: nat, m: nat)
    requires m < 512 && forall b: nat :: b / 512 == j ==> ByteHolds(t, table, data, b)
    ensures data[m] == Packed(t, table, 512 * j + m)
  {
    Sectors(j, m);
    assert ByteHolds(t, table, data, 512 * j + m);
  }

  lemma DecodeReadsTable(t: FatType, table: nat -> nat, n: nat, data: Sector)
    requires t != Unknown && TableInRange(t, table) && InOneSector(t, n)
    requires forall b: nat :: b / 512 == EntryOffset(t, n) / 512 ==> ByteHolds(t, table, data, b)
    ensures DecodeEntry(t, n, data) == Meaning(t, table(n))
  {
    hide DecodeEntry, Meaning, Packed12, Packed16, Packed32, TableInRange, ByteHolds;
    var j, m := EntryOffset(t, n) / 512, EntryOffset(t, n) % 512;
    assert EntryOffset(t, n) == 512 * j + m;
    ByteOfSector(t, table, data, j, m);
    match t
    case FAT12 =>
      ByteOfSector(t, table, data, j, m + 1);
      Decode12(table, n, j, m, data);
    case FAT16 =>
      assert m < 511;
      ByteOfSector(t, table, data, j, m + 1);
      Decode16(table, n, j, m, data);
    case FAT32 =>
      assert m < 509;
      ByteOfSector(t, table, data, j, m + 1);
      ByteOfSector(t, table, data, j, m + 2);
      ByteOfSector(t, table, data, j, m + 3);
      Decode32(table, n, j, m, data);
  }

  /**
    When the table area holds a packed table, the next cluster read is the entry
    of that table, or the end of the chain exactly when the entry is an end mark.
   */
  lemma NextClusterReadsTable(v: Volume, table: nat -> nat, n: nat)
    requires v.fatType != Unknown && TableInRange(v.fatType, table) && InOneSector(v.fatType, n)
    requires SectorHolds(v, table, EntryOffset(v.fatType, n) / 512)
    ensures NextCluster(v, n) == Meaning(v.fatType, table(n))
  {
    DecodeReadsTable(v.fatType, table, n, SectorAt(v, v.firstFatSector + EntryOffset(v.fatType, n) / 512).value);
  }

  lemma Mod512(a: nat, b: nat)
    ensures (512 * a + b) % 512 == b % 512
  {
  }

  /** The 12-bit entries cut by a sector boundary are two in every 1024. */
  lemma CutEntries(cluster: nat)
    ensures InOneSector(FAT12, cluster) <==> cluster % 1024 != 341 && cluster % 1024 != 682
  {
    var q, r := cluster / 1024, cluster % 1024;
    var m := r + r / 2;
    assert cluster + cluster / 2 == 512 * (3 * q) + m by {
      assert cluster == 1024 * q + r;
      assert cluster / 2 == 512 * q + r / 2;
    }
    Mod512(3 * q, m);
    assert m % 512 == 511 <==> m == 511 || m == 1023;
    assert (m == 511 <==> r == 341) && (m == 1023 <==> r == 682);
  }

  lemma CutEntryIsUnsure(cluster: nat, data: Sector)
    requires !InOneSector(FAT12, cluster)
    ensures DecodePast(FAT12, cluster, data, 0) != DecodePast(FAT12, cluster, data, 1)
  {
    var lo: nat := data[511];
    assert (lo + 256) / 16 == lo / 16 + 16;
  }

  /** A table entry is read right, whatever lies in memory behind the buffer, exactly when it lies in one sector. */
  lemma EntryReadRightIff(v: Volume, table: nat -> nat, n: nat)
    requires v.fatType != Unknown && TableInRange(v.fatType, table)
    requires SectorHolds(v, table, EntryOffset(v.fatType, n) / 512)
    ensures (forall behind: byte :: NextClusterPast(v, n, behind) == Meaning(v.fatType, table(n)))
            <==> InOneSector(v.fatType, n)
  {
    if InOneSector(v.fatType, n) {
      NextClusterReadsTable(v, table, n);
      forall behind: byte ensures NextClusterPast(v, n, behind) == Meaning(v.fatType, table(n)) {
        assert NextClusterPast(v, n, behind) == NextCluster(v, n);
      }
    } else {
      var data := SectorAt(v, v.firstFatSector + EntryOffset(v.fatType, n) / 512).value;
      CutEntryIsUnsure(n, data);
      assert NextClusterPast(v, n, 0) != NextClusterPast(v, n, 1);
    }
  }
}

/**
  Directories: 32-byte slots in the sectors of a cluster chain (or, for the root
  directory of FAT12 and FAT16, in a fixed run of sectors), read one entry at a
  time. Long names are gathered from the slots in front of an entry.
 */
module FatDirectory {
  import opened Common
  import opened FatVolume
  import opened FatFile

  type Slot = s: seq<byte> | |s| == 32 witness seq(32, _ => 0)

  type LongName = n: seq<nat> | |n| == 260 witness seq(260, _ => 0)

  datatype Entry = Entry(name: seq<byte>, isDirectory: bool, size: nat, cluster: nat, longName: LongName, attr: byte)

  // ---------------------------------------------------------------------------
  // Slots
  // ---------------------------------------------------------------------------

  function SlotOf(data: Sector, i: nat): Slot
    requires i < 16
  {
    data[32*i..32*i+32]
  }

  predicate IsEnd(s: Slot) {
    s[0] == 0
  }

  predicate IsDeleted(s: Slot) {
    s[0] == 0xe5
  }

  predicate IsLongName(s: Slot) {
    s[11] == 0x0f
  }

  /** A long-name slot whose sequence number is not one from 1 to 20: the reader panics at it. */
  predicate IsBad(s: Slot) {
    !IsEnd(s) && !IsDeleted(s) && IsLongName(s) && !(1 <= s[0] % 32 <= 20)
  }

  /** Index of the first bad slot in front of the end mark, or the length when there is none. */
  function FirstBad(slots: seq<Slot>): (i: nat)
    ensures i <= |slots|
    ensures i < |slots| ==> IsBad(slots[i]) && forall j :: 0 <= j < i ==> !IsEnd(slots[j])
  {
    if slots == [] || IsEnd(slots[0]) then |slots|
    else if IsBad(slots[0]) then 0
    else 1 + FirstBad(slots[1..])
  }

  function Word(s: Slot, offset: nat): nat
    requires offset + 1 < 32
  {
    var lo: nat, hi: nat := s[offset], s[offset+1];
    lo + 256 * hi
  }

  function Zeros(n: nat): (z: seq<byte>)
    ensures |z| == n
  {
    seq(n, _ => 0)
  }

  function Blank(): LongName {
    Zeros(260)
  }

  /** The 13 characters of a long-name slot. */
  function Characters(s: Slot): (c: seq<nat>)
    ensures |c| == 13
  {
    [Word(s, 1), Word(s, 3), Word(s, 5), Word(s, 7), Word(s, 9),
     Word(s, 14), Word(s, 16), Word(s, 18), Word(s, 20), Word(s, 22), Word(s, 24),
     Word(s, 28), Word(s, 30)]
  }

  /** Puts a slot's characters where its sequence number says. */
  function Gather(long: LongName, s: Slot): LongName {
    var n := s[0] % 32;
    if 1 <= n <= 20 then long[..13*(n-1)] + Characters(s) + long[13*n..] else long
  }

  /** Length without trailing blanks, but at least one. */
  function TrimmedLength(name: seq<byte>): (n: nat)
    ensures n <= |name|
  {
    if |name| <= 1 || name[|name|-1] != 32 then |name| else TrimmedLength(name[..|name|-1])
  }

  function WithoutBlanks(name: seq<byte>): (r: seq<byte>)
    ensures |r| <= |name|
  {
    if name == [] then [] else (if name[0] == 32 then [] else [name[0]]) + WithoutBlanks(name[1..])
  }

  /** The 8.3 name with its dot, padded with zeros to 12 bytes. */
  function ShortName(s: Slot): seq<byte> {
    var base := s[..TrimmedLength(s[..8])];
    var ext := if s[8] == 32 then [] else [46] + WithoutBlanks(s[8..8+TrimmedLength(s[8..11])]);
    base + ext + Zeros(12 - |base| - |ext|)
  }

  function MakeEntry(s: Slot, long: LongName): Entry {
    Entry(ShortName(s), s[11] / 16 % 2 == 1, Word(s, 28) + 65536 * Word(s, 30),
          Word(s, 26) + 65536 * Word(s, 20), long, s[11])
  }

  /**
    The entries a run of slots stands for: every slot before the end mark that is
    neither deleted nor part of a long name, in order, each with the long name
    gathered since the entry before it.
   */
  function Listing(slots: seq<Slot>, long: LongName): seq<Entry>
    decreases |slots|
  {
    if slots == [] || IsEnd(slots[0]) then []
    else if IsDeleted(slots[0]) then Listing(slots[1..], long)
    else if IsLongName(slots[0]) then Listing(slots[1..], Gather(long, slots[0]))
    else [MakeEntry(slots[0], long)] + Listing(slots[1..], Blank())
  }

  lemma ListingStep(slots: seq<Slot>, p: nat, long: LongName)
    requires p < |slots|
    ensures var s := slots[p];
            Listing(slots[p..], long) ==
            if IsEnd(s) then []
            else if IsDeleted(s) then Listing(slots[p+1..], long)
            else if IsLongName(s) then Listing(slots[p+1..], Gather(long, s))
            else [MakeEntry(s, long)] + Listing(slots[p+1..], Blank())
  {
    assert slots[p..][1..] == slots[p+1..];
  }

  /** The same entries, except possibly for the long name of the first. */
  predicate SameUpToFirstName(a: seq<Entry>, b: seq<Entry>) {
    && |a| == |b|
    && (a != [] ==> a[1..] == b[1..] && a[0].(longName := Blank()) == b[0].(longName := Blank()))
  }

  /** What was gathered so far only matters for the name of the next entry. */
  lemma {:induction false} NameOnlyMattersFirst(slots: seq<Slot>, long: LongName, long': LongName)
    ensures SameUpToFirstName(Listing(slots, long), Listing(slots, long'))
    decreases |slots|
  {
    if slots != [] && !IsEnd(slots[0]) {
      if IsDeleted(slots[0]) {
        NameOnlyMattersFirst(slots[1..], long, long');
      } else if IsLongName(slots[0]) {
        NameOnlyMattersFirst(slots[1..], Gather(long, slots[0]), Gather(long', slots[0]));
      }
    }
  }

  /** Sequence numbers of the long-name slots in front of the next entry. */
  function NextNumbers(slots: seq<Slot>): set<nat> {
    if slots == [] || IsEnd(slots[0]) then {}
    else if IsDeleted(slots[0]) then NextNumbers(slots[1..])
    else if IsLongName(slots[0]) then {slots[0][0] % 32} + NextNumbers(slots[1..])
    else {}
  }

  lemma GatherAt(long: LongName, s: Slot, k: nat)
    requires k < 260
    ensures Gather(long, s)[k] == if k / 13 + 1 == s[0] % 32 then Characters(s)[k % 13] else long[k]
  {
    var n := s[0] % 32;
    assert k == 13 * (k / 13) + k % 13;
    if 1 <= n <= 20 {
      var pre, post := long[..13*(n-1)], long[13*n..];
      assert |pre| == 13 * (n - 1);
      if k / 13 + 1 < n {
        assert k < |pre|;
      } else if k / 13 + 1 > n {
        assert k >= 13 * n && post[k - 13*n] == long[k];
      }
    }
  }

  /** Position k is the same in both names, or still to be filled in. */
  ghost predicate NoLossAt(a: LongName, b: LongName, numbers: set<nat>, k: nat)
    requires k < 260
  {
    a[k] == b[k] || k / 13 + 1 in numbers
  }

  ghost predicate NoLoss(a: LongName, b: LongName, numbers: set<nat>) {
    forall k :: 0 <= k < 260 ==> NoLossAt(a, b, numbers, k)
  }

  lemma GatherLoss(a: LongName, b: LongName, s: Slot, numbers: set<nat>)
    ensures NoLoss(Gather(a, s), Gather(b, s), numbers) <==> NoLoss(a, b, {s[0] % 32} + numbers)
  {
    hide Gather;
    forall k | 0 <= k < 260
      ensures NoLossAt(Gather(a, s), Gather(b, s), numbers, k) <==> NoLossAt(a, b, {s[0] % 32} + numbers, k)
    {
      GatherAt(a, s, k);
      GatherAt(b, s, k);
    }
  }

  /**
    Two gathered names give the same listing exactly when there is no entry left,
    or they agree wherever the slots in front of the next entry do not write.
   */
  lemma {:induction false} NameLostIff(slots: seq<Slot>, a: LongName, b: LongName)
    ensures Listing(slots, a) == Listing(slots, b) <==> Listing(slots, a) == [] || NoLoss(a, b, NextNumbers(slots))
    decreases |slots|
  {
    hide Gather, NoLoss;
    if slots != [] && !IsEnd(slots[0]) {
      var s, rest := slots[0], slots[1..];
      if IsDeleted(s) {
        NameLostIff(rest, a, b);
      } else if IsLongName(s) {
        NameLostIff(rest, Gather(a, s), Gather(b, s));
        GatherLoss(a, b, s, NextNumbers(rest));
      } else {
        NothingToCome(a, b);
        assert Listing(slots, a)[0] == MakeEntry(s, a) && Listing(slots, b)[0] == MakeEntry(s, b);
      }
    }
  }

  lemma NothingToCome(a: LongName, b: LongName)
    ensures NoLoss(a, b, {}) <==> a == b
  {
    if NoLoss(a, b, {}) {
      forall k | 0 <= k < 260 ensures a[k] == b[k] {
        assert NoLossAt(a, b, {}, k);
      }
    }
  }

  /** A long-name slot for "A" and the entry it belongs to. */
  function LongSlot(): Slot {
    [0x41, 0x41, 0] + Zeros(8) + [0x0f] + Zeros(20)
  }

  function ShortSlot(): Slot {
    [0x41] + Zeros(31)
  }

  /** The name is lost when a read fails between the two slots. */
  lemma NameLostExample()
    ensures var slots := [LongSlot(), ShortSlot()];
            var gathered := Gather(Blank(), LongSlot());
            && Listing(slots, Blank()) == Listing(slots[1..], gathered) == [MakeEntry(ShortSlot(), gathered)]
            && gathered[0] == 0x41 && Listing(slots[1..], Blank()) == [MakeEntry(ShortSlot(), Blank())]
            && Listing(slots[1..], Blank()) != Listing(slots, Blank())
  {
    hide LongSlot, ShortSlot, Gather, MakeEntry, Blank, Characters;
    var long, short := LongSlot(), ShortSlot();
    var slots, gathered := [long, short], Gather(Blank(), long);
    ExampleSlots();
    GatherAt(Blank(), long, 0);
    BlankIsZero();
    assert slots[1..] == [short] && [short][1..] == [];
    assert forall name: LongName :: Listing([], name) == [];
    assert forall name: LongName :: Listing([short], name) == [MakeEntry(short, name)] + Listing([short][1..], Blank());
    MadeWith(short, gathered);
    MadeWith(short, Blank());
  }

  lemma ExampleSlots()
    ensures var long, short := LongSlot(), ShortSlot();
            && long[0] == 0x41 && long[11] == 0x0f && Characters(long)[0] == 0x41
            && short[0] == 0x41 && short[11] == 0
  {
    assert LongSlot()[1] == 0x41 && LongSlot()[2] == 0;
  }

  lemma BlankIsZero()
    ensures Blank()[0] == 0
  {
  }

  lemma MadeWith(s: Slot, long: LongName)
    ensures MakeEntry(s, long).longName == long
  {
  }

  lemma {:induction false} AtFirstBad(slots: seq<Slot>, p: nat)
    requires p < |slots| && p <= FirstBad(slots) && forall j :: 0 <= j < p ==> !IsEnd(slots[j])
    ensures IsBad(slots[p]) <==> FirstBad(slots) == p
    ensures IsEnd(slots[p]) ==> FirstBad(slots) == |slots|
  {
    if p > 0 {
      assert forall j :: 0 <= j < |slots[1..]| ==> slots[1..][j] == slots[j+1];
      AtFirstBad(slots[1..], p - 1);
    }
  }

  /** The slots the reader gets to: all, or those in front of the first bad one. */
  function Readable(slots: seq<Slot>): seq<Slot> {
    slots[..FirstBad(slots)]
  }

  // ---------------------------------------------------------------------------
  // Where the slots are
  // ---------------------------------------------------------------------------

  datatype Place = Clustered(first: nat) | Fixed(sector: nat)

  /** The j-th sector of a directory. */
  function StreamSector(v: Volume, place: Place, j: nat): Option<Sector>
    requires v.sectorsPerCluster >= 1
  {
    match place
    case Clustered(c0) => ChainSector(v, c0, j)
    case Fixed(s0) => SectorAt(v, s0 + j)
  }

  ghost predicate SlotMatches(v: Volume, place: Place, slots: seq<Slot>, j: nat, i: nat)
    requires v.sectorsPerCluster >= 1
  {
    i < 16 && 16 * j + i < |slots| ==>
      && StreamSector(v, place, j).Some?
      && SlotOf(StreamSector(v, place, j).value, i) == slots[16*j+i]
  }

  ghost predicate HasEnd(slots: seq<Slot>) {
    exists n :: 0 <= n < |slots| && IsEnd(slots[n])
  }

  /** The chain ends after exactly `clusters` clusters. */
  ghost predicate ChainEndsAt(v: Volume, c0: nat, clusters: nat) {
    && clusters >= 1
    && Nth(v, c0, clusters - 1).Some?
    && InOneSector(v.fatType, Nth(v, c0, clusters - 1).value)
    && NextCluster(v, Nth(v, c0, clusters - 1).value) == Err(EndOfFile)
  }

  ghost predicate EndsWithChain(v: Volume, place: Place, slots: seq<Slot>) {
    place.Clustered? && exists n: nat :: ChainEndsAt(v, place.first, n) && |slots| == 16 * Start(v.sectorsPerCluster, n)
  }

  /** The directory consists of these slots: up to an end mark, or to the end of its chain. */
  ghost predicate HoldsSlots(v: Volume, place: Place, slots: seq<Slot>) {
    && v.sectorsPerCluster >= 1
    && (place.Clustered? ==> ChainOk(v, place.first))
    && (forall j: nat, i: nat {:trigger SlotMatches(v, place, slots, j, i)} :: SlotMatches(v, place, slots, j, i))
    && (HasEnd(slots) || EndsWithChain(v, place, slots))
  }

  ghost predicate NoEndBefore(slots: seq<Slot>, p: nat) {
    p <= |slots| && forall n :: 0 <= n < p ==> !IsEnd(slots[n])
  }

  lemma {:induction false} StartGrows(spc: nat, a: nat, b: nat)
    requires a < b && spc >= 1
    ensures Start(spc, a) < Start(spc, b)
    decreases b
  {
    if a < b - 1 {
      StartGrows(spc, a, b - 1);
    }
  }

  lemma ChainEndHasNoSector(v: Volume, c0: nat, n: nat)
    requires v.sectorsPerCluster >= 1 && ChainEndsAt(v, c0, n)
    ensures Nth(v, c0, n) == None && ChainSector(v, c0, Start(v.sectorsPerCluster, n)) == None
  {
    hide NextCluster, InOneSector, SectorAt;
    Located(v.sectorsPerCluster, n, 0);
    assert Nth(v, c0, n) == Successor(v, Nth(v, c0, n - 1).value);
    assert Holder(v, c0, Start(v.sectorsPerCluster, n)) == None;
  }

  /** As long as no end mark has been passed, a readable sector holds further slots. */
  lemma MoreSlots(v: Volume, place: Place, slots: seq<Slot>, j: nat, i: nat)
    requires HoldsSlots(v, place, slots) && NoEndBefore(slots, 16 * j + i) && i < 16
    requires StreamSector(v, place, j).Some?
    ensures 16 * j + i < |slots|
  {
    hide NextCluster, SectorAt;
    if 16 * j + i == |slots| {
      assert !HasEnd(slots);
      var n: nat :| ChainEndsAt(v, place.first, n) && |slots| == 16 * Start(v.sectorsPerCluster, n);
      ChainEndHasNoSector(v, place.first, n);
      assert false;
    }
  }

  /** A cursor that cannot go on stands behind the last slot, and the chain has ended. */
  lemma NoMoreSlots(v: Volume, c0: nat, slots: seq<Slot>, index: nat)
    requires HoldsSlots(v, Clustered(c0), slots) && NoEndBefore(slots, 16 * Start(v.sectorsPerCluster, index + 1))
    requires Nth(v, c0, index).Some? && InOneSector(v.fatType, Nth(v, c0, index).value) && Nth(v, c0, index + 1) == None
    ensures |slots| == 16 * Start(v.sectorsPerCluster, index + 1)
    ensures NextCluster(v, Nth(v, c0, index).value) == Err(EndOfFile)
  {
    hide NextCluster, SectorAt;
    var spc := v.sectorsPerCluster;
    var j := Start(spc, index + 1);
    Located(spc, index + 1, 0);
    assert SlotMatches(v, Clustered(c0), slots, j, 0);
    assert |slots| == 16 * j && !HasEnd(slots);
    var n: nat :| ChainEndsAt(v, c0, n) && |slots| == 16 * Start(spc, n);
    if n < index + 1 {
      StartGrows(spc, n, index + 1);
    } else if index + 1 < n {
      StartGrows(spc, index + 1, n);
    }
  }

  // ---------------------------------------------------------------------------
  // The iterator
  // ---------------------------------------------------------------------------

  datatype Scan = Found(entry: Entry) | AtEnd | Stopped | Exhausted(long: LongName)

  class Directory {
    const volume: Volume
    const device: Device
    const clusterStart: Option<nat>
    var cluster: Option<nat>
    var sector: nat
    var offset: nat
    ghost const place: Place
    ghost const slots: seq<Slot>  // what the directory holds
    ghost var index: nat  // which cluster of the chain is active
    ghost var at: nat     // which sector of the directory is next

    ghost predicate CursorOk()
      reads this
    {
      match place
      case Clustered(c0) =>
        && clusterStart == Some(c0) && cluster.Some?
        && Nth(volume, c0, index) == cluster
        && sector <= volume.sectorsPerCluster
        && (sector == volume.sectorsPerCluster ==> offset == 0)
        && at == Start(volume.sectorsPerCluster, index) + sector
      case Fixed(s0) =>
        clusterStart == None && cluster == None && sector == s0 + at
    }

    /** The cursor stands on a slot of the directory, with no end mark before it. */
    ghost predicate Valid()
      reads this
    {
      && HoldsSlots(volume, place, slots)
      && CursorOk()
      && offset <= 16
      && NoEndBefore(slots, 16 * at + offset)
      && 16 * at + offset <= FirstBad(slots)
    }

    ghost function Position(): nat
      reads this
    {
      16 * at + offset
    }

    /** The entries still to come, when this long name has been gathered for the first of them. */
    ghost function RestWith(long: LongName): seq<Entry>
      reads this
      requires Valid()
    {
      Listing(Readable(slots)[Position()..], long)
    }

    /** The entries still to come. */
    ghost function Rest(): seq<Entry>
      reads this
      requires Valid()
    {
      RestWith(Blank())
    }

    /** The fields of a directory in a fixed run of sectors, before anything was read. */
    ghost predicate IsRunFrom(start: nat)
      reads this
    {
      clusterStart == None && cluster == None && sector == start && offset == 0
    }

    constructor OfCluster(volume: Volume, device: Device, cluster: nat, ghost slots: seq<Slot>)
      requires HoldsSlots(volume, Clustered(cluster), slots)
      ensures Valid() && Position() == 0 && place == Clustered(cluster)
      ensures this.volume == volume && this.device == device && this.slots == slots
    {
      this.volume := volume;
      this.device := device;
      clusterStart := Some(cluster);
      this.cluster := Some(cluster);
      sector := 0;
      offset := 0;
      place := Clustered(cluster);
      this.slots := slots;
      index := 0;
      at := 0;
    }

    constructor OfRun(volume: Volume, device: Device, start: nat, ghost slots: seq<Slot>)
      requires HoldsSlots(volume, Fixed(start), slots)
      ensures Valid() && Position() == 0 && place == Fixed(start) && IsRunFrom(start)
      ensures this.volume == volume && this.device == device && this.slots == slots
    {
      this.volume := volume;
      this.device := device;
      clusterStart := None;
      this.cluster := None;
      sector := start;
      offset := 0;
      place := Fixed(start);
      this.slots := slots;
      index := 0;
      at := 0;
    }

    lemma ActiveCluster()
      requires Valid() && place.Clustered?
      ensures cluster.Some? && cluster.value >= 2 && InOneSector(volume.fatType, cluster.value)
      ensures Nth(volume, place.first, index) == cluster && clusterStart == Some(place.first)
      ensures Nth(volume, place.first, index + 1) == Successor(volume, cluster.value)
      ensures volume.sectorsPerCluster >= 1
    {
      assert ClusterOk(volume, place.first, index);
    }

    lemma ActiveSector()
      requires Valid() && place.Clustered? && sector < volume.sectorsPerCluster
      ensures cluster.Some? && cluster.value >= 2 && volume.sectorsPerCluster >= 1
      ensures SectorAt(volume, sector + FirstSectorOfCluster(volume, cluster.value)) == StreamSector(volume, place, at)
    {
      hide HoldsSlots, NoEndBefore, SectorAt, NextCluster;
      ActiveCluster();
      Located(volume.sectorsPerCluster, index, sector);
    }

    /** At the end of a cluster, moves to the start of the next one. */
    method EnterNextCluster() returns (r: IoResult<()>)
      requires Valid() && place.Clustered? && sector == volume.sectorsPerCluster
      modifies this, device
      ensures Valid() && Position() == old(Position()) && at == old(at) && device.Ran()
      ensures r.Ok? ==> sector == 0
      ensures r.Err? ==> r == Err(EndOfFile) || r == Err(BlockError)
      ensures r == Err(BlockError) <==> device.failures > old(device.failures)
      ensures r == Err(EndOfFile) ==> Position() == |slots|
      ensures r == Err(EndOfFile) <==>
                device.failures == old(device.failures) && Nth(volume, place.first, old(index) + 1) == None
    {
      hide HoldsSlots, NoEndBefore, NextCluster, NextClusterPast, FirstBad;
      ActiveCluster();
      var behind: byte := *;
      var next := FollowChain(volume, device, cluster.value, behind);
      match next {
        case Ok(c) =>
          cluster := Some(c);
          sector := 0;
          offset := 0;
          index := index + 1;
          return Ok(());
        case Err(e) =>
          if device.failures == old(device.failures) {
            NoMoreSlots(volume, place.first, slots, index);
          }
          return Err(e);
      }
    }

    /** The sector to read next. */
    method GetSector() returns (r: IoResult<nat>)
      requires Valid()
      modifies this, device
      ensures Valid() && Position() == old(Position()) && at == old(at) && device.Ran()
      ensures r.Ok? ==> SectorAt(volume, r.value) == StreamSector(volume, place, at)
      ensures r.Ok? && place.Clustered? ==> sector < volume.sectorsPerCluster
      ensures r.Err? ==> r == Err(EndOfFile) || r == Err(BlockError)
      ensures r == Err(BlockError) <==> device.failures > old(device.failures)
      ensures r == Err(EndOfFile) ==> Position() == |slots|
      ensures r == Err(EndOfFile) <==>
                && device.failures == old(device.failures) && place.Clustered?
                && old(sector) == volume.sectorsPerCluster && Nth(volume, place.first, old(index) + 1) == None
    {
      hide HoldsSlots, NoEndBefore, SectorAt, NextCluster, FirstBad;
      if cluster.None? {
        return Ok(sector);
      }
      ActiveCluster();
      if sector >= volume.sectorsPerCluster {
        var entered := EnterNextCluster();
        if entered.Err? {
          return Err(entered.error);
        }
      }
      ActiveSector();
      return Ok(sector + FirstSectorOfCluster(volume, cluster.value));
    }

    lemma PositionInRange()
      requires Valid()
      ensures Position() <= |slots|
    {
    }

    lemma SectorExists()
      requires Valid() && (place.Clustered? ==> sector < volume.sectorsPerCluster)
      ensures StreamSector(volume, place, at).Some?
    {
      hide NextCluster, SectorAt;
      if StreamSector(volume, place, at) == None {
        assert SlotMatches(volume, place, slots, at, 0);
        assert !HasEnd(slots);
        var spc := volume.sectorsPerCluster;
        var n: nat :| ChainEndsAt(volume, place.first, n) && |slots| == 16 * Start(spc, n);
        ChainEndHasNoSector(volume, place.first, n);
        Located(spc, n, 0);
        Located(spc, index, sector);
        assert false;
      }
    }

    lemma SlotUnderCursor(data: Sector, i: nat)
      requires HoldsSlots(volume, place, slots) && StreamSector(volume, place, at) == Some(data)
      requires i < 16 && NoEndBefore(slots, 16 * at + i)
      ensures 16 * at + i < |slots| && SlotOf(data, i) == slots[16*at+i]
      ensures !IsEnd(slots[16*at+i]) ==> NoEndBefore(slots, 16 * at + i + 1)
    {
      MoreSlots(volume, place, slots, at, i);
      assert SlotMatches(volume, place, slots, at, i);
    }

    /** Looks through the rest of a sector for an entry, gathering long names on the way. */
    method ScanSector(data: Sector, long: LongName) returns (r: Scan)
      requires Valid() && StreamSector(volume, place, at) == Some(data)
      requires place.Clustered? ==> sector < volume.sectorsPerCluster
      modifies this`offset
      ensures Valid()
      ensures match r
              case Found(e) =>
                old(RestWith(long)) == [e] + Rest()
              case AtEnd =>
                offset == old(offset) && old(RestWith(long)) == [] && FirstBad(slots) == |slots|
              case Stopped =>
                offset == old(offset) && old(RestWith(long)) == [] && FirstBad(slots) < |slots|
              case Exhausted(long') =>
                && offset == old(offset)
                && NoEndBefore(slots, 16 * (at + 1)) && 16 * (at + 1) <= FirstBad(slots)
                && old(RestWith(long)) == Listing(Readable(slots)[16*(at+1)..], long')
    {
      hide HoldsSlots, Listing, IsEnd, IsDeleted, IsLongName, IsBad, Gather, MakeEntry, SlotOf, FirstBad;
      PositionInRange();
      var gathered := long;
      ghost var p, good := Position(), Readable(slots);
      for i := offset to 16
        invariant p <= 16 * at + i && NoEndBefore(slots, 16 * at + i) && 16 * at + i <= |good|
        invariant offset == old(offset) && Valid()
        invariant Listing(good[p..], long) == Listing(good[16*at+i..], gathered)
      {
        ghost var q := 16 * at + i;
        SlotUnderCursor(data, i);
        AtFirstBad(slots, q);
        var s := SlotOf(data, i);
        BadIsLongName(s);
        if q < |good| {
          ListingStep(good, q, gathered);
        } else {
          ListingOfNothing(good, gathered);
        }
        if IsEnd(s) {
          return AtEnd;
        }
        if IsDeleted(s) {
          continue;
        }
        if IsLongName(s) {
          if !(1 <= s[0] % 32 <= 20) {
            return Stopped;
          }
          gathered := Gather(gathered, s);
          continue;
        }
        offset := i + 1;
        return Found(MakeEntry(s, gathered));
      }
      return Exhausted(gathered);
    }

    /** Moves to the first slot of the next sector. */
    method NextSector()
      requires Valid() && (place.Clustered? ==> sector < volume.sectorsPerCluster)
      requires NoEndBefore(slots, 16 * (at + 1)) && 16 * (at + 1) <= FirstBad(slots)
      modifies this`sector, this`offset, this`at
      ensures Valid() && at == old(at) + 1 && offset == 0
    {
      sector := sector + 1;
      offset := 0;
      at := at + 1;
    }

    /** Reads the sector under the cursor; it exists, so only a failing device prevents it. */
    method ReadCurrent() returns (r: IoResult<Sector>)
      requires Valid()
      modifies this, device
      ensures Valid() && Position() == old(Position()) && at == old(at) && device.Ran()
      ensures r.Ok? ==> StreamSector(volume, place, at) == Some(r.value)
      ensures r.Ok? && place.Clustered? ==> sector < volume.sectorsPerCluster
      ensures r == Err(EndOfFile) ==> Position() == |slots|
      ensures r.Err? ==> r == Err(EndOfFile) || r == Err(BlockError)
      ensures r == Err(BlockError) <==> device.failures > old(device.failures)
    {
      hide HoldsSlots, NoEndBefore, SectorAt;
      var s := GetSector();
      if s.Err? {
        return Err(s.error);
      }
      SectorExists();
      var data := ReadSector(volume, device, s.value);
      if data == None {
        return Err(BlockError);
      }
      return Ok(data.value);
    }

    /**
      Returns the next entry of the listing and moves behind it. The end of the
      listing is reported for ever after; a bad slot there stops the program. A
      failing device loses no entry; of the next one it loses what has been
      gathered of its long name.
     */
    method NextEntry() returns (r: IoResult<Entry>, ghost gathered: LongName)
      requires Valid()
      modifies this, device
      ensures Valid() && device.Ran()
      ensures r == Err(BlockError) <==> device.failures > old(device.failures)
      ensures device.failures == old(device.failures) ==>
                match r
                case Ok(e) => old(Rest()) == [e] + Rest()
                case Err(e) =>
                  old(Rest()) == [] && Rest() == [] && e == if FirstBad(slots) < |slots| then Panicked else EndOfFile
      ensures r == Err(BlockError) ==>
                old(Rest()) == RestWith(gathered) && SameUpToFirstName(Rest(), old(Rest()))
    {
      hide HoldsSlots, NoEndBefore, Listing, CursorOk, FirstBad;
      PositionInRange();
      var long := Blank();
      gathered := long;
      ghost var whole := Rest();
      while true
        invariant Valid() && device.Ran() && device.failures == old(device.failures) && Position() <= |slots|
        invariant RestWith(long) == whole && gathered == long
        decreases |slots| + 16 - 16 * at
      {
        NameOnlyMattersFirst(Readable(slots)[Position()..], Blank(), long);
        var data := ReadCurrent();
        if data.Err? {
          if data == Err(EndOfFile) {
            ListingOfNothing(Readable(slots), long);
          }
          return Err(data.error), long;
        }
        var scan := ScanSector(data.value, long);
        match scan {
          case Found(e) =>
            return Ok(e), long;
          case AtEnd =>
            return Err(EndOfFile), long;
          case Stopped =>
            return Err(Panicked), long;
          case Exhausted(long') =>
            long := long';
            gathered := long;
            NextSector();
            PositionInRange();
        }
      }
    }

    /** Back to the first slot, except that a fixed run is taken to start at sector 0. */
    method Reset()
      requires Valid()
      modifies this
      ensures sector == 0 && offset == 0 && cluster == clusterStart
      ensures place.Fixed? ==> IsRunFrom(0)
      ensures place.Clustered? || place == Fixed(0) ==> Valid() && Position() == 0
      ensures place.Fixed? && place != Fixed(0) ==> !Valid()
    {
      cluster := clusterStart;
      offset := 0;
      sector := 0;
      index := 0;
      at := 0;
    }
  }

  /**
    Reading until the end gives the listing, once and in order. When the device
    fails, what was read and what is left make up the listing, except that the
    long name of the next entry loses what was gathered of it.
   */
  method ReadAll(d: Directory) returns (all: seq<Entry>, last: Error, ghost gathered: LongName)
    requires d.Valid()
    modifies d, d.device
    ensures d.Valid() && d.device.Ran()
    ensures last == if d.device.failures > old(d.device.failures) then BlockError
                    else if FirstBad(d.slots) < |d.slots| then Panicked
                    else EndOfFile
    ensures last != BlockError ==> all == old(d.Rest()) && d.Rest() == []
    ensures last == BlockError ==> old(d.Rest()) == all + d.RestWith(gathered)
  {
    hide Listing, Directory.Valid;
    all := [];
    while true
      invariant d.Valid() && d.device.Ran() && d.device.failures == old(d.device.failures)
      invariant old(d.Rest()) == all + d.Rest()
      decreases |d.Rest()|
    {
      var next;
      next, gathered := d.NextEntry();
      if next.Err? {
        last := next.error;
        return;
      }
      all := all + [next.value];
    }
  }

  lemma BadIsLongName(s: Slot)
    ensures IsBad(s) <==> !IsEnd(s) && !IsDeleted(s) && IsLongName(s) && !(1 <= s[0] % 32 <= 20)
  {
  }

  lemma ListingOfNothing(slots: seq<Slot>, long: LongName)
    ensures Listing(slots[|slots|..], long) == []
  {
  }
}

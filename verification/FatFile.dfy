/**
  Files: a cursor that follows a cluster chain sector by sector, and reading a
  file into a buffer through it.
 */
module FatFile {
  import opened Common
  import opened Arithmetic
  import opened FatVolume

  // ---------------------------------------------------------------------------
  // Cluster chains
  // ---------------------------------------------------------------------------

  function Successor(v: Volume, cluster: nat): Option<nat> {
    if InOneSector(v.fatType, cluster) && NextCluster(v, cluster).Ok? then Some(NextCluster(v, cluster).value) else None
  }

  /** The k-th cluster of the chain that starts at c0, if the chain is that long. */
  function Nth(v: Volume, c0: nat, k: nat): Option<nat> {
    if k == 0 then Some(c0)
    else match Nth(v, c0, k - 1)
         case None => None
         case Some(c) => Successor(v, c)
  }

  predicate ClusterOk(v: Volume, c0: nat, k: nat) {
    Nth(v, c0, k).Some? ==> Nth(v, c0, k).value >= 2 && InOneSector(v.fatType, Nth(v, c0, k).value)
  }

  /** The clusters of a chain are data clusters whose table entries can be read. */
  ghost predicate ChainOk(v: Volume, c0: nat) {
    && v.sectorsPerCluster >= 1
    && forall k: nat {:trigger ClusterOk(v, c0, k)} :: ClusterOk(v, c0, k)
  }

  function FirstSectorOfCluster(v: Volume, cluster: nat): nat
    requires cluster >= 2
  {
    (cluster - 2) * v.sectorsPerCluster + v.firstDataSector
  }

  // Multiplying and dividing by the cluster size, by counting

  /** The number of sectors in front of cluster number `index`. */
  function Start(spc: nat, index: nat): nat {
    if index == 0 then 0 else Start(spc, index - 1) + spc
  }

  function ClusterOf(spc: nat, j: nat): nat
    requires spc >= 1
    decreases j
  {
    if j < spc then 0 else 1 + ClusterOf(spc, j - spc)
  }

  function OffsetIn(spc: nat, j: nat): (offset: nat)
    requires spc >= 1
    ensures offset < spc
    decreases j
  {
    if j < spc then j else OffsetIn(spc, j - spc)
  }

  lemma {:induction false} StartIsProduct(spc: nat, index: nat)
    ensures Start(spc, index) == index * spc
  {
    if index > 0 {
      StartIsProduct(spc, index - 1);
      assert index * spc == (index - 1) * spc + spc;
    }
  }

  lemma {:induction false} CountingIsDivision(spc: nat, j: nat)
    requires spc >= 1
    ensures ClusterOf(spc, j) == j / spc && OffsetIn(spc, j) == j % spc
    decreases j
  {
    if j >= spc {
      CountingIsDivision(spc, j - spc);
      var q, r := (j - spc) / spc, (j - spc) % spc;
      assert j == (q + 1) * spc + r;
      DivisionIsUnique(j, spc, q + 1, r);
    }
  }

  lemma {:induction false} Located(spc: nat, index: nat, offset: nat)
    requires offset < spc
    ensures ClusterOf(spc, Start(spc, index) + offset) == index && OffsetIn(spc, Start(spc, index) + offset) == offset
  {
    if index > 0 {
      Located(spc, index - 1, offset);
    }
  }

  lemma {:induction false} ClusterOfMonotone(spc: nat, i: nat, j: nat)
    requires spc >= 1 && i <= j
    ensures ClusterOf(spc, i) <= ClusterOf(spc, j)
    decreases i
  {
    if i >= spc {
      ClusterOfMonotone(spc, i - spc, j - spc);
    }
  }

  /** The cluster that holds sector j of the chain's data. */
  function Holder(v: Volume, c0: nat, j: nat): Option<nat>
    requires v.sectorsPerCluster >= 1
  {
    Nth(v, c0, ClusterOf(v.sectorsPerCluster, j))
  }

  /** The j-th sector of the data that the chain from c0 holds. */
  function ChainSector(v: Volume, c0: nat, j: nat): Option<Sector>
    requires v.sectorsPerCluster >= 1
  {
    match Holder(v, c0, j)
    case None => None
    case Some(c) => if c < 2 then None else SectorAt(v, FirstSectorOfCluster(v, c) + OffsetIn(v.sectorsPerCluster, j))
  }

  lemma {:induction false} NthPrefix(v: Volume, c0: nat, i: nat, k: nat)
    requires i <= k && Nth(v, c0, k).Some?
    ensures Nth(v, c0, i).Some?
    decreases k
  {
    if i < k {
      NthPrefix(v, c0, i, k - 1);
    }
  }

  lemma HolderPrefix(v: Volume, c0: nat, i: nat, j: nat)
    requires v.sectorsPerCluster >= 1 && i <= j && Holder(v, c0, j).Some?
    ensures Holder(v, c0, i).Some?
  {
    ClusterOfMonotone(v.sectorsPerCluster, i, j);
    NthPrefix(v, c0, ClusterOf(v.sectorsPerCluster, i), ClusterOf(v.sectorsPerCluster, j));
  }

  // ---------------------------------------------------------------------------
  // Positions in 32 bits
  // ---------------------------------------------------------------------------

  const U32: nat := 0x1_0000_0000

  /** How far one sector read moves the position: the bytes it yields and the position after it. */
  function Advance(position: nat, size: nat): (nat, nat)
    requires position <= size
  {
    var next := (position + 512) % U32;
    if next > size then (size - position, size) else (512, next)
  }

  function Min(a: nat, b: nat): nat {
    if a <= b then a else b
  }

  predicate AdvancesRight(position: nat, size: nat)
    requires position < size
  {
    Advance(position, size) == (Min(512, size - position), Min(position + 512, size))
  }

  /** The 32-bit sum is harmless exactly when it does not wrap. */
  lemma AdvanceExact(position: nat, size: nat)
    requires position < size < U32
    ensures AdvancesRight(position, size) <==> position + 512 < U32
  {
  }

  /** Every step through a file is right exactly when the file leaves room for one more sector below 2^32. */
  lemma FileSizeLimit(size: nat)
    requires size < U32
    ensures (forall position :: 0 <= position < size && position % 512 == 0 ==> AdvancesRight(position, size))
            <==> size <= U32 - 512
  {
    if size <= U32 - 512 {
      forall position | 0 <= position < size && position % 512 == 0 ensures AdvancesRight(position, size) {
        AdvanceExact(position, size);
      }
    } else {
      AdvanceExact(U32 - 512, size);
      assert !AdvancesRight(U32 - 512, size);
    }
  }

  function SectorsUpTo(position: nat): nat {
    (position + 511) / 512
  }

  lemma NextSector(position: nat, size: nat)
    requires position % 512 == 0 && position < size
    ensures SectorsUpTo(position) == position / 512
    ensures SectorsUpTo(Min(position + 512, size)) == position / 512 + 1
  {
  }

  // ---------------------------------------------------------------------------
  // The cursor
  // ---------------------------------------------------------------------------

  class File {
    const volume: Volume
    const device: Device
    const startCluster: nat
    const size: nat
    var activeCluster: nat
    var sectorOffset: nat
    var position: nat
    ghost var index: nat  // which cluster of the chain is active

    /** The active cluster is on the chain, and cluster and offset agree with the position. */
    ghost predicate Valid()
      reads this
    {
      && volume.sectorsPerCluster >= 1
      && size <= U32 - 512
      && (size > 0 ==> ChainOk(volume, startCluster))
      && Nth(volume, startCluster, index) == Some(activeCluster)
      && sectorOffset <= volume.sectorsPerCluster
      && Start(volume.sectorsPerCluster, index) + sectorOffset == SectorsUpTo(position)
      && position <= size
      && (position % 512 == 0 || position == size)
    }

    /** Sector j of the file's data. */
    ghost function Data(j: nat): Option<Sector>
      requires volume.sectorsPerCluster >= 1
    {
      ChainSector(volume, startCluster, j)
    }

    constructor (volume: Volume, device: Device, cluster: nat, size: nat)
      requires volume.sectorsPerCluster >= 1 && size <= U32 - 512 && (size > 0 ==> ChainOk(volume, cluster))
      ensures Valid() && position == 0
      ensures this.volume == volume && this.device == device && startCluster == cluster && this.size == size
    {
      this.volume := volume;
      this.device := device;
      startCluster := cluster;
      activeCluster := cluster;
      sectorOffset := 0;
      this.size := size;
      position := 0;
      index := 0;
    }

    /** At the end of a cluster, moves on to the next one; the position stays. */
    method EnterCluster() returns (r: IoResult<()>)
      requires Valid() && position < size
      modifies this, device
      ensures Valid() && position == old(position) && device.Ran()
      ensures r.Ok? ==> sectorOffset < volume.sectorsPerCluster && device.failures == old(device.failures)
      ensures r.Err? ==>
                || (r == Err(BlockError) && old(device.failures) < device.failures)
                || Holder(volume, startCluster, position / 512) == None
    {
      hide NextClusterPast, NextCluster, Device.Reliable;
      if sectorOffset != volume.sectorsPerCluster {
        return Ok(());
      }
      assert ClusterOk(volume, startCluster, index);
      var behind: byte := *;
      var next := FollowChain(volume, device, activeCluster, behind);
      Located(volume.sectorsPerCluster, index + 1, 0);
      NextSector(position, size);
      assert Nth(volume, startCluster, index + 1) == Successor(volume, activeCluster);
      match next {
        case Err(e) =>
          return Err(e);
        case Ok(cluster) =>
          activeCluster := cluster;
          sectorOffset := 0;
          index := index + 1;
          return Ok(());
      }
    }

    /** Moves the cursor one sector on inside its cluster. */
    method Step(next: nat)
      requires Valid() && position < size && sectorOffset < volume.sectorsPerCluster
      requires next == Min(position + 512, size)
      modifies this`sectorOffset, this`position
      ensures Valid() && position == next
    {
      NextSector(position, size);
      sectorOffset := sectorOffset + 1;
      position := next;
    }

    /** The cursor counts sectors: whole clusters, and those of the active cluster. */
    lemma CursorIsExact()
      requires Valid()
      ensures index * volume.sectorsPerCluster + sectorOffset == SectorsUpTo(position)
      ensures position < size ==> position == 512 * (index * volume.sectorsPerCluster + sectorOffset)
    {
      StartIsProduct(volume.sectorsPerCluster, index);
    }

    lemma CursorHolder()
      requires Valid() && position < size && sectorOffset < volume.sectorsPerCluster
      ensures Holder(volume, startCluster, position / 512) == Some(activeCluster) && activeCluster >= 2
      ensures OffsetIn(volume.sectorsPerCluster, position / 512) == sectorOffset
    {
      NextSector(position, size);
      Located(volume.sectorsPerCluster, index, sectorOffset);
      assert ClusterOk(volume, startCluster, index);
    }

    lemma LastHolder()
      requires Valid() && 0 < position < size
      ensures Holder(volume, startCluster, position / 512 - 1).Some?
    {
      NextSector(position, size);
      var spc := volume.sectorsPerCluster;
      if sectorOffset > 0 {
        Located(spc, index, sectorOffset - 1);
      } else {
        Located(spc, index - 1, spc - 1);
        NthPrefix(volume, startCluster, index - 1, index);
      }
    }

    /** Reads the sector under the cursor. */
    method ReadHere(data: array<byte>) returns (ok: bool)
      requires Valid() && position < size && sectorOffset < volume.sectorsPerCluster && data.Length == 512
      modifies data, device
      ensures device.Ran()
      ensures ok ==> Data(position / 512) == Some(data[..]) && device.failures == old(device.failures)
      ensures ok ==> !device.NeverWorks()
      ensures !ok && Data(position / 512).Some? ==> old(device.failures) < device.failures
    {
      CursorHolder();
      var sector := ReadSector(volume, device, FirstSectorOfCluster(volume, activeCluster) + sectorOffset);
      if sector == None {
        return false;
      }
      forall i | 0 <= i < 512 {
        data[i] := sector.value[i];
      }
      assert data[..] == sector.value;
      return true;
    }

    /** Reads the sector at the position and moves past it. */
    method Read(data: array<byte>) returns (r: IoResult<nat>)
      requires Valid() && data.Length == 512
      modifies this, data, device
      ensures Valid() && device.Ran()
      ensures old(position) >= size ==> r == Err(EndOfFile)
      ensures r.Err? ==> position == old(position)
      ensures r.Ok? ==>
                && position == Min(old(position) + 512, size)
                && r.value == Min(512, size - old(position))
                && Data(old(position) / 512) == Some(data[..])
      ensures r.Ok? || old(position) >= size ==> device.failures == old(device.failures)
      ensures r.Ok? ==> !device.NeverWorks()
      ensures r.Err? && old(position) < size && Data(old(position) / 512).Some? ==>
                r == Err(BlockError) && old(device.failures) < device.failures
    {
      if position >= size {
        return Err(EndOfFile);
      }
      var entered := EnterCluster();
      if entered.Err? {
        return Err(entered.error);
      }
      var ok := ReadHere(data);
      if !ok {
        return Err(BlockError);
      }
      AdvanceExact(position, size);
      var (count, next) := Advance(position, size);
      Step(next);
      return Ok(count);
    }

    /** Goes back to the first sector. */
    method Rewind()
      requires Valid()
      modifies this
      ensures Valid() && position == 0
    {
      position := 0;
      sectorOffset := 0;
      activeCluster := startCluster;
      index := 0;
    }

    /** Moves past a sector without reading it. */
    method Skip() returns (r: IoResult<()>)
      requires Valid() && position + 512 <= size
      modifies this, device
      ensures Valid() && device.Ran()
      ensures position == old(position) + if r.Ok? then 512 else 0
      ensures r.Ok? ==> device.failures == old(device.failures)
      ensures r.Err? ==>
                || (r == Err(BlockError) && old(device.failures) < device.failures)
                || Holder(volume, startCluster, position / 512) == None
    {
      r := EnterCluster();
      if r.Ok? {
        Step(position + 512);
      }
    }

    lemma MissingAt(i: nat, j: nat)
      requires volume.sectorsPerCluster >= 1 && i <= j
      ensures Holder(volume, startCluster, i) == None ==> Holder(volume, startCluster, j) == None
    {
      if Holder(volume, startCluster, j).Some? {
        HolderPrefix(volume, startCluster, i, j);
      }
    }

    /** Moves forward to a later sector boundary, following the chain. */
    method SkipTo(target: nat) returns (r: IoResult<()>)
      requires Valid() && position <= target < size && position % 512 == 0 && target % 512 == 0
      modifies this, device
      ensures Valid() && device.Ran()
      ensures r.Ok? ==> position == target
      ensures r.Ok? ==> device.failures == old(device.failures)
      ensures r.Err? ==>
                || (r == Err(BlockError) && old(device.failures) < device.failures)
                || (target > 0 && Holder(volume, startCluster, target / 512 - 1) == None)
    {
      hide File.Valid, Holder;
      while position != target
        invariant Valid() && device.Ran()
        invariant position <= target && position % 512 == 0 && device.failures == old(device.failures)
        decreases target - position
      {
        r := Skip();
        if r.Err? {
          MissingAt(position / 512, target / 512 - 1);
          return r;
        }
      }
      return Ok(());
    }

    /** Moves to a sector boundary inside the file, from the start again if it lies behind. */
    method Seek(target: nat) returns (r: IoResult<()>)
      requires Valid()
      modifies this, device
      ensures Valid() && device.Ran()
      ensures target % 512 != 0 ==> r == Err(InvalidOffset) && position == old(position)
      ensures target % 512 == 0 && target >= size ==> r == Err(EndOfFile) && position == old(position)
      ensures r.Ok? ==> position == target
      ensures target % 512 == 0 && target < size && device.failures == old(device.failures) ==>
                (r.Ok? <==> target == 0 || Holder(volume, startCluster, target / 512 - 1).Some?)
      ensures r.Ok? ==> device.failures == old(device.failures)
    {
      if target % 512 != 0 {
        return Err(InvalidOffset);
      }
      if target >= size {
        return Err(EndOfFile);
      }
      if target < position {
        Rewind();
      }
      r := SkipTo(target);
      if r.Ok? && target > 0 {
        LastHolder();
      }
    }
  }

  /**
    A successful seek followed by a successful read yields the sector asked for,
    whatever was done with the file before.
   */
  method ReadAt(f: File, target: nat, data: array<byte>) returns (r: IoResult<nat>)
    requires f.Valid() && data.Length == 512
    modifies f, data, f.device
    ensures f.Valid()
    ensures r.Ok? ==> target < f.size && r.value == Min(512, f.size - target) && f.Data(target / 512) == Some(data[..])
    ensures target % 512 == 0 && target < f.size && f.Data(target / 512).Some? ==>
              (r.Ok? <==> f.device.failures == old(f.device.failures))
  {
    var found := f.Seek(target);
    if target % 512 == 0 && 0 < target && f.Data(target / 512).Some? {
      HolderPrefix(f.volume, f.startCluster, target / 512 - 1, target / 512);
    }
    if found.Err? {
      return Err(found.error);
    }
    r := f.Read(data);
  }

  // ---------------------------------------------------------------------------
  // Reading into a buffer
  // ---------------------------------------------------------------------------

  datatype Status = EndOfFileStatus | DeviceError

  datatype ReadResult = Done(count: nat) | Failed(status: Status)

  /** Sector j of the chain holds the file's bytes from 512 * j on. */
  ghost predicate SectorMatches(v: Volume, c0: nat, content: seq<byte>, j: nat)
    requires v.sectorsPerCluster >= 1
  {
    512 * j < |content| ==>
      && ChainSector(v, c0, j).Some?
      && var n := Min(512, |content| - 512 * j); ChainSector(v, c0, j).value[..n] == content[512*j..512*j+n]
  }

  /** The chain is long enough, lies in the partition, and its sectors in order hold this content. */
  ghost predicate Holds(v: Volume, c0: nat, content: seq<byte>) {
    && v.sectorsPerCluster >= 1
    && forall j: nat {:trigger SectorMatches(v, c0, content, j)} :: SectorMatches(v, c0, content, j)
  }

  /** A chain holds at most one content of a given size. */
  lemma ContentIsUnique(v: Volume, c0: nat, a: seq<byte>, b: seq<byte>)
    requires Holds(v, c0, a) && Holds(v, c0, b) && |a| == |b|
    ensures a == b
  {
    forall i | 0 <= i < |a| ensures a[i] == b[i] {
      var j, k := i / 512, i % 512;
      assert SectorMatches(v, c0, a, j) && SectorMatches(v, c0, b, j);
      var n := Min(512, |a| - 512 * j);
      assert a[512*j..512*j+n][k] == b[512*j..512*j+n][k];
    }
  }

  /** Where the cursor stands after reading `len` bytes from a sector boundary. */
  function PositionAfter(position: nat, len: nat, size: nat): nat {
    Min(position + 512 * SectorsUpTo(len), size)
  }

  lemma SectorIsSlice(v: Volume, c0: nat, content: seq<byte>, position: nat, n: nat, data: Sector)
    requires Holds(v, c0, content) && position % 512 == 0 && n <= 512
    requires position < |content| && position + n <= |content|
    requires ChainSector(v, c0, position / 512) == Some(data)
    ensures data[..n] == content[position..position+n]
  {
    var j := position / 512;
    assert SectorMatches(v, c0, content, j);
    var m := Min(512, |content| - 512 * j);
    assert data[..n] == data[..m][..n] == content[512*j..512*j+m][..n];
  }

  lemma HasSector(v: Volume, c0: nat, content: seq<byte>, j: nat)
    requires Holds(v, c0, content) && 512 * j < |content|
    ensures ChainSector(v, c0, j).Some?
  {
    assert SectorMatches(v, c0, content, j);
  }

  method CopyIn(buf: array<byte>, offset: nat, data: array<byte>, n: nat)
    requires buf != data && n <= data.Length && offset + n <= buf.Length
    modifies buf
    ensures buf[..offset] == old(buf[..offset])
    ensures buf[offset..offset+n] == data[..n]
    ensures buf[offset+n..] == old(buf[offset+n..])
  {
    forall i | 0 <= i < n {
      buf[offset + i] := data[i];
    }
  }

  /** One turn: reads a sector and copies as much of it as is still wanted. */
  method ReadChunk(f: File, buf: array<byte>, offset: nat, remaining: nat, ghost content: seq<byte>)
    returns (r: IoResult<nat>)
    requires f.Valid() && Holds(f.volume, f.startCluster, content) && |content| == f.size
    requires offset + remaining == buf.Length && remaining > 0
    modifies f, buf, f.device
    ensures f.Valid() && f.device.Ran()
    ensures match r
            case Ok(n) =>
              && old(f.position) < f.size && old(f.position) % 512 == 0
              && n == Min(Min(512, f.size - old(f.position)), remaining)
              && f.position == Min(old(f.position) + 512, f.size)
              && buf[..][..offset] == old(buf[..])[..offset] && buf[..][offset+n..] == old(buf[..])[offset+n..]
              && buf[..][offset..offset+n] == content[old(f.position)..old(f.position)+n]
            case Err(e) =>
              && buf[..] == old(buf[..]) && f.position == old(f.position)
              && (e == EndOfFile <==> old(f.position) >= f.size)
              && (e != EndOfFile ==> old(f.device.failures) < f.device.failures)
    ensures r.Ok? || r == Err(EndOfFile) ==> f.device.failures == old(f.device.failures)
    ensures r.Ok? ==> !f.device.NeverWorks()
  {
    hide Device.Reliable, Holds;
    var data := new byte[512](_ => 0);
    ghost var at := f.position;
    if at < f.size {
      HasSector(f.volume, f.startCluster, content, at / 512);
    }
    var got := f.Read(data);
    if got.Err? {
      return got;
    }
    var n := if got.value > remaining then remaining else got.value;
    SectorIsSlice(f.volume, f.startCluster, content, at, n, data[..]);
    CopyIn(buf, offset, data, n);
    assert buf[..][..offset] == buf[..offset] && buf[..][offset..offset+n] == buf[offset..offset+n];
    assert buf[..][offset+n..] == buf[offset+n..];
    return Ok(n);
  }

  /** The first `offset` bytes come from the content at p, the rest are as they were. */
  ghost predicate Copied(now: seq<byte>, was: seq<byte>, content: seq<byte>, p: nat, offset: nat) {
    && |now| == |was| && offset <= |now| && p + offset <= |content|
    && now[..offset] == content[p..p+offset] && now[offset..] == was[offset..]
  }

  lemma CopiedGrows(before: seq<byte>, now: seq<byte>, was: seq<byte>, content: seq<byte>, p: nat, offset: nat, n: nat)
    requires Copied(before, was, content, p, offset)
    requires |now| == |before| && offset + n <= |now| && p + offset + n <= |content|
    requires now[..offset] == before[..offset] && now[offset+n..] == before[offset+n..]
    requires now[offset..offset+n] == content[p+offset..p+offset+n]
    ensures Copied(now, was, content, p, offset + n)
  {
    assert now[..offset+n] == now[..offset] + now[offset..offset+n];
    assert content[p..p+offset+n] == content[p..p+offset] + content[p+offset..p+offset+n];
    assert before[offset+n..] == before[offset..][n..] == was[offset..][n..] == was[offset+n..];
  }

  /** The cursor after `offset` of `len` wanted bytes have been delivered from position p. */
  ghost predicate CursorAt(position: nat, p: nat, offset: nat, len: nat, size: nat) {
    && offset <= len && p + offset <= size
    && position == PositionAfter(p, offset, size)
    && (offset < len ==> position == p + offset)
    && (offset < len ==> p + offset == size || (p % 512 == 0 && offset % 512 == 0))
  }

  lemma CursorStarts(f: File, len: nat, now: seq<byte>, content: seq<byte>)
    requires f.Valid() && |content| == f.size
    ensures CursorAt(f.position, f.position, 0, len, f.size) && Copied(now, now, content, f.position, 0)
  {
  }

  lemma CursorIsHere(position: nat, p: nat, len: nat, size: nat)
    requires CursorAt(position, p, 0, len, size) && len > 0
    ensures position == p
  {
  }

  lemma CursorMoves(position: nat, next: nat, p: nat, offset: nat, n: nat, len: nat, size: nat)
    requires CursorAt(position, p, offset, len, size) && offset < len && position < size
    requires next == Min(position + 512, size)
    requires n == Min(Min(512, size - position), len - offset)
    ensures n > 0 && p + offset + n <= size && position == p + offset && CursorAt(next, p, offset + n, len, size)
  {
    assert SectorsUpTo(offset) == offset / 512;
    assert SectorsUpTo(offset + n) == offset / 512 + 1;
  }

  lemma CursorEnds(position: nat, p: nat, offset: nat, len: nat, size: nat)
    requires CursorAt(position, p, offset, len, size) && (offset == len || position >= size)
    ensures position == PositionAfter(p, len, size) && p <= size && offset == Min(len, size - p)
  {
    if offset < len {
      assert 512 * SectorsUpTo(len) >= len;
    }
  }

  /** One turn, seen from the whole read: either more of the content has arrived or nothing has changed. */
  method ReadTurn(f: File, buf: array<byte>, offset: nat, remaining: nat,
      ghost content: seq<byte>, ghost p: nat, ghost was: seq<byte>) returns (r: IoResult<nat>)
    requires f.Valid() && Holds(f.volume, f.startCluster, content) && |content| == f.size
    requires offset + remaining == buf.Length && remaining > 0
    requires CursorAt(f.position, p, offset, buf.Length, f.size) && Copied(buf[..], was, content, p, offset)
    modifies f, buf, f.device
    ensures f.Valid() && f.device.Ran()
    ensures r.Ok? ==>
              && 0 < r.value <= remaining && f.device.failures == old(f.device.failures)
              && CursorAt(f.position, p, offset + r.value, buf.Length, f.size)
              && Copied(buf[..], was, content, p, offset + r.value)
    ensures r.Ok? ==> !f.device.NeverWorks()
    ensures r == Err(EndOfFile) <==> old(f.position) >= f.size
    ensures r.Err? ==>
              && CursorAt(f.position, p, offset, buf.Length, f.size) && Copied(buf[..], was, content, p, offset)
              && (if r == Err(EndOfFile) then f.position >= f.size && f.device.failures == old(f.device.failures)
                  else f.device.failures > old(f.device.failures))
  {
    hide CursorAt, Copied, Holds, File.Valid, Device.Reliable;
    ghost var at, before := f.position, buf[..];
    r := ReadChunk(f, buf, offset, remaining, content);
    if r.Ok? {
      CursorMoves(at, f.position, p, offset, r.value, buf.Length, f.size);
      CopiedGrows(before, buf[..], was, content, p, offset, r.value);
    }
  }

  /**
    Fills the buffer from the file. The device may fail for a while, as long as
    it works again in the end; a failed read is tried again.
    What arrives is the file's bytes from the position on, as many as fit and
    remain. The end of the file is reported exactly when nothing remained. A
    device error is reported exactly when the buffer was filled and some read
    failed on the way; reaching the end of the file hides the failure.
   */
  method ReadFile(f: File, buf: array<byte>, ghost content: seq<byte>, ghost quiet: nat) returns (r: ReadResult)
    requires f.Valid() && Holds(f.volume, f.startCluster, content) && |content| == f.size
    requires f.device.QuietFrom(quiet)
    modifies f, buf, f.device
    ensures f.Valid() && f.position == PositionAfter(old(f.position), buf.Length, f.size)
    ensures f.device.Ran()
    ensures var n := Min(buf.Length, f.size - old(f.position));
            && Copied(buf[..], old(buf[..]), content, old(f.position), n)
            && r == (if n == 0 && buf.Length > 0 then Failed(EndOfFileStatus)
                     else if n == buf.Length && f.device.failures > old(f.device.failures) then Failed(DeviceError)
                     else Done(n))
  {
    hide CursorAt, PositionAfter, Copied, Holds, File.Valid, Device.QuietFrom;
    var remaining: nat := buf.Length;
    var offset: nat := 0;
    var status: Option<Status> := None;
    ghost var p, was := f.position, buf[..];
    CursorStarts(f, buf.Length, was, content);
    while remaining > 0
      invariant offset + remaining == buf.Length
      invariant f.Valid() && f.device.Ran()
      invariant CursorAt(f.position, p, offset, buf.Length, f.size)
      invariant Copied(buf[..], was, content, p, offset)
      invariant status == if f.device.failures > old(f.device.failures) then Some(DeviceError) else None
      decreases if f.device.time < quiet then quiet - f.device.time else 0, remaining
    {
      if old(f.device.Reliable()) {
        f.device.QuietLater(old(f.device.time), f.device.time);
      }
      if quiet <= f.device.time {
        f.device.QuietLater(quiet, f.device.time);
      }
      var got := ReadTurn(f, buf, offset, remaining, content, p, was);
      match got {
        case Ok(n) =>
          remaining := remaining - n;
          offset := offset + n;
        case Err(EndOfFile) =>
          status := if offset == 0 then Some(EndOfFileStatus) else None;
          break;
        case Err(_) =>
          status := Some(DeviceError);
      }
    }
    CursorEnds(f.position, p, offset, buf.Length, f.size);
    if status.Some? {
      return Failed(status.value);
    }
    return Done(offset);
  }

  /**
    At most so many turns of the read. On a device that always fails no number of
    turns is enough: nothing arrives, and the loop is not at its end.
   */
  method ReadTurns(f: File, buf: array<byte>, turns: nat, ghost content: seq<byte>) returns (offset: nat, ended: bool)
    requires f.Valid() && Holds(f.volume, f.startCluster, content) && |content| == f.size
    modifies f, buf, f.device
    ensures f.Valid() && Copied(buf[..], old(buf[..]), content, old(f.position), offset)
    ensures CursorAt(f.position, old(f.position), offset, buf.Length, f.size)
    ensures ended ==> offset == buf.Length || f.position >= f.size
    ensures !ended ==> offset < buf.Length
    ensures f.device.NeverWorks() ==>
              offset == 0 && (ended <==> buf.Length == 0 || (turns > 0 && old(f.position) >= f.size))
  {
    hide CursorAt, Copied, Holds, File.Valid, Device.Reliable, Device.NeverWorks;
    offset, ended := 0, buf.Length == 0;
    ghost var p, was := f.position, buf[..];
    CursorStarts(f, buf.Length, was, content);
    var i := 0;
    while i < turns && !ended
      invariant i <= turns && offset <= buf.Length && (!ended ==> offset < buf.Length)
      invariant ended ==> offset == buf.Length || f.position >= f.size
      invariant f.Valid() && CursorAt(f.position, p, offset, buf.Length, f.size)
      invariant Copied(buf[..], was, content, p, offset)
      invariant f.device.NeverWorks() ==> offset == 0 && (ended <==> buf.Length == 0 || (i > 0 && p >= f.size))
      decreases turns - i, !ended
    {
      if offset == 0 {
        CursorIsHere(f.position, p, buf.Length, f.size);
      }
      var got := ReadTurn(f, buf, offset, buf.Length - offset, content, p, was);
      match got {
        case Ok(n) =>
          offset := offset + n;
          ended := offset == buf.Length;
        case Err(EndOfFile) =>
          ended := true;
        case Err(_) =>
      }
      i := i + 1;
    }
  }

  /**
    The next read goes on where this one stopped exactly when whole sectors were
    asked for or the end was reached; otherwise the tail of a sector is skipped.
   */
  lemma NextReadContinues(position: nat, len: nat, size: nat)
    requires position <= size && (position % 512 == 0 || position == size)
    ensures PositionAfter(position, len, size) == position + Min(len, size - position)
            <==> len % 512 == 0 || position + len >= size
  {
    var n := SectorsUpTo(len);
    assert len <= 512 * n < len + 512;
    assert len % 512 == 0 <==> 512 * n == len;
  }

  lemma CopiedTwice(a: seq<byte>, a0: seq<byte>, b: seq<byte>, b0: seq<byte>, content: seq<byte>, p: nat,
      n: nat, m: nat)
    requires Copied(a, a0, content, p, n) && Copied(b, b0, content, p + n, m)
    ensures a[..n] + b[..m] == content[p..p+n+m]
  {
  }

  /** Two reads deliver consecutive pieces of the file when the first is for whole sectors. */
  method ReadFileTwice(f: File, first: array<byte>, second: array<byte>, ghost content: seq<byte>)
    returns (r1: ReadResult, r2: ReadResult)
    requires f.Valid() && Holds(f.volume, f.startCluster, content) && |content| == f.size
    requires f.device.Reliable() && first != second && first.Length % 512 == 0
    modifies f, first, second, f.device
    ensures f.Valid()
    ensures var p := old(f.position);
            var n := Min(first.Length, f.size - p);
            var m := Min(second.Length, f.size - (p + n));
            && first[..n] + second[..m] == content[p..p+n+m]
            && (r1 == Done(n) || (n == 0 && r1 == Failed(EndOfFileStatus)))
            && (r2 == Done(m) || (m == 0 && r2 == Failed(EndOfFileStatus)))
  {
    hide PositionAfter, Copied, Holds;
    ghost var p, quiet := f.position, f.device.time;
    ghost var n := Min(first.Length, f.size - p);
    ghost var a0, b0 := first[..], second[..];
    NextReadContinues(p, first.Length, f.size);
    r1 := ReadFile(f, first, content, quiet);
    ghost var a := first[..];
    r2 := ReadFile(f, second, content, quiet);
    ghost var m := Min(second.Length, f.size - (p + n));
    CopiedTwice(a, a0, second[..], b0, content, p, n, m);
    assert first[..n] == a[..n] && second[..m] == second[..][..m];
  }
}

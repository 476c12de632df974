/**
  Device paths in memory, and finding the handle whose device path matches the
  longest part of a given one.
 */
module DevicePath {
  import opened Common
  import opened HandleDatabase

  const TYPE_END: nat := 0x7f
  const SUBTYPE_INSTANCE: nat := 0x01
  const SUBTYPE_ENTIRE: nat := 0xff

  // ---------------------------------------------------------------------------
  // Nodes
  // ---------------------------------------------------------------------------

  /** A node header fits at this address. */
  predicate HasHeader(mem: seq<byte>, a: nat) {
    a + 4 <= |mem|
  }

  function NodeSize(mem: seq<byte>, a: nat): nat
    requires HasHeader(mem, a)
  {
    var lo: nat, hi: nat := mem[a+2], mem[a+3];
    lo + 256 * hi
  }

  predicate IsEndEntire(mem: seq<byte>, a: nat)
    requires HasHeader(mem, a)
  {
    mem[a] == TYPE_END && mem[a+1] == SUBTYPE_ENTIRE
  }

  predicate IsEndInstance(mem: seq<byte>, a: nat)
    requires HasHeader(mem, a)
  {
    mem[a] == TYPE_END && mem[a+1] == SUBTYPE_INSTANCE
  }

  /** A path starts here: nodes of at least a header's size up to an end node of exactly that size. */
  predicate IsPath(mem: seq<byte>, a: nat)
    decreases |mem| - a
  {
    && HasHeader(mem, a)
    && NodeSize(mem, a) >= 4
    && (if IsEndEntire(mem, a) then NodeSize(mem, a) == 4
        else a + NodeSize(mem, a) <= |mem| && IsPath(mem, a + NodeSize(mem, a)))
  }

  /** Bytes in front of the final end node. */
  function BodySize(mem: seq<byte>, a: nat): (n: nat)
    requires IsPath(mem, a)
    ensures a + n + 4 <= |mem|
    decreases |mem| - a
  {
    if IsEndEntire(mem, a) then 0 else NodeSize(mem, a) + BodySize(mem, a + NodeSize(mem, a))
  }

  /** Bytes in front of the first end node, of the path or of an instance of it. */
  function InstanceSize(mem: seq<byte>, a: nat): (n: nat)
    requires IsPath(mem, a)
    ensures a + n + 4 <= |mem|
    decreases |mem| - a
  {
    if IsEndEntire(mem, a) || IsEndInstance(mem, a) then 0
    else NodeSize(mem, a) + InstanceSize(mem, a + NodeSize(mem, a))
  }

  /** Following nodes from s, without passing an end node, one gets to p. */
  predicate IsBoundary(mem: seq<byte>, s: nat, p: nat)
    requires IsPath(mem, s)
    decreases |mem| - s
  {
    || p == s
    || (!IsEndEntire(mem, s) && !IsEndInstance(mem, s) && IsBoundary(mem, s + NodeSize(mem, s), p))
  }

  /** The size of a whole path, with its end node. */
  method GetDevicePathSize(mem: seq<byte>, a: nat) returns (size: nat)
    requires IsPath(mem, a)
    ensures size == BodySize(mem, a) + 4
  {
    size := 0;
    var node := a;
    while true
      invariant node == a + size && IsPath(mem, node) && size + BodySize(mem, node) == BodySize(mem, a)
      decreases |mem| - node
    {
      var n := NodeSize(mem, node);
      size := size + n;
      if IsEndEntire(mem, node) {
        break;
      }
      node := node + n;
    }
  }

  /** Where the first instance of the path ends. */
  method FindInstanceEnd(mem: seq<byte>, a: nat) returns (end: nat)
    requires IsPath(mem, a)
    ensures end == a + InstanceSize(mem, a)
  {
    end := a;
    while !IsEndEntire(mem, end)
      invariant a <= end && IsPath(mem, end) && end + InstanceSize(mem, end) == a + InstanceSize(mem, a)
      decreases |mem| - end
    {
      if IsEndInstance(mem, end) {
        break;
      }
      end := end + NodeSize(mem, end);
    }
  }

  predicate SameBytes(mem: seq<byte>, a: nat, b: nat, size: nat) {
    a + size <= |mem| && b + size <= |mem| && mem[a..a+size] == mem[b..b+size]
  }

  method CompareDevicePath(mem: seq<byte>, a: nat, b: nat, size: nat) returns (same: bool)
    requires a + size <= |mem| && b + size <= |mem|
    ensures same == SameBytes(mem, a, b, size)
  {
    for i := 0 to size
      invariant mem[a..a+i] == mem[b..b+i]
    {
      if mem[a+i] != mem[b+i] {
        assert mem[a..a+size][i] != mem[b..b+size][i];
        return false;
      }
      assert mem[a..a+i+1] == mem[a..a+i] + [mem[a+i]] && mem[b..b+i+1] == mem[b..b+i] + [mem[b+i]];
    }
    return true;
  }

  /** A path whose bytes are a prefix of another's ends where a node of the other starts. */
  lemma {:induction false} PrefixEndsAtBoundary(mem: seq<byte>, a: nat, s: nat)
    requires IsPath(mem, a) && IsPath(mem, s)
    requires BodySize(mem, a) <= InstanceSize(mem, s) && SameBytes(mem, a, s, BodySize(mem, a))
    ensures IsBoundary(mem, s, s + BodySize(mem, a))
    decreases |mem| - a
  {
    hide NodeSize, SameBytes, IsEndEntire, IsEndInstance;
    var size := BodySize(mem, a);
    if size > 0 {
      var n := NodeSize(mem, a);
      assert !IsEndEntire(mem, a) && size == n + BodySize(mem, a + n);
      assert InstanceSize(mem, s) > 0;
      SameHeader(mem, a, s, size);
      SameTail(mem, a, s, size, n);
      PrefixEndsAtBoundary(mem, a + n, s + n);
    }
  }

  lemma SameHeader(mem: seq<byte>, a: nat, s: nat, size: nat)
    requires SameBytes(mem, a, s, size) && size >= 4
    ensures NodeSize(mem, a) == NodeSize(mem, s)
  {
    assert mem[a..a+size][2] == mem[a+2] && mem[a..a+size][3] == mem[a+3];
    assert mem[s..s+size][2] == mem[s+2] && mem[s..s+size][3] == mem[s+3];
  }

  lemma SameTail(mem: seq<byte>, a: nat, s: nat, size: nat, n: nat)
    requires SameBytes(mem, a, s, size) && n <= size
    ensures SameBytes(mem, a + n, s + n, size - n)
  {
    assert mem[a+n..a+size] == mem[a..a+size][n..];
    assert mem[s+n..s+size] == mem[s..s+size][n..];
  }

  /** The nodes in front of the final end node. */
  function Nodes(mem: seq<byte>, a: nat): seq<seq<byte>>
    requires IsPath(mem, a)
    decreases |mem| - a
  {
    if IsEndEntire(mem, a) then [] else [mem[a..a+NodeSize(mem, a)]] + Nodes(mem, a + NodeSize(mem, a))
  }

  /** The nodes in front of the first end node. */
  function InstanceNodes(mem: seq<byte>, a: nat): seq<seq<byte>>
    requires IsPath(mem, a)
    decreases |mem| - a
  {
    if IsEndEntire(mem, a) || IsEndInstance(mem, a) then []
    else [mem[a..a+NodeSize(mem, a)]] + InstanceNodes(mem, a + NodeSize(mem, a))
  }

  lemma SameJoin(mem: seq<byte>, a: nat, s: nat, n: nat, rest: nat)
    requires SameBytes(mem, a, s, n) && SameBytes(mem, a + n, s + n, rest)
    ensures SameBytes(mem, a, s, n + rest)
  {
    assert mem[a..a+(n+rest)] == mem[a..a+n] + mem[a+n..a+n+rest];
    assert mem[s..s+(n+rest)] == mem[s..s+n] + mem[s+n..s+n+rest];
  }

  lemma SameHead(mem: seq<byte>, a: nat, s: nat, size: nat, n: nat)
    requires SameBytes(mem, a, s, size) && n <= size
    ensures mem[a..a+n] == mem[s..s+n]
  {
    assert mem[a..a+n] == mem[a..a+size][..n] && mem[s..s+n] == mem[s..s+size][..n];
  }

  lemma {:induction false} BytePrefixGivesNodePrefix(mem: seq<byte>, a: nat, s: nat)
    requires IsPath(mem, a) && IsPath(mem, s)
    requires BodySize(mem, a) <= InstanceSize(mem, s) && SameBytes(mem, a, s, BodySize(mem, a))
    ensures Nodes(mem, a) <= InstanceNodes(mem, s)
    decreases |mem| - a
  {
    hide NodeSize, SameBytes, IsEndEntire, IsEndInstance;
    var size := BodySize(mem, a);
    if size > 0 {
      var n := NodeSize(mem, a);
      assert !IsEndEntire(mem, a) && size == n + BodySize(mem, a + n);
      SameHeader(mem, a, s, size);
      SameHead(mem, a, s, size, n);
      SameTail(mem, a, s, size, n);
      BytePrefixGivesNodePrefix(mem, a + n, s + n);
    }
  }

  lemma {:induction false} NodePrefixGivesBytePrefix(mem: seq<byte>, a: nat, s: nat)
    requires IsPath(mem, a) && IsPath(mem, s) && Nodes(mem, a) <= InstanceNodes(mem, s)
    ensures BodySize(mem, a) <= InstanceSize(mem, s) && SameBytes(mem, a, s, BodySize(mem, a))
    decreases |mem| - a
  {
    hide NodeSize, IsEndEntire, IsEndInstance;
    if Nodes(mem, a) != [] {
      var n, m := NodeSize(mem, a), NodeSize(mem, s);
      assert InstanceNodes(mem, s) != [] && InstanceNodes(mem, s)[0] == mem[s..s+m];
      assert Nodes(mem, a)[0] == mem[a..a+n] && InstanceNodes(mem, s)[0] == Nodes(mem, a)[0];
      assert |mem[a..a+n]| == n && |mem[s..s+m]| == m;
      assert Nodes(mem, a)[1..] == Nodes(mem, a + n) && InstanceNodes(mem, s)[1..] == InstanceNodes(mem, s + n);
      NodePrefixGivesBytePrefix(mem, a + n, s + n);
      SameJoin(mem, a, s, n, BodySize(mem, a + n));
    }
  }

  // ---------------------------------------------------------------------------
  // Finding the best handle
  // ---------------------------------------------------------------------------

  const DEVICE_PATH_GUID: Guid := Guid(0x0957_6e91)

  /** The device path installed on a handle. */
  function PathOf(t: Table, h: nat): Option<nat>
    requires h < |t|
  {
    match FirstOf(t[h], DEVICE_PATH_GUID)
    case None => None
    case Some(i) => Some(t[h][i].interface)
  }

  /** Every installed device path is a path in memory. */
  ghost predicate PathsOk(mem: seq<byte>, t: Table) {
    forall h :: 0 <= h < |t| && PathOf(t, h).Some? ==> IsPath(mem, PathOf(t, h).value)
  }

  /** How much of the source the device path of a handle covers, if it is a prefix of it. */
  function MatchLength(mem: seq<byte>, t: Table, h: nat, source: nat): Option<nat>
    requires h < |t| && IsPath(mem, source) && (PathOf(t, h).Some? ==> IsPath(mem, PathOf(t, h).value))
  {
    match PathOf(t, h)
    case None => None
    case Some(a) =>
      if BodySize(mem, a) <= InstanceSize(mem, source) && SameBytes(mem, a, source, BodySize(mem, a))
      then Some(BodySize(mem, a)) else None
  }

  /** Handle hs[k] matches `best` bytes, none in hs matches more, and none before it as many. */
  ghost predicate IsBest(mem: seq<byte>, t: Table, hs: seq<nat>, source: nat, k: nat, best: nat)
    requires PathsOk(mem, t) && IsPath(mem, source) && forall i :: 0 <= i < |hs| ==> hs[i] < |t|
  {
    && k < |hs| && MatchLength(mem, t, hs[k], source) == Some(best)
    && forall j :: 0 <= j < |hs| && MatchLength(mem, t, hs[j], source).Some? ==>
         var n := MatchLength(mem, t, hs[j], source).value; n <= best && (j < k ==> n < best)
  }

  ghost predicate NoMatch(mem: seq<byte>, t: Table, hs: seq<nat>, source: nat)
    requires PathsOk(mem, t) && IsPath(mem, source) && forall i :: 0 <= i < |hs| ==> hs[i] < |t|
  {
    forall j :: 0 <= j < |hs| ==> MatchLength(mem, t, hs[j], source) == None
  }

  /** Comparing bytes is comparing nodes: a handle matches exactly when its nodes are the first nodes of the source. */
  lemma MatchIsNodePrefix(mem: seq<byte>, t: Table, h: nat, source: nat)
    requires h < |t| && IsPath(mem, source) && PathOf(t, h).Some? && IsPath(mem, PathOf(t, h).value)
    ensures MatchLength(mem, t, h, source).Some? <==> Nodes(mem, PathOf(t, h).value) <= InstanceNodes(mem, source)
  {
    hide Nodes, InstanceNodes, IsPath, BodySize, InstanceSize, SameBytes;
    var a := PathOf(t, h).value;
    if MatchLength(mem, t, h, source).Some? {
      BytePrefixGivesNodePrefix(mem, a, source);
    }
    if Nodes(mem, a) <= InstanceNodes(mem, source) {
      NodePrefixGivesBytePrefix(mem, a, source);
    }
  }

  /** Matches the device path of one handle against the source. */
  method MatchHandle(mem: seq<byte>, db: Database, h: nat, source: nat, sourceSize: nat) returns (r: Option<nat>)
    requires db.Valid() && h < |db.table| && PathsOk(mem, db.table)
    requires IsPath(mem, source) && sourceSize == InstanceSize(mem, source)
    ensures r == MatchLength(mem, db.table, h, source)
  {
    var status, interface := db.HandleProtocol(Slot(h), DEVICE_PATH_GUID);
    if status != Success {
      return None;
    }
    assert PathOf(db.table, h) == Some(interface);
    var size := GetDevicePathSize(mem, interface);
    size := size - 4;
    if size > sourceSize {
      return None;
    }
    var same := CompareDevicePath(mem, interface, source, size);
    return if same then Some(size) else None;
  }

  /** The best match so far: a position in the list and a length. */
  ghost predicate BestSoFar(mem: seq<byte>, t: Table, hs: seq<nat>, source: nat, k: nat, best: Option<nat>)
    requires PathsOk(mem, t) && IsPath(mem, source) && forall i :: 0 <= i < |hs| ==> hs[i] < |t|
  {
    if best == None then NoMatch(mem, t, hs, source) else IsBest(mem, t, hs, source, k, best.value)
  }

  /** One more handle: it replaces the best one only when it matches strictly more. */
  lemma BestStep(mem: seq<byte>, t: Table, hs: seq<nat>, h: nat, source: nat, k: nat, best: Option<nat>)
    requires PathsOk(mem, t) && IsPath(mem, source) && (forall i :: 0 <= i < |hs| ==> hs[i] < |t|) && h < |t|
    requires BestSoFar(mem, t, hs, source, k, best)
    ensures var n := MatchLength(mem, t, h, source);
            if n.Some? && (best == None || n.value > best.value)
            then BestSoFar(mem, t, hs + [h], source, |hs|, n)
            else BestSoFar(mem, t, hs + [h], source, k, best)
  {
    var more := hs + [h];
    assert forall j :: 0 <= j < |hs| ==> more[j] == hs[j];
  }

  /** The loop over the buffer of handles. */
  method FindBest(mem: seq<byte>, db: Database, buffer: array<Handle>, source: nat, sourceSize: nat, ghost hs: seq<nat>)
    returns (best: Option<nat>, device: Handle, ghost k: nat)
    requires db.Valid() && PathsOk(mem, db.table)
    requires IsPath(mem, source) && sourceSize == InstanceSize(mem, source)
    requires buffer.Length == |hs| && Listed(buffer[..], hs, |hs|)
    requires forall i :: 0 <= i < |hs| ==> hs[i] < |db.table|
    ensures BestSoFar(mem, db.table, hs, source, k, best)
    ensures best.Some? ==> k < |hs| && device == Slot(hs[k])
  {
    hide BestSoFar, MatchLength, PathsOk, IsPath, InstanceSize;
    best, device, k := None, Null, 0;
    assert BestSoFar(mem, db.table, hs[..0], source, 0, None) by { NothingSoFar(mem, db.table, source); }
    for index := 0 to buffer.Length
      invariant BestSoFar(mem, db.table, hs[..index], source, k, best)
      invariant best.Some? ==> k < |hs| && device == Slot(hs[k])
    {
      assert buffer[index] == buffer[..][index] == Slot(hs[index]);
      var n := MatchHandle(mem, db, buffer[index].index, source, sourceSize);
      BestStep(mem, db.table, hs[..index], hs[index], source, k, best);
      assert hs[..index+1] == hs[..index] + [hs[index]];
      if n.Some? && (best == None || n.value > best.value) {
        best, device, k := n, buffer[index], index;
      }
    }
    assert hs[..buffer.Length] == hs;
  }

  lemma NothingSoFar(mem: seq<byte>, t: Table, source: nat)
    requires PathsOk(mem, t) && IsPath(mem, source)
    ensures BestSoFar(mem, t, [], source, 0, None)
  {
  }

  lemma BestEndsAtBoundary(mem: seq<byte>, t: Table, hs: seq<nat>, source: nat, k: nat, best: nat)
    requires PathsOk(mem, t) && IsPath(mem, source) && (forall i :: 0 <= i < |hs| ==> hs[i] < |t|)
    requires IsBest(mem, t, hs, source, k, best)
    ensures IsBoundary(mem, source, source + best) && !NoMatch(mem, t, hs, source)
  {
    PrefixEndsAtBoundary(mem, PathOf(t, hs[k]).value, source);
  }

  datatype Location = Located(device: Handle, rest: nat) | Failed(status: Status)

  /** The answer for a path: the best handle and the rest of the path, or the failure that applies. */
  ghost predicate IsLocation(mem: seq<byte>, t: Table, hs: seq<nat>, source: nat, wantDevice: bool,
      poolWorks: bool, r: Location)
    requires PathsOk(mem, t) && IsPath(mem, source) && forall i :: 0 <= i < |hs| ==> hs[i] < |t|
  {
    match r
    case Located(device, rest) =>
      && wantDevice && poolWorks && source <= rest
      && (exists k: nat :: k < |hs| && device == Slot(hs[k]) && IsBest(mem, t, hs, source, k, rest - source))
      && IsBoundary(mem, source, rest)
    case Failed(status) =>
      && (status == NotFound || status == InvalidParameter)
      && (status == NotFound <==> !poolWorks || NoMatch(mem, t, hs, source))
      && (status == InvalidParameter ==> !wantDevice)
  }

  /**
    Finds, among the handles with the given protocol, the one whose device path
    covers most of the source, the earliest created one of these; `rest` is what
    remains of the source, and starts at one of its nodes.
   */
  method LocateDevicePath(mem: seq<byte>, db: Database, protocol: Guid, devicePath: Option<nat>,
      wantDevice: bool, poolWorks: bool)
    returns (r: Location)
    requires db.Valid() && PathsOk(mem, db.table) && (devicePath.Some? ==> IsPath(mem, devicePath.value))
    ensures devicePath == None ==> r == Failed(InvalidParameter)
    ensures devicePath.Some? ==>
              IsLocation(mem, db.table, Supporting(db.table, protocol), devicePath.value, wantDevice, poolWorks, r)
  {
    hide IsBest, NoMatch, PathsOk, IsPath, InstanceSize, IsBoundary, Supporting;
    if devicePath == None {
      return Failed(InvalidParameter);
    }
    var source := devicePath.value;
    var end := FindInstanceEnd(mem, source);
    var sourceSize := end - source;
    ghost var hs := Supporting(db.table, protocol);
    var status, buffer := db.LocateHandleBuffer(protocol, poolWorks);
    if status != Success {
      if hs == [] {
        NothingSoFar(mem, db.table, source);
      }
      return Failed(NotFound);
    }
    var best, device, k := FindBest(mem, db, buffer, source, sourceSize, hs);
    if best == None {
      return Failed(NotFound);
    }
    BestEndsAtBoundary(mem, db.table, hs, source, k, best.value);
    if !wantDevice {
      return Failed(InvalidParameter);
    }
    return Located(device, source + best.value);
  }
}

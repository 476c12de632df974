/**
  The protocol handle database: a fixed table of handles, each with a fixed table
  of protocols, filled in place. It is proved to be a map from handles to maps
  from GUIDs to interfaces.
 */
module HandleDatabase {
  import opened Common

  const MAX_HANDLE_STRUCT: nat := 32
  const MAX_PROTOCOL_STRUCT: nat := 32
  const HANDLE_SIGNATURE: nat := 0x4C44_4849
  const HANDLE_SIZE: nat := 8

  datatype Guid = Guid(value: nat)

  datatype Status = Success | NotFound | InvalidParameter | OutOfResources | BufferTooSmall

  /** A pointer handed in as a handle: null, a slot of the table, or a pointer elsewhere. */
  datatype Handle = Null | Slot(index: nat) | Foreign

  datatype Protocol = Protocol(guid: Guid, interface: nat)

  // ---------------------------------------------------------------------------
  // The table as a value
  // ---------------------------------------------------------------------------

  /** For every handle in creation order, its protocol structures in order. */
  type Table = seq<seq<Protocol>>

  datatype Answer<S> = Answer(status: Status, handle: Handle, state: S)

  /** Index of the first structure with the GUID. */
  function FirstOf(ps: seq<Protocol>, guid: Guid): (r: Option<nat>)
    ensures r.Some? ==> r.value < |ps| && ps[r.value].guid == guid
    ensures r.Some? ==> forall j :: 0 <= j < r.value ==> ps[j].guid != guid
    ensures r.None? ==> forall j :: 0 <= j < |ps| ==> ps[j].guid != guid
  {
    if ps == [] then None
    else if ps[0].guid == guid then Some(0)
    else match FirstOf(ps[1..], guid)
         case None => None
         case Some(i) => Some(i + 1)
  }

  predicate Has(ps: seq<Protocol>, guid: Guid) {
    FirstOf(ps, guid).Some?
  }

  predicate IsHandle<T>(t: seq<T>, h: Handle) {
    h.Slot? && h.index < |t|
  }

  function InstallOne(t: Table, h: Handle, p: Protocol): Answer<Table> {
    if h == Null then
      if |t| >= MAX_HANDLE_STRUCT then Answer(OutOfResources, Null, t)
      else Answer(Success, Slot(|t|), t + [[p]])
    else if !IsHandle(t, h) || Has(t[h.index], p.guid) then Answer(InvalidParameter, Null, t)
    else if |t[h.index]| >= MAX_PROTOCOL_STRUCT then Answer(OutOfResources, Null, t)
    else Answer(Success, h, t[h.index := t[h.index] + [p]])
  }

  predicate AnyInstalled(ps: seq<Protocol>, pairs: seq<Protocol>) {
    exists i :: 0 <= i < |pairs| && Has(ps, pairs[i].guid)
  }

  function InstallMany(t: Table, h: Handle, pairs: seq<Protocol>): Answer<Table> {
    if h == Null then
      if |t| >= MAX_HANDLE_STRUCT then Answer(OutOfResources, Null, t)
      else Answer(Success, Slot(|t|), t + [pairs])
    else if !IsHandle(t, h) then Answer(InvalidParameter, Null, t)
    else if |t[h.index]| + |pairs| > MAX_PROTOCOL_STRUCT then Answer(OutOfResources, Null, t)
    else if AnyInstalled(t[h.index], pairs) then Answer(InvalidParameter, Null, t)
    else Answer(Success, h, t[h.index := t[h.index] + pairs])
  }

  /** The handles that support a GUID, in creation order. */
  function Supporting(t: Table, guid: Guid): (hs: seq<nat>)
    ensures |hs| <= |t|
    ensures forall i :: 0 <= i < |hs| ==> hs[i] < |t| && Has(t[hs[i]], guid)
  {
    if t == [] then []
    else
      var n := |t| - 1;
      Supporting(t[..n], guid) + if Has(t[n], guid) then [n] else []
  }

  /** Exactly the supporting handles are listed, each once, in increasing order. */
  lemma {:induction false} SupportingIsComplete(t: Table, guid: Guid)
    ensures forall h :: h in Supporting(t, guid) <==> 0 <= h < |t| && Has(t[h], guid)
    ensures forall i, j :: 0 <= i < j < |Supporting(t, guid)| ==> Supporting(t, guid)[i] < Supporting(t, guid)[j]
  {
    if t != [] {
      var n := |t| - 1;
      SupportingIsComplete(t[..n], guid);
      forall h ensures h in Supporting(t, guid) <==> 0 <= h < |t| && Has(t[h], guid) {
        assert h in Supporting(t, guid) <==> h in Supporting(t[..n], guid) || (Has(t[n], guid) && h == n);
        assert 0 <= h < n ==> t[..n][h] == t[h];
      }
    }
  }

  // ---------------------------------------------------------------------------
  // The database as a map
  // ---------------------------------------------------------------------------

  type Model = seq<map<Guid, nat>>

  function MapOf(ps: seq<Protocol>): map<Guid, nat> {
    if ps == [] then map[] else MapOf(ps[..|ps|-1])[ps[|ps|-1].guid := ps[|ps|-1].interface]
  }

  function ModelOf(t: Table): (m: Model)
    ensures |m| == |t| && forall i :: 0 <= i < |t| ==> m[i] == MapOf(t[i])
  {
    seq(|t|, i requires 0 <= i < |t| => MapOf(t[i]))
  }

  predicate Distinct(ps: seq<Protocol>) {
    forall i, j :: 0 <= i < j < |ps| ==> ps[i].guid != ps[j].guid
  }

  ghost predicate AllDistinct(t: Table) {
    forall i :: 0 <= i < |t| ==> Distinct(t[i])
  }

  function MapInstall(m: Model, h: Handle, p: Protocol): Answer<Model> {
    if h == Null then
      if |m| >= MAX_HANDLE_STRUCT then Answer(OutOfResources, Null, m)
      else Answer(Success, Slot(|m|), m + [map[p.guid := p.interface]])
    else if !IsHandle(m, h) || p.guid in m[h.index] then Answer(InvalidParameter, Null, m)
    else if |m[h.index]| >= MAX_PROTOCOL_STRUCT then Answer(OutOfResources, Null, m)
    else Answer(Success, h, m[h.index := m[h.index] + map[p.guid := p.interface]])
  }

  function MapInstallMany(m: Model, h: Handle, added: map<Guid, nat>): Answer<Model> {
    if h == Null then
      if |m| >= MAX_HANDLE_STRUCT then Answer(OutOfResources, Null, m)
      else Answer(Success, Slot(|m|), m + [added])
    else if !IsHandle(m, h) then Answer(InvalidParameter, Null, m)
    else if |m[h.index]| + |added| > MAX_PROTOCOL_STRUCT then Answer(OutOfResources, Null, m)
    else if m[h.index].Keys * added.Keys != {} then Answer(InvalidParameter, Null, m)
    else Answer(Success, h, m[h.index := m[h.index] + added])
  }

  function Abstract(a: Answer<Table>): Answer<Model> {
    Answer(a.status, a.handle, ModelOf(a.state))
  }

  /** Looking a GUID up in distinct structures is looking it up in their map. */
  lemma {:induction false} MapOfIsLookup(ps: seq<Protocol>, guid: Guid)
    requires Distinct(ps)
    ensures guid in MapOf(ps) <==> Has(ps, guid)
    ensures Has(ps, guid) ==> MapOf(ps)[guid] == ps[FirstOf(ps, guid).value].interface
    ensures |MapOf(ps)| == |ps|
  {
    if ps != [] {
      var n := |ps| - 1;
      var front := ps[..n];
      MapOfIsLookup(front, guid);
      MapOfIsLookup(front, ps[n].guid);
      if Has(front, guid) {
        assert front[FirstOf(front, guid).value].guid == guid;
      }
      assert !Has(front, ps[n].guid);
      assert MapOf(ps).Keys == MapOf(front).Keys + {ps[n].guid};
      if Has(ps, guid) {
        var k := FirstOf(ps, guid).value;
        if k < n {
          assert front[k].guid == guid;
        }
      }
    }
  }

  lemma {:induction false} MapOfConcat(a: seq<Protocol>, b: seq<Protocol>)
    ensures MapOf(a + b) == MapOf(a) + MapOf(b)
    decreases |b|
  {
    if b == [] {
      assert a + b == a;
    } else {
      var n := |b| - 1;
      assert (a + b)[..|a+b|-1] == a + b[..n];
      MapOfConcat(a, b[..n]);
    }
  }

  lemma DistinctConcat(a: seq<Protocol>, b: seq<Protocol>)
    requires Distinct(a)
    ensures Distinct(a + b) <==> Distinct(b) && !AnyInstalled(a, b)
  {
    var c := a + b;
    assert forall i :: 0 <= i < |b| ==> c[|a| + i] == b[i];
    assert forall i :: 0 <= i < |a| ==> c[i] == a[i];
    if Distinct(c) {
      forall i, j | 0 <= i < j < |b| ensures b[i].guid != b[j].guid {
        assert c[|a| + i].guid != c[|a| + j].guid;
      }
    }
    if AnyInstalled(a, b) {
      var i :| 0 <= i < |b| && Has(a, b[i].guid);
      assert c[FirstOf(a, b[i].guid).value].guid == c[|a| + i].guid;
    }
    if Distinct(b) && !AnyInstalled(a, b) {
      forall i, j | 0 <= i < j < |c| ensures c[i].guid != c[j].guid {
        if i < |a| <= j {
          assert !Has(a, b[j - |a|].guid);
        }
      }
    }
  }

  lemma MapOfOne(p: Protocol)
    ensures MapOf([p]) == map[p.guid := p.interface]
  {
    assert [p][..0] == [];
  }

  lemma AppendOne(ps: seq<Protocol>, p: Protocol)
    requires Distinct(ps)
    ensures Has(ps, p.guid) <==> p.guid in MapOf(ps)
    ensures |MapOf(ps)| == |ps|
    ensures MapOf(ps + [p]) == MapOf(ps) + map[p.guid := p.interface]
    ensures !Has(ps, p.guid) ==> Distinct(ps + [p])
  {
    MapOfIsLookup(ps, p.guid);
    MapOfConcat(ps, [p]);
    MapOfOne(p);
  }

  lemma ModelOfUpdate(t: Table, i: nat, ps: seq<Protocol>)
    requires i < |t|
    ensures ModelOf(t[i := ps]) == ModelOf(t)[i := MapOf(ps)]
    ensures AllDistinct(t) ==> (AllDistinct(t[i := ps]) <==> Distinct(ps))
  {
    assert t[i := ps][i] == ps;
    assert forall k :: 0 <= k < |t| && k != i ==> t[i := ps][k] == t[k];
  }

  lemma ModelOfAppend(t: Table, ps: seq<Protocol>)
    ensures ModelOf(t + [ps]) == ModelOf(t) + [MapOf(ps)]
    ensures AllDistinct(t) ==> (AllDistinct(t + [ps]) <==> Distinct(ps))
  {
    assert (t + [ps])[|t|] == ps;
    assert forall k :: 0 <= k < |t| ==> (t + [ps])[k] == t[k];
  }

  /** Installing on the table is installing on the map. */
  lemma InstallOneRefines(t: Table, h: Handle, p: Protocol)
    requires AllDistinct(t)
    ensures var a := InstallOne(t, h, p);
            AllDistinct(a.state) && Abstract(a) == MapInstall(ModelOf(t), h, p)
  {
    hide MapOf, Has, Distinct;
    if h == Null {
      ModelOfAppend(t, [p]);
      MapOfOne(p);
      assert Distinct([p]) by { SingleIsDistinct(p); }
    } else if IsHandle(t, h) {
      AppendOne(t[h.index], p);
      ModelOfUpdate(t, h.index, t[h.index] + [p]);
    }
  }

  lemma SingleIsDistinct(p: Protocol)
    ensures Distinct([p])
  {
  }

  lemma CommonKeys(a: seq<Protocol>, b: seq<Protocol>)
    requires Distinct(a) && Distinct(b)
    ensures AnyInstalled(a, b) <==> MapOf(a).Keys * MapOf(b).Keys != {}
  {
    if AnyInstalled(a, b) {
      var i :| 0 <= i < |b| && Has(a, b[i].guid);
      MapOfIsLookup(a, b[i].guid);
      MapOfIsLookup(b, b[i].guid);
      assert b[i].guid in MapOf(a).Keys * MapOf(b).Keys;
    }
    if MapOf(a).Keys * MapOf(b).Keys != {} {
      var g :| g in MapOf(a).Keys * MapOf(b).Keys;
      MapOfIsLookup(a, g);
      MapOfIsLookup(b, g);
      assert Has(a, b[FirstOf(b, g).value].guid);
    }
  }

  /**
    A multi-install with distinct GUIDs installs all of them or none, exactly
    as on the map. With a GUID given twice it succeeds and stores it twice.
   */
  lemma InstallManyRefines(t: Table, h: Handle, pairs: seq<Protocol>)
    requires AllDistinct(t)
    ensures var a := InstallMany(t, h, pairs);
            && (a.status != Success ==> a.state == t)
            && (a.status == Success ==> (AllDistinct(a.state) <==> Distinct(pairs)))
            && (Distinct(pairs) ==> Abstract(a) == MapInstallMany(ModelOf(t), h, MapOf(pairs)))
  {
    hide MapOf, AnyInstalled, Distinct;
    if h == Null {
      ModelOfAppend(t, pairs);
    } else if IsHandle(t, h) {
      var ps := t[h.index];
      DistinctConcat(ps, pairs);
      MapOfConcat(ps, pairs);
      ModelOfUpdate(t, h.index, ps + pairs);
      MapOfIsLookup(ps, Guid(0));
      if Distinct(pairs) {
        MapOfIsLookup(pairs, Guid(0));
        CommonKeys(ps, pairs);
      }
    }
  }

  // ---------------------------------------------------------------------------
  // Whole runs
  // ---------------------------------------------------------------------------

  datatype Call = One(h: Handle, p: Protocol) | Many(h: Handle, pairs: seq<Protocol>)

  function Serve(t: Table, c: Call): Answer<Table> {
    match c
    case One(h, p) => InstallOne(t, h, p)
    case Many(h, pairs) => InstallMany(t, h, pairs)
  }

  function ServeMap(m: Model, c: Call): Answer<Model> {
    match c
    case One(h, p) => MapInstall(m, h, p)
    case Many(h, pairs) => MapInstallMany(m, h, MapOf(pairs))
  }

  function Run(t: Table, cs: seq<Call>): Table
    decreases |cs|
  {
    if cs == [] then t else Run(Serve(t, cs[0]).state, cs[1..])
  }

  function RunMap(m: Model, cs: seq<Call>): Model
    decreases |cs|
  {
    if cs == [] then m else RunMap(ServeMap(m, cs[0]).state, cs[1..])
  }

  predicate CallOk(c: Call) {
    c.Many? ==> Distinct(c.pairs)
  }

  /**
    Every run of installs, several at a time with distinct GUIDs, is a run on the
    map; no GUID is ever on a handle twice.
   */
  lemma {:induction false} RunRefines(t: Table, cs: seq<Call>)
    requires AllDistinct(t) && forall i :: 0 <= i < |cs| ==> CallOk(cs[i])
    ensures AllDistinct(Run(t, cs)) && ModelOf(Run(t, cs)) == RunMap(ModelOf(t), cs)
    decreases |cs|
  {
    hide MapOf, Distinct, InstallOne, InstallMany, MapInstall, MapInstallMany;
    if cs != [] {
      assert CallOk(cs[0]);
      match cs[0] {
        case One(h, p) => InstallOneRefines(t, h, p);
        case Many(h, pairs) => InstallManyRefines(t, h, pairs);
      }
      RunRefines(Serve(t, cs[0]).state, cs[1..]);
    }
  }

  // ---------------------------------------------------------------------------
  // The database
  // ---------------------------------------------------------------------------

  /** A slot of the handle table with its own fixed table of structures. */
  datatype ProtocolHandle = ProtocolHandle(signature: nat, protocolCount: nat, structs: seq<Protocol>)

  const EMPTY_PROTOCOL: Protocol := Protocol(Guid(0), 0)

  /** Slot i is handle i of the table, or not a handle yet. */
  ghost predicate SlotOk(slots: seq<ProtocolHandle>, t: Table, i: nat) {
    && |t| <= |slots|
    && (i < |slots| ==>
          && |slots[i].structs| == MAX_PROTOCOL_STRUCT
          && (slots[i].signature == HANDLE_SIGNATURE <==> i < |t|))
    && (i < |t| ==> slots[i].protocolCount <= MAX_PROTOCOL_STRUCT && slots[i].structs[..slots[i].protocolCount] == t[i])
  }

  class Database {
    const handles: array<ProtocolHandle>
    var protocolHandleCount: nat
    ghost var table: Table

    ghost predicate Valid()
      reads this, handles
    {
      && handles.Length == MAX_HANDLE_STRUCT
      && protocolHandleCount == |table| <= MAX_HANDLE_STRUCT
      && forall i: nat {:trigger SlotOk(handles[..], table, i)} :: SlotOk(handles[..], table, i)
    }

    constructor ()
      ensures Valid() && table == [] && fresh(handles)
    {
      handles := new ProtocolHandle[MAX_HANDLE_STRUCT](_ => ProtocolHandle(0, 0, EmptyStructs()));
      protocolHandleCount := 0;
      table := [];
    }

    /** Whether a pointer is a handle of this database: null is not one, and the signature decides. */
    method GetHandle(h: Handle) returns (status: Status)
      requires Valid() && (h.Slot? ==> h.index < MAX_HANDLE_STRUCT)
      ensures status == if h == Null then NotFound else if IsHandle(table, h) then Success else InvalidParameter
    {
      if h == Null {
        return NotFound;
      }
      if h.Slot? {
        assert SlotOk(handles[..], table, h.index);
        if handles[h.index].signature == HANDLE_SIGNATURE {
          return Success;
        }
      }
      return InvalidParameter;
    }

    /** Index of the first structure of a handle with the GUID. */
    method GetProtocol(i: nat, guid: Guid) returns (found: Option<nat>)
      requires Valid() && i < |table|
      ensures found == FirstOf(table[i], guid)
    {
      assert SlotOk(handles[..], table, i);
      var h := handles[i];
      for k := 0 to h.protocolCount
        invariant forall j :: 0 <= j < k ==> table[i][j].guid != guid
      {
        assert table[i][k] == h.structs[k];
        if guid == h.structs[k].guid {
          return Some(k);
        }
      }
      return None;
    }

    /** Takes the next slot of the handle table. */
    method GetNewHandle() returns (status: Status)
      requires Valid()
      modifies this, handles
      ensures Valid()
      ensures |old(table)| >= MAX_HANDLE_STRUCT ==> status == OutOfResources && table == old(table)
      ensures |old(table)| < MAX_HANDLE_STRUCT ==> status == Success && table == old(table) + [[]]
    {
      if protocolHandleCount >= MAX_HANDLE_STRUCT {
        return OutOfResources;
      }
      var n := protocolHandleCount;
      assert SlotOk(handles[..], table, n);
      handles[n] := handles[n].(signature := HANDLE_SIGNATURE, protocolCount := 0);
      protocolHandleCount := n + 1;
      table := table + [[]];
      forall i: nat ensures SlotOk(handles[..], table, i) {
        assert SlotOk(old(handles[..]), old(table), i);
      }
      return Success;
    }

    /** Writes a protocol into the next free structure of a handle. */
    method AddProtocol(i: nat, p: Protocol) returns (status: Status)
      requires Valid() && i < |table|
      modifies this`table, handles
      ensures Valid()
      ensures |old(table[i])| >= MAX_PROTOCOL_STRUCT ==> status == OutOfResources && table == old(table)
      ensures |old(table[i])| < MAX_PROTOCOL_STRUCT ==>
                status == Success && table == old(table)[i := old(table[i]) + [p]]
    {
      assert SlotOk(handles[..], table, i);
      var h := handles[i];
      if h.protocolCount >= MAX_PROTOCOL_STRUCT {
        return OutOfResources;
      }
      handles[i] := h.(protocolCount := h.protocolCount + 1, structs := h.structs[h.protocolCount := p]);
      table := table[i := table[i] + [p]];
      forall k: nat ensures SlotOk(handles[..], table, k) {
        assert SlotOk(old(handles[..]), old(table), k);
        if k == i {
          assert h.structs[h.protocolCount := p][..h.protocolCount + 1] == h.structs[..h.protocolCount] + [p];
        }
      }
      return Success;
    }

    method InstallProtocol(h: Handle, p: Protocol) returns (status: Status, handle: Handle)
      requires Valid() && (h.Slot? ==> h.index < MAX_HANDLE_STRUCT)
      modifies this, handles
      ensures Valid()
      ensures Answer(status, handle, table) == InstallOne(old(table), h, p)
    {
      status := GetHandle(h);
      var cur: nat := if h.Slot? then h.index else 0;
      if status == NotFound {
        cur := protocolHandleCount;
        status := GetNewHandle();
      }
      if status != Success {
        return status, Null;
      }
      var found := GetProtocol(cur, p.guid);
      if found.Some? {
        return InvalidParameter, Null;
      }
      status := AddProtocol(cur, p);
      if status != Success {
        return status, Null;
      }
      ghost var none: seq<Protocol> := [];
      assert none + [p] == [p];
      assert h == Null ==> table == old(table) + [[p]];
      return Success, Slot(cur);
    }

    /** Whether any GUID of the pairs is on the handle already. */
    method AnyPresent(i: nat, pairs: seq<Protocol>) returns (any: bool)
      requires Valid() && i < |table|
      ensures any == AnyInstalled(table[i], pairs)
    {
      for k := 0 to |pairs|
        invariant forall j :: 0 <= j < k ==> !Has(table[i], pairs[j].guid)
      {
        var found := GetProtocol(i, pairs[k].guid);
        if found.Some? {
          return true;
        }
      }
      return false;
    }

    /** Adds all pairs to a handle that has room for them. */
    method AddAll(i: nat, pairs: seq<Protocol>)
      requires Valid() && i < |table| && |table[i]| + |pairs| <= MAX_PROTOCOL_STRUCT
      modifies this`table, handles
      ensures Valid() && table == old(table)[i := old(table[i]) + pairs]
    {
      ghost var t := table;
      assert t[i] + pairs[..0] == t[i];
      for k := 0 to |pairs|
        invariant Valid() && table == t[i := t[i] + pairs[..k]]
      {
        var status := AddProtocol(i, pairs[k]);
        assert t[i] + pairs[..k] + [pairs[k]] == t[i] + pairs[..k+1];
      }
      assert pairs[..|pairs|] == pairs;
    }

    method InstallMultipleProtocol(h: Handle, pairs: seq<Protocol>) returns (status: Status, handle: Handle)
      requires Valid() && (h.Slot? ==> h.index < MAX_HANDLE_STRUCT) && 0 < |pairs| <= 8
      modifies this, handles
      ensures Valid()
      ensures Answer(status, handle, table) == InstallMany(old(table), h, pairs)
    {
      status := GetHandle(h);
      var cur: nat := if h.Slot? then h.index else 0;
      if status == Success {
        assert SlotOk(handles[..], table, cur);
        if handles[cur].protocolCount > MAX_PROTOCOL_STRUCT - |pairs| {
          return OutOfResources, Null;
        }
        var any := AnyPresent(cur, pairs);
        if any {
          return InvalidParameter, Null;
        }
      } else if status == NotFound {
        cur := protocolHandleCount;
        status := GetNewHandle();
        if status != Success {
          return status, Null;
        }
      } else {
        return status, Null;
      }
      AddAll(cur, pairs);
      ghost var none: seq<Protocol> := [];
      assert none + pairs == pairs;
      assert h == Null ==> table == old(table) + [pairs];
      return Success, Slot(cur);
    }

    method LocateHandleCount(guid: Guid) returns (status: Status, count: nat)
      requires Valid()
      ensures count == |Supporting(table, guid)| && status == if count == 0 then NotFound else Success
    {
      count := 0;
      for i := 0 to protocolHandleCount
        invariant count == |Supporting(table[..i], guid)|
      {
        SupportingStep(table, guid, i);
        var found := GetProtocol(i, guid);
        if found.Some? {
          count := count + 1;
        }
      }
      assert table[..|table|] == table;
      status := if count == 0 then NotFound else Success;
    }

    /** Copies the supporting handles into a buffer that has room for them. */
    method LocateHandleCopy(guid: Guid, buffer: array<Handle>)
      requires Valid() && buffer.Length >= |Supporting(table, guid)|
      modifies buffer
      ensures Listed(buffer[..], Supporting(table, guid), |Supporting(table, guid)|)
      ensures forall k :: |Supporting(table, guid)| <= k < buffer.Length ==> buffer[k] == old(buffer[k])
    {
      hide Supporting;
      var count := 0;
      SupportingStart(table, guid);
      for i := 0 to protocolHandleCount
        invariant Valid() && count == |Supporting(table[..i], guid)|
        invariant Supporting(table[..i], guid) <= Supporting(table, guid)
        invariant Listed(buffer[..], Supporting(table, guid), count)
        invariant forall k :: count <= k < buffer.Length ==> buffer[k] == old(buffer[k])
      {
        SupportingStep(table, guid, i);
        SupportingPrefix(table, guid, i + 1);
        var found := GetProtocol(i, guid);
        if found.Some? {
          assert Supporting(table[..i+1], guid)[count] == i;
          buffer[count] := Slot(i);
          count := count + 1;
        }
      }
      assert table[..|table|] == table;
    }

    /** A new buffer with the supporting handles; allocating it may fail. */
    method LocateHandleBuffer(guid: Guid, poolWorks: bool) returns (status: Status, buffer: array<Handle>)
      requires Valid()
      ensures fresh(buffer)
      ensures Supporting(table, guid) == [] ==> status == NotFound && buffer.Length == 0
      ensures Supporting(table, guid) != [] && !poolWorks ==> status == OutOfResources && buffer.Length == 0
      ensures Supporting(table, guid) != [] && poolWorks ==>
                && status == Success && buffer.Length == |Supporting(table, guid)|
                && Listed(buffer[..], Supporting(table, guid), |Supporting(table, guid)|)
    {
      var count;
      status, count := LocateHandleCount(guid);
      if status == Success && !poolWorks {
        status := OutOfResources;
      }
      if status != Success {
        buffer := new Handle[0];
        return;
      }
      buffer := new Handle[count](_ => Null);
      LocateHandleCopy(guid, buffer);
    }

    /** Fills a caller's buffer, or says how many bytes are needed. */
    method LocateHandle(guid: Guid, bufferSize: nat, buffer: array<Handle>) returns (status: Status, size: nat)
      requires Valid() && buffer.Length == bufferSize / HANDLE_SIZE
      modifies buffer
      ensures var hs := Supporting(table, guid);
              && size == HANDLE_SIZE * |hs|
              && (status == NotFound <==> hs == [])
              && (status == BufferTooSmall <==> hs != [] && bufferSize < size)
              && (status == Success <==> hs != [] && bufferSize >= size)
              && (status == Success ==> Listed(buffer[..], hs, |hs|))
              && (status != Success ==> buffer[..] == old(buffer[..]))
    {
      var count;
      status, count := LocateHandleCount(guid);
      if status != Success {
        return status, 0;
      }
      size := count * HANDLE_SIZE;
      if bufferSize < size {
        return BufferTooSmall, size;
      }
      LocateHandleCopy(guid, buffer);
      return Success, size;
    }

    method HandleProtocol(h: Handle, guid: Guid) returns (status: Status, interface: nat)
      requires Valid() && h != Null && (h.Slot? ==> h.index < MAX_HANDLE_STRUCT)
      ensures status == if !IsHandle(table, h) then InvalidParameter
                        else if Has(table[h.index], guid) then Success else NotFound
      ensures status == Success ==> interface == table[h.index][FirstOf(table[h.index], guid).value].interface
    {
      status := GetHandle(h);
      if status != Success {
        return status, 0;
      }
      var found := GetProtocol(h.index, guid);
      if found == None {
        return NotFound, 0;
      }
      assert SlotOk(handles[..], table, h.index);
      assert table[h.index][found.value] == handles[h.index].structs[found.value];
      return Success, handles[h.index].structs[found.value].interface;
    }

    /** The interface of the first supporting handle. */
    method LocateProtocol(guid: Guid) returns (status: Status, interface: nat)
      requires Valid()
      ensures var hs := Supporting(table, guid);
              if hs == [] then status == NotFound
              else status == Success && interface == table[hs[0]][FirstOf(table[hs[0]], guid).value].interface
    {
      for i := 0 to protocolHandleCount
        invariant Supporting(table[..i], guid) == []
      {
        SupportingStep(table, guid, i);
        SupportingPrefix(table, guid, i + 1);
        var found := GetProtocol(i, guid);
        if found.Some? {
          assert Supporting(table[..i+1], guid) == [i];
          assert SlotOk(handles[..], table, i);
          assert table[i][found.value] == handles[i].structs[found.value];
          return Success, handles[i].structs[found.value].interface;
        }
      }
      assert table[..|table|] == table;
      return NotFound, 0;
    }
  }

  function EmptyStructs(): (s: seq<Protocol>)
    ensures |s| == MAX_PROTOCOL_STRUCT
  {
    seq(MAX_PROTOCOL_STRUCT, _ => EMPTY_PROTOCOL)
  }

  /** The first n entries of a buffer are these handles in this order. */
  predicate Listed(buffer: seq<Handle>, hs: seq<nat>, n: nat) {
    n <= |buffer| && n <= |hs| && forall k :: 0 <= k < n ==> buffer[k] == Slot(hs[k])
  }

  lemma SupportingStart(t: Table, guid: Guid)
    ensures Supporting(t[..0], guid) == []
  {
  }

  lemma SupportingStep(t: Table, guid: Guid, i: nat)
    requires i < |t|
    ensures Supporting(t[..i+1], guid) == Supporting(t[..i], guid) + if Has(t[i], guid) then [i] else []
  {
    assert t[..i+1][..i] == t[..i];
  }

  lemma {:induction false} SupportingPrefix(t: Table, guid: Guid, i: nat)
    requires i <= |t|
    ensures Supporting(t[..i], guid) <= Supporting(t, guid)
    decreases |t| - i
  {
    if i == |t| {
      assert t[..i] == t;
    } else {
      SupportingPrefix(t, guid, i + 1);
      assert t[..i+1][..i] == t[..i];
    }
  }
}

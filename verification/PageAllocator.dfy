/**
  The page allocator: memory descriptors in a fixed array of slots, threaded by
  `next` links into a chain that starts at `first`. Every method is proved to do
  to the chain's descriptors what the functions of `Machine` do to a sequence.
 */
module PageAllocator {
  import opened Common
  import opened Regions
  import opened Merging
  import opened Runs
  import opened Machine

  datatype Descriptor = Descriptor(
    kind: MemoryType,
    physicalStart: u64,
    virtualStart: u64,
    pages: u64,
    attribute: set<nat>)

  datatype Slot = Slot(inUse: bool, next: Option<nat>, descriptor: Descriptor) {
    function Shape(): Region {
      ShapeOf(descriptor)
    }
  }

  function ShapeOf(d: Descriptor): Region {
    Region(d.physicalStart, d.pages, d.kind, d.attribute)
  }

  // ---------------------------------------------------------------------------
  // The chain of slots
  // ---------------------------------------------------------------------------

  function LinkAt(chain: seq<nat>, i: nat): Option<nat> {
    if i < |chain| then Some(chain[i]) else None
  }

  // The facts below are stated one index at a time, so that a proof asks for
  // exactly the links it follows.

  /** The slot at position i links to the next position and holds the i-th descriptor. */
  ghost predicate NodeOk(chain: seq<nat>, slots: seq<Slot>, rs: seq<Region>, i: nat) {
    i < |chain| == |rs| ==>
      && chain[i] < |slots|
      && slots[chain[i]].next == LinkAt(chain, i + 1)
      && slots[chain[i]].Shape() == rs[i]
  }

  ghost predicate Apart(chain: seq<nat>, i: nat, j: nat) {
    i < j < |chain| ==> chain[i] != chain[j]
  }

  ghost predicate UseOk(chain: seq<nat>, slots: seq<Slot>, s: nat) {
    s < |slots| ==> (slots[s].inUse <==> s in chain)
  }

  /** The links from `first` spell out a chain that visits exactly the slots in use, each once. */
  ghost predicate Linked(first: Option<nat>, chain: seq<nat>, slots: seq<Slot>, rs: seq<Region>) {
    && |slots| == MAX_ALLOCATIONS && |rs| == |chain|
    && first == LinkAt(chain, 0)
    && (forall i: nat {:trigger NodeOk(chain, slots, rs, i)} :: NodeOk(chain, slots, rs, i))
    && (forall i: nat, j: nat {:trigger Apart(chain, i, j)} :: Apart(chain, i, j))
    && (forall s: nat {:trigger UseOk(chain, slots, s)} :: UseOk(chain, slots, s))
  }

  ghost predicate Virtual(virtuals: seq<u64>, slots: seq<Slot>) {
    |virtuals| == |slots| && forall s :: 0 <= s < |slots| ==> virtuals[s] == slots[s].descriptor.virtualStart
  }

  // How many slots a chain can have

  function Elements(chain: seq<nat>): set<nat> {
    set s | s in chain
  }

  lemma {:induction false} ElementsSize(chain: seq<nat>)
    requires forall i: nat, j: nat :: Apart(chain, i, j)
    ensures |Elements(chain)| == |chain|
  {
    if chain != [] {
      var rest := chain[1..];
      forall i: nat, j: nat ensures Apart(rest, i, j) {
        assert Apart(chain, i + 1, j + 1);
      }
      ElementsSize(rest);
      assert Elements(chain) == Elements(rest) + {chain[0]};
      forall k | 0 <= k < |rest| ensures rest[k] != chain[0] {
        assert Apart(chain, 0, k + 1);
      }
    }
  }

  ghost function Below(n: nat): (below: set<nat>)
    ensures |below| == n && forall s: nat :: s in below <==> s < n
  {
    if n == 0 then {} else Below(n - 1) + {n - 1}
  }

  lemma SubsetSize(a: set<nat>, b: set<nat>)
    requires a <= b
    ensures |a| <= |b| && (|a| == |b| ==> a == b)
  {
    assert b == a + (b - a);
    assert |b| == |a| + |b - a|;
  }

  /** A chain fills all slots exactly when no slot is free. */
  lemma ChainLength(first: Option<nat>, chain: seq<nat>, slots: seq<Slot>, rs: seq<Region>)
    requires Linked(first, chain, slots, rs)
    ensures |chain| <= |slots|
    ensures |chain| == |slots| <==> forall s :: 0 <= s < |slots| ==> slots[s].inUse
  {
    ElementsSize(chain);
    forall s | s in chain ensures s < |slots| {
      var i :| 0 <= i < |chain| && chain[i] == s;
      assert NodeOk(chain, slots, rs, i);
    }
    SubsetSize(Elements(chain), Below(|slots|));
    if forall s :: 0 <= s < |slots| ==> slots[s].inUse {
      forall s: nat | s < |slots| ensures s in Elements(chain) {
        assert UseOk(chain, slots, s);
      }
      assert Elements(chain) == Below(|slots|);
    }
    if |chain| == |slots| {
      forall s | 0 <= s < |slots| ensures slots[s].inUse {
        assert s in Below(|slots|) && s in Elements(chain);
        assert UseOk(chain, slots, s);
      }
    }
  }

  // Changing the chain

  function InsertAfter<T>(q: seq<T>, i: nat, x: T): seq<T>
    requires i < |q|
  {
    q[..i+1] + [x] + q[i+1..]
  }

  function RemoveAfter<T>(q: seq<T>, i: nat): seq<T>
    requires i + 1 < |q|
  {
    q[..i+1] + q[i+2..]
  }

  /** Linking a free slot in behind position i inserts one descriptor there. */
  lemma InsertKeepsLinked(first: Option<nat>, chain: seq<nat>, slots: seq<Slot>, rs: seq<Region>, i: nat,
      s: nat, a: Slot, b: Slot)
    requires Linked(first, chain, slots, rs) && i < |chain| && s < |slots| && s !in chain && chain[i] < |slots|
    requires a.inUse && b.inUse && a.next == Some(s) && b.next == LinkAt(chain, i + 1)
    ensures Linked(first, InsertAfter(chain, i, s), slots[chain[i] := a][s := b],
                   InsertAfter(rs[i := a.Shape()], i, b.Shape()))
  {
    var chain', slots' := InsertAfter(chain, i, s), slots[chain[i] := a][s := b];
    var rs' := InsertAfter(rs[i := a.Shape()], i, b.Shape());
    forall k: nat ensures NodeOk(chain', slots', rs', k) {
      InsertNode(first, chain, slots, rs, i, s, a, b, k);
    }
    forall k: nat, m: nat ensures Apart(chain', k, m) {
      InsertApart(first, chain, slots, rs, i, s, k, m);
    }
    forall x: nat ensures UseOk(chain', slots', x) {
      InsertUse(first, chain, slots, rs, i, s, a, b, x);
    }
  }

  lemma InsertNode(first: Option<nat>, chain: seq<nat>, slots: seq<Slot>, rs: seq<Region>, i: nat, s: nat,
      a: Slot, b: Slot, k: nat)
    requires Linked(first, chain, slots, rs) && i < |chain| && s < |slots| && s !in chain && chain[i] < |slots|
    requires a.next == Some(s) && b.next == LinkAt(chain, i + 1)
    ensures NodeOk(InsertAfter(chain, i, s), slots[chain[i] := a][s := b],
                   InsertAfter(rs[i := a.Shape()], i, b.Shape()), k)
  {
    if k < i {
      assert NodeOk(chain, slots, rs, k) && Apart(chain, k, i);
    } else if i + 1 < k <= |chain| {
      assert NodeOk(chain, slots, rs, k - 1) && Apart(chain, i, k - 1);
    }
  }

  lemma InsertApart(first: Option<nat>, chain: seq<nat>, slots: seq<Slot>, rs: seq<Region>, i: nat, s: nat,
      k: nat, m: nat)
    requires Linked(first, chain, slots, rs) && i < |chain| && s !in chain
    ensures Apart(InsertAfter(chain, i, s), k, m)
  {
    if k != i + 1 && m != i + 1 {
      assert Apart(chain, if k <= i then k else k - 1, if m <= i then m else m - 1);
    }
  }

  lemma InsertUse(first: Option<nat>, chain: seq<nat>, slots: seq<Slot>, rs: seq<Region>, i: nat, s: nat,
      a: Slot, b: Slot, x: nat)
    requires Linked(first, chain, slots, rs) && i < |chain| && s < |slots| && s !in chain && chain[i] < |slots|
    requires a.inUse && b.inUse
    ensures UseOk(InsertAfter(chain, i, s), slots[chain[i] := a][s := b], x)
  {
    assert UseOk(chain, slots, x);
    assert chain == chain[..i+1] + chain[i+1..];
  }

  /** Unlinking the slot behind position i removes one descriptor there. */
  lemma RemoveKeepsLinked(first: Option<nat>, chain: seq<nat>, slots: seq<Slot>, rs: seq<Region>, i: nat,
      a: Slot, b: Slot)
    requires Linked(first, chain, slots, rs) && i + 1 < |chain| && chain[i] < |slots| && chain[i+1] < |slots|
    requires a.inUse && !b.inUse && a.next == LinkAt(chain, i + 2)
    ensures Linked(first, RemoveAfter(chain, i), slots[chain[i] := a][chain[i+1] := b],
                   RemoveAfter(rs[i := a.Shape()], i))
  {
    var chain', slots' := RemoveAfter(chain, i), slots[chain[i] := a][chain[i+1] := b];
    var rs' := RemoveAfter(rs[i := a.Shape()], i);
    forall k: nat ensures NodeOk(chain', slots', rs', k) {
      RemoveNode(first, chain, slots, rs, i, a, b, k);
    }
    forall k: nat, m: nat ensures Apart(chain', k, m) {
      assert Apart(chain, if k <= i then k else k + 1, if m <= i then m else m + 1);
    }
    forall x: nat ensures UseOk(chain', slots', x) {
      RemoveUse(first, chain, slots, rs, i, a, b, x);
    }
  }

  lemma RemoveNode(first: Option<nat>, chain: seq<nat>, slots: seq<Slot>, rs: seq<Region>, i: nat, a: Slot,
      b: Slot, k: nat)
    requires Linked(first, chain, slots, rs) && i + 1 < |chain| && chain[i] < |slots| && chain[i+1] < |slots|
    requires a.next == LinkAt(chain, i + 2)
    ensures NodeOk(RemoveAfter(chain, i), slots[chain[i] := a][chain[i+1] := b], RemoveAfter(rs[i := a.Shape()], i), k)
  {
    if k < i {
      assert NodeOk(chain, slots, rs, k) && Apart(chain, k, i) && Apart(chain, k, i + 1);
    } else if k == i {
      assert Apart(chain, i, i + 1);
    } else {
      assert NodeOk(chain, slots, rs, k + 1) && Apart(chain, i, k + 1) && Apart(chain, i + 1, k + 1);
    }
  }

  lemma RemoveUse(first: Option<nat>, chain: seq<nat>, slots: seq<Slot>, rs: seq<Region>, i: nat, a: Slot,
      b: Slot, x: nat)
    requires Linked(first, chain, slots, rs) && i + 1 < |chain| && chain[i] < |slots| && chain[i+1] < |slots|
    requires a.inUse && !b.inUse
    ensures UseOk(RemoveAfter(chain, i), slots[chain[i] := a][chain[i+1] := b], x)
  {
    var head, tail := chain[..i+1], chain[i+2..];
    assert UseOk(chain, slots, x);
    assert chain == head + [chain[i+1]] + tail;
    assert x in RemoveAfter(chain, i) <==> x in head || x in tail;
    forall k | 0 <= k < |chain| && k != i + 1 ensures chain[k] != chain[i+1] {
      assert Apart(chain, k, i + 1) && Apart(chain, i + 1, k);
    }
  }

  /** Rewriting a descriptor in its slot changes that descriptor only. */
  lemma UpdateKeepsLinked(first: Option<nat>, chain: seq<nat>, slots: seq<Slot>, rs: seq<Region>, i: nat, a: Slot)
    requires Linked(first, chain, slots, rs) && i < |chain| && chain[i] < |slots|
    requires a.inUse && a.next == LinkAt(chain, i + 1)
    ensures Linked(first, chain, slots[chain[i] := a], rs[i := a.Shape()])
  {
    var slots', rs' := slots[chain[i] := a], rs[i := a.Shape()];
    forall k: nat ensures NodeOk(chain, slots', rs', k) {
      assert NodeOk(chain, slots, rs, k) && Apart(chain, k, i) && Apart(chain, i, k);
    }
    forall x: nat ensures UseOk(chain, slots', x) {
      assert UseOk(chain, slots, x);
    }
  }

  // ---------------------------------------------------------------------------
  // The allocator
  // ---------------------------------------------------------------------------

  /** How many of the given descriptors, from the first on, start where a descriptor of the map starts. */
  function KnownPrefix(rs: seq<Region>, ds: seq<Descriptor>): (n: nat)
    ensures n <= |ds|
    ensures forall j :: 0 <= j < n ==> StartingAt(rs, ds[j].physicalStart) < |rs|
    ensures n < |ds| ==> StartingAt(rs, ds[n].physicalStart) == |rs|
  {
    if ds == [] || StartingAt(rs, ds[0].physicalStart) == |rs| then 0 else 1 + KnownPrefix(rs, ds[1..])
  }

  /** The virtual address the last of the descriptors with this start gives, if any gives one. */
  function VirtualFor(ds: seq<Descriptor>, start: nat, otherwise: u64): u64 {
    if ds == [] then otherwise
    else if ds[|ds|-1].physicalStart == start then ds[|ds|-1].virtualStart
    else VirtualFor(ds[..|ds|-1], start, otherwise)
  }

  /** The virtual addresses after the descriptors have been applied, for the slot at position p of the chain. */
  ghost predicate AppliedAt(chain: seq<nat>, rs: seq<Region>, before: seq<u64>, now: seq<u64>,
      ds: seq<Descriptor>, p: nat) {
    p < |chain| == |rs| && |before| == |now| ==>
      && chain[p] < |now|
      && now[chain[p]] == (if StartingAt(rs, rs[p].start) == p then VirtualFor(ds, rs[p].start, before[chain[p]])
                           else before[chain[p]])
  }

  ghost predicate Applied(chain: seq<nat>, rs: seq<Region>, before: seq<u64>, now: seq<u64>, ds: seq<Descriptor>) {
    && |before| == |now|
    && (forall p: nat {:trigger AppliedAt(chain, rs, before, now, ds, p)} :: AppliedAt(chain, rs, before, now, ds, p))
    && forall s :: 0 <= s < |now| && s !in chain ==> now[s] == before[s]
  }

  lemma ApplyOne(chain: seq<nat>, rs: seq<Region>, before: seq<u64>, now: seq<u64>, ds: seq<Descriptor>, d: Descriptor)
    requires Applied(chain, rs, before, now, ds) && |chain| == |rs|
    requires forall i: nat, j: nat {:trigger Apart(chain, i, j)} :: Apart(chain, i, j)
    requires StartingAt(rs, d.physicalStart) < |rs|
    ensures var i := StartingAt(rs, d.physicalStart);
            && chain[i] < |now|
            && Applied(chain, rs, before, now[chain[i] := d.virtualStart], ds + [d])
  {
    var i := StartingAt(rs, d.physicalStart);
    assert AppliedAt(chain, rs, before, now, ds, i);
    var now' := now[chain[i] := d.virtualStart];
    assert (ds + [d])[..|ds|] == ds;
    forall p: nat ensures AppliedAt(chain, rs, before, now', ds + [d], p) {
      assert AppliedAt(chain, rs, before, now, ds, p) && Apart(chain, p, i) && Apart(chain, i, p);
    }
  }

  ghost function Zeros(n: nat): (z: seq<u64>)
    ensures |z| == n && forall i :: 0 <= i < n ==> z[i] == 0
  {
    if n == 0 then [] else Zeros(n - 1) + [0]
  }

  class Allocator {
    const allocations: array<Slot>
    var key: nat
    var first: Option<nat>
    ghost var chain: seq<nat>
    ghost var regions: seq<Region>  // the descriptors in chain order
    ghost var virtuals: seq<u64>    // the virtual address in each slot

    ghost predicate Valid()
      reads this, allocations
    {
      Linked(first, chain, allocations[..], regions) && Virtual(virtuals, allocations[..])
    }

    /** All five fields of the descriptor at position i of the chain. */
    ghost predicate IsDescriptor(d: Descriptor, i: nat)
      reads this
    {
      && i < |regions| && i < |chain| && chain[i] < |virtuals|
      && ShapeOf(d) == regions[i] && d.virtualStart == virtuals[chain[i]]
    }

    constructor ()
      ensures Valid() && regions == [] && key == 0 && first == None
      ensures forall s :: 0 <= s < MAX_ALLOCATIONS ==> virtuals[s] == 0
      ensures fresh(allocations)
    {
      allocations := new Slot[MAX_ALLOCATIONS](_ => Slot(false, None, Descriptor(ReservedMemoryType, 0, 0, 0, {})));
      key := 0;
      first := None;
      chain := [];
      regions := [];
      virtuals := Zeros(MAX_ALLOCATIONS);
    }

    lemma ChainNode(i: nat)
      requires Valid() && i < |chain|
      ensures |regions| == |chain| && chain[i] < MAX_ALLOCATIONS && allocations.Length == MAX_ALLOCATIONS
      ensures allocations[chain[i]].Shape() == regions[i]
    {
      assert NodeOk(chain, allocations[..], regions, i);
    }

    lemma WithinSlots()
      requires Valid()
      ensures |regions| <= MAX_ALLOCATIONS
    {
      ChainLength(first, chain, allocations[..], regions);
    }

    /** The lowest free slot, or the number of slots when all are in use. */
    method FindFreeAllocation() returns (free: nat)
      requires Valid()
      ensures |chain| <= MAX_ALLOCATIONS
      ensures if |chain| == MAX_ALLOCATIONS then free == MAX_ALLOCATIONS
              else free < MAX_ALLOCATIONS && free !in chain && forall s :: 0 <= s < free ==> allocations[s].inUse
    {
      ghost var slots := allocations[..];
      ChainLength(first, chain, slots, regions);
      free := MAX_ALLOCATIONS;
      for i := 0 to allocations.Length
        invariant free == MAX_ALLOCATIONS
        invariant forall s :: 0 <= s < i ==> slots[s].inUse
      {
        if !allocations[i].inUse {
          assert UseOk(chain, slots, i);
          free := i;
          break;
        }
      }
    }

    /** Writes the two slots that link a free slot in behind position i of the chain. */
    method LinkIn(at: nat, free: nat, a: Slot, b: Slot, ghost i: nat)
      requires Valid() && i < |chain| && chain[i] == at && free < MAX_ALLOCATIONS && free !in chain
      requires a.inUse && b.inUse && a.next == Some(free) && b.next == LinkAt(chain, i + 1)
      requires at < MAX_ALLOCATIONS && a.descriptor.virtualStart == virtuals[at]
      requires b.descriptor.virtualStart == virtuals[free]
      modifies this`chain, this`regions, allocations
      ensures Valid() && chain == InsertAfter(old(chain), i, free)
      ensures regions == InsertAfter(old(regions)[i := a.Shape()], i, b.Shape())
    {
      assert NodeOk(chain, allocations[..], regions, i);
      InsertKeepsLinked(first, chain, allocations[..], regions, i, free, a, b);
      allocations[at] := a;
      allocations[free] := b;
      chain := InsertAfter(chain, i, free);
      regions := InsertAfter(regions[i := a.Shape()], i, b.Shape());
      assert allocations[..] == old(allocations[..])[at := a][free := b];
    }

    /** The first descriptor goes into slot 0. */
    method StartChain(d: Descriptor)
      requires Valid() && chain == [] && d.virtualStart == virtuals[0]
      modifies this`first, this`chain, this`regions, allocations
      ensures Valid() && regions == [ShapeOf(d)]
    {
      allocations[0] := allocations[0].(inUse := true, next := None, descriptor := d);
      first := Some(0);
      chain := [0];
      regions := [ShapeOf(d)];
      forall s: nat ensures UseOk(chain, allocations[..], s) {
        assert UseOk(old(chain), old(allocations[..]), s);
      }
    }

    /** The slot at the end of a non-empty chain. */
    method FindLast() returns (last: nat)
      requires Valid() && chain != []
      ensures last == chain[|chain| - 1]
    {
      var cur := first;
      last := cur.value;
      ghost var i := 0;
      while cur != None
        invariant 0 <= i <= |chain|
        invariant cur == LinkAt(chain, i)
        invariant last == chain[if i == 0 then 0 else i - 1]
        decreases |chain| - i
      {
        assert NodeOk(chain, allocations[..], regions, i);
        last := cur.value;
        cur := allocations[last].next;
        i := i + 1;
      }
    }

    method Append(last: nat, next: nat, d: Descriptor)
      requires Valid() && chain != [] && last == chain[|chain| - 1] && next < MAX_ALLOCATIONS && next !in chain
      requires d.virtualStart == virtuals[next]
      modifies this`chain, this`regions, allocations
      ensures Valid() && regions == old(regions) + [ShapeOf(d)]
    {
      assert NodeOk(chain, allocations[..], regions, |chain| - 1) && UseOk(chain, allocations[..], last);
      var a := allocations[last].(next := Some(next));
      LinkIn(last, next, a, Slot(true, None, d), |chain| - 1);
    }

    /** Appends a descriptor behind the last one. */
    method AddInitialAllocation(kind: MemoryType, count: u64, address: u64,
        attributes: set<nat>) returns (status: Status)
      requires Valid()
      modifies this`key, this`first, this`chain, this`regions, allocations
      ensures Valid()
      ensures Outcome(status, 0, regions) == Add(old(regions), Region(address, count, kind, attributes))
      ensures key == old(key) + 1
    {
      key := key + 1;
      if first == None {
        StartChain(allocations[0].descriptor.(
                     kind := kind, pages := count, physicalStart := address, attribute := attributes));
        return Success;
      }

      var last := FindLast();
      var next := FindFreeAllocation();
      if next == MAX_ALLOCATIONS {
        return OutOfResources;
      }
      Append(last, next, allocations[next].descriptor.(
               kind := kind, pages := count, physicalStart := address, attribute := attributes));
      return Success;
    }

    /** The slot of the first descriptor, in chain order, that can hold the request. */
    method FindFreeMemory(how: AllocateType, count: u64, address: u64) returns (dest: Option<nat>)
      requires Valid()
      ensures dest == LinkAt(chain, FirstFit64(regions, how, count, address))
    {
      var cur := first;
      ghost var i := 0;
      while cur != None
        invariant 0 <= i <= |chain|
        invariant cur == LinkAt(chain, i)
        invariant forall j :: 0 <= j < i ==> !Fits64(regions[j], how, count, address)
        decreases |chain| - i
      {
        assert NodeOk(chain, allocations[..], regions, i);
        var a := allocations[cur.value];
        if a.descriptor.kind != ConventionalMemory {
          cur := a.next;
          i := i + 1;
          continue;
        }
        var bottom := a.descriptor.physicalStart;
        var top := Add64(bottom, Bytes64(a.descriptor.pages));
        match how {
          case AllocateAddress =>
            if address >= bottom && Add64(address, Bytes64(count)) <= top {
              return cur;
            }
          case AllocateAnyPages =>
            if a.descriptor.pages >= count && bottom > 0x10_0000 {
              return cur;
            }
          case AllocateMaxAddress =>
            if a.descriptor.pages >= count && Add64(bottom, Bytes64(count)) <= address {
              return cur;
            }
        }
        cur := a.next;
        i := i + 1;
      }
      return None;
    }

    /** Splits the descriptor at position i of the chain, taking a free slot for its second half. */
    method SplitAllocation(orig: nat, pages: u64, ghost i: nat) returns (split: Option<nat>)
      requires Valid() && i < |chain| && chain[i] == orig
      modifies this`chain, this`regions, allocations
      ensures Valid()
      ensures |old(chain)| >= MAX_ALLOCATIONS ==> split == None && chain == old(chain) && regions == old(regions)
      ensures |old(chain)| < MAX_ALLOCATIONS ==>
                && split.Some? && chain == InsertAfter(old(chain), i, split.value)
                && regions == Split64(old(regions), i, pages)
    {
      var second := FindFreeAllocation();
      if second == MAX_ALLOCATIONS {
        return None;
      }
      assert NodeOk(chain, allocations[..], regions, i) && UseOk(chain, allocations[..], orig);
      var whole := allocations[orig];
      var a := whole.(next := Some(second), descriptor := whole.descriptor.(pages := pages));
      var b := allocations[second].(
        inUse := true, next := whole.next,
        descriptor := allocations[second].descriptor.(
          pages := Sub64(whole.descriptor.pages, pages),
          kind := whole.descriptor.kind,
          attribute := whole.descriptor.attribute,
          physicalStart := Add64(whole.descriptor.physicalStart, Bytes64(pages))));
      LinkIn(orig, second, a, b, i);
      return Some(second);
    }

    /** Rewrites the descriptor at position i of the chain. */
    method SetDescriptor(at: nat, d: Descriptor, ghost i: nat)
      requires Valid() && i < |chain| && chain[i] == at && at < MAX_ALLOCATIONS && d.virtualStart == virtuals[at]
      modifies this`regions, allocations
      ensures Valid()
      ensures regions == old(regions)[i := ShapeOf(d)]
    {
      assert NodeOk(chain, allocations[..], regions, i) && UseOk(chain, allocations[..], at);
      var a := allocations[at].(descriptor := d);
      UpdateKeepsLinked(first, chain, allocations[..], regions, i, a);
      allocations[at] := a;
      regions := regions[i := a.Shape()];
      assert allocations[..] == old(allocations[..])[at := a];
    }

    /** Marks the descriptor at position i as allocated. */
    method Mark(at: nat, kind: MemoryType, ghost i: nat) returns (address: u64)
      requires Valid() && i < |chain| && chain[i] == at
      modifies this`regions, allocations
      ensures Valid() && chain == old(chain)
      ensures address == old(regions)[i].start && regions == Assign(old(regions), i, kind)
    {
      assert NodeOk(chain, allocations[..], regions, i);
      var d := allocations[at].descriptor;
      SetDescriptor(at, d.(kind := kind, attribute := d.attribute + RuntimeMark(kind)), i);
      address := d.physicalStart;
    }

    /** Allocates inside the descriptor at position i, away from its start: one split or two. */
    method AllocateInside(dest: nat, kind: MemoryType, count: u64, address: u64, ghost i: nat)
      returns (status: Status, base: u64)
      requires Valid() && i < |chain| && chain[i] == dest && regions[i].pages != count
      requires i == FirstFit64(regions, AllocateAddress, count, address) && regions[i].start != address
      modifies this`chain, this`regions, allocations
      ensures Valid()
      ensures Outcome(status, base, regions) == Allocate64(old(regions), AllocateAddress, kind, count, address)
    {
      hide Split64, Retype, Assign, Linked, Add64, Bytes64, End64;
      ChainNode(i);
      var pages := (address - allocations[dest].descriptor.physicalStart) / 4096;
      var split := SplitAllocation(dest, pages, i);
      if split == None {
        return OutOfResources, 0;
      }
      assert chain[i+1] == split.value;
      ChainNode(i + 1);
      if allocations[split.value].descriptor.pages > count {
        var second := SplitAllocation(split.value, count, i + 1);
        if second == None {
          return OutOfResources, 0;
        }
      }
      base := Mark(split.value, kind, i + 1);
      status := Success;
    }

    /** Allocates at the start of the descriptor at position i: one split. */
    method AllocateAtStart(dest: nat, how: AllocateType, kind: MemoryType, count: u64, address: u64, ghost i: nat)
      returns (status: Status, base: u64)
      requires Valid() && i < |chain| && chain[i] == dest && regions[i].pages != count
      requires i == FirstFit64(regions, how, count, address)
      requires how == AllocateAddress ==> regions[i].start == address
      modifies this`chain, this`regions, allocations
      ensures Valid()
      ensures Outcome(status, base, regions) == Allocate64(old(regions), how, kind, count, address)
    {
      var split := SplitAllocation(dest, count, i);
      if split == None {
        return OutOfResources, 0;
      }
      assert chain[i] == dest;
      base := Mark(dest, kind, i);
      status := Success;
    }

    /** Finds room for the request, carves it out of one descriptor and retypes it. */
    method AllocatePages(how: AllocateType, kind: MemoryType, count: u64, address: u64)
      returns (status: Status, base: u64)
      requires Valid()
      modifies this`key, this`chain, this`regions, allocations
      ensures Valid()
      ensures Outcome(status, base, regions) == Allocate64(old(regions), how, kind, count, address)
      ensures key == old(key) + if FirstFit64(old(regions), how, count, address) < |old(regions)| then 1 else 0
    {
      var found := FindFreeMemory(how, count, address);
      if found == None {
        return OutOfResources, 0;
      }
      key := key + 1;
      var dest := found.value;
      ghost var i := FirstFit64(regions, how, count, address);
      assert NodeOk(chain, allocations[..], regions, i);
      var d := allocations[dest].descriptor;
      if d.pages == count {
        SetDescriptor(dest, d.(kind := kind), i);
        return Success, d.physicalStart;
      }
      if how == AllocateAddress && d.physicalStart != address {
        status, base := AllocateInside(dest, kind, count, address, i);
        return;
      }
      status, base := AllocateAtStart(dest, how, kind, count, address, i);
    }

    /** Joins the descriptor at position i + 1 into the one at position i and frees its slot. */
    method JoinNext(current: nat, next: nat, ghost i: nat)
      requires Valid() && i + 1 < |chain| && chain[i] == current && chain[i+1] == next
      modifies this`chain, this`regions, allocations
      ensures Valid() && chain == RemoveAfter(old(chain), i)
      ensures regions == RemoveAfter(old(regions)[i := Join64(old(regions)[i], old(regions)[i+1])], i)
    {
      assert NodeOk(chain, allocations[..], regions, i) && NodeOk(chain, allocations[..], regions, i + 1);
      assert UseOk(chain, allocations[..], current);
      var a, b := allocations[current], allocations[next];
      var a' := a.(next := b.next, descriptor := a.descriptor.(pages := Add64(a.descriptor.pages, b.descriptor.pages)));
      var b' := b.(inUse := false);
      RemoveKeepsLinked(first, chain, allocations[..], regions, i, a', b');
      allocations[current] := a';
      allocations[next] := b';
      chain := RemoveAfter(chain, i);
      regions := RemoveAfter(regions[i := Join64(regions[i], regions[i+1])], i);
      assert allocations[..] == old(allocations[..])[current := a'][next := b'];
    }

    /** Walks the chain once, joining neighbours that are free and contiguous. */
    method MergeFreeMemory()
      requires Valid()
      modifies this`chain, this`regions, allocations
      ensures Valid() && regions == Merge64(old(regions))
    {
      var cur := first;
      ghost var i := 0;
      while cur != None
        invariant Valid() && 0 <= i && (chain == [] || i < |chain|)
        invariant cur == LinkAt(chain, i)
        invariant i <= |regions| && Merge64(old(regions)) == regions[..i] + Merge64(regions[i..])
        decreases |chain| - i
      {
        var current := cur.value;
        assert NodeOk(chain, allocations[..], regions, i) && NodeOk(chain, allocations[..], regions, i + 1);
        var a := allocations[current];
        if a.next == None {
          return;
        }
        var next := a.next.value;
        var b := allocations[next];
        MergeWalk(regions, i);
        if a.descriptor.kind == ConventionalMemory && b.descriptor.kind == ConventionalMemory
           && b.descriptor.physicalStart == Add64(a.descriptor.physicalStart, Bytes64(a.descriptor.pages))
        {
          JoinNext(current, next, i);
        } else {
          cur := a.next;
          i := i + 1;
        }
      }
    }

    /** Frees the descriptor that starts at the address. */
    method FreePages(address: u64) returns (status: Status)
      requires Valid()
      modifies this`chain, this`regions, allocations
      ensures Valid()
      ensures Outcome(status, 0, regions) == Free64(old(regions), address)
    {
      var cur := first;
      ghost var i := 0;
      while cur != None
        invariant 0 <= i <= |chain|
        invariant cur == LinkAt(chain, i)
        invariant forall j :: 0 <= j < i ==> regions[j].start != address
        decreases |chain| - i
      {
        assert NodeOk(chain, allocations[..], regions, i);
        var a := allocations[cur.value];
        if address == a.descriptor.physicalStart {
          assert i == StartingAt(regions, address);
          SetDescriptor(cur.value, a.descriptor.(kind := ConventionalMemory), i);
          MergeFreeMemory();
          return Success;
        }
        cur := a.next;
        i := i + 1;
      }
      return NotFound;
    }

    /** The slot of the first descriptor that starts at the address. */
    method FindStart(address: u64) returns (found: Option<nat>)
      requires Valid()
      ensures found == LinkAt(chain, StartingAt(regions, address))
    {
      var cur := first;
      ghost var i := 0;
      while cur != None
        invariant 0 <= i <= |chain|
        invariant cur == LinkAt(chain, i)
        invariant forall j :: 0 <= j < i ==> regions[j].start != address
        decreases |chain| - i
      {
        assert NodeOk(chain, allocations[..], regions, i);
        if allocations[cur.value].descriptor.physicalStart == address {
          return cur;
        }
        cur := allocations[cur.value].next;
        i := i + 1;
      }
      return None;
    }

    method SetVirtual(at: nat, address: u64, ghost i: nat)
      requires Valid() && i < |chain| && chain[i] == at && at < MAX_ALLOCATIONS
      modifies this`virtuals, allocations
      ensures Valid() && virtuals == old(virtuals)[at := address]
    {
      assert NodeOk(chain, allocations[..], regions, i) && UseOk(chain, allocations[..], at);
      var a := allocations[at].(descriptor := allocations[at].descriptor.(virtualStart := address));
      UpdateKeepsLinked(first, chain, allocations[..], regions, i, a);
      assert regions[i := a.Shape()] == regions;
      allocations[at] := a;
      virtuals := virtuals[at := address];
      assert allocations[..] == old(allocations[..])[at := a];
    }

    /** Takes over virtual addresses by physical start, up to the first descriptor that is not in the map. */
    method UpdateVirtualAddresses(ds: seq<Descriptor>) returns (status: Status)
      requires Valid()
      modifies this`virtuals, allocations
      ensures Valid()
      ensures status == if KnownPrefix(regions, ds) == |ds| then Success else NotFound
      ensures Applied(chain, regions, old(virtuals), virtuals, ds[..KnownPrefix(regions, ds)])
    {
      hide Applied;
      var i := 0;
      NothingApplied();
      while i < |ds|
        invariant Valid() && 0 <= i <= KnownPrefix(regions, ds)
        invariant Applied(chain, regions, old(virtuals), virtuals, ds[..i])
      {
        var found := FindStart(ds[i].physicalStart);
        ghost var p := StartingAt(regions, ds[i].physicalStart);
        if found == None {
          return NotFound;
        }
        ApplyOne(chain, regions, old(virtuals), virtuals, ds[..i], ds[i]);
        assert ds[..i] + [ds[i]] == ds[..i+1];
        SetVirtual(found.value, ds[i].virtualStart, p);
        i := i + 1;
      }
      return Success;
    }

    lemma NothingApplied()
      requires Valid()
      ensures Applied(chain, regions, virtuals, virtuals, [])
    {
      forall p: nat ensures AppliedAt(chain, regions, virtuals, virtuals, [], p) {
        assert NodeOk(chain, allocations[..], regions, p);
      }
    }

    method GetDescriptorCount() returns (count: nat)
      requires Valid()
      ensures count == |regions|
    {
      count := 0;
      var cur := first;
      while cur != None
        invariant count <= |chain| && cur == LinkAt(chain, count)
        decreases |chain| - count
      {
        assert NodeOk(chain, allocations[..], regions, count);
        cur := allocations[cur.value].next;
        count := count + 1;
      }
    }

    /** Copies the descriptors out in chain order; the rest of the buffer is left alone. */
    method GetDescriptors(out: array<Descriptor>) returns (count: nat)
      requires Valid() && out.Length >= |regions|
      modifies out
      ensures Valid() && count == |regions|
      ensures forall i :: 0 <= i < count ==> IsDescriptor(out[i], i)
      ensures forall i :: count <= i < out.Length ==> out[i] == old(out[i])
    {
      count := 0;
      var cur := first;
      while cur != None
        invariant Valid() && count <= |chain| && cur == LinkAt(chain, count)
        invariant forall i :: 0 <= i < count ==> IsDescriptor(out[i], i)
        invariant forall i :: count <= i < out.Length ==> out[i] == old(out[i])
        decreases |chain| - count
      {
        assert NodeOk(chain, allocations[..], regions, count);
        out[count] := allocations[cur.value].descriptor;
        cur := allocations[cur.value].next;
        count := count + 1;
      }
    }
  }

  /** The fields of a request are 64-bit words. */
  predicate InWords(q: Request) {
    match q
    case AddRequest(region) => region.start < U64 && region.pages < U64
    case AllocateRequest(_, _, count, address) => count < U64 && address < U64
    case FreeRequest(address) => address < U64
  }

  /** Any sequence of requests keeps the chain intact and does to it what `Run64` says. */
  method ServeAll(a: Allocator, qs: seq<Request>)
    requires a.Valid() && forall i :: 0 <= i < |qs| ==> InWords(qs[i])
    modifies a, a.allocations
    ensures a.Valid() && a.regions == Run64(old(a.regions), qs) && a.virtuals == old(a.virtuals)
    decreases |qs|
  {
    if qs != [] {
      assert InWords(qs[0]);
      match qs[0] {
        case AddRequest(region) =>
          var _ := a.AddInitialAllocation(region.kind, region.pages, region.start, region.attribute);
        case AllocateRequest(how, kind, count, address) =>
          var _, _ := a.AllocatePages(how, kind, count, address);
        case FreeRequest(address) =>
          var _ := a.FreePages(address);
      }
      ServeAll(a, qs[1..]);
    }
  }

  /** The request is answered as it would be without wrap-around. */
  predicate NoEffectOfWrapping(how: AllocateType, count: nat, address: nat) {
    RequestFits64(how, count, address) || RequestEnd(count, address) % U64 > U64 - 4096
  }

  /**
    Freeing what was just allocated. On a coalesced map this restores every
    descriptor exactly unless something is lost, for every request that is
    answered as it would be without wrap-around.
   */
  method AllocateAndFree(a: Allocator, how: AllocateType, kind: MemoryType, count: u64, address: u64)
    returns (status: Status, base: u64, freed: Status)
    requires a.Valid()
    modifies a, a.allocations
    ensures a.Valid()
    ensures var o := Allocate64(old(a.regions), how, kind, count, address);
            && status == o.status && base == o.address
            && (status == Success ==> Outcome(freed, 0, a.regions) == Free64(o.regions, base))
            && (status != Success ==> a.regions == o.regions)
    ensures && status == Success && WellFormed(old(a.regions)) && Coalesced(old(a.regions))
            && Addressable(old(a.regions)) && NoEffectOfWrapping(how, count, address)
            ==> freed == Success && (a.regions == old(a.regions) <==> !Loses(old(a.regions), how, kind, count, address))
  {
    hide Allocate, Allocate64, Free, Free64, Merge, Coalesced, WellFormed, Loses, Addressable, NoEffectOfWrapping,
      Allocator.Valid;
    a.WithinSlots();
    freed := NotFound;
    status, base := a.AllocatePages(how, kind, count, address);
    if status == Success {
      freed := a.FreePages(base);
      if WellFormed(old(a.regions)) && Coalesced(old(a.regions)) && Addressable(old(a.regions))
         && NoEffectOfWrapping(how, count, address)
      {
        RestoredIff(old(a.regions), how, kind, count, address);
      }
    }
  }

  lemma RestoredIff(rs: seq<Region>, how: AllocateType, kind: MemoryType, count: nat, address: nat)
    requires WellFormed(rs) && |rs| <= MAX_ALLOCATIONS && Coalesced(rs) && Addressable(rs)
    requires NoEffectOfWrapping(how, count, address)
    requires Allocate64(rs, how, kind, count, address).status == Success
    ensures var o := Allocate64(rs, how, kind, count, address);
            var after := Free64(o.regions, o.address);
            after.status == Success && (after.regions == rs <==> !Loses(rs, how, kind, count, address))
  {
    hide Allocate, Allocate64, Free, Free64, Merge, Coalesced, Ordered, NoneEmpty, Loses, Addressable;
    AgreesIff(how, kind, count, address);
    assert AgreeOn(rs, how, kind, count, address);
    AllocateThenFree(rs, how, kind, count, address);
    StaysAddressable(rs, how, kind, count, address);
    var o := Allocate(rs, how, kind, count, address);
    FreeAgrees(o.regions, o.address);
    FreeHasNoAddress(o.regions, o.address);
  }

  lemma FreeHasNoAddress(rs: seq<Region>, address: nat)
    ensures Free(rs, address).address == 0
  {
  }

  lemma StaysAddressable(rs: seq<Region>, how: AllocateType, kind: MemoryType, count: nat, address: nat)
    requires WellFormed(rs) && |rs| <= MAX_ALLOCATIONS && Addressable(rs)
    ensures Addressable(Allocate(rs, how, kind, count, address).regions)
  {
    AllocateEnds(rs, how, kind, count, address, U64 - 1);
  }

  lemma MergeStep64(x: Region, y: Region, rest: seq<Region>)
    ensures Mergeable64(x, y) ==> Merge64([x, y] + rest) == Merge64([Join64(x, y)] + rest)
    ensures !Mergeable64(x, y) ==> Merge64([x, y] + rest) == [x] + Merge64([y] + rest)
  {
    assert ([x, y] + rest)[2..] == rest && ([x, y] + rest)[1..] == [y] + rest;
  }

  /** One step of the merging walk at position i. */
  lemma MergeWalk(rs: seq<Region>, i: nat)
    requires i + 1 < |rs|
    ensures var joined := RemoveAfter(rs[i := Join64(rs[i], rs[i+1])], i);
            Mergeable64(rs[i], rs[i+1]) ==>
              joined[..i] == rs[..i] && rs[..i] + Merge64(rs[i..]) == joined[..i] + Merge64(joined[i..])
    ensures !Mergeable64(rs[i], rs[i+1]) ==> rs[..i] + Merge64(rs[i..]) == rs[..i+1] + Merge64(rs[i+1..])
  {
    var joined := RemoveAfter(rs[i := Join64(rs[i], rs[i+1])], i);
    assert rs[i..] == [rs[i], rs[i+1]] + rs[i+2..];
    MergeStep64(rs[i], rs[i+1], rs[i+2..]);
    assert joined[i..] == [Join64(rs[i], rs[i+1])] + rs[i+2..];
    assert rs[i+1..] == [rs[i+1]] + rs[i+2..];
    assert rs[..i+1] == rs[..i] + [rs[i]];
  }
}

/**
  The memory map as a value: the sequence of memory descriptors in chain order,
  and what every allocator operation does to that sequence, with unbounded
  integers. This module proves what an allocation means for the map from page
  numbers to memory types, for every request.
 */
module Regions {
  import opened Common

  const MAX_ALLOCATIONS: nat := 32768
  const MEMORY_RUNTIME: nat := 63  // bit 63 of the attribute word

  datatype MemoryType =
    | ReservedMemoryType | LoaderCode | LoaderData | BootServicesCode | BootServicesData
    | RuntimeServicesCode | RuntimeServicesData | ConventionalMemory | UnusableMemory
    | AcpiReclaimMemory | AcpiMemoryNvs | MemoryMappedIO | MemoryMappedIOPortSpace
    | PalCode | PersistentMemory

  datatype AllocateType = AllocateAnyPages | AllocateMaxAddress | AllocateAddress

  datatype Status = Success | OutOfResources | NotFound

  function Bytes(pages: nat): nat {
    4096 * pages
  }

  /** A descriptor without its virtual address; the attribute word is the set of its bits. */
  datatype Region = Region(start: nat, pages: nat, kind: MemoryType, attribute: set<nat>) {
    function End(): nat {
      start + Bytes(pages)
    }

    predicate Covers(page: nat) {
      start <= Bytes(page) < End()
    }
  }

  /** What an operation answers, and the map it leaves behind. */
  datatype Outcome = Outcome(status: Status, address: nat, regions: seq<Region>)

  // ---------------------------------------------------------------------------
  // The operations
  // ---------------------------------------------------------------------------

  predicate Fits(r: Region, how: AllocateType, count: nat, address: nat) {
    && r.kind == ConventionalMemory
    && match how
       case AllocateAddress => r.start <= address && address + Bytes(count) <= r.End()
       case AllocateAnyPages => r.pages >= count && r.start > 0x10_0000
       case AllocateMaxAddress => r.pages >= count && r.start + Bytes(count) <= address
  }

  /** Index of the first descriptor that can hold the request, or the length when there is none. */
  function FirstFit(rs: seq<Region>, how: AllocateType, count: nat, address: nat): (i: nat)
    ensures i <= |rs|
    ensures forall j :: 0 <= j < i ==> !Fits(rs[j], how, count, address)
    ensures i < |rs| ==> Fits(rs[i], how, count, address)
  {
    if rs == [] || Fits(rs[0], how, count, address) then 0
    else 1 + FirstFit(rs[1..], how, count, address)
  }

  function Split(rs: seq<Region>, i: nat, pages: nat): (r: seq<Region>)
    requires i < |rs| && pages <= rs[i].pages
    ensures |r| == |rs| + 1
  {
    rs[..i]
    + [rs[i].(pages := pages), rs[i].(start := rs[i].start + Bytes(pages), pages := rs[i].pages - pages)]
    + rs[i+1..]
  }

  function Retype(rs: seq<Region>, i: nat, kind: MemoryType): (r: seq<Region>)
    requires i < |rs|
    ensures |r| == |rs|
  {
    rs[i := rs[i].(kind := kind)]
  }

  function RuntimeMark(kind: MemoryType): set<nat> {
    if kind == RuntimeServicesCode || kind == RuntimeServicesData then {MEMORY_RUNTIME} else {}
  }

  /** Retypes a descriptor that was split off, and marks it when the type is a runtime type. */
  function Assign(rs: seq<Region>, i: nat, kind: MemoryType): (r: seq<Region>)
    requires i < |rs|
    ensures |r| == |rs|
  {
    rs[i := rs[i].(kind := kind, attribute := rs[i].attribute + RuntimeMark(kind))]
  }

  function Allocate(rs: seq<Region>, how: AllocateType, kind: MemoryType, count: nat, address: nat): (r: Outcome)
  {
    var i := FirstFit(rs, how, count, address);
    if i == |rs| then Outcome(OutOfResources, 0, rs)
    else if rs[i].pages == count then Outcome(Success, rs[i].start, Retype(rs, i, kind))
    else if |rs| >= MAX_ALLOCATIONS then Outcome(OutOfResources, 0, rs)
    else if how == AllocateAddress && rs[i].start != address then
      var halves := Split(rs, i, (address - rs[i].start) / 4096);
      if halves[i+1].pages <= count then
        Outcome(Success, halves[i+1].start, Assign(halves, i + 1, kind))
      else if |halves| >= MAX_ALLOCATIONS then Outcome(OutOfResources, 0, halves)
      else
        var thirds := Split(halves, i + 1, count);
        Outcome(Success, thirds[i+1].start, Assign(thirds, i + 1, kind))
    else
      var halves := Split(rs, i, count);
      Outcome(Success, halves[i].start, Assign(halves, i, kind))
  }

  function Add(rs: seq<Region>, r: Region): Outcome {
    if |rs| >= MAX_ALLOCATIONS then Outcome(OutOfResources, 0, rs)
    else Outcome(Success, 0, rs + [r])
  }

  predicate Mergeable(a: Region, b: Region) {
    a.kind == ConventionalMemory && b.kind == ConventionalMemory && b.start == a.End()
  }

  function Join(a: Region, b: Region): Region {
    a.(pages := a.pages + b.pages)
  }

  /** Joins neighbouring free descriptors until no two neighbours can be joined. */
  function Merge(rs: seq<Region>): seq<Region>
    decreases |rs|
  {
    if |rs| < 2 then rs
    else if Mergeable(rs[0], rs[1]) then Merge([Join(rs[0], rs[1])] + rs[2..])
    else [rs[0]] + Merge(rs[1..])
  }

  /** Index of the first descriptor that starts at the address, or the length when there is none. */
  function StartingAt(rs: seq<Region>, address: nat): (i: nat)
    ensures i <= |rs|
    ensures forall j :: 0 <= j < i ==> rs[j].start != address
    ensures i < |rs| ==> rs[i].start == address
  {
    if rs == [] || rs[0].start == address then 0 else 1 + StartingAt(rs[1..], address)
  }

  function Free(rs: seq<Region>, address: nat): Outcome {
    var i := StartingAt(rs, address);
    if i == |rs| then Outcome(NotFound, 0, rs)
    else Outcome(Success, 0, Merge(Retype(rs, i, ConventionalMemory)))
  }

  // ---------------------------------------------------------------------------
  // The page map
  // ---------------------------------------------------------------------------

  /** Page-aligned, in address order and disjoint; descriptors may be empty. */
  ghost predicate Ordered(rs: seq<Region>) {
    && (forall i :: 0 <= i < |rs| ==> rs[i].start % 4096 == 0)
    && (forall i, j :: 0 <= i < j < |rs| ==> rs[i].End() <= rs[j].start)
  }

  ghost predicate NoneEmpty(rs: seq<Region>) {
    forall i :: 0 <= i < |rs| ==> rs[i].pages >= 1
  }

  ghost predicate WellFormed(rs: seq<Region>) {
    Ordered(rs) && NoneEmpty(rs)
  }

  /** The descriptor that covers a page, if any. */
  function At(rs: seq<Region>, page: nat): Option<Region> {
    if rs == [] then None
    else if rs[0].Covers(page) then Some(rs[0])
    else At(rs[1..], page)
  }

  function TypeAt(rs: seq<Region>, page: nat): Option<MemoryType> {
    match At(rs, page)
    case None => None
    case Some(r) => Some(r.kind)
  }

  function AttributeAt(rs: seq<Region>, page: nat): Option<set<nat>> {
    match At(rs, page)
    case None => None
    case Some(r) => Some(r.attribute)
  }

  ghost predicate SameMap(rs: seq<Region>, rs': seq<Region>) {
    forall page: nat :: TypeAt(rs', page) == TypeAt(rs, page)
  }

  predicate InBlock(page: nat, address: nat, count: nat) {
    address <= Bytes(page) < address + Bytes(count)
  }

  lemma {:induction false} AtConcat(a: seq<Region>, b: seq<Region>, page: nat)
    ensures At(a + b, page) == if At(a, page).Some? then At(a, page) else At(b, page)
  {
    if a == [] {
      assert a + b == b;
    } else {
      assert (a + b)[1..] == a[1..] + b;
      AtConcat(a[1..], b, page);
    }
  }

  lemma {:induction false} AtWitness(rs: seq<Region>, page: nat) returns (i: nat)
    requires At(rs, page).Some?
    ensures i < |rs| && rs[i].Covers(page) && At(rs, page) == Some(rs[i])
  {
    if rs[0].Covers(page) {
      i := 0;
    } else {
      i := AtWitness(rs[1..], page);
      i := i + 1;
    }
  }

  lemma {:induction false} AtFirst(rs: seq<Region>, i: nat, page: nat)
    requires i < |rs| && rs[i].Covers(page)
    requires forall j :: 0 <= j < i ==> !rs[j].Covers(page)
    ensures At(rs, page) == Some(rs[i])
  {
    if i > 0 {
      AtFirst(rs[1..], i - 1, page);
    }
  }

  lemma AtRegion(rs: seq<Region>, i: nat, page: nat)
    requires Ordered(rs) && i < |rs| && rs[i].Covers(page)
    ensures At(rs, page) == Some(rs[i])
  {
    AtFirst(rs, i, page);
  }

  /** Replacing a stretch of descriptors only matters through what the stretch covers. */
  lemma AtReplace(pre: seq<Region>, mid: seq<Region>, post: seq<Region>, page: nat)
    ensures At(pre + mid + post, page) ==
            if At(pre, page).Some? then At(pre, page)
            else if At(mid, page).Some? then At(mid, page)
            else At(post, page)
  {
    AtConcat(pre + mid, post, page);
    AtConcat(pre, mid, page);
  }

  // ---------------------------------------------------------------------------
  // Carving a block out of one descriptor
  // ---------------------------------------------------------------------------

  /** Whole pages of the descriptor in front of an address. */
  function Offset(r: Region, at: nat): nat {
    if at <= r.start then 0 else (at - r.start) / 4096
  }

  predicate Room(r: Region, at: nat, count: nat) {
    Offset(r, at) + count <= r.pages
  }

  /** The remainder in front of the block, which may be empty; the block; the remainder behind it. */
  function Front(r: Region, at: nat): seq<Region> {
    if at <= r.start then [] else [r.(pages := Offset(r, at))]
  }

  function Base(r: Region, at: nat): nat {
    r.start + Bytes(Offset(r, at))
  }

  /** A request for a whole descriptor does not mark it. */
  function BlockAttribute(r: Region, count: nat, kind: MemoryType): set<nat> {
    if count == r.pages then r.attribute else r.attribute + RuntimeMark(kind)
  }

  function Block(r: Region, at: nat, count: nat, kind: MemoryType): Region {
    Region(Base(r, at), count, kind, BlockAttribute(r, count, kind))
  }

  function Back(r: Region, at: nat, count: nat): seq<Region> {
    var k := Offset(r, at) + count;
    if k >= r.pages then [] else [r.(start := r.start + Bytes(k), pages := r.pages - k)]
  }

  function Carve(r: Region, at: nat, count: nat, kind: MemoryType): (c: seq<Region>)
    ensures 1 <= |c| <= 3
  {
    Front(r, at) + [Block(r, at, count, kind)] + Back(r, at, count)
  }

  function Replace(rs: seq<Region>, i: nat, mid: seq<Region>): (r: seq<Region>)
    requires i < |rs|
    ensures |r| == |rs| + |mid| - 1
  {
    rs[..i] + mid + rs[i+1..]
  }

  /** Where a request lands inside the descriptor that holds it. */
  function Landing(r: Region, how: AllocateType, address: nat): nat {
    if how == AllocateAddress then address else r.start
  }

  lemma FitsHasRoom(r: Region, how: AllocateType, count: nat, address: nat)
    requires Fits(r, how, count, address)
    ensures var at := Landing(r, how, address);
            && r.start <= at && Room(r, at, count)
            && (r.pages == count ==> at == r.start)
  {
  }

  lemma SplitAtStart(rs: seq<Region>, i: nat, count: nat, kind: MemoryType)
    requires i < |rs| && count < rs[i].pages
    ensures Assign(Split(rs, i, count), i, kind) == Replace(rs, i, Carve(rs[i], rs[i].start, count, kind))
    ensures |Carve(rs[i], rs[i].start, count, kind)| == 2
  {
    var r := rs[i];
    assert Carve(r, r.start, count, kind)
        == [Block(r, r.start, count, kind), r.(start := r.start + Bytes(count), pages := r.pages - count)];
  }

  lemma SplitAtEnd(rs: seq<Region>, i: nat, at: nat, count: nat, kind: MemoryType)
    requires i < |rs| && rs[i].start < at && Offset(rs[i], at) + count == rs[i].pages && count != rs[i].pages
    ensures var halves := Split(rs, i, Offset(rs[i], at));
            && halves[i+1].pages == count && halves[i+1].start == Base(rs[i], at)
            && Assign(halves, i + 1, kind) == Replace(rs, i, Carve(rs[i], at, count, kind))
            && |Carve(rs[i], at, count, kind)| == 2
  {
    var r, k := rs[i], Offset(rs[i], at);
    assert Carve(r, at, count, kind) == [r.(pages := k), Block(r, at, count, kind)];
  }

  lemma SplitTwice(rs: seq<Region>, i: nat, at: nat, count: nat, kind: MemoryType)
    requires i < |rs| && rs[i].start < at && Offset(rs[i], at) + count < rs[i].pages
    ensures var halves := Split(rs, i, Offset(rs[i], at));
            && halves[i+1].pages > count
            && Split(halves, i + 1, count)[i+1].start == Base(rs[i], at)
            && Assign(Split(halves, i + 1, count), i + 1, kind) == Replace(rs, i, Carve(rs[i], at, count, kind))
            && |Carve(rs[i], at, count, kind)| == 3
  {
    var r, k := rs[i], Offset(rs[i], at);
    assert Carve(r, at, count, kind)
        == [r.(pages := k), Block(r, at, count, kind),
            r.(start := r.start + Bytes(k + count), pages := r.pages - (k + count))];
    var halves := Split(rs, i, k);
    assert halves[..i+1] == rs[..i] + [r.(pages := k)];
    assert halves[i+2..] == rs[i+1..];
  }

  /** The three answers of an allocation once a descriptor has been found. */
  ghost predicate Granted(o: Outcome, rs: seq<Region>, i: nat, at: nat, count: nat, kind: MemoryType)
    requires i < |rs|
  {
    o == Outcome(Success, Base(rs[i], at), Replace(rs, i, Carve(rs[i], at, count, kind)))
  }

  ghost predicate OutOfSlots(o: Outcome, rs: seq<Region>, i: nat, at: nat, count: nat)
    requires i < |rs|
  {
    && o.status == OutOfResources && o.address == 0
    && if rs[i].start < at && |rs| < MAX_ALLOCATIONS
       then Offset(rs[i], at) + count < rs[i].pages && o.regions == Split(rs, i, Offset(rs[i], at))
       else o.regions == rs
  }

  lemma ShapeWhole(rs: seq<Region>, how: AllocateType, kind: MemoryType, count: nat, address: nat)
    requires var i := FirstFit(rs, how, count, address); i < |rs| && rs[i].pages == count
    ensures var i := FirstFit(rs, how, count, address);
            && Granted(Allocate(rs, how, kind, count, address), rs, i, Landing(rs[i], how, address), count, kind)
            && |Carve(rs[i], Landing(rs[i], how, address), count, kind)| == 1
  {
    var i := FirstFit(rs, how, count, address);
    FitsHasRoom(rs[i], how, count, address);
    assert Carve(rs[i], rs[i].start, count, kind) == [rs[i].(kind := kind)];
    assert Retype(rs, i, kind) == Replace(rs, i, [rs[i].(kind := kind)]);
  }

  lemma ShapeAtStart(rs: seq<Region>, how: AllocateType, kind: MemoryType, count: nat, address: nat)
    requires var i := FirstFit(rs, how, count, address);
             && i < |rs| && Landing(rs[i], how, address) == rs[i].start && count < rs[i].pages
    ensures var o, i := Allocate(rs, how, kind, count, address), FirstFit(rs, how, count, address);
            && |Carve(rs[i], rs[i].start, count, kind)| == 2
            && (if |rs| + 1 <= MAX_ALLOCATIONS then Granted(o, rs, i, rs[i].start, count, kind)
                else OutOfSlots(o, rs, i, rs[i].start, count))
  {
    SplitAtStart(rs, FirstFit(rs, how, count, address), count, kind);
  }

  lemma {:induction false} ShapeAtEnd(rs: seq<Region>, kind: MemoryType, count: nat, address: nat)
    requires var i := FirstFit(rs, AllocateAddress, count, address);
             && i < |rs| && rs[i].start < address && rs[i].pages != count
             && Offset(rs[i], address) + count == rs[i].pages
    ensures var o := Allocate(rs, AllocateAddress, kind, count, address);
            var i := FirstFit(rs, AllocateAddress, count, address);
            && |Carve(rs[i], address, count, kind)| == 2
            && (if |rs| + 1 <= MAX_ALLOCATIONS then Granted(o, rs, i, address, count, kind)
                else OutOfSlots(o, rs, i, address, count))
  {
    hide Carve, Replace, Split, Assign, Retype, FirstFit, Base;
    SplitAtEnd(rs, FirstFit(rs, AllocateAddress, count, address), address, count, kind);
  }

  lemma {:induction false} ShapeInMiddle(rs: seq<Region>, kind: MemoryType, count: nat, address: nat)
    requires var i := FirstFit(rs, AllocateAddress, count, address);
             && i < |rs| && rs[i].start < address && rs[i].pages != count
             && Offset(rs[i], address) + count < rs[i].pages
    ensures var o := Allocate(rs, AllocateAddress, kind, count, address);
            var i := FirstFit(rs, AllocateAddress, count, address);
            && |Carve(rs[i], address, count, kind)| == 3
            && (if |rs| + 2 <= MAX_ALLOCATIONS then Granted(o, rs, i, address, count, kind)
                else OutOfSlots(o, rs, i, address, count))
  {
    hide Carve, Replace, Split, Assign, Retype, FirstFit, Base;
    SplitTwice(rs, FirstFit(rs, AllocateAddress, count, address), address, count, kind);
  }

  /**
    What an allocation can answer: nothing fits; a block is carved out of the
    first fitting descriptor; or slots ran out, possibly after a first split.
   */
  ghost predicate IsAnswer(o: Outcome, rs: seq<Region>, how: AllocateType, kind: MemoryType, count: nat, address: nat) {
    var i := FirstFit(rs, how, count, address);
    if i == |rs| then o == Outcome(OutOfResources, 0, rs)
    else
      var at := Landing(rs[i], how, address);
      && rs[i].start <= at && Room(rs[i], at, count)
      && (if |rs| + |Carve(rs[i], at, count, kind)| - 1 <= MAX_ALLOCATIONS
          then Granted(o, rs, i, at, count, kind)
          else OutOfSlots(o, rs, i, at, count))
  }

  lemma AllocateShape(rs: seq<Region>, how: AllocateType, kind: MemoryType, count: nat, address: nat)
    requires |rs| <= MAX_ALLOCATIONS
    ensures IsAnswer(Allocate(rs, how, kind, count, address), rs, how, kind, count, address)
  {
    hide Allocate, Carve, Granted, OutOfSlots, FirstFit;
    var i := FirstFit(rs, how, count, address);
    if i < |rs| {
      FitsHasRoom(rs[i], how, count, address);
      if rs[i].pages == count {
        ShapeWhole(rs, how, kind, count, address);
      } else if Landing(rs[i], how, address) == rs[i].start {
        ShapeAtStart(rs, how, kind, count, address);
      } else if Offset(rs[i], address) + count == rs[i].pages {
        ShapeAtEnd(rs, kind, count, address);
      } else {
        ShapeInMiddle(rs, kind, count, address);
      }
    } else {
      NothingFits(rs, how, kind, count, address);
    }
  }

  lemma NothingFits(rs: seq<Region>, how: AllocateType, kind: MemoryType, count: nat, address: nat)
    requires FirstFit(rs, how, count, address) == |rs|
    ensures Allocate(rs, how, kind, count, address) == Outcome(OutOfResources, 0, rs)
  {
  }

  // ---------------------------------------------------------------------------
  // What an allocation does to the page map
  // ---------------------------------------------------------------------------

  lemma CarveCovers(r: Region, at: nat, count: nat, kind: MemoryType, page: nat)
    requires Room(r, at, count)
    ensures var c := At(Carve(r, at, count, kind), page);
            if InBlock(page, Base(r, at), count) then c == Some(Block(r, at, count, kind))
            else if r.Covers(page) then c.Some? && c.value.kind == r.kind && c.value.attribute == r.attribute
            else c == None
  {
    AtReplace(Front(r, at), [Block(r, at, count, kind)], Back(r, at, count), page);
  }

  lemma SplitTypes(rs: seq<Region>, i: nat, k: nat, page: nat)
    requires i < |rs| && k <= rs[i].pages
    ensures TypeAt(Split(rs, i, k), page) == TypeAt(rs, page)
    ensures AttributeAt(Split(rs, i, k), page) == AttributeAt(rs, page)
  {
    var r := rs[i];
    var a, b := r.(pages := k), r.(start := r.start + Bytes(k), pages := r.pages - k);
    AtConcat([a], [b], page);
    assert [a, b] == [a] + [b];
    assert rs == rs[..i] + [r] + rs[i+1..];
    AtReplace(rs[..i], [r], rs[i+1..], page);
    AtReplace(rs[..i], [a, b], rs[i+1..], page);
  }

  lemma NoneBefore(rs: seq<Region>, i: nat, page: nat)
    requires Ordered(rs) && i < |rs| && rs[i].start <= Bytes(page)
    ensures At(rs[..i], page) == None
  {
    if At(rs[..i], page).Some? {
      var j := AtWitness(rs[..i], page);
      assert false;
    }
  }

  lemma ReplaceCovers(rs: seq<Region>, i: nat, at: nat, count: nat, kind: MemoryType, page: nat)
    requires Ordered(rs) && i < |rs| && Room(rs[i], at, count)
    ensures var r, out := rs[i], Replace(rs, i, Carve(rs[i], at, count, kind));
            if InBlock(page, Base(r, at), count)
            then At(rs, page) == Some(r) && At(out, page) == Some(Block(r, at, count, kind))
            else TypeAt(out, page) == TypeAt(rs, page) && AttributeAt(out, page) == AttributeAt(rs, page)
  {
    var r := rs[i];
    assert rs == rs[..i] + [r] + rs[i+1..];
    AtReplace(rs[..i], [r], rs[i+1..], page);
    AtReplace(rs[..i], Carve(r, at, count, kind), rs[i+1..], page);
    CarveCovers(r, at, count, kind, page);
    if r.Covers(page) {
      NoneBefore(rs, i, page);
    }
  }

  /** Exactly the pages of the block change their type, and they were free; only they can change their attribute. */
  ghost predicate RetypesBlock(o: Outcome, rs: seq<Region>, count: nat, kind: MemoryType, mark: set<nat>) {
    forall page: nat ::
      && TypeAt(o.regions, page) == (if InBlock(page, o.address, count) then Some(kind) else TypeAt(rs, page))
      && (InBlock(page, o.address, count) ==>
            TypeAt(rs, page) == Some(ConventionalMemory) && AttributeAt(rs, page).Some?)
      && AttributeAt(o.regions, page) ==
         (if InBlock(page, o.address, count) then Some(AttributeAt(rs, page).value + mark) else AttributeAt(rs, page))
  }

  ghost predicate SameAttributes(rs: seq<Region>, rs': seq<Region>) {
    forall page: nat :: AttributeAt(rs', page) == AttributeAt(rs, page)
  }

  /** The bit a granted block gets: none when the block is a whole descriptor. */
  function MarkOf(rs: seq<Region>, how: AllocateType, kind: MemoryType, count: nat, address: nat): set<nat> {
    var i := FirstFit(rs, how, count, address);
    if i < |rs| && rs[i].pages != count then RuntimeMark(kind) else {}
  }

  lemma AnswerRetypesBlock(o: Outcome, rs: seq<Region>, how: AllocateType, kind: MemoryType, count: nat, address: nat)
    requires Ordered(rs) && IsAnswer(o, rs, how, kind, count, address)
    ensures if o.status == Success then RetypesBlock(o, rs, count, kind, MarkOf(rs, how, kind, count, address))
            else o.status == OutOfResources && o.address == 0 && SameMap(rs, o.regions) && SameAttributes(rs, o.regions)
  {
    hide FirstFit, Carve, Replace, TypeAt, AttributeAt, Split;
    var i := FirstFit(rs, how, count, address);
    if o.status == Success {
      var at := Landing(rs[i], how, address);
      forall page: nat
        ensures TypeAt(o.regions, page) == (if InBlock(page, o.address, count) then Some(kind) else TypeAt(rs, page))
        ensures InBlock(page, o.address, count) ==>
                  TypeAt(rs, page) == Some(ConventionalMemory) && AttributeAt(rs, page).Some?
        ensures AttributeAt(o.regions, page) ==
                (if InBlock(page, o.address, count)
                 then Some(AttributeAt(rs, page).value + MarkOf(rs, how, kind, count, address))
                 else AttributeAt(rs, page))
      {
        ReplaceCovers(rs, i, at, count, kind, page);
        if InBlock(page, o.address, count) {
          assert BlockAttribute(rs[i], count, kind) == rs[i].attribute + MarkOf(rs, how, kind, count, address);
          AtGives(rs, page, rs[i]);
          AtGives(o.regions, page, Block(rs[i], at, count, kind));
        }
      }
    } else if o.regions != rs {
      var k := Offset(rs[i], Landing(rs[i], how, address));
      forall page: nat
        ensures TypeAt(o.regions, page) == TypeAt(rs, page) && AttributeAt(o.regions, page) == AttributeAt(rs, page)
      {
        SplitTypes(rs, i, k, page);
      }
    }
  }

  lemma AtGives(rs: seq<Region>, page: nat, r: Region)
    requires At(rs, page) == Some(r)
    ensures TypeAt(rs, page) == Some(r.kind) && AttributeAt(rs, page) == Some(r.attribute)
  {
  }

  /**
    A successful allocation retypes exactly the pages of its block, all of them
    free before, and marks them when the type is a runtime type and the block is
    not a whole descriptor; any failure, also one after the first of two splits,
    leaves types and attributes of all pages. This holds for every request, also
    for no pages and for an address inside a page.
   */
  lemma AllocateRetypesBlock(rs: seq<Region>, how: AllocateType, kind: MemoryType, count: nat, address: nat)
    requires Ordered(rs) && |rs| <= MAX_ALLOCATIONS
    ensures var o := Allocate(rs, how, kind, count, address);
            if o.status == Success then RetypesBlock(o, rs, count, kind, MarkOf(rs, how, kind, count, address))
            else o.status == OutOfResources && o.address == 0 && SameMap(rs, o.regions) && SameAttributes(rs, o.regions)
  {
    hide Allocate, RetypesBlock, SameMap, SameAttributes;
    AllocateShape(rs, how, kind, count, address);
    AnswerRetypesBlock(Allocate(rs, how, kind, count, address), rs, how, kind, count, address);
  }

  /** The address meets the mode of the request, and no fitting descriptor lies below it. */
  ghost predicate MeetsMode(base: nat, rs: seq<Region>, how: AllocateType, count: nat, address: nat) {
    && base % 4096 == 0
    && match how
       case AllocateAddress => base == address - address % 4096
       case AllocateMaxAddress =>
         && base + Bytes(count) <= address
         && forall j :: 0 <= j < |rs| && Fits(rs[j], how, count, address) ==> base <= rs[j].start
       case AllocateAnyPages =>
         && base > 0x10_0000
         && forall j :: 0 <= j < |rs| && Fits(rs[j], how, count, address) ==> base <= rs[j].start
  }

  lemma BaseIsFloor(r: Region, at: nat)
    requires r.start % 4096 == 0 && r.start <= at
    ensures Base(r, at) == at - at % 4096
  {
  }

  lemma AnswerMeetsMode(o: Outcome, rs: seq<Region>, how: AllocateType, kind: MemoryType, count: nat, address: nat)
    requires Ordered(rs) && IsAnswer(o, rs, how, kind, count, address)
    ensures o.status == Success ==> MeetsMode(o.address, rs, how, count, address)
  {
    hide Carve, Replace;
    var i := FirstFit(rs, how, count, address);
    if o.status == Success {
      BaseIsFloor(rs[i], Landing(rs[i], how, address));
      forall j | 0 <= j < |rs| && Fits(rs[j], how, count, address) ensures rs[i].start <= rs[j].start {
        assert i <= j;
      }
    }
  }

  /**
    A successful allocation lands where its mode asks, a fixed address rounded
    down to its page and the other modes as low as any fitting descriptor allows;
    it fails exactly when no descriptor fits or too few slots are left for the
    pieces.
   */
  lemma AllocateMeetsMode(rs: seq<Region>, how: AllocateType, kind: MemoryType, count: nat, address: nat)
    requires Ordered(rs) && |rs| <= MAX_ALLOCATIONS
    ensures var o, i := Allocate(rs, how, kind, count, address), FirstFit(rs, how, count, address);
            && (o.status == Success ==> MeetsMode(o.address, rs, how, count, address))
            && (o.status == Success <==>
                  && i < |rs|
                  && |rs| + |Carve(rs[i], Landing(rs[i], how, address), count, kind)| - 1 <= MAX_ALLOCATIONS)
            && (i == |rs| <==> forall j :: 0 <= j < |rs| ==> !Fits(rs[j], how, count, address))
  {
    hide Allocate, Carve, MeetsMode;
    AllocateShape(rs, how, kind, count, address);
    AnswerMeetsMode(Allocate(rs, how, kind, count, address), rs, how, kind, count, address);
  }

  // ---------------------------------------------------------------------------
  // What an allocation does to the layout
  // ---------------------------------------------------------------------------

  ghost predicate Inside(mid: seq<Region>, r: Region) {
    forall j :: 0 <= j < |mid| ==> r.start <= mid[j].start && mid[j].End() <= r.End()
  }

  lemma OrderedReplace(rs: seq<Region>, i: nat, mid: seq<Region>)
    requires Ordered(rs) && Ordered(mid) && i < |rs| && Inside(mid, rs[i])
    ensures Ordered(Replace(rs, i, mid))
    ensures NoneEmpty(rs) ==> (NoneEmpty(Replace(rs, i, mid)) <==> NoneEmpty(mid))
  {
    var r := Replace(rs, i, mid);
    forall a, b | 0 <= a < b < |r|
      ensures r[a].End() <= r[b].start
    {
      if a < i {
        assert r[a] == rs[a];
        if b >= i && b < i + |mid| {
          assert r[b] == mid[b-i] && rs[a].End() <= rs[i].start;
        }
      } else if a < i + |mid| {
        assert r[a] == mid[a-i];
        if b >= i + |mid| {
          assert r[b] == rs[b - |mid| + 1] && rs[i].End() <= rs[b - |mid| + 1].start;
        }
      }
    }
    if NoneEmpty(r) {
      forall j | 0 <= j < |mid| ensures mid[j].pages >= 1 {
        assert r[i+j] == mid[j];
      }
    }
  }

  lemma Lined(f: seq<Region>, b: Region, g: seq<Region>)
    requires |f| <= 1 && |g| <= 1 && b.start % 4096 == 0
    requires f != [] ==> f[0].start % 4096 == 0 && f[0].End() <= b.start
    requires g != [] ==> g[0].start % 4096 == 0 && b.End() <= g[0].start
    ensures Ordered(f + [b] + g)
    ensures NoneEmpty(f + [b] + g) <==> (f != [] ==> f[0].pages >= 1) && b.pages >= 1 && (g != [] ==> g[0].pages >= 1)
  {
    var all := f + [b] + g;
    assert all[|f|] == b;
    assert f != [] ==> all[0] == f[0];
    assert g != [] ==> all[|f|+1] == g[0];
    if f == [] {
      assert all == [b] + g;
    }
  }

  lemma CarveInside(r: Region, at: nat, count: nat, kind: MemoryType)
    requires r.start % 4096 == 0 && Room(r, at, count)
    ensures Ordered(Carve(r, at, count, kind)) && Inside(Carve(r, at, count, kind), r)
    ensures NoneEmpty(Carve(r, at, count, kind)) <==> count >= 1 && (at <= r.start || Offset(r, at) >= 1)
  {
    hide Ordered, NoneEmpty;
    Lined(Front(r, at), Block(r, at, count, kind), Back(r, at, count));
  }

  lemma SplitIsReplace(rs: seq<Region>, i: nat, k: nat)
    requires i < |rs| && k <= rs[i].pages
    ensures var r := rs[i];
            var a, b := r.(pages := k), r.(start := r.start + Bytes(k), pages := r.pages - k);
            && Split(rs, i, k) == Replace(rs, i, [a, b])
            && rs == Replace(rs, i, [Join(a, b)])
  {
  }

  lemma SplitKeepsOrdered(rs: seq<Region>, i: nat, k: nat)
    requires Ordered(rs) && i < |rs| && k <= rs[i].pages
    ensures Ordered(Split(rs, i, k))
    ensures NoneEmpty(rs) ==> (NoneEmpty(Split(rs, i, k)) <==> 1 <= k < rs[i].pages)
  {
    var r := rs[i];
    var a, b := r.(pages := k), r.(start := r.start + Bytes(k), pages := r.pages - k);
    SplitIsReplace(rs, i, k);
    assert [a, b][0] == a && [a, b][1] == b;
    OrderedReplace(rs, i, [a, b]);
  }

  /** A fixed address strictly inside the first page of the descriptor that holds it. */
  predicate InFirstPage(r: Region, how: AllocateType, address: nat) {
    how == AllocateAddress && r.start < address < r.start + 4096
  }

  ghost predicate LayoutAfter(o: Outcome, rs: seq<Region>, how: AllocateType, count: nat, address: nat) {
    var i := FirstFit(rs, how, count, address);
    && Ordered(o.regions)
    && |rs| <= |o.regions| <= |rs| + 2 && |o.regions| <= MAX_ALLOCATIONS
    && (o.status == Success ==> i < |rs|)
    && (NoneEmpty(rs) ==>
          (WellFormed(o.regions) <==>
             if o.status == Success then count >= 1 && !InFirstPage(rs[i], how, address)
             else !(i < |rs| && |rs| < MAX_ALLOCATIONS && InFirstPage(rs[i], how, address))))
  }

  lemma AnswerLayout(o: Outcome, rs: seq<Region>, how: AllocateType, kind: MemoryType, count: nat, address: nat)
    requires Ordered(rs) && |rs| <= MAX_ALLOCATIONS && IsAnswer(o, rs, how, kind, count, address)
    ensures LayoutAfter(o, rs, how, count, address)
  {
    hide FirstFit, Carve, Replace, Split, Ordered, NoneEmpty;
    var i := FirstFit(rs, how, count, address);
    if i < |rs| {
      var r, at := rs[i], Landing(rs[i], how, address);
      OrderedStart(rs, i);
      if o.status == Success {
        CarveInside(r, at, count, kind);
        OrderedReplace(rs, i, Carve(r, at, count, kind));
      } else if o.regions != rs {
        SplitKeepsOrdered(rs, i, Offset(r, at));
      }
    }
  }

  lemma OrderedStart(rs: seq<Region>, i: nat)
    requires Ordered(rs) && i < |rs|
    ensures rs[i].start % 4096 == 0
  {
  }

  /**
    Every allocation keeps the descriptors aligned, in order and disjoint, and
    within the slots. It leaves an empty descriptor exactly when it grants no
    pages, or splits for an address strictly inside the first page of a
    descriptor.
   */
  lemma AllocateKeepsLayout(rs: seq<Region>, how: AllocateType, kind: MemoryType, count: nat, address: nat)
    requires Ordered(rs) && |rs| <= MAX_ALLOCATIONS
    ensures LayoutAfter(Allocate(rs, how, kind, count, address), rs, how, count, address)
  {
    hide Allocate, LayoutAfter, IsAnswer;
    AllocateShape(rs, how, kind, count, address);
    AnswerLayout(Allocate(rs, how, kind, count, address), rs, how, kind, count, address);
  }

  /**
    One page asked for at an address just inside a descriptor: the answer is the
    start of the descriptor, an empty descriptor is left in front, and freeing
    the answer frees nothing.
   */
  lemma FirstPageExample()
    ensures var rs := [Region(0x20_0000, 10, ConventionalMemory, {})];
            var o := Allocate(rs, AllocateAddress, LoaderData, 1, 0x20_0001);
            && o == Outcome(Success, 0x20_0000,
                            [Region(0x20_0000, 0, ConventionalMemory, {}), Region(0x20_0000, 1, LoaderData, {}),
                             Region(0x20_1000, 9, ConventionalMemory, {})])
            && Free(o.regions, o.address) == Outcome(Success, 0, o.regions)
            && TypeAt(o.regions, 0x200) == Some(LoaderData)
  {
    var r := Region(0x20_0000, 10, ConventionalMemory, {});
    var out := [Region(0x20_0000, 0, ConventionalMemory, {}), Region(0x20_0000, 1, LoaderData, {}),
                Region(0x20_1000, 9, ConventionalMemory, {})];
    AllocateShape([r], AllocateAddress, LoaderData, 1, 0x20_0001);
    assert FirstFit([r], AllocateAddress, 1, 0x20_0001) == 0;
    assert BlockAttribute(r, 1, LoaderData) == {};
    assert Carve(r, 0x20_0001, 1, LoaderData) == out;
    assert Replace([r], 0, out) == out;
    assert out[1..] == [out[1], out[2]] && out[1..][1..] == [out[2]];
    assert Retype(out, 0, ConventionalMemory) == out;
    assert Merge([out[2]]) == [out[2]] && Merge(out[1..]) == [out[1]] + [out[2]];
  }
}

/**
  The allocator's operations in 64-bit arithmetic that wraps around, as the
  program computes them, and when they agree with the operations on unbounded
  integers.
 */
module Machine {
  import opened Common
  import opened Arithmetic
  import opened Regions
  import opened Runs

  function Add64(a: nat, b: nat): u64 {
    (a + b) % U64
  }

  function Sub64(a: nat, b: nat): u64 {
    (a - b) % U64
  }

  function Bytes64(pages: nat): u64 {
    Bytes(pages) % U64
  }

  function End64(r: Region): u64 {
    Add64(r.start, Bytes64(r.pages))
  }

  predicate Fits64(r: Region, how: AllocateType, count: nat, address: nat) {
    && r.kind == ConventionalMemory
    && match how
       case AllocateAddress => r.start <= address && Add64(address, Bytes64(count)) <= End64(r)
       case AllocateAnyPages => r.pages >= count && r.start > 0x10_0000
       case AllocateMaxAddress => r.pages >= count && Add64(r.start, Bytes64(count)) <= address
  }

  function FirstFit64(rs: seq<Region>, how: AllocateType, count: nat, address: nat): (i: nat)
    ensures i <= |rs|
    ensures forall j :: 0 <= j < i ==> !Fits64(rs[j], how, count, address)
    ensures i < |rs| ==> Fits64(rs[i], how, count, address)
  {
    if rs == [] || Fits64(rs[0], how, count, address) then 0
    else 1 + FirstFit64(rs[1..], how, count, address)
  }

  function Split64(rs: seq<Region>, i: nat, pages: nat): (r: seq<Region>)
    requires i < |rs|
    ensures |r| == |rs| + 1
  {
    rs[..i]
    + [rs[i].(pages := pages),
       rs[i].(start := Add64(rs[i].start, Bytes64(pages)), pages := Sub64(rs[i].pages, pages))]
    + rs[i+1..]
  }

  function Allocate64(rs: seq<Region>, how: AllocateType, kind: MemoryType, count: nat, address: nat): (r: Outcome)
  {
    var i := FirstFit64(rs, how, count, address);
    if i == |rs| then Outcome(OutOfResources, 0, rs)
    else if rs[i].pages == count then Outcome(Success, rs[i].start, Retype(rs, i, kind))
    else if |rs| >= MAX_ALLOCATIONS then Outcome(OutOfResources, 0, rs)
    else if how == AllocateAddress && rs[i].start != address then
      var halves := Split64(rs, i, (address - rs[i].start) / 4096);
      if halves[i+1].pages <= count then
        Outcome(Success, halves[i+1].start, Assign(halves, i + 1, kind))
      else if |halves| >= MAX_ALLOCATIONS then Outcome(OutOfResources, 0, halves)
      else
        var thirds := Split64(halves, i + 1, count);
        Outcome(Success, thirds[i+1].start, Assign(thirds, i + 1, kind))
    else
      var halves := Split64(rs, i, count);
      Outcome(Success, halves[i].start, Assign(halves, i, kind))
  }

  predicate Mergeable64(a: Region, b: Region) {
    a.kind == ConventionalMemory && b.kind == ConventionalMemory && b.start == End64(a)
  }

  function Join64(a: Region, b: Region): Region {
    a.(pages := Add64(a.pages, b.pages))
  }

  function Merge64(rs: seq<Region>): seq<Region>
    decreases |rs|
  {
    if |rs| < 2 then rs
    else if Mergeable64(rs[0], rs[1]) then Merge64([Join64(rs[0], rs[1])] + rs[2..])
    else [rs[0]] + Merge64(rs[1..])
  }

  function Free64(rs: seq<Region>, address: nat): Outcome {
    var i := StartingAt(rs, address);
    if i == |rs| then Outcome(NotFound, 0, rs)
    else Outcome(Success, 0, Merge64(Retype(rs, i, ConventionalMemory)))
  }

  function Serve64(rs: seq<Region>, q: Request): Outcome {
    match q
    case AddRequest(region) => Add(rs, region)
    case AllocateRequest(how, kind, count, address) => Allocate64(rs, how, kind, count, address)
    case FreeRequest(address) => Free64(rs, address)
  }

  function Run64(rs: seq<Region>, qs: seq<Request>): seq<Region>
    decreases |qs|
  {
    if qs == [] then rs else Run64(Serve64(rs, qs[0]).regions, qs[1..])
  }

  // ---------------------------------------------------------------------------
  // Agreement
  // ---------------------------------------------------------------------------

  /** All memory ends below 2^64. */
  ghost predicate Addressable(rs: seq<Region>) {
    EndsBy(rs, U64 - 1)
  }

  /** The end of the requested block, computed without bounds. */
  function RequestEnd(count: nat, address: nat): nat {
    address + Bytes(count)
  }

  predicate RequestFits64(how: AllocateType, count: nat, address: nat) {
    how == AllocateAddress ==> RequestEnd(count, address) < U64
  }

  lemma SumOfSum(a: nat, pages: nat)
    ensures Add64(a, Bytes64(pages)) == (a + Bytes(pages)) % U64
  {
    ModAdd(a, Bytes(pages), U64);
  }

  lemma Small(n: nat)
    requires n < U64
    ensures n % U64 == n
  {
  }

  lemma EndAgrees(r: Region)
    requires r.End() < U64
    ensures End64(r) == r.End()
  {
    SumOfSum(r.start, r.pages);
    Small(r.End());
  }

  lemma FitsAgrees(r: Region, how: AllocateType, count: nat, address: nat)
    requires r.End() < U64 && RequestFits64(how, count, address)
    ensures Fits64(r, how, count, address) <==> Fits(r, how, count, address)
  {
    hide Add64, Bytes64, End64;
    EndAgrees(r);
    match how {
      case AllocateAddress =>
        SumOfSum(address, count);
        Small(address + Bytes(count));
      case AllocateAnyPages =>
      case AllocateMaxAddress =>
        SumOfSum(r.start, count);
        if r.pages >= count {
          Small(r.start + Bytes(count));
        }
    }
  }

  lemma FirstFitAgrees(rs: seq<Region>, how: AllocateType, count: nat, address: nat)
    requires Addressable(rs) && RequestFits64(how, count, address)
    ensures FirstFit64(rs, how, count, address) == FirstFit(rs, how, count, address)
  {
    hide FirstFit64, FirstFit, Fits64, Fits;
    var i, j := FirstFit64(rs, how, count, address), FirstFit(rs, how, count, address);
    if i < |rs| {
      FitsAgrees(rs[i], how, count, address);
    }
    if j < |rs| {
      FitsAgrees(rs[j], how, count, address);
    }
  }

  lemma SplitAgrees(rs: seq<Region>, i: nat, pages: nat)
    requires i < |rs| && pages <= rs[i].pages && rs[i].End() < U64
    ensures Split64(rs, i, pages) == Split(rs, i, pages)
  {
    hide Add64, Bytes64;
    SumOfSum(rs[i].start, pages);
    Small(rs[i].start + Bytes(pages));
    Small(rs[i].pages - pages);
  }

  lemma SplitTwiceAgrees(rs: seq<Region>, i: nat, k: nat, count: nat)
    requires i < |rs| && k + count <= rs[i].pages && rs[i].End() < U64
    ensures Split64(rs, i, k) == Split(rs, i, k)
    ensures Split64(Split64(rs, i, k), i + 1, count) == Split(Split(rs, i, k), i + 1, count)
  {
    SplitAgrees(rs, i, k);
    SplitAgrees(Split(rs, i, k), i + 1, count);
  }

  /** When neither the memory nor the requested block reaches 2^64, wrap-around plays no part. */
  lemma {:induction false} AllocateAgrees(rs: seq<Region>, how: AllocateType, kind: MemoryType, count: nat,
      address: nat)
    requires Addressable(rs) && RequestFits64(how, count, address)
    ensures Allocate64(rs, how, kind, count, address) == Allocate(rs, how, kind, count, address)
  {
    hide FirstFit, FirstFit64, Split, Split64, Retype, Assign, Fits, Fits64;
    FirstFitAgrees(rs, how, count, address);
    var i := FirstFit(rs, how, count, address);
    if i < |rs| {
      FitsHasRoom(rs[i], how, count, address);
      if how == AllocateAddress && rs[i].start != address {
        SplitTwiceAgrees(rs, i, (address - rs[i].start) / 4096, count);
      } else {
        SplitAgrees(rs, i, count);
      }
    }
  }

  lemma RefusedTogether(rs: seq<Region>, kind: MemoryType, count: nat, address: nat)
    requires Addressable(rs) && Ordered(rs)
    requires RequestEnd(count, address) >= U64 && RequestEnd(count, address) % U64 > U64 - 4096
    ensures Allocate64(rs, AllocateAddress, kind, count, address) == Allocate(rs, AllocateAddress, kind, count, address)
  {
    SumOfSum(address, count);
    forall i | 0 <= i < |rs|
      ensures !Fits64(rs[i], AllocateAddress, count, address) && !Fits(rs[i], AllocateAddress, count, address)
    {
      EndAgrees(rs[i]);
      AlignedEnd(rs[i]);
    }
    assert FirstFit64(rs, AllocateAddress, count, address) == |rs|;
    assert FirstFit(rs, AllocateAddress, count, address) == |rs|;
  }

  lemma AlignedEnd(r: Region)
    requires r.start % 4096 == 0 && r.End() < U64
    ensures r.End() <= U64 - 4096
  {
    var q := r.start / 4096 + r.pages;
    assert r.End() == 4096 * q;
  }

  /** The largest memory below 2^64, all free. */
  function Everything(): Region {
    Region(0, 0xf_ffff_ffff_ffff, ConventionalMemory, {})
  }

  lemma GrantedByWrapping(kind: MemoryType, count: nat, address: nat)
    requires RequestEnd(count, address) >= U64 && RequestEnd(count, address) % U64 <= U64 - 4096
    ensures Allocate64([Everything()], AllocateAddress, kind, count, address).status == Success
    ensures Allocate([Everything()], AllocateAddress, kind, count, address).status == OutOfResources
  {
    var r := Everything();
    EndAgrees(r);
    SumOfSum(address, count);
    assert Fits64(r, AllocateAddress, count, address) && !Fits(r, AllocateAddress, count, address);
    assert FirstFit64([r], AllocateAddress, count, address) == 0;
    assert FirstFit([r], AllocateAddress, count, address) == 1;
  }

  ghost predicate AgreeOn(rs: seq<Region>, how: AllocateType, kind: MemoryType, count: nat, address: nat) {
    Addressable(rs) && Ordered(rs) ==>
      Allocate64(rs, how, kind, count, address) == Allocate(rs, how, kind, count, address)
  }

  /**
    A request is answered as if there were no wrap-around, whatever the memory
    map, exactly when its end does not wrap, or wraps into the last page of the
    address space.
   */
  lemma AgreesIff(how: AllocateType, kind: MemoryType, count: nat, address: nat)
    ensures (forall rs :: AgreeOn(rs, how, kind, count, address))
            <==> RequestFits64(how, count, address) || RequestEnd(count, address) % U64 > U64 - 4096
  {
    hide Allocate, Allocate64, Addressable, Ordered;
    if RequestFits64(how, count, address) {
      forall rs ensures AgreeOn(rs, how, kind, count, address) {
        if Addressable(rs) {
          AllocateAgrees(rs, how, kind, count, address);
        }
      }
    } else if RequestEnd(count, address) % U64 > U64 - 4096 {
      forall rs ensures AgreeOn(rs, how, kind, count, address) {
        if Addressable(rs) && Ordered(rs) {
          RefusedTogether(rs, kind, count, address);
        }
      }
    } else {
      GrantedByWrapping(kind, count, address);
      EverythingIsAddressable();
      assert !AgreeOn([Everything()], how, kind, count, address);
    }
  }

  lemma EverythingIsAddressable()
    ensures Addressable([Everything()]) && Ordered([Everything()])
  {
  }

  /** A request for 2^52 pages is granted by ten free ones, and leaves a descriptor of that size. */
  lemma WrappedRequestExample()
    ensures var rs := [Region(0x20_0000, 10, ConventionalMemory, {})];
            var count := 0x10_0000_0000_0000;
            var o := Allocate64(rs, AllocateAddress, LoaderData, count, 0x20_0000);
            && o.status == Success && o.address == 0x20_0000
            && |o.regions| == 2 && o.regions[0] == Region(0x20_0000, count, LoaderData, {})
            && Allocate(rs, AllocateAddress, LoaderData, count, 0x20_0000) == Outcome(OutOfResources, 0, rs)
  {
    var r, count := Region(0x20_0000, 10, ConventionalMemory, {}), 0x10_0000_0000_0000;
    assert Fits64(r, AllocateAddress, count, 0x20_0000) && !Fits(r, AllocateAddress, count, 0x20_0000);
    assert FirstFit64([r], AllocateAddress, count, 0x20_0000) == 0;
    assert FirstFit([r], AllocateAddress, count, 0x20_0000) == 1;
    assert r.attribute + RuntimeMark(LoaderData) == {};
  }

  lemma JoinAgrees(a: Region, b: Region)
    requires a.End() < U64 && b.End() < U64
    ensures Mergeable64(a, b) <==> Mergeable(a, b)
    ensures Mergeable(a, b) ==> Join64(a, b) == Join(a, b) && Join(a, b).End() < U64
  {
    EndAgrees(a);
    if Mergeable(a, b) {
      Small(a.pages + b.pages);
    }
  }

  lemma {:induction false} MergeAgrees(rs: seq<Region>)
    requires Addressable(rs)
    ensures Merge64(rs) == Merge(rs)
    decreases |rs|
  {
    if |rs| >= 2 {
      hide Mergeable, Mergeable64, Join, Join64;
      JoinAgrees(rs[0], rs[1]);
      if Mergeable(rs[0], rs[1]) {
        MergeAgrees([Join(rs[0], rs[1])] + rs[2..]);
      } else {
        MergeAgrees(rs[1..]);
      }
    }
  }

  lemma FreeAgrees(rs: seq<Region>, address: nat)
    requires Addressable(rs)
    ensures Free64(rs, address) == Free(rs, address)
  {
    var i := StartingAt(rs, address);
    if i < |rs| {
      MergeAgrees(Retype(rs, i, ConventionalMemory));
    }
  }

  predicate NeverWraps(q: Request) {
    match q
    case AddRequest(region) => region.End() < U64
    case AllocateRequest(how, _, count, address) => RequestFits64(how, count, address)
    case FreeRequest(_) => true
  }

  lemma ServeAgrees(rs: seq<Region>, q: Request)
    requires Addressable(rs) && NeverWraps(q)
    ensures Serve64(rs, q) == Serve(rs, q)
  {
    match q {
      case AddRequest(_) =>
      case AllocateRequest(how, kind, count, address) => AllocateAgrees(rs, how, kind, count, address);
      case FreeRequest(address) => FreeAgrees(rs, address);
    }
  }

  /** Runs whose requests do not wrap do what the runs on unbounded integers do. */
  lemma {:induction false} RunAgrees(rs: seq<Region>, qs: seq<Request>)
    requires Ordered(rs) && |rs| <= MAX_ALLOCATIONS && Addressable(rs) && LegalRun(rs, qs)
    requires forall i :: 0 <= i < |qs| ==> NeverWraps(qs[i])
    ensures Run64(rs, qs) == Run(rs, qs)
    decreases |qs|
  {
    if qs != [] {
      hide Serve, Serve64, Legal, Clean, Ordered, NoneEmpty, EndsBy;
      ServeAgrees(rs, qs[0]);
      ServeKeepsLayout(rs, qs[0]);
      assert NeverWraps(qs[0]);
      ServeStaysBelow(rs, qs[0], U64 - 1);
      RunAgrees(Serve(rs, qs[0]).regions, qs[1..]);
    }
  }
}

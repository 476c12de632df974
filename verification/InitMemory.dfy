/**
  Start-up: the memory map is built from the hand-off blocks (HOBs) of the
  previous boot stage. A first pass adds the system memory, a second pass
  allocates what is already taken.
 */
module InitMemory {
  import opened Common
  import opened Regions
  import opened Merging
  import opened Runs
  import opened Machine
  import opened PageAllocator

  const RESOURCE_SYSTEM_MEMORY: nat := 0
  const MEMORY_WB: nat := 3  // bit 3 of the attribute word

  datatype Hob =
    | ResourceDescriptor(resourceType: nat, start: u64, length: u64)
    | MemoryAllocation(kind: MemoryType, base: u64, length: u64)
    | OtherHob
    | EndOfHobList

  function Ram(hob: Hob): Region
    requires hob.ResourceDescriptor?
  {
    Region(hob.start, hob.length / 4096, ConventionalMemory, {MEMORY_WB})
  }

  /** A claim asks for a place and a type; its attribute plays no part. */
  function ClaimOf(hob: Hob): Region
    requires hob.MemoryAllocation?
  {
    Region(hob.base, hob.length / 4096, hob.kind, {})
  }

  /** The system memory a list describes, up to its end marker. */
  function Rams(hobs: seq<Hob>): seq<Region> {
    if hobs == [] || hobs[0].EndOfHobList? then []
    else
      (if hobs[0].ResourceDescriptor? && hobs[0].resourceType == RESOURCE_SYSTEM_MEMORY
       then [Ram(hobs[0])] else [])
      + Rams(hobs[1..])
  }

  /** The allocations a list describes, up to its end marker. */
  function Claims(hobs: seq<Hob>): seq<Region> {
    if hobs == [] || hobs[0].EndOfHobList? then []
    else
      (if hobs[0].MemoryAllocation? then [ClaimOf(hobs[0])] else [])
      + Claims(hobs[1..])
  }

  function AddAll(rs: seq<Region>, rams: seq<Region>): seq<Region>
    decreases |rams|
  {
    if rams == [] then rs
    else AddAll(Add(rs, rams[0]).regions, rams[1..])
  }

  function ClaimAll(rs: seq<Region>, claims: seq<Region>): seq<Region>
    decreases |claims|
  {
    if claims == [] then rs
    else
      var c := claims[0];
      ClaimAll(Allocate64(rs, AllocateAddress, c.kind, c.pages, c.start).regions, claims[1..])
  }

  lemma RamsStep(hobs: seq<Hob>, h: nat, rs: seq<Region>)
    requires h < |hobs| && !hobs[h].EndOfHobList?
    ensures AddAll(rs, Rams(hobs[h..])) ==
            if hobs[h].ResourceDescriptor? && hobs[h].resourceType == RESOURCE_SYSTEM_MEMORY
            then AddAll(Add(rs, Ram(hobs[h])).regions, Rams(hobs[h+1..]))
            else AddAll(rs, Rams(hobs[h+1..]))
  {
    assert hobs[h..][1..] == hobs[h+1..];
    var rest := Rams(hobs[h+1..]);
    if hobs[h].ResourceDescriptor? && hobs[h].resourceType == RESOURCE_SYSTEM_MEMORY {
      var r := Ram(hobs[h]);
      assert Rams(hobs[h..]) == [r] + rest && ([r] + rest)[1..] == rest;
    } else {
      assert Rams(hobs[h..]) == [] + rest == rest;
    }
  }

  lemma ClaimsStep(hobs: seq<Hob>, h: nat, rs: seq<Region>)
    requires h < |hobs| && !hobs[h].EndOfHobList?
    ensures ClaimAll(rs, Claims(hobs[h..])) ==
            if hobs[h].MemoryAllocation?
            then ClaimAll(Allocate64(rs, AllocateAddress, hobs[h].kind, hobs[h].length / 4096, hobs[h].base).regions,
                          Claims(hobs[h+1..]))
            else ClaimAll(rs, Claims(hobs[h+1..]))
  {
    assert hobs[h..][1..] == hobs[h+1..];
    var rest := Claims(hobs[h+1..]);
    if hobs[h].MemoryAllocation? {
      var c := ClaimOf(hobs[h]);
      assert Claims(hobs[h..]) == [c] + rest && ([c] + rest)[1..] == rest;
    } else {
      assert Claims(hobs[h..]) == [] + rest == rest;
    }
  }

  method AddResources(a: Allocator, hobs: seq<Hob>)
    requires a.Valid() && EndOfHobList in hobs
    modifies a, a.allocations
    ensures a.Valid() && a.regions == AddAll(old(a.regions), Rams(hobs))
  {
    var h := 0;
    while true
      invariant a.Valid() && h < |hobs| && EndOfHobList in hobs[h..]
      invariant AddAll(a.regions, Rams(hobs[h..])) == AddAll(old(a.regions), Rams(hobs))
      decreases |hobs| - h
    {
      if hobs[h].EndOfHobList? {
        break;
      }
      RamsStep(hobs, h, a.regions);
      if hobs[h].ResourceDescriptor? && hobs[h].resourceType == RESOURCE_SYSTEM_MEMORY {
        var _ := a.AddInitialAllocation(ConventionalMemory, hobs[h].length / 4096, hobs[h].start, {MEMORY_WB});
      }
      h := h + 1;
    }
  }

  method ClaimAllocations(a: Allocator, hobs: seq<Hob>)
    requires a.Valid() && EndOfHobList in hobs
    modifies a, a.allocations
    ensures a.Valid() && a.regions == ClaimAll(old(a.regions), Claims(hobs))
  {
    var h := 0;
    while true
      invariant a.Valid() && h < |hobs| && EndOfHobList in hobs[h..]
      invariant ClaimAll(a.regions, Claims(hobs[h..])) == ClaimAll(old(a.regions), Claims(hobs))
      decreases |hobs| - h
    {
      if hobs[h].EndOfHobList? {
        break;
      }
      ClaimsStep(hobs, h, a.regions);
      if hobs[h].MemoryAllocation? {
        var _, _ := a.AllocatePages(AllocateAddress, hobs[h].kind, hobs[h].length / 4096, hobs[h].base);
      }
      h := h + 1;
    }
  }

  /** The two passes over the list; the list must have an end marker, or the walk runs off it. */
  method InitializeMemory(a: Allocator, hobs: seq<Hob>)
    requires a.Valid() && EndOfHobList in hobs
    modifies a, a.allocations
    ensures a.Valid()
    ensures a.regions == ClaimAll(AddAll(old(a.regions), Rams(hobs)), Claims(hobs))
  {
    AddResources(a, hobs);
    ClaimAllocations(a, hobs);
  }

  // ---------------------------------------------------------------------------
  // What the map is in the end
  // ---------------------------------------------------------------------------

  /** Two regions share no byte. */
  predicate Disjoint(a: Region, b: Region) {
    a.End() <= b.start || b.End() <= a.start
  }

  predicate Within(c: Region, r: Region) {
    r.start <= c.start && c.End() <= r.End()
  }

  ghost predicate Fresh(rams: seq<Region>) {
    forall i :: 0 <= i < |rams| ==> rams[i].kind == ConventionalMemory && rams[i].attribute == {MEMORY_WB}
  }

  lemma {:induction false} RamsAreFresh(hobs: seq<Hob>)
    ensures Fresh(Rams(hobs))
  {
    if hobs != [] && !hobs[0].EndOfHobList? {
      RamsAreFresh(hobs[1..]);
    }
  }

  /** Sorted disjoint memory below 2^64; disjoint whole-page claims, each inside one piece of it; enough slots. */
  ghost predicate Consistent(rams: seq<Region>, claims: seq<Region>) {
    && WellFormed(rams) && Addressable(rams)
    && (forall i :: 0 <= i < |claims| ==> ClaimOk(rams, claims[i]))
    && (forall i, j :: 0 <= i < j < |claims| ==> Disjoint(claims[i], claims[j]))
    && |rams| + 2 * |claims| <= MAX_ALLOCATIONS
  }

  ghost predicate ClaimOk(rams: seq<Region>, c: Region) {
    && c.start % 4096 == 0 && c.pages >= 1 && c.kind != ConventionalMemory
    && exists i :: 0 <= i < |rams| && Within(c, rams[i])
  }

  function Override(claims: seq<Region>, rams: seq<Region>, page: nat): Option<MemoryType> {
    if TypeAt(claims, page).Some? then TypeAt(claims, page) else TypeAt(rams, page)
  }

  function Starts(rs: seq<Region>): set<nat> {
    set r | r in rs :: r.start
  }

  function Ends(rs: seq<Region>): set<nat> {
    set r | r in rs :: r.End()
  }

  /** Where descriptors start once the claims have been cut out of the memory. */
  ghost predicate StartsAt(rams: seq<Region>, done: seq<Region>, s: nat) {
    s in Starts(rams) || s in Starts(done) || (s in Ends(done) && TypeAt(rams, s / 4096).Some?)
  }

  /** A claim takes all that is left of a descriptor once the claims `done` have been cut out. */
  ghost predicate TakesAll(rams: seq<Region>, done: seq<Region>, c: Region) {
    && StartsAt(rams, done, c.start)
    && (StartsAt(rams, done, c.End()) || TypeAt(rams, c.End() / 4096) == None)
  }

  /** The mark a claim gets when it is served after the claims `done`. */
  ghost function Judge(rams: seq<Region>, done: seq<Region>, c: Region): set<nat> {
    if TakesAll(rams, done, c) then {} else RuntimeMark(c.kind)
  }

  /** The mark of a page: that of its claim, judged against the claims before it. */
  ghost function MarkAt(rams: seq<Region>, claims: seq<Region>, page: nat): set<nat> {
    if claims == [] then {}
    else
      var n := |claims| - 1;
      if claims[n].Covers(page) then Judge(rams, claims[..n], claims[n]) else MarkAt(rams, claims[..n], page)
  }

  /** Memory is write-back cacheable; claimed pages have the mark of their claim as well. */
  ghost predicate AttributeOk(rs: seq<Region>, rams: seq<Region>, done: seq<Region>, page: nat) {
    AttributeAt(rs, page).Some? ==> AttributeAt(rs, page) == Some({MEMORY_WB} + MarkAt(rams, done, page))
  }

  /** The map after the claims `done` have been served. */
  ghost predicate Served(rs: seq<Region>, rams: seq<Region>, done: seq<Region>) {
    && WellFormed(rs) && Addressable(rs) && |rs| <= |rams| + 2 * |done|
    && CoalescedUpTo(rs, Starts(rams))
    && (forall page: nat :: TypeAt(rs, page) == Override(done, rams, page))
    && (forall s: nat :: s in Starts(rs) <==> StartsAt(rams, done, s))
    && forall page: nat :: AttributeOk(rs, rams, done, page)
  }

  lemma {:induction false} AddAllAppends(rs: seq<Region>, rams: seq<Region>)
    requires |rs| + |rams| <= MAX_ALLOCATIONS
    ensures AddAll(rs, rams) == rs + rams
    decreases |rams|
  {
    if rams != [] {
      AddAllAppends(rs + [rams[0]], rams[1..]);
      assert rs + [rams[0]] + rams[1..] == rs + rams;
    }
  }

  lemma ClaimIsFree(rs: seq<Region>, rams: seq<Region>, done: seq<Region>, c: Region)
    requires WellFormed(rams) && Fresh(rams) && ClaimOk(rams, c)
    requires forall page: nat :: TypeAt(rs, page) == Override(done, rams, page)
    requires forall i :: 0 <= i < |done| ==> Disjoint(done[i], c)
    ensures AllFree(rs, c.start, c.pages) && NoSeamInside(Starts(rams), c.start, c.pages)
    ensures forall page: nat :: InBlock(page, c.start, c.pages) ==> TypeAt(done, page) == None
  {
    var k :| 0 <= k < |rams| && Within(c, rams[k]);
    forall page: nat | InBlock(page, c.start, c.pages)
      ensures TypeAt(rs, page) == Some(ConventionalMemory) && TypeAt(done, page) == None
    {
      AtRegion(rams, k, page);
      if TypeAt(done, page).Some? {
        var i := AtWitness(done, page);
        assert false;
      }
    }
    forall s | s in Starts(rams) ensures !(c.start < s < c.start + Bytes(c.pages)) {
      var j :| 0 <= j < |rams| && rams[j].start == s;
      assert j < k ==> rams[j].End() <= rams[k].start;
      assert k < j ==> rams[k].End() <= rams[j].start;
    }
  }

  /** Where descriptors start after a block has been cut out of one of them. */
  lemma CutStarts(rs: seq<Region>, i: nat, c: Region, s: nat)
    requires WellFormed(rs) && i < |rs| && rs[i].start <= c.start && c.End() <= rs[i].End() && c.start % 4096 == 0
    ensures s in Starts(Replace(rs, i, Carve(rs[i], c.start, c.pages, c.kind))) <==>
            s in Starts(rs) || s == c.start || (s == c.End() && s < rs[i].End())
  {
    var r := rs[i];
    var mid := Carve(r, c.start, c.pages, c.kind);
    var out := Replace(rs, i, mid);
    assert Base(r, c.start) == c.start;
    CarveStarts(r, c, s);
    ReplaceStarts(rs, i, mid, s);
  }

  lemma CarveStarts(r: Region, c: Region, s: nat)
    requires r.start % 4096 == 0 && c.start % 4096 == 0 && r.start <= c.start && c.End() <= r.End()
    ensures s in Starts(Carve(r, c.start, c.pages, c.kind)) <==>
            s == r.start || s == c.start || (s == c.End() && s < r.End())
  {
    var f, b, g := Front(r, c.start), Block(r, c.start, c.pages, c.kind), Back(r, c.start, c.pages);
    assert b.start == c.start;
    assert forall x :: x in f + [b] + g <==> x in f || x == b || x in g;
    assert f != [] ==> f[0] in f && f[0].start == r.start;
    assert g != [] ==> g[0] in g && g[0].start == c.End();
    assert b in f + [b] + g;
  }

  lemma ReplaceStarts(rs: seq<Region>, i: nat, mid: seq<Region>, s: nat)
    requires i < |rs| && rs[i].start in Starts(mid)
    ensures s in Starts(Replace(rs, i, mid)) <==> s in Starts(rs) || s in Starts(mid)
  {
    var pre, post := rs[..i], rs[i+1..];
    assert rs == pre + [rs[i]] + post;
    assert forall x :: x in pre + mid + post <==> x in pre || x in mid || x in post;
    assert forall x :: x in rs <==> x in pre || x == rs[i] || x in post;
  }

  lemma StartsOfConcat(done: seq<Region>, c: Region, s: nat)
    ensures s in Starts(done + [c]) <==> s in Starts(done) || s == c.start
    ensures s in Ends(done + [c]) <==> s in Ends(done) || s == c.End()
  {
    assert forall x :: x in done + [c] <==> x in done || x == c;
    assert c in done + [c];
  }

  lemma EndIsStart(rs: seq<Region>, i: nat)
    requires WellFormed(rs) && i < |rs| && TypeAt(rs, rs[i].End() / 4096).Some?
    ensures rs[i].End() in Starts(rs)
  {
    var j := AtWitness(rs, rs[i].End() / 4096);
    NeighbourAt(rs, i, j);
    assert rs[j] in rs;
  }

  lemma CoveredPages(rs: seq<Region>, rams: seq<Region>, done: seq<Region>, page: nat)
    requires WellFormed(rams) && forall i :: 0 <= i < |done| ==> ClaimOk(rams, done[i])
    requires TypeAt(rs, page) == Override(done, rams, page)
    ensures TypeAt(rs, page).Some? <==> TypeAt(rams, page).Some?
  {
    if TypeAt(done, page).Some? {
      var i := AtWitness(done, page);
      var k :| 0 <= k < |rams| && Within(done[i], rams[k]);
      AtRegion(rams, k, page);
    }
  }

  lemma ServedStarts(rs: seq<Region>, rams: seq<Region>, done: seq<Region>, c: Region, i: nat, s: nat)
    requires WellFormed(rs) && WellFormed(rams) && i < |rs| && rs[i].start <= c.start && c.End() <= rs[i].End()
    requires c.start % 4096 == 0 && (s in Starts(rs) <==> StartsAt(rams, done, s))
    requires s == c.End() ==> (TypeAt(rs, s / 4096).Some? <==> TypeAt(rams, s / 4096).Some?)
    ensures s in Starts(Replace(rs, i, Carve(rs[i], c.start, c.pages, c.kind))) <==> StartsAt(rams, done + [c], s)
  {
    hide Starts, Ends, Carve, Replace;
    CutStarts(rs, i, c, s);
    StartsOfConcat(done, c, s);
    if s == c.End() {
      if s < rs[i].End() {
        assert rs[i].Covers(s / 4096);
        AtRegion(rs, i, s / 4096);
      } else if TypeAt(rs, s / 4096).Some? {
        EndIsStart(rs, i);
      }
    }
  }

  /** Serving one more claim grants it, overrides exactly its pages and cuts the memory at its ends. */
  lemma ServeClaim(rs: seq<Region>, rams: seq<Region>, done: seq<Region>, c: Region)
    requires Served(rs, rams, done) && |rams| + 2 * |done| + 2 <= MAX_ALLOCATIONS
    requires WellFormed(rams) && Fresh(rams) && Addressable(rams)
    requires ClaimOk(rams, c) && forall i :: 0 <= i < |done| ==> ClaimOk(rams, done[i]) && Disjoint(done[i], c)
    ensures var o := Allocate64(rs, AllocateAddress, c.kind, c.pages, c.start);
            && o == Allocate(rs, AllocateAddress, c.kind, c.pages, c.start)
            && o.status == Success && Served(o.regions, rams, done + [c])
  {
    hide Allocate, Allocate64, WellFormed, CoalescedUpTo, AllFree, NoSeamInside, Starts, LayoutAfter, Override,
      TypeAt, RetypesBlock, StartsAt, AttributeOk, Carve, Addressable, Fresh, Judge, MarkOf;
    var o, seams := Allocate(rs, AllocateAddress, c.kind, c.pages, c.start), Starts(rams);
    ClaimDoesNotWrap(rams, c);
    AllocateAgrees(rs, AllocateAddress, c.kind, c.pages, c.start);
    ClaimIsFree(rs, rams, done, c);
    ClaimIsGranted(rs, c, seams);
    StaysAddressable(rs, AllocateAddress, c.kind, c.pages, c.start);
    ClaimMark(rs, rams, done, c);
    ClaimPages(o, rs, rams, done, c);
    ClaimCuts(o, rs, rams, done, c);
  }

  lemma ClaimDoesNotWrap(rams: seq<Region>, c: Region)
    requires Addressable(rams) && ClaimOk(rams, c)
    ensures RequestFits64(AllocateAddress, c.pages, c.start)
  {
  }

  lemma ClaimIsGranted(rs: seq<Region>, c: Region, seams: set<nat>)
    requires WellFormed(rs) && |rs| + 2 <= MAX_ALLOCATIONS && CoalescedUpTo(rs, seams)
    requires c.start % 4096 == 0 && c.pages >= 1 && c.kind != ConventionalMemory
    requires AllFree(rs, c.start, c.pages) && NoSeamInside(seams, c.start, c.pages)
    ensures var o := Allocate(rs, AllocateAddress, c.kind, c.pages, c.start);
            var i := FirstFit(rs, AllocateAddress, c.pages, c.start);
            && o.status == Success && o.address == c.start
            && WellFormed(o.regions) && |o.regions| <= |rs| + 2 && CoalescedUpTo(o.regions, seams)
            && RetypesBlock(o, rs, c.pages, c.kind, MarkOf(rs, AllocateAddress, c.kind, c.pages, c.start))
            && i < |rs| && rs[i].start <= c.start && c.End() <= rs[i].End()
            && o.regions == Replace(rs, i, Carve(rs[i], c.start, c.pages, c.kind))
  {
    hide Allocate, Ordered, NoneEmpty, CoalescedUpTo, AllFree, NoSeamInside, RetypesBlock, Carve, Replace, FirstFit;
    AddressGrantedIffFree(rs, c.kind, c.pages, c.start, seams);
    AllocateShape(rs, AllocateAddress, c.kind, c.pages, c.start);
    AllocateKeepsLayout(rs, AllocateAddress, c.kind, c.pages, c.start);
    AllocateKeepsCoalesced(rs, AllocateAddress, c.kind, c.pages, c.start, seams);
    AllocateRetypesBlock(rs, AllocateAddress, c.kind, c.pages, c.start);
    var i := FirstFit(rs, AllocateAddress, c.pages, c.start);
    OrderedStart(rs, i);
    BaseIsFloor(rs[i], c.start);
    assert seams + {} == seams;
  }

  lemma {:induction false} UnclaimedIsUnmarked(rams: seq<Region>, done: seq<Region>, page: nat)
    requires TypeAt(done, page) == None
    ensures MarkAt(rams, done, page) == {}
    decreases |done|
  {
    if done != [] {
      var n := |done| - 1;
      assert done == done[..n] + [done[n]];
      AtConcat(done[..n], [done[n]], page);
      UnclaimedIsUnmarked(rams, done[..n], page);
    }
  }

  lemma StartInside(rs: seq<Region>, i: nat, s: nat)
    requires WellFormed(rs) && i < |rs| && rs[i].start <= s < rs[i].End()
    ensures s in Starts(rs) <==> s == rs[i].start
  {
    assert rs[i] in rs;
    if s in Starts(rs) {
      var m :| 0 <= m < |rs| && rs[m].start == s;
      assert m < i ==> rs[m].End() <= rs[i].start;
    }
  }

  /** A claim that fits a descriptor is all of it exactly when it takes all that is left. */
  lemma WholeIff(rs: seq<Region>, rams: seq<Region>, done: seq<Region>, c: Region, i: nat)
    requires WellFormed(rs) && i < |rs| && rs[i].start <= c.start && c.End() <= rs[i].End()
    requires c.start % 4096 == 0 && c.pages >= 1
    requires c.start in Starts(rs) <==> StartsAt(rams, done, c.start)
    requires c.End() in Starts(rs) <==> StartsAt(rams, done, c.End())
    requires TypeAt(rs, c.End() / 4096).Some? <==> TypeAt(rams, c.End() / 4096).Some?
    ensures rs[i].pages == c.pages <==> TakesAll(rams, done, c)
  {
    hide StartsAt, Starts;
    var e := c.End();
    StartInside(rs, i, c.start);
    if e < rs[i].End() {
      StartInside(rs, i, e);
      assert rs[i].Covers(e / 4096);
      AtRegion(rs, i, e / 4096);
    } else if TypeAt(rs, e / 4096).Some? {
      EndIsStart(rs, i);
    }
  }

  lemma ClaimMark(rs: seq<Region>, rams: seq<Region>, done: seq<Region>, c: Region)
    requires WellFormed(rs) && WellFormed(rams) && c.start % 4096 == 0 && c.pages >= 1
    requires forall page: nat :: TypeAt(rs, page) == Override(done, rams, page)
    requires forall s: nat :: s in Starts(rs) <==> StartsAt(rams, done, s)
    requires forall i :: 0 <= i < |done| ==> ClaimOk(rams, done[i])
    requires var i := FirstFit(rs, AllocateAddress, c.pages, c.start);
             i < |rs| && rs[i].start <= c.start && c.End() <= rs[i].End()
    ensures MarkOf(rs, AllocateAddress, c.kind, c.pages, c.start) == Judge(rams, done, c)
  {
    hide WellFormed, FirstFit, Starts, StartsAt, TypeAt, Override, TakesAll;
    CoveredPages(rs, rams, done, c.End() / 4096);
    WholeIff(rs, rams, done, c, FirstFit(rs, AllocateAddress, c.pages, c.start));
  }

  lemma ClaimPages(o: Outcome, rs: seq<Region>, rams: seq<Region>, done: seq<Region>, c: Region)
    requires forall page: nat :: TypeAt(rs, page) == Override(done, rams, page)
    requires forall page: nat :: AttributeOk(rs, rams, done, page)
    requires forall page: nat :: InBlock(page, c.start, c.pages) ==> TypeAt(done, page) == None
    requires o.address == c.start && RetypesBlock(o, rs, c.pages, c.kind, Judge(rams, done, c))
    ensures forall page: nat :: TypeAt(o.regions, page) == Override(done + [c], rams, page)
    ensures forall page: nat :: AttributeOk(o.regions, rams, done + [c], page)
  {
    hide TypeAt, Override, AttributeOk, RetypesBlock, Judge;
    forall page: nat
      ensures TypeAt(o.regions, page) == Override(done + [c], rams, page)
      ensures AttributeOk(o.regions, rams, done + [c], page)
    {
      ClaimPage(o, rs, rams, done, c, page);
    }
  }

  lemma ClaimPage(o: Outcome, rs: seq<Region>, rams: seq<Region>, done: seq<Region>, c: Region, page: nat)
    requires TypeAt(rs, page) == Override(done, rams, page) && AttributeOk(rs, rams, done, page)
    requires InBlock(page, c.start, c.pages) ==> TypeAt(done, page) == None
    requires o.address == c.start && RetypesBlock(o, rs, c.pages, c.kind, Judge(rams, done, c))
    ensures TypeAt(o.regions, page) == Override(done + [c], rams, page)
    ensures AttributeOk(o.regions, rams, done + [c], page)
  {
    hide Judge;
    AtConcat(done, [c], page);
    assert (done + [c])[..|done|] == done;
    if InBlock(page, c.start, c.pages) {
      UnclaimedIsUnmarked(rams, done, page);
      assert {MEMORY_WB} + {} + Judge(rams, done, c) == {MEMORY_WB} + Judge(rams, done, c);
    }
  }

  lemma ClaimCuts(o: Outcome, rs: seq<Region>, rams: seq<Region>, done: seq<Region>, c: Region)
    requires WellFormed(rs) && WellFormed(rams) && c.start % 4096 == 0
    requires forall page: nat :: TypeAt(rs, page) == Override(done, rams, page)
    requires forall s: nat :: s in Starts(rs) <==> StartsAt(rams, done, s)
    requires forall i :: 0 <= i < |done| ==> ClaimOk(rams, done[i])
    requires var i := FirstFit(rs, AllocateAddress, c.pages, c.start);
             && i < |rs| && rs[i].start <= c.start && c.End() <= rs[i].End()
             && o.regions == Replace(rs, i, Carve(rs[i], c.start, c.pages, c.kind))
    ensures forall s: nat :: s in Starts(o.regions) <==> StartsAt(rams, done + [c], s)
  {
    hide WellFormed, Carve, Replace, FirstFit, Starts, StartsAt, TypeAt, Override;
    var i := FirstFit(rs, AllocateAddress, c.pages, c.start);
    forall s: nat ensures s in Starts(o.regions) <==> StartsAt(rams, done + [c], s) {
      CoveredPages(rs, rams, done, s / 4096);
      ServedStarts(rs, rams, done, c, i, s);
    }
  }

  lemma NextClaim(rams: seq<Region>, done: seq<Region>, rest: seq<Region>)
    requires Consistent(rams, done + rest) && rest != []
    ensures WellFormed(rams) && Addressable(rams) && |rams| + 2 * |done| + 2 <= MAX_ALLOCATIONS
    ensures ClaimOk(rams, rest[0])
    ensures forall i :: 0 <= i < |done| ==> ClaimOk(rams, done[i]) && Disjoint(done[i], rest[0])
  {
    hide WellFormed, Addressable, ClaimOk, Disjoint;
    var all := done + rest;
    assert rest[0] == all[|done|] && forall i :: 0 <= i < |done| ==> all[i] == done[i];
  }

  lemma {:induction false} ClaimAllServes(rs: seq<Region>, rams: seq<Region>, done: seq<Region>, rest: seq<Region>)
    requires Consistent(rams, done + rest) && Fresh(rams) && Served(rs, rams, done)
    ensures Served(ClaimAll(rs, rest), rams, done + rest)
    decreases |rest|
  {
    hide Consistent, Served, WellFormed, Addressable, Allocate64, Allocate, ClaimOk, Disjoint, Fresh;
    if rest == [] {
      assert done + rest == done;
    } else {
      var c := rest[0];
      NextClaim(rams, done, rest);
      ServeClaim(rs, rams, done, c);
      assert done + [c] + rest[1..] == done + rest;
      ClaimAllServes(Allocate64(rs, AllocateAddress, c.kind, c.pages, c.start).regions, rams, done + [c], rest[1..]);
    }
  }

  lemma RamsAreServed(rams: seq<Region>)
    requires WellFormed(rams) && Fresh(rams) && Addressable(rams)
    ensures Served(rams, rams, [])
  {
    forall i | 0 <= i < |rams| - 1 && Mergeable(rams[i], rams[i+1]) ensures rams[i+1].start in Starts(rams) {
      assert rams[i+1] in rams;
    }
    forall page: nat ensures AttributeOk(rams, rams, [], page) {
      if At(rams, page).Some? {
        var i := AtWitness(rams, page);
        assert {MEMORY_WB} + {} == {MEMORY_WB};
      }
    }
  }

  function InitialMap(hobs: seq<Hob>): seq<Region> {
    ClaimAll(AddAll([], Rams(hobs)), Claims(hobs))
  }

  lemma InitialMapIsServed(hobs: seq<Hob>)
    requires Consistent(Rams(hobs), Claims(hobs))
    ensures Served(InitialMap(hobs), Rams(hobs), Claims(hobs))
  {
    hide Served, Fresh;
    var rams, claims := Rams(hobs), Claims(hobs);
    AddAllAppends([], rams);
    assert [] + rams == rams && [] + claims == claims;
    RamsAreFresh(hobs);
    RamsAreServed(rams);
    ClaimAllServes(rams, rams, [], claims);
  }

  /**
    Start-up leaves system memory overridden by the claims: a claimed page has
    the type of its claim, every other page of memory is free, and nothing else
    is mapped. The map is well-formed. Every page is write-back cacheable, and it
    carries the runtime mark exactly when it has a runtime claim that did not take
    all that was left of a descriptor.
   */
  lemma InitialMapIsOverride(hobs: seq<Hob>)
    requires Consistent(Rams(hobs), Claims(hobs))
    ensures WellFormed(InitialMap(hobs))
    ensures forall page: nat :: TypeAt(InitialMap(hobs), page) == Override(Claims(hobs), Rams(hobs), page)
    ensures forall page: nat :: AttributeOk(InitialMap(hobs), Rams(hobs), Claims(hobs), page)
  {
    hide InitialMap, WellFormed, Override, AttributeOk, TypeAt;
    InitialMapIsServed(hobs);
  }

  // ---------------------------------------------------------------------------
  // The order of the claims
  // ---------------------------------------------------------------------------

  lemma TypeAtFromMember(claims: seq<Region>, c: Region, page: nat)
    requires c in claims && c.Covers(page)
    requires forall i, j :: 0 <= i < j < |claims| ==> Disjoint(claims[i], claims[j])
    ensures TypeAt(claims, page) == Some(c.kind)
  {
    var i :| 0 <= i < |claims| && claims[i] == c;
    AtFirst(claims, i, page);
  }

  lemma SameClaims(claims: seq<Region>, claims': seq<Region>, page: nat)
    requires forall c :: c in claims <==> c in claims'
    requires forall i, j :: 0 <= i < j < |claims'| ==> Disjoint(claims'[i], claims'[j])
    ensures TypeAt(claims, page).Some? ==> TypeAt(claims', page) == TypeAt(claims, page)
  {
    if TypeAt(claims, page).Some? {
      var i := AtWitness(claims, page);
      TypeAtFromMember(claims', claims[i], page);
    }
  }

  lemma MembersOfMultiset(a: seq<Region>, b: seq<Region>)
    requires multiset(a) == multiset(b)
    ensures forall c :: c in a <==> c in b
  {
    forall c ensures c in a <==> c in b {
      assert c in a <==> c in multiset(a);
      assert c in b <==> c in multiset(b);
    }
  }

  /** A place where descriptors touch is a start with a covered page in front. */
  lemma TouchIsStart(rs: seq<Region>, s: nat)
    requires WellFormed(rs)
    ensures TouchAt(rs, s) <==> s in Starts(rs) && s >= 4096 && TypeAt(rs, s / 4096 - 1).Some?
  {
    if TouchAt(rs, s) {
      var i: nat :| Touches(rs, i, s);
      assert rs[i+1] in rs && rs[i].Covers(s / 4096 - 1);
      AtRegion(rs, i, s / 4096 - 1);
    }
    if s in Starts(rs) && s >= 4096 && TypeAt(rs, s / 4096 - 1).Some? {
      var j :| 0 <= j < |rs| && rs[j].start == s;
      var m := AtWitness(rs, s / 4096 - 1);
      BeforeStart(rs, j, m);
      NextIsNeighbour(rs, m, j);
      assert Touches(rs, m, s);
    }
  }

  lemma NextIsNeighbour(rs: seq<Region>, m: nat, j: nat)
    requires WellFormed(rs) && m < |rs| && j < |rs| && rs[m].End() == rs[j].start
    ensures j == m + 1
  {
    assert m < j;
    assert rs[m].End() <= rs[m+1].start < rs[m+1].End();
  }

  lemma SameStartsTouch(a: seq<Region>, b: seq<Region>)
    requires WellFormed(a) && WellFormed(b) && SameMap(a, b) && Starts(a) == Starts(b)
    ensures SameTouches(a, b)
  {
    hide Starts, WellFormed, TypeAt, TouchAt;
    forall s: nat ensures TouchAt(a, s) <==> TouchAt(b, s) {
      TouchIsStart(a, s);
      TouchIsStart(b, s);
    }
  }

  lemma SameStarts(rams: seq<Region>, claims: seq<Region>, claims': seq<Region>, a: seq<Region>, b: seq<Region>)
    requires forall c :: c in claims <==> c in claims'
    requires forall s: nat :: s in Starts(a) <==> StartsAt(rams, claims, s)
    requires forall s: nat :: s in Starts(b) <==> StartsAt(rams, claims', s)
    ensures Starts(a) == Starts(b)
  {
    assert Starts(claims) == Starts(claims') && Ends(claims) == Ends(claims');
  }

  /** The order of the claims does not matter: the same claims give the same descriptors, attributes aside. */
  lemma ClaimOrderIsIrrelevant(hobs: seq<Hob>, hobs': seq<Hob>)
    requires Consistent(Rams(hobs), Claims(hobs)) && Consistent(Rams(hobs'), Claims(hobs'))
    requires Rams(hobs) == Rams(hobs') && multiset(Claims(hobs)) == multiset(Claims(hobs'))
    ensures SameShape(InitialMap(hobs), InitialMap(hobs'))
  {
    var claims, claims' := Claims(hobs), Claims(hobs');
    var a, b := InitialMap(hobs), InitialMap(hobs');
    MembersOfMultiset(claims, claims');
    InitialMapIsServed(hobs);
    InitialMapIsServed(hobs');
    hide InitialMap, WellFormed, TypeAt, Starts, StartsAt, SameTouches, SameShape;
    SameStarts(Rams(hobs), claims, claims', a, b);
    forall page: nat ensures TypeAt(b, page) == TypeAt(a, page) {
      SameClaims(claims, claims', page);
      SameClaims(claims', claims, page);
    }
    SameStartsTouch(a, b);
    MapDeterminesShape(a, b);
  }

  /** The mark a claim of the list gets, judged against the claims in front of it. */
  ghost function MarkIn(rams: seq<Region>, claims: seq<Region>, c: Region): set<nat> {
    if claims == [] then {}
    else
      var n := |claims| - 1;
      if claims[n] == c then Judge(rams, claims[..n], c) else MarkIn(rams, claims[..n], c)
  }

  lemma {:induction false} MarkOfClaimedPage(rams: seq<Region>, claims: seq<Region>, c: Region, page: nat)
    requires c in claims && c.Covers(page)
    requires forall i, j :: 0 <= i < j < |claims| ==> Disjoint(claims[i], claims[j])
    ensures MarkAt(rams, claims, page) == MarkIn(rams, claims, c)
    decreases |claims|
  {
    var n := |claims| - 1;
    if claims[n] != c {
      var i :| 0 <= i < |claims| && claims[i] == c;
      assert Disjoint(claims[i], claims[n]);
      assert claims[..n][i] == c;
      MarkOfClaimedPage(rams, claims[..n], c, page);
    }
  }

  ghost predicate JudgedAlike(rams: seq<Region>, claims: seq<Region>, claims': seq<Region>) {
    forall c :: c in claims ==> MarkIn(rams, claims, c) == MarkIn(rams, claims', c)
  }

  lemma MarksCancel(m: set<nat>, m': set<nat>)
    requires MEMORY_WB !in m && MEMORY_WB !in m' && {MEMORY_WB} + m == {MEMORY_WB} + m'
    ensures m == m'
  {
    forall x ensures x in m <==> x in m' {
      assert x in {MEMORY_WB} + m <==> x in {MEMORY_WB} + m';
    }
  }

  lemma {:induction false} MarkIsRuntime(rams: seq<Region>, claims: seq<Region>, c: Region)
    ensures MEMORY_WB !in MarkIn(rams, claims, c)
    decreases |claims|
  {
    if claims != [] {
      MarkIsRuntime(rams, claims[..|claims|-1], c);
    }
  }

  ghost predicate AllDisjoint(claims: seq<Region>) {
    forall i, j :: 0 <= i < j < |claims| ==> Disjoint(claims[i], claims[j])
  }

  /** Pages have the same mark in both orders exactly when all claims are judged alike. */
  lemma SameMarkAt(rams: seq<Region>, claims: seq<Region>, claims': seq<Region>, page: nat)
    requires forall c :: c in claims <==> c in claims'
    requires AllDisjoint(claims) && AllDisjoint(claims') && JudgedAlike(rams, claims, claims')
    ensures MarkAt(rams, claims, page) == MarkAt(rams, claims', page)
  {
    hide Judge;
    SameClaims(claims, claims', page);
    SameClaims(claims', claims, page);
    if TypeAt(claims, page).Some? {
      var i := AtWitness(claims, page);
      assert claims[i] in claims && claims[i] in claims';
      MarkOfClaimedPage(rams, claims, claims[i], page);
      MarkOfClaimedPage(rams, claims', claims[i], page);
    } else {
      UnclaimedIsUnmarked(rams, claims, page);
      UnclaimedIsUnmarked(rams, claims', page);
    }
  }

  lemma AttributeOfRegion(rs: seq<Region>, rams: seq<Region>, claims: seq<Region>, i: nat)
    requires WellFormed(rs) && i < |rs| && forall page: nat :: AttributeOk(rs, rams, claims, page)
    ensures rs[i].attribute == {MEMORY_WB} + MarkAt(rams, claims, rs[i].start / 4096)
  {
    hide MarkAt;
    var page := rs[i].start / 4096;
    AtRegion(rs, i, page);
    AtGives(rs, page, rs[i]);
    assert AttributeOk(rs, rams, claims, page);
  }

  lemma AlikeGivesEqual(a: seq<Region>, b: seq<Region>, rams: seq<Region>, claims: seq<Region>, claims': seq<Region>)
    requires WellFormed(a) && WellFormed(b) && SameShape(a, b)
    requires forall page: nat :: AttributeOk(a, rams, claims, page)
    requires forall page: nat :: AttributeOk(b, rams, claims', page)
    requires forall c :: c in claims <==> c in claims'
    requires AllDisjoint(claims) && AllDisjoint(claims') && JudgedAlike(rams, claims, claims')
    ensures a == b
  {
    hide WellFormed, AttributeOk, MarkAt, AllDisjoint, JudgedAlike;
    forall i | 0 <= i < |a| ensures a[i] == b[i] {
      AttributeOfRegion(a, rams, claims, i);
      AttributeOfRegion(b, rams, claims', i);
      SameMarkAt(rams, claims, claims', a[i].start / 4096);
    }
  }

  lemma EqualGivesAlike(a: seq<Region>, rams: seq<Region>, claims: seq<Region>, claims': seq<Region>, c: Region)
    requires forall page: nat :: AttributeOk(a, rams, claims, page)
    requires forall page: nat :: AttributeOk(a, rams, claims', page)
    requires forall page: nat :: TypeAt(a, page) == Override(claims, rams, page)
    requires c in claims && c in claims' && AllDisjoint(claims) && AllDisjoint(claims')
    requires c.start % 4096 == 0 && c.pages >= 1
    ensures MarkIn(rams, claims, c) == MarkIn(rams, claims', c)
  {
    hide MarkAt, MarkIn;
    var page := c.start / 4096;
    assert c.Covers(page);
    TypeAtFromMember(claims, c, page);
    assert TypeAt(a, page) == Override(claims, rams, page);
    assert AttributeOk(a, rams, claims, page) && AttributeOk(a, rams, claims', page);
    MarkOfClaimedPage(rams, claims, c, page);
    MarkOfClaimedPage(rams, claims', c, page);
    MarkIsRuntime(rams, claims, c);
    MarkIsRuntime(rams, claims', c);
    MarksCancel(MarkIn(rams, claims, c), MarkIn(rams, claims', c));
  }

  /**
    Two orders of the same claims give the same map, attributes included, exactly
    when every claim is judged alike in both: it gets the runtime mark in both or
    in neither.
   */
  lemma ClaimOrderIff(hobs: seq<Hob>, hobs': seq<Hob>)
    requires Consistent(Rams(hobs), Claims(hobs)) && Consistent(Rams(hobs'), Claims(hobs'))
    requires Rams(hobs) == Rams(hobs') && multiset(Claims(hobs)) == multiset(Claims(hobs'))
    ensures InitialMap(hobs) == InitialMap(hobs') <==> JudgedAlike(Rams(hobs), Claims(hobs), Claims(hobs'))
  {
    var rams, claims, claims' := Rams(hobs), Claims(hobs), Claims(hobs');
    var a, b := InitialMap(hobs), InitialMap(hobs');
    hide InitialMap, WellFormed, AttributeOk, Override, TypeAt, ClaimOk, SameShape, MarkIn, Rams, Claims;
    MembersOfMultiset(claims, claims');
    ClaimOrderIsIrrelevant(hobs, hobs');
    InitialMapIsOverride(hobs);
    InitialMapIsOverride(hobs');
    if JudgedAlike(rams, claims, claims') {
      AlikeGivesEqual(a, b, rams, claims, claims');
    }
    if a == b {
      forall c | c in claims ensures MarkIn(rams, claims, c) == MarkIn(rams, claims', c) {
        ClaimIsWhole(rams, claims, c);
        EqualGivesAlike(a, rams, claims, claims', c);
      }
    }
  }

  lemma ClaimIsWhole(rams: seq<Region>, claims: seq<Region>, c: Region)
    requires Consistent(rams, claims) && c in claims
    ensures c.start % 4096 == 0 && c.pages >= 1
  {
    var i :| 0 <= i < |claims| && claims[i] == c;
    assert ClaimOk(rams, claims[i]);
  }

  /** The block lists of two claims that fill a memory of two pages, one after the other. */
  function TwoClaims(first: Hob, second: Hob): seq<Hob> {
    [ResourceDescriptor(RESOURCE_SYSTEM_MEMORY, 0x20_0000, 0x2000), first, second, EndOfHobList]
  }

  lemma RamsAndClaims(first: Hob, second: Hob)
    requires first.MemoryAllocation? && second.MemoryAllocation?
    ensures Rams(TwoClaims(first, second)) == [Region(0x20_0000, 2, ConventionalMemory, {MEMORY_WB})]
    ensures Claims(TwoClaims(first, second)) == [ClaimOf(first), ClaimOf(second)]
  {
    var hobs := TwoClaims(first, second);
    assert hobs[1..] == [first, second, EndOfHobList];
    assert hobs[1..][1..] == [second, EndOfHobList];
    assert hobs[1..][1..][1..] == [EndOfHobList];
    assert Rams(hobs[1..][1..][1..]) == [] && Rams(hobs[1..][1..]) == [] && Rams(hobs[1..]) == [];
    assert Claims(hobs[1..][1..][1..]) == [] && Claims(hobs[1..][1..]) == [ClaimOf(second)];
    assert Claims(hobs[1..]) == [ClaimOf(first), ClaimOf(second)];
  }

  lemma OneClaim(rs: seq<Region>, i: nat, c: Region)
    requires Ordered(rs) && Addressable(rs) && i < |rs| < 8 && c.start % 4096 == 0 && c.End() < U64
    requires Fits(rs[i], AllocateAddress, c.pages, c.start)
    requires forall j :: 0 <= j < i ==> !Fits(rs[j], AllocateAddress, c.pages, c.start)
    ensures Allocate64(rs, AllocateAddress, c.kind, c.pages, c.start).regions
         == Replace(rs, i, Carve(rs[i], c.start, c.pages, c.kind))
  {
    hide Allocate, Allocate64, Carve, Replace, FirstFit, Split;
    AllocateAgrees(rs, AllocateAddress, c.kind, c.pages, c.start);
    AllocateShape(rs, AllocateAddress, c.kind, c.pages, c.start);
    assert FirstFit(rs, AllocateAddress, c.pages, c.start) == i;
  }

  /**
    The order does show in the attributes: a runtime claim is not marked when it
    takes all that is left of a descriptor.
   */
  lemma ClaimOrderShowsInAttributes()
    ensures var data := MemoryAllocation(LoaderData, 0x20_0000, 0x1000);
            var code := MemoryAllocation(RuntimeServicesCode, 0x20_1000, 0x1000);
            && InitialMap(TwoClaims(data, code)) ==
               [Region(0x20_0000, 1, LoaderData, {MEMORY_WB}), Region(0x20_1000, 1, RuntimeServicesCode, {MEMORY_WB})]
            && InitialMap(TwoClaims(code, data)) ==
               [Region(0x20_0000, 1, LoaderData, {MEMORY_WB}),
                Region(0x20_1000, 1, RuntimeServicesCode, {MEMORY_WB, MEMORY_RUNTIME})]
  {
    var data := MemoryAllocation(LoaderData, 0x20_0000, 0x1000);
    var code := MemoryAllocation(RuntimeServicesCode, 0x20_1000, 0x1000);
    var ram := Region(0x20_0000, 2, ConventionalMemory, {MEMORY_WB});
    RamsAndClaims(data, code);
    RamsAndClaims(code, data);
    AddAllAppends([], [ram]);
    assert [] + [ram] == [ram];
    TwoClaimsInARow([ram], ClaimOf(data), ClaimOf(code));
    TwoClaimsInARow([ram], ClaimOf(code), ClaimOf(data));
    DataThenCode(ram);
    CodeThenData(ram);
  }

  lemma TwoClaimsInARow(rs: seq<Region>, c: Region, d: Region)
    ensures ClaimAll(rs, [c, d]) ==
            Allocate64(Allocate64(rs, AllocateAddress, c.kind, c.pages, c.start).regions,
                       AllocateAddress, d.kind, d.pages, d.start).regions
  {
    hide Allocate64;
    var one := Allocate64(rs, AllocateAddress, c.kind, c.pages, c.start).regions;
    var two := Allocate64(one, AllocateAddress, d.kind, d.pages, d.start).regions;
    assert [c, d][1..] == [d] && [d][1..] == [];
    assert ClaimAll(two, []) == two;
    assert ClaimAll(one, [d]) == ClaimAll(two, []);
  }

  lemma DataThenCode(ram: Region)
    requires ram == Region(0x20_0000, 2, ConventionalMemory, {MEMORY_WB})
    ensures var c, d := Region(0x20_0000, 1, LoaderData, {}), Region(0x20_1000, 1, RuntimeServicesCode, {});
            Allocate64(Allocate64([ram], AllocateAddress, c.kind, c.pages, c.start).regions,
                       AllocateAddress, d.kind, d.pages, d.start).regions
            == [Region(0x20_0000, 1, LoaderData, {MEMORY_WB}), Region(0x20_1000, 1, RuntimeServicesCode, {MEMORY_WB})]
  {
    hide Allocate64;
    var c, d := Region(0x20_0000, 1, LoaderData, {}), Region(0x20_1000, 1, RuntimeServicesCode, {});
    var mid := [Region(0x20_0000, 1, LoaderData, {MEMORY_WB}), Region(0x20_1000, 1, ConventionalMemory, {MEMORY_WB})];
    OneClaim([ram], 0, c);
    assert BlockAttribute(ram, 1, LoaderData) == {MEMORY_WB};
    assert Carve(ram, c.start, 1, LoaderData) == mid && Replace([ram], 0, mid) == mid;
    OneClaim(mid, 1, d);
    assert Carve(mid[1], d.start, 1, RuntimeServicesCode) == [Region(0x20_1000, 1, RuntimeServicesCode, {MEMORY_WB})];
  }

  lemma CodeThenData(ram: Region)
    requires ram == Region(0x20_0000, 2, ConventionalMemory, {MEMORY_WB})
    ensures var c, d := Region(0x20_1000, 1, RuntimeServicesCode, {}), Region(0x20_0000, 1, LoaderData, {});
            Allocate64(Allocate64([ram], AllocateAddress, c.kind, c.pages, c.start).regions,
                       AllocateAddress, d.kind, d.pages, d.start).regions
            == [Region(0x20_0000, 1, LoaderData, {MEMORY_WB}),
                Region(0x20_1000, 1, RuntimeServicesCode, {MEMORY_WB, MEMORY_RUNTIME})]
  {
    hide Allocate64;
    var c, d := Region(0x20_1000, 1, RuntimeServicesCode, {}), Region(0x20_0000, 1, LoaderData, {});
    var mid := [Region(0x20_0000, 1, ConventionalMemory, {MEMORY_WB}),
                Region(0x20_1000, 1, RuntimeServicesCode, {MEMORY_WB, MEMORY_RUNTIME})];
    OneClaim([ram], 0, c);
    assert BlockAttribute(ram, 1, RuntimeServicesCode) == {MEMORY_WB, MEMORY_RUNTIME};
    assert Carve(ram, c.start, 1, RuntimeServicesCode) == mid && Replace([ram], 0, mid) == mid;
    OneClaim(mid, 0, d);
    assert Carve(mid[0], d.start, 1, LoaderData) == [Region(0x20_0000, 1, LoaderData, {MEMORY_WB})];
  }
}

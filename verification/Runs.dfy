/**
  Whole runs of requests: what every run keeps, and when a run ends where it
  began.
 */
module Runs {
  import opened Common
  import opened Regions
  import opened Merging

  datatype Request =
    | AddRequest(region: Region)
    | AllocateRequest(how: AllocateType, kind: MemoryType, count: nat, address: nat)
    | FreeRequest(address: nat)

  function Serve(rs: seq<Region>, q: Request): Outcome {
    match q
    case AddRequest(region) => Add(rs, region)
    case AllocateRequest(how, kind, count, address) => Allocate(rs, how, kind, count, address)
    case FreeRequest(address) => Free(rs, address)
  }

  function Run(rs: seq<Region>, qs: seq<Request>): seq<Region>
    decreases |qs|
  {
    if qs == [] then rs else Run(Serve(rs, qs[0]).regions, qs[1..])
  }

  /** Memory is added page by page, in order and without overlap; other requests are free. */
  ghost predicate Legal(rs: seq<Region>, q: Request) {
    q.AddRequest? ==> q.region.start % 4096 == 0 && forall i :: 0 <= i < |rs| ==> rs[i].End() <= q.region.start
  }

  /** The request leaves no empty descriptor. */
  ghost predicate Clean(rs: seq<Region>, q: Request) {
    match q
    case AddRequest(region) => region.pages >= 1
    case AllocateRequest(how, _, count, address) =>
      var i := FirstFit(rs, how, count, address);
      i < |rs| ==> count >= 1 && !InFirstPage(rs[i], how, address)
    case FreeRequest(_) => true
  }

  ghost predicate LegalRun(rs: seq<Region>, qs: seq<Request>)
    decreases |qs|
  {
    qs == [] || (Legal(rs, qs[0]) && LegalRun(Serve(rs, qs[0]).regions, qs[1..]))
  }

  ghost predicate CleanRun(rs: seq<Region>, qs: seq<Request>)
    decreases |qs|
  {
    qs == [] || (Clean(rs, qs[0]) && CleanRun(Serve(rs, qs[0]).regions, qs[1..]))
  }

  predicate Adds(q: Request, page: nat) {
    q.AddRequest? && q.region.Covers(page)
  }

  ghost predicate Added(qs: seq<Request>, page: nat) {
    exists i :: 0 <= i < |qs| && Adds(qs[i], page)
  }

  lemma AddKeepsLayout(rs: seq<Region>, r: Region)
    requires Ordered(rs) && |rs| <= MAX_ALLOCATIONS && Legal(rs, AddRequest(r))
    ensures var o := Add(rs, r);
            && Ordered(o.regions) && |o.regions| <= MAX_ALLOCATIONS
            && (NoneEmpty(rs) && r.pages >= 1 ==> NoneEmpty(o.regions))
            && forall page: nat :: TypeAt(o.regions, page).Some? <==>
                 TypeAt(rs, page).Some? || (o.status == Success && r.Covers(page))
  {
    forall page: nat ensures TypeAt(rs + [r], page).Some? <==> TypeAt(rs, page).Some? || r.Covers(page) {
      AtConcat(rs, [r], page);
    }
  }

  lemma FreeKeepsPages(rs: seq<Region>, address: nat)
    requires Ordered(rs)
    ensures forall page: nat :: TypeAt(Free(rs, address).regions, page).Some? <==> TypeAt(rs, page).Some?
  {
    hide Free, Ordered, NoneEmpty, TypeAt, Coalesced;
    FreeRetypesBlock(rs, address);
    var i := StartingAt(rs, address);
    if i < |rs| {
      forall page: nat | rs[i].Covers(page) ensures TypeAt(rs, page).Some? {
        AtRegion(rs, i, page);
        AtGives(rs, page, rs[i]);
      }
    }
  }

  /** One request keeps the layout and covers exactly the pages covered before and those it added. */
  lemma ServeKeepsLayout(rs: seq<Region>, q: Request)
    requires Ordered(rs) && |rs| <= MAX_ALLOCATIONS && Legal(rs, q)
    ensures var o := Serve(rs, q);
            && Ordered(o.regions) && |o.regions| <= MAX_ALLOCATIONS
            && (NoneEmpty(rs) && Clean(rs, q) ==> NoneEmpty(o.regions))
            && forall page: nat :: TypeAt(o.regions, page).Some? <==>
                 TypeAt(rs, page).Some? || (o.status == Success && Adds(q, page))
  {
    hide Allocate, Free, Add, FirstFit, Ordered, NoneEmpty, TypeAt, AttributeAt, Coalesced;
    match q {
      case AddRequest(region) =>
        AddKeepsLayout(rs, region);
      case AllocateRequest(how, kind, count, address) =>
        AllocateKeepsLayout(rs, how, kind, count, address);
        AllocateRetypesBlock(rs, how, kind, count, address);
      case FreeRequest(address) =>
        FreeRetypesBlock(rs, address);
        FreeKeepsPages(rs, address);
    }
  }

  /**
    In every run with legal additions, whatever is requested, the descriptors
    stay aligned, ordered, disjoint and within the slots; no page is ever lost,
    and none appears that was not added. When every request is clean no
    descriptor is empty either.
   */
  lemma {:induction false} RunKeepsLayout(rs: seq<Region>, qs: seq<Request>)
    requires Ordered(rs) && |rs| <= MAX_ALLOCATIONS && LegalRun(rs, qs)
    ensures Ordered(Run(rs, qs)) && |Run(rs, qs)| <= MAX_ALLOCATIONS
    ensures NoneEmpty(rs) && CleanRun(rs, qs) ==> NoneEmpty(Run(rs, qs))
    ensures forall page: nat :: TypeAt(rs, page).Some? ==> TypeAt(Run(rs, qs), page).Some?
    ensures forall page: nat :: TypeAt(Run(rs, qs), page).Some? ==> TypeAt(rs, page).Some? || Added(qs, page)
    decreases |qs|
  {
    if qs != [] {
      hide Serve, Clean, Legal, Ordered, NoneEmpty, TypeAt;
      var rs1 := Serve(rs, qs[0]).regions;
      ServeKeepsLayout(rs, qs[0]);
      RunKeepsLayout(rs1, qs[1..]);
      forall page: nat | TypeAt(Run(rs, qs), page).Some?
        ensures TypeAt(rs, page).Some? || Added(qs, page)
      {
        if !TypeAt(rs1, page).Some? {
          var i :| 0 <= i < |qs[1..]| && Adds(qs[1..][i], page);
          assert qs[i+1] == qs[1..][i];
        }
      }
    }
  }

  // ---------------------------------------------------------------------------
  // Addresses do not grow
  // ---------------------------------------------------------------------------

  ghost predicate EndsBy(rs: seq<Region>, bound: nat) {
    forall i :: 0 <= i < |rs| ==> rs[i].End() <= bound
  }

  lemma ReplaceEnds(rs: seq<Region>, i: nat, mid: seq<Region>, bound: nat)
    requires i < |rs| && EndsBy(rs, bound) && Inside(mid, rs[i])
    ensures EndsBy(Replace(rs, i, mid), bound)
  {
    var out := Replace(rs, i, mid);
    forall j | 0 <= j < |out| ensures out[j].End() <= bound {
      if i <= j < i + |mid| {
        assert out[j] == mid[j-i];
      } else {
        assert out[j] == rs[if j < i then j else j - |mid| + 1];
      }
    }
  }

  lemma SplitEnds(rs: seq<Region>, i: nat, k: nat, bound: nat)
    requires i < |rs| && k <= rs[i].pages && EndsBy(rs, bound)
    ensures EndsBy(Split(rs, i, k), bound)
  {
    hide EndsBy;
    var r := rs[i];
    SplitIsReplace(rs, i, k);
    ReplaceEnds(rs, i, [r.(pages := k), r.(start := r.start + Bytes(k), pages := r.pages - k)], bound);
  }

  lemma AllocateEnds(rs: seq<Region>, how: AllocateType, kind: MemoryType, count: nat, address: nat, bound: nat)
    requires Ordered(rs) && |rs| <= MAX_ALLOCATIONS && EndsBy(rs, bound)
    ensures EndsBy(Allocate(rs, how, kind, count, address).regions, bound)
  {
    hide Allocate, Carve, Replace, Split, FirstFit, EndsBy, Ordered, NoneEmpty, Inside;
    AllocateShape(rs, how, kind, count, address);
    var o, i := Allocate(rs, how, kind, count, address), FirstFit(rs, how, count, address);
    if i < |rs| {
      var r, at := rs[i], Landing(rs[i], how, address);
      OrderedStart(rs, i);
      if o.status == Success {
        CarveInside(r, at, count, kind);
        ReplaceEnds(rs, i, Carve(r, at, count, kind), bound);
      } else if o.regions != rs {
        SplitEnds(rs, i, Offset(r, at), bound);
      }
    }
  }

  lemma {:induction false} MergeEnds(rs: seq<Region>, bound: nat)
    requires EndsBy(rs, bound)
    ensures EndsBy(Merge(rs), bound)
    decreases |rs|
  {
    if |rs| >= 2 {
      if Mergeable(rs[0], rs[1]) {
        assert Join(rs[0], rs[1]).End() == rs[1].End();
        MergeEnds([Join(rs[0], rs[1])] + rs[2..], bound);
      } else {
        MergeEnds(rs[1..], bound);
      }
    }
  }

  lemma FreeEnds(rs: seq<Region>, address: nat, bound: nat)
    requires EndsBy(rs, bound)
    ensures EndsBy(Free(rs, address).regions, bound)
  {
    var i := StartingAt(rs, address);
    if i < |rs| {
      MergeEnds(Retype(rs, i, ConventionalMemory), bound);
    }
  }

  lemma ServeStaysBelow(rs: seq<Region>, q: Request, bound: nat)
    requires Ordered(rs) && |rs| <= MAX_ALLOCATIONS && EndsBy(rs, bound)
    requires q.AddRequest? ==> q.region.End() <= bound
    ensures EndsBy(Serve(rs, q).regions, bound)
  {
    hide Allocate, Free, Ordered;
    match q {
      case AddRequest(region) =>
      case AllocateRequest(how, kind, count, address) => AllocateEnds(rs, how, kind, count, address, bound);
      case FreeRequest(address) => FreeEnds(rs, address, bound);
    }
  }

  /** No address ever grows past what was added: if the memory fits below a bound, every later descriptor does. */
  lemma {:induction false} RunStaysBelow(rs: seq<Region>, qs: seq<Request>, bound: nat)
    requires Ordered(rs) && |rs| <= MAX_ALLOCATIONS && LegalRun(rs, qs) && EndsBy(rs, bound)
    requires forall i :: 0 <= i < |qs| && qs[i].AddRequest? ==> qs[i].region.End() <= bound
    ensures EndsBy(Run(rs, qs), bound)
    decreases |qs|
  {
    if qs != [] {
      hide Serve, Legal, Ordered, NoneEmpty, Clean, EndsBy;
      ServeKeepsLayout(rs, qs[0]);
      ServeStaysBelow(rs, qs[0], bound);
      RunStaysBelow(Serve(rs, qs[0]).regions, qs[1..], bound);
    }
  }

  // ---------------------------------------------------------------------------
  // The page map determines the descriptors
  // ---------------------------------------------------------------------------

  /** Equal except for attributes. */
  ghost predicate SameShape(a: seq<Region>, b: seq<Region>) {
    && |a| == |b|
    && forall i :: 0 <= i < |a| ==> a[i].start == b[i].start && a[i].pages == b[i].pages && a[i].kind == b[i].kind
  }

  /** One descriptor ends and the next one starts at this address. */
  ghost predicate TouchAt(rs: seq<Region>, s: nat) {
    exists i: nat :: Touches(rs, i, s)
  }

  predicate Touches(rs: seq<Region>, i: nat, s: nat) {
    i + 1 < |rs| && rs[i].End() == s == rs[i+1].start
  }

  ghost predicate SameTouches(a: seq<Region>, b: seq<Region>) {
    forall s: nat :: TouchAt(a, s) <==> TouchAt(b, s)
  }

  lemma FirstPage(rs: seq<Region>)
    requires WellFormed(rs) && rs != []
    ensures At(rs, rs[0].start / 4096) == Some(rs[0])
    ensures forall page: nat :: At(rs, page).Some? ==> rs[0].start <= Bytes(page)
  {
    AtRegion(rs, 0, rs[0].start / 4096);
    forall page: nat | At(rs, page).Some? ensures rs[0].start <= Bytes(page) {
      var j := AtWitness(rs, page);
    }
  }

  lemma TypeIffCovered(rs: seq<Region>, page: nat)
    ensures TypeAt(rs, page).Some? <==> At(rs, page).Some?
  {
  }

  lemma SameFirstStart(a: seq<Region>, b: seq<Region>)
    requires WellFormed(a) && WellFormed(b) && SameMap(a, b) && a != []
    ensures b != [] && a[0].start <= b[0].start && TypeAt(b, a[0].start / 4096) == Some(a[0].kind)
  {
    var page := a[0].start / 4096;
    FirstPage(a);
    assert TypeAt(a, page) == Some(a[0].kind);
    if b != [] {
      FirstPage(b);
      var page' := b[0].start / 4096;
      assert TypeAt(b, page').Some?;
      TypeIffCovered(a, page');
    }
  }

  lemma TouchInside(rs: seq<Region>, s: nat)
    requires WellFormed(rs) && rs != [] && rs[0].start < s < rs[0].End()
    ensures !TouchAt(rs, s)
  {
    if i: nat :| Touches(rs, i, s) {
      assert false;
    }
  }

  lemma SameFirstEnd(a: seq<Region>, b: seq<Region>)
    requires WellFormed(a) && WellFormed(b) && SameMap(a, b) && SameTouches(a, b)
    requires a != [] && b != [] && a[0].start == b[0].start
    ensures a[0].End() >= b[0].End()
  {
    if a[0].End() < b[0].End() {
      var s := a[0].End();
      var page := s / 4096;
      assert Bytes(page) == s;
      AtRegion(b, 0, page);
      assert TypeAt(b, page).Some?;
      TypeIffCovered(a, page);
      var j := AtWitness(a, page);
      NeighbourAt(a, 0, j);
      assert Touches(a, 0, s);
      TouchInside(b, s);
      assert false;
    }
  }

  lemma SymmetricMaps(a: seq<Region>, b: seq<Region>)
    requires SameMap(a, b)
    ensures SameMap(b, a)
  {
  }

  lemma TailMap(rs: seq<Region>, page: nat)
    requires Ordered(rs) && rs != []
    ensures TypeAt(rs[1..], page) == if rs[0].Covers(page) then None else TypeAt(rs, page)
  {
    if rs[0].Covers(page) {
      TailApart(rs, page);
    }
  }

  lemma TailTouches(rs: seq<Region>, s: nat)
    requires WellFormed(rs) && rs != []
    ensures TouchAt(rs[1..], s) <==> TouchAt(rs, s) && s != rs[0].End()
  {
    var t := rs[1..];
    forall i: nat ensures Touches(t, i, s) <==> Touches(rs, i + 1, s) {
    }
    if i: nat :| Touches(t, i, s) {
      assert Touches(rs, i + 1, s);
      assert rs[0].End() <= rs[i+1].start < rs[i+1].End();
    }
    if TouchAt(rs, s) && s != rs[0].End() {
      var i: nat :| Touches(rs, i, s);
      assert Touches(t, i - 1, s);
    }
  }

  /** Two maps with the same page map and the same touching places have the same descriptors. */
  lemma {:induction false} MapDeterminesShape(a: seq<Region>, b: seq<Region>)
    requires WellFormed(a) && WellFormed(b) && SameMap(a, b) && SameTouches(a, b)
    ensures SameShape(a, b)
    decreases |a|
  {
    SymmetricMaps(a, b);
    if a == [] {
      if b != [] {
        SameFirstStart(b, a);
      }
    } else {
      SameFirstStart(a, b);
      SameFirstStart(b, a);
      SameFirstEnd(a, b);
      SameFirstEnd(b, a);
      SameFirstKind(a, b);
      SameTails(a, b);
      OrderedTail(a);
      OrderedTail(b);
      MapDeterminesShape(a[1..], b[1..]);
      ShapeCons(a, b);
    }
  }

  lemma SameFirstKind(a: seq<Region>, b: seq<Region>)
    requires WellFormed(a) && WellFormed(b) && SameMap(a, b) && a != [] && b != [] && a[0].start == b[0].start
    ensures a[0].kind == b[0].kind
  {
    FirstPage(a);
    FirstPage(b);
    assert TypeAt(a, a[0].start / 4096) == TypeAt(b, a[0].start / 4096);
  }

  lemma SameTails(a: seq<Region>, b: seq<Region>)
    requires WellFormed(a) && WellFormed(b) && SameMap(a, b) && SameTouches(a, b) && a != [] && b != []
    requires a[0].start == b[0].start && a[0].End() == b[0].End()
    ensures SameMap(a[1..], b[1..]) && SameTouches(a[1..], b[1..])
  {
    hide Ordered, NoneEmpty, TypeAt, TouchAt;
    forall page: nat ensures TypeAt(b[1..], page) == TypeAt(a[1..], page) {
      TailMap(a, page);
      TailMap(b, page);
    }
    forall s: nat ensures TouchAt(a[1..], s) <==> TouchAt(b[1..], s) {
      TailTouches(a, s);
      TailTouches(b, s);
    }
  }

  lemma ShapeCons(a: seq<Region>, b: seq<Region>)
    requires a != [] && b != [] && SameShape(a[1..], b[1..])
    requires a[0].start == b[0].start && a[0].End() == b[0].End() && a[0].kind == b[0].kind
    ensures SameShape(a, b)
  {
    forall i | 0 <= i < |a| ensures a[i].start == b[i].start && a[i].pages == b[i].pages && a[i].kind == b[i].kind {
      if i > 0 {
        assert a[i] == a[1..][i-1] && b[i] == b[1..][i-1];
      }
    }
  }

  ghost predicate AllConventional(rs: seq<Region>) {
    forall i :: 0 <= i < |rs| ==> rs[i].kind == ConventionalMemory
  }

  lemma CoalescedHasNoTouches(rs: seq<Region>, s: nat)
    requires Coalesced(rs) && AllConventional(rs)
    ensures !TouchAt(rs, s)
  {
    if i: nat :| Touches(rs, i, s) {
      assert Mergeable(rs[i], rs[i+1]);
    }
  }

  /** Free memory has one coalesced description. */
  lemma FreeMapIsCanonical(a: seq<Region>, b: seq<Region>)
    requires WellFormed(a) && WellFormed(b) && SameMap(a, b)
    requires Coalesced(a) && Coalesced(b) && AllConventional(a) && AllConventional(b)
    ensures SameShape(a, b)
  {
    forall s: nat ensures TouchAt(a, s) <==> TouchAt(b, s) {
      CoalescedHasNoTouches(a, s);
      CoalescedHasNoTouches(b, s);
    }
    MapDeterminesShape(a, b);
  }

  ghost predicate OnlyFree(rs: seq<Region>) {
    forall page: nat :: TypeAt(rs, page).Some? ==> TypeAt(rs, page) == Some(ConventionalMemory)
  }

  lemma AllFreeIsConventional(rs: seq<Region>)
    requires WellFormed(rs) && OnlyFree(rs)
    ensures AllConventional(rs)
  {
    forall i | 0 <= i < |rs| ensures rs[i].kind == ConventionalMemory {
      AtRegion(rs, i, rs[i].start / 4096);
      AtGives(rs, rs[i].start / 4096, rs[i]);
    }
  }

  lemma ConventionalIsFree(rs: seq<Region>, page: nat)
    requires AllConventional(rs) && TypeAt(rs, page).Some?
    ensures TypeAt(rs, page) == Some(ConventionalMemory)
  {
    var i := AtWitness(rs, page);
  }

  ghost predicate NothingAdded(qs: seq<Request>) {
    forall i :: 0 <= i < |qs| ==> !qs[i].AddRequest?
  }

  // Descriptors never leave the memory they were cut from, also when they are empty

  /** The page at the address, or the one before it, is covered. */
  ghost predicate Near(home: seq<Region>, s: nat) {
    TypeAt(home, s / 4096).Some? || (s >= 4096 && TypeAt(home, s / 4096 - 1).Some?)
  }

  ghost predicate AllNear(home: seq<Region>, rs: seq<Region>) {
    forall i :: 0 <= i < |rs| ==> Near(home, rs[i].start)
  }

  ghost predicate SamePages(a: seq<Region>, b: seq<Region>) {
    forall page: nat :: TypeAt(a, page).Some? <==> TypeAt(b, page).Some?
  }

  lemma NearInside(home: seq<Region>, rs: seq<Region>, i: nat, s: nat)
    requires Ordered(rs) && i < |rs| && SamePages(home, rs) && Near(home, rs[i].start)
    requires rs[i].start <= s <= rs[i].End() && s % 4096 == 0
    ensures Near(home, s)
  {
    var r := rs[i];
    if r.pages >= 1 {
      var page := if s < r.End() then s / 4096 else s / 4096 - 1;
      assert r.Covers(page);
      AtRegion(rs, i, page);
      AtGives(rs, page, r);
    }
  }

  lemma ReplaceNear(home: seq<Region>, rs: seq<Region>, i: nat, mid: seq<Region>)
    requires Ordered(rs) && i < |rs| && SamePages(home, rs) && AllNear(home, rs)
    requires Ordered(mid) && Inside(mid, rs[i])
    ensures AllNear(home, Replace(rs, i, mid))
  {
    var out := Replace(rs, i, mid);
    hide Near, SamePages;
    forall j | 0 <= j < |out| ensures Near(home, out[j].start) {
      if i <= j < i + |mid| {
        assert out[j] == mid[j-i];
        NearInside(home, rs, i, mid[j-i].start);
      } else {
        assert out[j] == rs[if j < i then j else j - |mid| + 1];
      }
    }
  }

  lemma SplitNear(home: seq<Region>, rs: seq<Region>, i: nat, k: nat)
    requires Ordered(rs) && i < |rs| && k <= rs[i].pages && SamePages(home, rs) && AllNear(home, rs)
    ensures AllNear(home, Split(rs, i, k))
  {
    hide Near, SamePages, AllNear;
    var r := rs[i];
    var a, b := r.(pages := k), r.(start := r.start + Bytes(k), pages := r.pages - k);
    SplitIsReplace(rs, i, k);
    assert [a, b][0] == a && [a, b][1] == b;
    ReplaceNear(home, rs, i, [a, b]);
  }

  lemma AllocateNear(home: seq<Region>, rs: seq<Region>, how: AllocateType, kind: MemoryType, count: nat, address: nat)
    requires Ordered(rs) && |rs| <= MAX_ALLOCATIONS && SamePages(home, rs) && AllNear(home, rs)
    ensures AllNear(home, Allocate(rs, how, kind, count, address).regions)
  {
    hide Allocate, Carve, Replace, Split, FirstFit, AllNear, SamePages, Ordered, NoneEmpty, Inside;
    AllocateShape(rs, how, kind, count, address);
    var o, i := Allocate(rs, how, kind, count, address), FirstFit(rs, how, count, address);
    if i < |rs| {
      var r, at := rs[i], Landing(rs[i], how, address);
      OrderedStart(rs, i);
      if o.status == Success {
        CarveInside(r, at, count, kind);
        ReplaceNear(home, rs, i, Carve(r, at, count, kind));
      } else if o.regions != rs {
        SplitNear(home, rs, i, Offset(r, at));
      }
    }
  }

  lemma {:induction false} MergeNear(home: seq<Region>, rs: seq<Region>)
    requires AllNear(home, rs)
    ensures AllNear(home, Merge(rs))
    decreases |rs|
  {
    hide Near;
    if |rs| >= 2 {
      if Mergeable(rs[0], rs[1]) {
        MergeNear(home, [Join(rs[0], rs[1])] + rs[2..]);
      } else {
        MergeNear(home, rs[1..]);
      }
    }
  }

  lemma FreeNear(home: seq<Region>, rs: seq<Region>, address: nat)
    requires AllNear(home, rs)
    ensures AllNear(home, Free(rs, address).regions)
  {
    hide Near;
    var i := StartingAt(rs, address);
    if i < |rs| {
      MergeNear(home, Retype(rs, i, ConventionalMemory));
    }
  }

  lemma ServeNear(home: seq<Region>, rs: seq<Region>, q: Request)
    requires Ordered(rs) && |rs| <= MAX_ALLOCATIONS && SamePages(home, rs) && AllNear(home, rs) && !q.AddRequest?
    ensures var out := Serve(rs, q).regions;
            Ordered(out) && |out| <= MAX_ALLOCATIONS && SamePages(home, out) && AllNear(home, out)
  {
    hide Allocate, Free, Ordered, NoneEmpty, AllNear, Clean, TypeAt;
    ServeKeepsLayout(rs, q);
    match q {
      case AllocateRequest(how, kind, count, address) => AllocateNear(home, rs, how, kind, count, address);
      case FreeRequest(address) => FreeNear(home, rs, address);
    }
  }

  lemma {:induction false} RunNear(home: seq<Region>, rs: seq<Region>, qs: seq<Request>)
    requires Ordered(rs) && |rs| <= MAX_ALLOCATIONS && SamePages(home, rs) && AllNear(home, rs) && NothingAdded(qs)
    ensures var out := Run(rs, qs);
            Ordered(out) && |out| <= MAX_ALLOCATIONS && SamePages(home, out) && AllNear(home, out)
    decreases |qs|
  {
    if qs != [] {
      hide Serve, Ordered, SamePages, AllNear;
      ServeNear(home, rs, qs[0]);
      RunNear(home, Serve(rs, qs[0]).regions, qs[1..]);
    }
  }

  lemma StartsNear(rs: seq<Region>)
    requires WellFormed(rs)
    ensures SamePages(rs, rs) && AllNear(rs, rs)
  {
    forall i | 0 <= i < |rs| ensures Near(rs, rs[i].start) {
      AtRegion(rs, i, rs[i].start / 4096);
      AtGives(rs, rs[i].start / 4096, rs[i]);
    }
  }

  lemma EmptyBeforePage(rs: seq<Region>, i: nat, j: nat)
    requires Ordered(rs) && i < |rs| && j < |rs| && rs[i].pages == 0 && rs[j].Covers(rs[i].start / 4096)
    ensures i + 1 < |rs| && rs[i+1].start == rs[i].End()
  {
    assert i < j;
    assert rs[i].End() <= rs[i+1].start;
    assert i + 1 < j ==> rs[i+1].End() <= rs[j].start;
  }

  lemma EmptyBehindPage(rs: seq<Region>, i: nat, j: nat)
    requires Ordered(rs) && i < |rs| && j < |rs| && rs[i].pages == 0
    requires rs[i].start >= 4096 && rs[j].Covers(rs[i].start / 4096 - 1)
    ensures i > 0 && rs[i-1].End() == rs[i].start
  {
    var s := rs[i].start;
    assert Bytes(s / 4096 - 1) == s - 4096;
    assert rs[j].End() % 4096 == 0 && rs[j].End() >= s;
    assert j < i;
    assert rs[i-1].End() <= s;
    assert j < i - 1 ==> rs[j].End() <= rs[i-1].start;
  }

  /** A coalesced map of free descriptors has no empty one. */
  lemma NoEmptyLeft(home: seq<Region>, rs: seq<Region>)
    requires Ordered(rs) && SamePages(home, rs) && AllNear(home, rs) && Coalesced(rs) && AllConventional(rs)
    ensures NoneEmpty(rs)
  {
    forall i | 0 <= i < |rs| ensures rs[i].pages >= 1 {
      if rs[i].pages == 0 {
        assert Near(home, rs[i].start);
        var s := rs[i].start;
        if TypeAt(rs, s / 4096).Some? {
          var j := AtWitness(rs, s / 4096);
          EmptyBeforePage(rs, i, j);
          NotCoalesced(rs, i);
        } else {
          var j := AtWitness(rs, s / 4096 - 1);
          EmptyBehindPage(rs, i, j);
          NotCoalesced(rs, i - 1);
        }
      }
    }
  }

  lemma NotCoalesced(rs: seq<Region>, i: nat)
    requires AllConventional(rs) && i + 1 < |rs| && rs[i+1].start == rs[i].End()
    ensures !Coalesced(rs)
  {
    assert Mergeable(rs[i], rs[i+1]);
  }

  /**
    Any run of allocations and frees, in any order and with any arguments, that
    ends with a successful free ends in the merged form of the free memory it
    started from, up to attributes, exactly when every descriptor left is free,
    empty ones included.
   */
  lemma {:induction false} RunReturns(rs: seq<Region>, qs: seq<Request>, address: nat)
    requires WellFormed(rs) && |rs| <= MAX_ALLOCATIONS && AllConventional(rs) && NothingAdded(qs)
    requires Free(Run(rs, qs), address).status == Success
    ensures var out := Free(Run(rs, qs), address).regions;
            SameShape(out, Merge(rs)) <==> AllConventional(out)
  {
    hide Run, Free, Ordered, NoneEmpty, Merge, Coalesced, TypeAt, AllConventional, SamePages, AllNear;
    var mid, home := Run(rs, qs), Merge(rs);
    var out := Free(mid, address).regions;
    StartsNear(rs);
    RunNear(rs, rs, qs);
    ServeNear(rs, mid, FreeRequest(address));
    FreeRetypesBlock(mid, address);
    MergedHome(rs);
    if AllConventional(out) {
      NoEmptyLeft(rs, out);
      SameFreePages(rs, out);
      FreeMapIsCanonical(out, home);
    }
    if SameShape(out, home) {
      SameKinds(out, home);
    }
  }

  lemma SameKinds(a: seq<Region>, b: seq<Region>)
    requires SameShape(a, b) && AllConventional(b)
    ensures AllConventional(a)
  {
  }

  lemma MergedHome(rs: seq<Region>)
    requires WellFormed(rs) && AllConventional(rs)
    ensures WellFormed(Merge(rs)) && Coalesced(Merge(rs)) && AllConventional(Merge(rs)) && SameMap(rs, Merge(rs))
  {
    hide Ordered, NoneEmpty, Merge, Coalesced, TypeAt, AllConventional;
    MergeCoalesces(rs);
    MergeKeepsOrdered(rs);
    forall page: nat ensures TypeAt(Merge(rs), page) == TypeAt(rs, page) {
      MergeKeepsTypes(rs, page);
    }
    forall page: nat | TypeAt(Merge(rs), page).Some? ensures TypeAt(Merge(rs), page) == Some(ConventionalMemory) {
      ConventionalIsFree(rs, page);
    }
    AllFreeIsConventional(Merge(rs));
  }

  lemma SameFreePages(rs: seq<Region>, out: seq<Region>)
    requires SamePages(rs, out) && AllConventional(rs) && AllConventional(out)
    ensures SameMap(out, rs) && SameMap(out, Merge(rs))
  {
    hide TypeAt, AllConventional, Merge;
    forall page: nat ensures TypeAt(rs, page) == TypeAt(out, page) && TypeAt(Merge(rs), page) == TypeAt(rs, page) {
      MergeKeepsTypes(rs, page);
      if TypeAt(rs, page).Some? {
        ConventionalIsFree(rs, page);
        ConventionalIsFree(out, page);
      }
    }
  }

  // Attributes, when no request is for a runtime type

  /** A descriptor at the start of a stretch of memory has the attribute that page had at home. */
  ghost predicate HeadOk(home: seq<Region>, r: Region) {
    || (r.start >= 4096 && TypeAt(home, r.start / 4096 - 1).Some?)
    || AttributeAt(home, r.start / 4096) == Some(r.attribute)
  }

  ghost predicate HeadsOk(home: seq<Region>, rs: seq<Region>) {
    forall i :: 0 <= i < |rs| ==> HeadOk(home, rs[i])
  }

  predicate Unmarked(q: Request) {
    q.AllocateRequest? ==> RuntimeMark(q.kind) == {}
  }

  ghost predicate SameAttribute(mid: seq<Region>, r: Region) {
    forall j :: 0 <= j < |mid| ==> mid[j].attribute == r.attribute
  }

  lemma HeadInside(home: seq<Region>, rs: seq<Region>, i: nat, r: Region)
    requires Ordered(rs) && i < |rs| && SamePages(home, rs) && HeadOk(home, rs[i])
    requires rs[i].start <= r.start <= rs[i].End() && r.start % 4096 == 0 && r.attribute == rs[i].attribute
    ensures HeadOk(home, r)
  {
    if rs[i].start < r.start {
      var page := r.start / 4096 - 1;
      assert rs[i].Covers(page);
      AtRegion(rs, i, page);
      AtGives(rs, page, rs[i]);
    }
  }

  lemma ReplaceHeads(home: seq<Region>, rs: seq<Region>, i: nat, mid: seq<Region>)
    requires Ordered(rs) && i < |rs| && SamePages(home, rs) && HeadsOk(home, rs)
    requires Ordered(mid) && Inside(mid, rs[i]) && SameAttribute(mid, rs[i])
    ensures HeadsOk(home, Replace(rs, i, mid))
  {
    var out := Replace(rs, i, mid);
    hide HeadOk, SamePages;
    forall j | 0 <= j < |out| ensures HeadOk(home, out[j]) {
      if i <= j < i + |mid| {
        assert out[j] == mid[j-i];
        HeadInside(home, rs, i, mid[j-i]);
      } else {
        assert out[j] == rs[if j < i then j else j - |mid| + 1];
      }
    }
  }

  lemma CarveAttribute(r: Region, at: nat, count: nat, kind: MemoryType)
    requires RuntimeMark(kind) == {}
    ensures SameAttribute(Carve(r, at, count, kind), r)
  {
    assert r.attribute + {} == r.attribute;
  }

  lemma AllocateHeads(home: seq<Region>, rs: seq<Region>, how: AllocateType, kind: MemoryType, count: nat, address: nat)
    requires Ordered(rs) && |rs| <= MAX_ALLOCATIONS && SamePages(home, rs) && HeadsOk(home, rs)
    requires RuntimeMark(kind) == {}
    ensures HeadsOk(home, Allocate(rs, how, kind, count, address).regions)
  {
    hide Allocate, Carve, Replace, Split, FirstFit, HeadsOk, SamePages, Ordered, NoneEmpty, Inside, SameAttribute;
    AllocateShape(rs, how, kind, count, address);
    var o, i := Allocate(rs, how, kind, count, address), FirstFit(rs, how, count, address);
    if i < |rs| {
      var r, at := rs[i], Landing(rs[i], how, address);
      OrderedStart(rs, i);
      if o.status == Success {
        CarveInside(r, at, count, kind);
        CarveAttribute(r, at, count, kind);
        ReplaceHeads(home, rs, i, Carve(r, at, count, kind));
      } else if o.regions != rs {
        SplitHeads(home, rs, i, Offset(r, at));
      }
    }
  }

  lemma SplitHeads(home: seq<Region>, rs: seq<Region>, i: nat, k: nat)
    requires Ordered(rs) && i < |rs| && k <= rs[i].pages && SamePages(home, rs) && HeadsOk(home, rs)
    ensures HeadsOk(home, Split(rs, i, k))
  {
    hide HeadsOk, SamePages;
    var r := rs[i];
    var a, b := r.(pages := k), r.(start := r.start + Bytes(k), pages := r.pages - k);
    SplitIsReplace(rs, i, k);
    assert [a, b][0] == a && [a, b][1] == b;
    ReplaceHeads(home, rs, i, [a, b]);
  }

  lemma {:induction false} MergeHeads(home: seq<Region>, rs: seq<Region>)
    requires HeadsOk(home, rs)
    ensures HeadsOk(home, Merge(rs))
    decreases |rs|
  {
    if |rs| >= 2 {
      if Mergeable(rs[0], rs[1]) {
        assert HeadOk(home, Join(rs[0], rs[1]));
        hide HeadOk;
        MergeHeads(home, [Join(rs[0], rs[1])] + rs[2..]);
      } else {
        hide HeadOk;
        MergeHeads(home, rs[1..]);
      }
    }
  }

  lemma FreeHeads(home: seq<Region>, rs: seq<Region>, address: nat)
    requires HeadsOk(home, rs)
    ensures HeadsOk(home, Free(rs, address).regions)
  {
    var i := StartingAt(rs, address);
    if i < |rs| {
      assert HeadOk(home, rs[i].(kind := ConventionalMemory));
      hide HeadOk;
      MergeHeads(home, Retype(rs, i, ConventionalMemory));
    }
  }

  lemma ServeHeads(home: seq<Region>, rs: seq<Region>, q: Request)
    requires Ordered(rs) && |rs| <= MAX_ALLOCATIONS && SamePages(home, rs) && HeadsOk(home, rs)
    requires !q.AddRequest? && Unmarked(q)
    ensures HeadsOk(home, Serve(rs, q).regions)
  {
    hide Allocate, Free, Ordered, HeadsOk, SamePages;
    match q {
      case AllocateRequest(how, kind, count, address) => AllocateHeads(home, rs, how, kind, count, address);
      case FreeRequest(address) => FreeHeads(home, rs, address);
    }
  }

  lemma {:induction false} RunHeads(home: seq<Region>, rs: seq<Region>, qs: seq<Request>)
    requires Ordered(rs) && |rs| <= MAX_ALLOCATIONS && SamePages(home, rs) && AllNear(home, rs) && HeadsOk(home, rs)
    requires NothingAdded(qs) && forall i :: 0 <= i < |qs| ==> Unmarked(qs[i])
    ensures HeadsOk(home, Run(rs, qs))
    decreases |qs|
  {
    if qs != [] {
      hide Serve, Ordered, SamePages, AllNear, HeadsOk;
      assert Unmarked(qs[0]);
      ServeNear(home, rs, qs[0]);
      ServeHeads(home, rs, qs[0]);
      RunHeads(home, Serve(rs, qs[0]).regions, qs[1..]);
    }
  }

  lemma StartsWithHeads(rs: seq<Region>)
    requires WellFormed(rs)
    ensures HeadsOk(rs, rs)
  {
    forall i | 0 <= i < |rs| ensures HeadOk(rs, rs[i]) {
      AtRegion(rs, i, rs[i].start / 4096);
      AtGives(rs, rs[i].start / 4096, rs[i]);
    }
  }

  lemma HeadsAgree(home: seq<Region>, a: seq<Region>, b: seq<Region>)
    requires HeadsOk(home, a) && HeadsOk(home, b) && SameShape(a, b) && SamePages(home, b)
    requires WellFormed(b) && Coalesced(b) && AllConventional(b)
    ensures a == b
  {
    forall i | 0 <= i < |a| ensures a[i] == b[i] {
      NotFreeBefore(b, i);
      if b[i].start >= 4096 && TypeAt(b, b[i].start / 4096 - 1).Some? {
        ConventionalIsFree(b, b[i].start / 4096 - 1);
      }
      assert HeadOk(home, a[i]) && HeadOk(home, b[i]);
    }
  }

  /** When no request is for a runtime type the attributes come back as well. */
  lemma {:induction false} RunReturnsExactly(rs: seq<Region>, qs: seq<Request>, address: nat)
    requires WellFormed(rs) && |rs| <= MAX_ALLOCATIONS && AllConventional(rs) && NothingAdded(qs)
    requires forall i :: 0 <= i < |qs| ==> Unmarked(qs[i])
    requires Free(Run(rs, qs), address).status == Success
    ensures var out := Free(Run(rs, qs), address).regions;
            out == Merge(rs) <==> AllConventional(out)
  {
    hide Run, Free, Ordered, NoneEmpty, Merge, Coalesced, TypeAt, AllConventional, SamePages, AllNear, HeadsOk,
      SameShape;
    var mid, home := Run(rs, qs), Merge(rs);
    var out := Free(mid, address).regions;
    RunReturns(rs, qs, address);
    StartsNear(rs);
    StartsWithHeads(rs);
    RunHeads(rs, rs, qs);
    FreeHeads(rs, mid, address);
    MergeHeads(rs, rs);
    MergedHome(rs);
    HomePages(rs);
    if AllConventional(out) {
      HeadsAgree(rs, out, home);
    }
  }

  lemma HomePages(rs: seq<Region>)
    ensures SamePages(rs, Merge(rs))
  {
    hide Merge, TypeAt;
    forall page: nat ensures TypeAt(rs, page).Some? <==> TypeAt(Merge(rs), page).Some? {
      MergeKeepsTypes(rs, page);
    }
  }

  lemma FixedGrant(rs: seq<Region>, i: nat, kind: MemoryType, count: nat, address: nat)
    requires i < |rs| < 8 && Fits(rs[i], AllocateAddress, count, address)
    requires forall j :: 0 <= j < i ==> !Fits(rs[j], AllocateAddress, count, address)
    ensures Allocate(rs, AllocateAddress, kind, count, address).regions
         == Replace(rs, i, Carve(rs[i], address, count, kind))
  {
    hide Allocate, Carve, Replace, FirstFit, Split;
    AllocateShape(rs, AllocateAddress, kind, count, address);
    assert FirstFit(rs, AllocateAddress, count, address) == i;
  }

  /**
    A page is allocated and freed again, and in between no pages are: all pages
    are free in the end, but an empty descriptor keeps the memory in two.
   */
  lemma EmptyDescriptorStays()
    ensures var rs := [Region(0x20_0000, 10, ConventionalMemory, {})];
            var qs := [AllocateRequest(AllocateAddress, LoaderData, 1, 0x20_3000),
                       AllocateRequest(AllocateAddress, LoaderData, 0, 0x20_5000)];
            && Free(Run(rs, qs), 0x20_3000) ==
               Outcome(Success, 0, [Region(0x20_0000, 5, ConventionalMemory, {}), Region(0x20_5000, 0, LoaderData, {}),
                                    Region(0x20_5000, 5, ConventionalMemory, {})])
            && OnlyFree(Free(Run(rs, qs), 0x20_3000).regions)
  {
    var r := Region(0x20_0000, 10, ConventionalMemory, {});
    var a, b := Region(0x20_0000, 3, ConventionalMemory, {}), Region(0x20_3000, 1, LoaderData, {});
    var c := Region(0x20_4000, 6, ConventionalMemory, {});
    var d, e := Region(0x20_4000, 1, ConventionalMemory, {}), Region(0x20_5000, 0, LoaderData, {});
    var f, g := Region(0x20_5000, 5, ConventionalMemory, {}), Region(0x20_0000, 5, ConventionalMemory, {});
    hide Allocate, Free, Merge, Carve, TypeAt;
    CarveExample(r, a, b, c, d, e, f);
    FixedGrant([r], 0, LoaderData, 1, 0x20_3000);
    assert Replace([r], 0, [a, b, c]) == [a, b, c];
    FixedGrant([a, b, c], 2, LoaderData, 0, 0x20_5000);
    assert Replace([a, b, c], 2, [d, e, f]) == [a, b, d, e, f];
    TwoRequests([r], AllocateRequest(AllocateAddress, LoaderData, 1, 0x20_3000),
                AllocateRequest(AllocateAddress, LoaderData, 0, 0x20_5000));
    FreeExample(a, b, d, e, f, g);
    EmptyCoversNothing(g, e, f);
  }

  lemma EmptyCoversNothing(g: Region, e: Region, f: Region)
    requires g.kind == f.kind == ConventionalMemory && e.pages == 0
    ensures OnlyFree([g, e, f])
  {
    forall page: nat | TypeAt([g, e, f], page).Some? ensures TypeAt([g, e, f], page) == Some(ConventionalMemory) {
      var j := AtWitness([g, e, f], page);
    }
  }

  lemma CarveExample(r: Region, a: Region, b: Region, c: Region, d: Region, e: Region, f: Region)
    requires r == Region(0x20_0000, 10, ConventionalMemory, {})
    requires a == Region(0x20_0000, 3, ConventionalMemory, {}) && b == Region(0x20_3000, 1, LoaderData, {})
    requires c == Region(0x20_4000, 6, ConventionalMemory, {}) && d == Region(0x20_4000, 1, ConventionalMemory, {})
    requires e == Region(0x20_5000, 0, LoaderData, {}) && f == Region(0x20_5000, 5, ConventionalMemory, {})
    ensures Carve(r, 0x20_3000, 1, LoaderData) == [a, b, c] && Carve(c, 0x20_5000, 0, LoaderData) == [d, e, f]
  {
    assert BlockAttribute(r, 1, LoaderData) == {} && BlockAttribute(c, 0, LoaderData) == {};
  }

  lemma TwoRequests(rs: seq<Region>, p: Request, q: Request)
    ensures Run(rs, [p, q]) == Serve(Serve(rs, p).regions, q).regions
  {
    hide Serve;
    var one := Serve(rs, p).regions;
    assert [p, q][1..] == [q] && [q][1..] == [];
    assert Run(one, [q]) == Run(Serve(one, q).regions, []);
  }

  lemma FreeExample(a: Region, b: Region, d: Region, e: Region, f: Region, g: Region)
    requires a == Region(0x20_0000, 3, ConventionalMemory, {}) && b == Region(0x20_3000, 1, LoaderData, {})
    requires d == Region(0x20_4000, 1, ConventionalMemory, {}) && e == Region(0x20_5000, 0, LoaderData, {})
    requires f == Region(0x20_5000, 5, ConventionalMemory, {}) && g == Region(0x20_0000, 5, ConventionalMemory, {})
    ensures Free([a, b, d, e, f], 0x20_3000) == Outcome(Success, 0, [g, e, f])
  {
    hide Merge;
    var all, b' := [a, b, d, e, f], b.(kind := ConventionalMemory);
    assert StartingAt(all, 0x20_3000) == 1;
    assert Retype(all, 1, ConventionalMemory) == [a, b'] + [d, e, f];
    var ab := Join(a, b');
    MergeStep(a, b', [d, e, f]);
    assert [ab] + [d, e, f] == [ab, d] + [e, f] && Join(ab, d) == g;
    MergeStep(ab, d, [e, f]);
    assert [g] + [e, f] == [g, e] + [f];
    MergeStep(g, e, [f]);
    assert [e] + [f] == [e, f] + [];
    MergeStep(e, f, []);
    MergeOne(f);
  }

  lemma MergeOne(r: Region)
    ensures Merge([r] + []) == [r]
  {
    assert [r] + [] == [r];
  }
}

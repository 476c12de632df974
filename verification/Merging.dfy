/**
  Merging free memory and freeing blocks: what they do to the page map, what an
  allocation followed by its free restores, and when a request is granted, told
  by the page map alone.
 */
module Merging {
  import opened Common
  import opened Regions

  /** Free neighbours touch only at the given seams. */
  ghost predicate CoalescedUpTo(rs: seq<Region>, seams: set<nat>) {
    forall i :: 0 <= i < |rs| - 1 && Mergeable(rs[i], rs[i+1]) ==> rs[i+1].start in seams
  }

  ghost predicate Coalesced(rs: seq<Region>) {
    CoalescedUpTo(rs, {})
  }

  lemma {:induction false} MergeHead(rs: seq<Region>)
    requires rs != []
    ensures var m := Merge(rs);
            && m != [] && m[0].start == rs[0].start && m[0].kind == rs[0].kind
            && m[0].attribute == rs[0].attribute && m[0].End() >= rs[0].End()
    decreases |rs|
  {
    if |rs| >= 2 && Mergeable(rs[0], rs[1]) {
      MergeHead([Join(rs[0], rs[1])] + rs[2..]);
    }
  }

  lemma {:induction false} MergeNoJoinAtHead(rs: seq<Region>)
    requires |rs| >= 2 && !Mergeable(rs[0], rs[1])
    ensures Merge(rs) == [rs[0]] + Merge(rs[1..])
    ensures |Merge(rs)| >= 2 && !Mergeable(Merge(rs)[0], Merge(rs)[1])
  {
    MergeHead(rs[1..]);
  }

  /** Merging leaves no two joinable neighbours, and changes nothing when there were none. */
  lemma {:induction false} MergeCoalesces(rs: seq<Region>)
    ensures Coalesced(Merge(rs)) && |Merge(rs)| <= |rs|
    ensures Coalesced(rs) <==> Merge(rs) == rs
    decreases |rs|
  {
    if |rs| >= 2 {
      if Mergeable(rs[0], rs[1]) {
        MergeCoalesces([Join(rs[0], rs[1])] + rs[2..]);
        assert !Coalesced(rs);
      } else {
        MergeCoalesces(rs[1..]);
        MergeNoJoinAtHead(rs);
        var m := Merge(rs[1..]);
        forall i | 0 <= i < |Merge(rs)| - 1
          ensures !Mergeable(Merge(rs)[i], Merge(rs)[i+1])
        {
          if i > 0 {
            assert Merge(rs)[i] == m[i-1] && Merge(rs)[i+1] == m[i];
          }
        }
        if Coalesced(rs) {
          assert Coalesced(rs[1..]);
        }
      }
    }
  }

  lemma AtCons(r: Region, rest: seq<Region>, page: nat)
    ensures At([r] + rest, page) == if r.Covers(page) then Some(r) else At(rest, page)
  {
    assert ([r] + rest)[1..] == rest;
  }

  lemma JoinTypes(a: Region, b: Region, rest: seq<Region>, page: nat)
    requires Mergeable(a, b)
    ensures TypeAt([Join(a, b)] + rest, page) == TypeAt([a, b] + rest, page)
    ensures a.attribute == b.attribute ==> AttributeAt([Join(a, b)] + rest, page) == AttributeAt([a, b] + rest, page)
  {
    assert [a, b] + rest == [a] + ([b] + rest);
    AtCons(a, [b] + rest, page);
    AtCons(b, rest, page);
    AtCons(Join(a, b), rest, page);
  }

  /** Merging never changes the type of a page. */
  lemma {:induction false} MergeKeepsTypes(rs: seq<Region>, page: nat)
    ensures TypeAt(Merge(rs), page) == TypeAt(rs, page)
    decreases |rs|
  {
    if |rs| >= 2 {
      if Mergeable(rs[0], rs[1]) {
        assert rs == [rs[0], rs[1]] + rs[2..];
        JoinTypes(rs[0], rs[1], rs[2..], page);
        MergeKeepsTypes([Join(rs[0], rs[1])] + rs[2..], page);
      } else {
        MergeKeepsTypes(rs[1..], page);
        AtCons(rs[0], Merge(rs[1..]), page);
      }
    }
  }

  lemma OrderedJoin(rs: seq<Region>)
    requires Ordered(rs) && |rs| >= 2 && Mergeable(rs[0], rs[1])
    ensures Ordered([Join(rs[0], rs[1])] + rs[2..])
    ensures NoneEmpty(rs) ==> NoneEmpty([Join(rs[0], rs[1])] + rs[2..])
  {
    var m := [Join(rs[0], rs[1])] + rs[2..];
    assert forall i :: 1 <= i < |m| ==> m[i] == rs[i+1];
    assert m[0].End() == rs[1].End();
  }

  lemma OrderedTail(rs: seq<Region>)
    requires Ordered(rs) && rs != []
    ensures Ordered(rs[1..]) && (NoneEmpty(rs) ==> NoneEmpty(rs[1..]))
  {
    assert forall i :: 0 <= i < |rs[1..]| ==> rs[1..][i] == rs[i+1];
  }

  lemma {:induction false} MergeKeepsOrdered(rs: seq<Region>)
    requires Ordered(rs)
    ensures Ordered(Merge(rs)) && (NoneEmpty(rs) ==> NoneEmpty(Merge(rs)))
    ensures forall i :: 0 <= i < |Merge(rs)| ==> Merge(rs)[i].start >= rs[0].start
    decreases |rs|
  {
    if |rs| >= 2 {
      if Mergeable(rs[0], rs[1]) {
        OrderedJoin(rs);
        MergeKeepsOrdered([Join(rs[0], rs[1])] + rs[2..]);
      } else {
        OrderedTail(rs);
        MergeKeepsOrdered(rs[1..]);
      }
    }
  }

  ghost predicate JoinsAgree(rs: seq<Region>) {
    forall i :: 0 <= i < |rs| - 1 && Mergeable(rs[i], rs[i+1]) ==> rs[i].attribute == rs[i+1].attribute
  }

  lemma JoinsAgreeTail(rs: seq<Region>)
    requires |rs| >= 2
    ensures JoinsAgree(rs) <==>
            JoinsAgree(rs[1..]) && (Mergeable(rs[0], rs[1]) ==> rs[0].attribute == rs[1].attribute)
  {
    var t := rs[1..];
    if JoinsAgree(t) && (Mergeable(rs[0], rs[1]) ==> rs[0].attribute == rs[1].attribute) {
      forall i | 0 <= i < |rs| - 1 && Mergeable(rs[i], rs[i+1]) ensures rs[i].attribute == rs[i+1].attribute {
        if i > 0 {
          assert t[i-1] == rs[i] && t[i] == rs[i+1];
        }
      }
    }
  }

  lemma JoinsAgreeJoin(rs: seq<Region>)
    requires |rs| >= 2 && Mergeable(rs[0], rs[1]) && rs[0].attribute == rs[1].attribute
    ensures JoinsAgree(rs) <==> JoinsAgree([Join(rs[0], rs[1])] + rs[2..])
  {
    var j, m := Join(rs[0], rs[1]), [Join(rs[0], rs[1])] + rs[2..];
    assert j.End() == rs[1].End();
    JoinsAgreeTail(rs);
    if |rs| > 2 {
      JoinsAgreeTail(rs[1..]);
      JoinsAgreeTail(m);
      assert m[1..] == rs[2..] == rs[1..][1..];
    }
  }

  lemma AttributeLost(rs: seq<Region>)
    requires WellFormed(rs) && |rs| >= 2 && Mergeable(rs[0], rs[1]) && rs[0].attribute != rs[1].attribute
    ensures !SameAttributes(rs, Merge(rs))
  {
    var page := rs[1].start / 4096;
    AtRegion(rs, 1, page);
    MergeHead([Join(rs[0], rs[1])] + rs[2..]);
    assert Merge(rs)[0].Covers(page);
    assert AttributeAt(Merge(rs), page) == Some(rs[0].attribute);
    assert AttributeAt(rs, page) == Some(rs[1].attribute);
  }

  lemma SameAttributesTail(r: Region, a: seq<Region>, b: seq<Region>)
    requires forall page: nat :: TypeAt(a, page) == TypeAt(b, page)
    requires forall page: nat :: r.Covers(page) ==> TypeAt(a, page) == None
    ensures SameAttributes([r] + a, [r] + b) <==> SameAttributes(a, b)
  {
    forall page: nat
      ensures AttributeAt([r] + a, page) == AttributeAt([r] + b, page) <==> AttributeAt(a, page) == AttributeAt(b, page)
    {
      AtCons(r, a, page);
      AtCons(r, b, page);
      assert r.Covers(page) ==> TypeAt(a, page) == None && TypeAt(b, page) == None;
    }
  }

  lemma TailApart(rs: seq<Region>, page: nat)
    requires Ordered(rs) && rs != [] && rs[0].Covers(page)
    ensures TypeAt(rs[1..], page) == None
  {
    if At(rs[1..], page).Some? {
      var j := AtWitness(rs[1..], page);
      assert false;
    }
  }

  lemma {:induction false} AttributesOfTail(rs: seq<Region>)
    requires Ordered(rs) && |rs| >= 2 && !Mergeable(rs[0], rs[1])
    ensures SameAttributes(rs, Merge(rs)) <==> SameAttributes(rs[1..], Merge(rs[1..]))
  {
    var r, a, b := rs[0], rs[1..], Merge(rs[1..]);
    forall page: nat ensures TypeAt(a, page) == TypeAt(b, page) {
      MergeKeepsTypes(a, page);
    }
    forall page: nat | r.Covers(page) ensures TypeAt(a, page) == None {
      TailApart(rs, page);
    }
    assert rs == [r] + a && Merge(rs) == [r] + b;
    hide SameAttributes, Merge, TypeAt;
    SameAttributesTail(r, a, b);
  }

  lemma {:induction false} AttributesOfJoin(rs: seq<Region>)
    requires |rs| >= 2 && Mergeable(rs[0], rs[1]) && rs[0].attribute == rs[1].attribute
    ensures var m := [Join(rs[0], rs[1])] + rs[2..];
            SameAttributes(rs, Merge(rs)) <==> SameAttributes(m, Merge(m))
  {
    var m := [Join(rs[0], rs[1])] + rs[2..];
    assert Merge(rs) == Merge(m);
    assert rs == [rs[0], rs[1]] + rs[2..];
    hide Merge, AttributeAt;
    forall page: nat ensures AttributeAt(m, page) == AttributeAt(rs, page) {
      JoinTypes(rs[0], rs[1], rs[2..], page);
    }
  }

  /** Merging keeps the attribute of every page exactly when the neighbours it joins agree on it. */
  lemma {:induction false} MergeKeepsAttributes(rs: seq<Region>)
    requires WellFormed(rs)
    ensures SameAttributes(rs, Merge(rs)) <==> JoinsAgree(rs)
    decreases |rs|
  {
    if |rs| >= 2 {
      JoinsAgreeTail(rs);
      hide JoinsAgree, SameAttributes, Ordered, NoneEmpty;
      if !Mergeable(rs[0], rs[1]) {
        OrderedTail(rs);
        MergeKeepsAttributes(rs[1..]);
        AttributesOfTail(rs);
      } else if rs[0].attribute != rs[1].attribute {
        AttributeLost(rs);
      } else {
        OrderedJoin(rs);
        MergeKeepsAttributes([Join(rs[0], rs[1])] + rs[2..]);
        JoinsAgreeJoin(rs);
        AttributesOfJoin(rs);
      }
    }
  }

  lemma MergeStep(x: Region, y: Region, rest: seq<Region>)
    ensures Mergeable(x, y) ==> Merge([x, y] + rest) == Merge([Join(x, y)] + rest)
    ensures !Mergeable(x, y) ==> Merge([x, y] + rest) == [x] + Merge([y] + rest)
  {
    assert ([x, y] + rest)[2..] == rest && ([x, y] + rest)[1..] == [y] + rest;
  }

  lemma {:induction false} MergeAbsorbsJoinAfterOne(x: Region, a: Region, b: Region, post: seq<Region>)
    requires Mergeable(a, b)
    ensures Merge([x] + ([a, b] + post)) == Merge([x] + ([Join(a, b)] + post))
  {
    hide Merge;
    var two := [a, b] + post;
    MergeStep(a, b, post);
    assert [x] + two == [x, a] + ([b] + post) && [x] + ([Join(a, b)] + post) == [x, Join(a, b)] + post;
    MergeStep(x, a, [b] + post);
    MergeStep(x, Join(a, b), post);
    if Mergeable(x, a) {
      MergeStep(Join(x, a), b, post);
      assert [Join(x, a)] + ([b] + post) == [Join(x, a), b] + post;
    } else {
      assert [a] + ([b] + post) == two;
    }
  }

  lemma {:induction false} MergeStepInFront(pre: seq<Region>, rest: seq<Region>)
    requires |pre| >= 2
    ensures Merge(pre + rest) ==
            if Mergeable(pre[0], pre[1]) then Merge(([Join(pre[0], pre[1])] + pre[2..]) + rest)
            else [pre[0]] + Merge(pre[1..] + rest)
  {
    hide Merge;
    assert pre + rest == [pre[0], pre[1]] + (pre[2..] + rest);
    MergeStep(pre[0], pre[1], pre[2..] + rest);
    assert [pre[1]] + (pre[2..] + rest) == pre[1..] + rest;
    assert [Join(pre[0], pre[1])] + (pre[2..] + rest) == ([Join(pre[0], pre[1])] + pre[2..]) + rest;
  }

  /** Joining two neighbours anywhere beforehand does not change what merging computes. */
  lemma {:induction false} MergeAbsorbsJoin(pre: seq<Region>, a: Region, b: Region, post: seq<Region>)
    requires Mergeable(a, b)
    ensures Merge(pre + ([a, b] + post)) == Merge(pre + ([Join(a, b)] + post))
    decreases |pre|
  {
    hide Merge;
    var two, one := [a, b] + post, [Join(a, b)] + post;
    if pre == [] {
      MergeStep(a, b, post);
      assert pre + two == two && pre + one == one;
    } else if |pre| == 1 {
      assert pre == [pre[0]];
      MergeAbsorbsJoinAfterOne(pre[0], a, b, post);
    } else {
      MergeStepInFront(pre, two);
      MergeStepInFront(pre, one);
      MergeAbsorbsJoin(if Mergeable(pre[0], pre[1]) then [Join(pre[0], pre[1])] + pre[2..] else pre[1..], a, b, post);
    }
  }

  /** Where neighbours cannot be joined, the two sides merge on their own. */
  lemma {:induction false} MergeInParts(pre: seq<Region>, post: seq<Region>)
    requires pre != [] && post != [] && !Mergeable(pre[|pre|-1], post[0])
    ensures Merge(pre + post) == Merge(pre) + Merge(post)
    decreases |pre|
  {
    if |pre| == 1 {
      assert pre + post == [pre[0], post[0]] + post[1..] && [post[0]] + post[1..] == post;
      MergeStep(pre[0], post[0], post[1..]);
    } else {
      MergeStepInFront(pre, post);
      assert pre == [pre[0], pre[1]] + pre[2..];
      MergeStep(pre[0], pre[1], pre[2..]);
      if Mergeable(pre[0], pre[1]) {
        var m := [Join(pre[0], pre[1])] + pre[2..];
        assert |pre| == 2 ==> m[|m|-1].End() == pre[1].End();
        MergeInParts(m, post);
      } else {
        MergeInParts(pre[1..], post);
        assert [pre[1]] + pre[2..] == pre[1..];
      }
    }
  }

  /** A descriptor that is not free is never joined. */
  lemma {:induction false} KeptByMerge(rs: seq<Region>, r: Region)
    requires r in rs && r.kind != ConventionalMemory
    ensures r in Merge(rs)
    decreases |rs|
  {
    if |rs| >= 2 {
      if Mergeable(rs[0], rs[1]) {
        assert rs == [rs[0], rs[1]] + rs[2..];
        KeptByMerge([Join(rs[0], rs[1])] + rs[2..], r);
      } else if r != rs[0] {
        assert rs == [rs[0]] + rs[1..];
        KeptByMerge(rs[1..], r);
      }
    }
  }

  // ---------------------------------------------------------------------------
  // Freeing
  // ---------------------------------------------------------------------------

  lemma RetypeKeepsOrdered(rs: seq<Region>, i: nat, kind: MemoryType)
    requires Ordered(rs) && i < |rs|
    ensures Ordered(Retype(rs, i, kind)) && (NoneEmpty(rs) ==> NoneEmpty(Retype(rs, i, kind)))
  {
    var t := Retype(rs, i, kind);
    assert forall j :: 0 <= j < |rs| ==> t[j].start == rs[j].start && t[j].End() == rs[j].End();
  }

  lemma RetypeTypes(rs: seq<Region>, i: nat, kind: MemoryType, page: nat)
    requires Ordered(rs) && i < |rs|
    ensures TypeAt(Retype(rs, i, kind), page) == if rs[i].Covers(page) then Some(kind) else TypeAt(rs, page)
  {
    var r, t := rs[i], rs[i].(kind := kind);
    assert Retype(rs, i, kind) == rs[..i] + [t] + rs[i+1..] && rs == rs[..i] + [r] + rs[i+1..];
    AtReplace(rs[..i], [r], rs[i+1..], page);
    AtReplace(rs[..i], [t], rs[i+1..], page);
    if r.Covers(page) {
      NoneBefore(rs, i, page);
    }
  }

  /**
    Freeing turns exactly the pages of the first descriptor starting at the
    address into free pages and leaves a coalesced map in order; an address at
    which no descriptor starts changes nothing.
   */
  lemma FreeRetypesBlock(rs: seq<Region>, address: nat)
    requires Ordered(rs)
    ensures var o, i := Free(rs, address), StartingAt(rs, address);
            && Ordered(o.regions) && (NoneEmpty(rs) ==> NoneEmpty(o.regions)) && |o.regions| <= |rs|
            && (o.status == Success <==> exists j :: 0 <= j < |rs| && rs[j].start == address)
            && (o.status != Success ==> o.status == NotFound && o.regions == rs)
            && (o.status == Success ==>
                  && i < |rs| && Coalesced(o.regions)
                  && forall page: nat :: TypeAt(o.regions, page) ==
                       if rs[i].Covers(page) then Some(ConventionalMemory) else TypeAt(rs, page))
  {
    var o, i := Free(rs, address), StartingAt(rs, address);
    if i < |rs| {
      var t := Retype(rs, i, ConventionalMemory);
      MergeCoalesces(t);
      RetypeKeepsOrdered(rs, i, ConventionalMemory);
      MergeKeepsOrdered(t);
      hide Ordered, NoneEmpty, TypeAt, Merge, Coalesced;
      forall page: nat
        ensures TypeAt(o.regions, page) == if rs[i].Covers(page) then Some(ConventionalMemory) else TypeAt(rs, page)
      {
        MergeKeepsTypes(t, page);
        RetypeTypes(rs, i, ConventionalMemory, page);
      }
    }
  }

  // ---------------------------------------------------------------------------
  // Allocating and freeing again
  // ---------------------------------------------------------------------------

  /** Replacing two joinable descriptors by their join leaves the merged map alone. */
  lemma {:induction false} MergeAbsorbsInPlace(rs: seq<Region>, i: nat, a: Region, b: Region, rest: seq<Region>)
    requires i < |rs| && Mergeable(a, b)
    ensures Merge(Replace(rs, i, [a, b] + rest)) == Merge(Replace(rs, i, [Join(a, b)] + rest))
  {
    hide Merge;
    var post := rest + rs[i+1..];
    assert Replace(rs, i, [a, b] + rest) == rs[..i] + ([a, b] + post);
    assert Replace(rs, i, [Join(a, b)] + rest) == rs[..i] + ([Join(a, b)] + post);
    MergeAbsorbsJoin(rs[..i], a, b, post);
  }

  lemma {:induction false} MergeAbsorbsPair(rs: seq<Region>, i: nat, a: Region, b: Region)
    requires i < |rs| && Mergeable(a, b)
    ensures Merge(Replace(rs, i, [a, b])) == Merge(Replace(rs, i, [Join(a, b)]))
  {
    hide Merge;
    assert [a, b] + [] == [a, b] && [Join(a, b)] + [] == [Join(a, b)];
    MergeAbsorbsInPlace(rs, i, a, b, []);
  }

  lemma {:induction false} SplitMergesBack(rs: seq<Region>, i: nat, k: nat)
    requires i < |rs| && rs[i].kind == ConventionalMemory && k <= rs[i].pages
    ensures Merge(Split(rs, i, k)) == Merge(rs)
  {
    hide Merge, Split, Replace;
    var r := rs[i];
    var a, b := r.(pages := k), r.(start := r.start + Bytes(k), pages := r.pages - k);
    SplitIsReplace(rs, i, k);
    MergeAbsorbsPair(rs, i, a, b);
  }

  /** The pieces of a carved descriptor once the block is free again. */
  function Freed(r: Region, at: nat, count: nat, kind: MemoryType): seq<Region> {
    Front(r, at) + [Block(r, at, count, kind).(kind := ConventionalMemory)] + Back(r, at, count)
  }

  /** The descriptor the pieces join up to: the attribute is that of the first piece. */
  function Rejoined(r: Region, at: nat, count: nat, kind: MemoryType): Region {
    if at <= r.start then r.(attribute := BlockAttribute(r, count, kind)) else r
  }

  lemma {:induction false} BlockAndBackMerge(rs: seq<Region>, i: nat, b: Region, at: nat, count: nat)
    requires i < |rs| && rs[i].kind == ConventionalMemory && Room(rs[i], at, count)
    requires b.kind == ConventionalMemory && b.start == rs[i].start && b.pages == Offset(rs[i], at) + count
    ensures Merge(Replace(rs, i, [b] + Back(rs[i], at, count))) == Merge(rs[i := rs[i].(attribute := b.attribute)])
  {
    hide Merge;
    var r, k := rs[i], Offset(rs[i], at) + count;
    var whole := r.(attribute := b.attribute);
    assert Replace(rs, i, [whole]) == rs[i := whole];
    if k == r.pages {
      assert [b] + Back(r, at, count) == [whole];
    } else {
      var g := r.(start := r.start + Bytes(k), pages := r.pages - k);
      assert [b] + Back(r, at, count) == [b, g] && Join(b, g) == whole;
      MergeAbsorbsPair(rs, i, b, g);
    }
  }

  lemma {:induction false} MergeUndoesCarve(rs: seq<Region>, i: nat, at: nat, count: nat, kind: MemoryType)
    requires i < |rs| && rs[i].kind == ConventionalMemory && Room(rs[i], at, count)
    ensures Merge(Replace(rs, i, Freed(rs[i], at, count, kind))) == Merge(rs[i := Rejoined(rs[i], at, count, kind)])
  {
    hide Merge, Replace, Back;
    var r := rs[i];
    var b := Block(r, at, count, kind).(kind := ConventionalMemory);
    if at <= r.start {
      assert Freed(r, at, count, kind) == [b] + Back(r, at, count);
      BlockAndBackMerge(rs, i, b, at, count);
    } else {
      var f := r.(pages := Offset(r, at));
      assert Freed(r, at, count, kind) == [f, b] + Back(r, at, count);
      MergeAbsorbsInPlace(rs, i, f, b, Back(r, at, count));
      BlockAndBackMerge(rs, i, Join(f, b), at, count);
      assert r.(attribute := Join(f, b).attribute) == r;
    }
  }

  /** The attribute of a free descriptor is lost when it is joined to the one before it, and only then. */
  lemma {:induction false} AttributeMatters(rs: seq<Region>, i: nat, attribute: set<nat>)
    requires i < |rs|
    ensures Merge(rs[i := rs[i].(attribute := attribute)]) == Merge(rs)
            <==> attribute == rs[i].attribute || (i > 0 && Mergeable(rs[i-1], rs[i]))
  {
    var r := rs[i];
    var r', post := r.(attribute := attribute), rs[i+1..];
    var rs' := rs[i := r'];
    if attribute == r.attribute {
      assert rs' == rs;
    } else if i > 0 && Mergeable(rs[i-1], r) {
      var p, pre := rs[i-1], rs[..i-1];
      assert rs == pre + ([p, r] + post) && rs' == pre + ([p, r'] + post);
      hide Merge;
      MergeAbsorbsJoin(pre, p, r, post);
      MergeAbsorbsJoin(pre, p, r', post);
      assert Join(p, r) == Join(p, r');
    } else {
      hide Merge;
      assert rs == rs[..i] + ([r] + post) && rs' == rs[..i] + ([r'] + post);
      MergeHead([r] + post);
      MergeHead([r'] + post);
      if i > 0 {
        MergeInParts(rs[..i], [r] + post);
        MergeInParts(rs[..i], [r'] + post);
        var at := |Merge(rs[..i])|;
        assert Merge(rs)[at] == Merge([r] + post)[0] && Merge(rs')[at] == Merge([r'] + post)[0];
      } else {
        assert rs[..0] + ([r] + post) == [r] + post && rs[..0] + ([r'] + post) == [r'] + post;
      }
    }
  }

  lemma FreedIndex(rs: seq<Region>, i: nat, at: nat, count: nat, kind: MemoryType)
    requires WellFormed(rs) && i < |rs| && rs[i].start <= at && Room(rs[i], at, count)
    ensures var out := Replace(rs, i, Carve(rs[i], at, count, kind));
            StartingAt(out, Base(rs[i], at)) == if Offset(rs[i], at) == 0 then i else i + 1
  {
    var r, f := rs[i], |Front(rs[i], at)|;
    var out, base := Replace(rs, i, Carve(r, at, count, kind)), Base(r, at);
    assert out[i+f] == Block(r, at, count, kind);
    assert f == 1 ==> out[i] == r.(pages := Offset(r, at));
    forall m | 0 <= m < i ensures out[m].start < base {
      assert out[m] == rs[m] && rs[m].End() <= r.start;
    }
  }

  lemma FreeingTheBlock(rs: seq<Region>, i: nat, at: nat, count: nat, kind: MemoryType)
    requires WellFormed(rs) && i < |rs| && rs[i].start <= at && Room(rs[i], at, count)
    requires at == rs[i].start || Offset(rs[i], at) >= 1
    ensures var out := Replace(rs, i, Carve(rs[i], at, count, kind));
            var j := StartingAt(out, Base(rs[i], at));
            && j < |out|
            && Retype(out, j, ConventionalMemory) == Replace(rs, i, Freed(rs[i], at, count, kind))
  {
    hide WellFormed;
    FreedIndex(rs, i, at, count, kind);
  }

  lemma FreeingTheEmptyFront(rs: seq<Region>, i: nat, at: nat, count: nat, kind: MemoryType)
    requires WellFormed(rs) && i < |rs| && rs[i].start < at && Offset(rs[i], at) == 0 && Room(rs[i], at, count)
    requires rs[i].kind == ConventionalMemory
    ensures var out := Replace(rs, i, Carve(rs[i], at, count, kind));
            var j := StartingAt(out, Base(rs[i], at));
            j < |out| && Retype(out, j, ConventionalMemory) == out
  {
    hide WellFormed;
    FreedIndex(rs, i, at, count, kind);
  }

  lemma {:induction false} BlockIsNotFree(rs: seq<Region>, i: nat, at: nat, count: nat, kind: MemoryType)
    requires WellFormed(rs) && i < |rs| && rs[i].start <= at && Room(rs[i], at, count)
    requires rs[i].kind == ConventionalMemory && kind != ConventionalMemory
    ensures Block(rs[i], at, count, kind) !in Merge(rs)
  {
    var r, m, b := rs[i], Merge(rs), Block(rs[i], at, count, kind);
    MergeKeepsOrdered(rs);
    if b in m {
      var j :| 0 <= j < |m| && m[j] == b;
      hide Merge;
      var page := b.start / 4096;
      AtRegion(m, j, page);
      AtRegion(rs, i, page);
      MergeKeepsTypes(rs, page);
      assert false;
    }
  }

  /**
    What an allocation followed by its free does not restore: the block, when an
    empty descriptor in front of it is freed in its place; or the attribute,
    when a runtime block at the start of free memory was marked.
   */
  ghost predicate Loses(rs: seq<Region>, how: AllocateType, kind: MemoryType, count: nat, address: nat) {
    var i := FirstFit(rs, how, count, address);
    && i < |rs|
    && (|| (kind != ConventionalMemory && InFirstPage(rs[i], how, address))
        || (&& Landing(rs[i], how, address) == rs[i].start
            && BlockAttribute(rs[i], count, kind) != rs[i].attribute
            && !(i > 0 && Mergeable(rs[i-1], rs[i]))))
  }

  lemma {:induction false} FreeAfterCarve(rs: seq<Region>, i: nat, at: nat, count: nat, kind: MemoryType)
    requires WellFormed(rs) && i < |rs| && rs[i].kind == ConventionalMemory
    requires rs[i].start <= at && Room(rs[i], at, count)
    ensures var out := Replace(rs, i, Carve(rs[i], at, count, kind));
            var lost := kind != ConventionalMemory && rs[i].start < at && Offset(rs[i], at) == 0;
            && Free(out, Base(rs[i], at)).status == Success && Free(out, Base(rs[i], at)).address == 0
            && (!lost ==> Free(out, Base(rs[i], at)).regions == Merge(rs[i := Rejoined(rs[i], at, count, kind)]))
            && (lost ==> Free(out, Base(rs[i], at)).regions != Merge(rs))
  {
    hide Merge, WellFormed, Room, Offset, Base;
    var r := rs[i];
    var out := Replace(rs, i, Carve(r, at, count, kind));
    if at == r.start || Offset(r, at) >= 1 {
      FreeingTheBlock(rs, i, at, count, kind);
      MergeUndoesCarve(rs, i, at, count, kind);
    } else {
      FreeingTheEmptyFront(rs, i, at, count, kind);
      if kind == ConventionalMemory {
        assert Carve(r, at, count, kind) == Freed(r, at, count, kind);
        MergeUndoesCarve(rs, i, at, count, kind);
      } else {
        assert Block(r, at, count, kind) in Carve(r, at, count, kind) && Block(r, at, count, kind) in out;
        KeptByMerge(out, Block(r, at, count, kind));
        BlockIsNotFree(rs, i, at, count, kind);
      }
    }
  }

  ghost predicate FreesBack(o: Outcome, rs: seq<Region>) {
    Free(o.regions, o.address) == Outcome(Success, 0, Merge(rs))
  }

  lemma {:induction false} AnswerThenFree(o: Outcome, rs: seq<Region>, how: AllocateType, kind: MemoryType,
      count: nat, address: nat)
    requires WellFormed(rs) && IsAnswer(o, rs, how, kind, count, address)
    ensures o.status == Success ==>
              && Free(o.regions, o.address).status == Success
              && (FreesBack(o, rs) <==> !Loses(rs, how, kind, count, address))
    ensures o.status != Success ==> Merge(o.regions) == Merge(rs)
  {
    hide Merge, WellFormed, Free, Carve, Replace, Split, FirstFit;
    var i := FirstFit(rs, how, count, address);
    if i < |rs| {
      var at := Landing(rs[i], how, address);
      if o.status == Success {
        FreeAfterCarve(rs, i, at, count, kind);
        AttributeMatters(rs, i, Rejoined(rs[i], at, count, kind).attribute);
        assert Rejoined(rs[i], at, count, kind) == rs[i].(attribute := Rejoined(rs[i], at, count, kind).attribute);
      } else if o.regions != rs {
        SplitMergesBack(rs, i, Offset(rs[i], at));
      }
    }
  }

  /**
    Freeing what was just allocated gives the merged form of the original map,
    attributes included, exactly unless something is lost; the coalesced maps are
    those that are their own merged form, and a failed allocation merges back.
   */
  lemma AllocateThenFree(rs: seq<Region>, how: AllocateType, kind: MemoryType, count: nat, address: nat)
    requires WellFormed(rs) && |rs| <= MAX_ALLOCATIONS
    ensures var o := Allocate(rs, how, kind, count, address);
            && (o.status == Success ==>
                  && Free(o.regions, o.address).status == Success
                  && (FreesBack(o, rs) <==> !Loses(rs, how, kind, count, address)))
            && (o.status != Success ==> Merge(o.regions) == Merge(rs))
            && (Coalesced(rs) <==> Merge(rs) == rs)
  {
    hide Allocate, Merge, Free, FreesBack, Loses, Coalesced, IsAnswer, WellFormed;
    MergeCoalesces(rs);
    AllocateShape(rs, how, kind, count, address);
    AnswerThenFree(Allocate(rs, how, kind, count, address), rs, how, kind, count, address);
  }

  /** A runtime page taken from the start of free memory and freed again leaves all of that memory marked. */
  lemma RuntimeMarkStays()
    ensures var rs := [Region(0x20_0000, 10, ConventionalMemory, {})];
            var o := Allocate(rs, AllocateAnyPages, RuntimeServicesData, 1, 0);
            && o.status == Success
            && Free(o.regions, o.address).regions == [Region(0x20_0000, 10, ConventionalMemory, {MEMORY_RUNTIME})]
  {
    var r := Region(0x20_0000, 10, ConventionalMemory, {});
    var r' := r.(attribute := {MEMORY_RUNTIME});
    AllocateShape([r], AllocateAnyPages, RuntimeServicesData, 1, 0);
    assert FirstFit([r], AllocateAnyPages, 1, 0) == 0;
    assert BlockAttribute(r, 1, RuntimeServicesData) == {MEMORY_RUNTIME};
    FreeAfterCarve([r], 0, r.start, 1, RuntimeServicesData);
    assert [r][0 := r'] == [r'] && Merge([r']) == [r'];
  }

  // ---------------------------------------------------------------------------
  // When a request can be granted
  // ---------------------------------------------------------------------------

  /** The places where an operation can leave free neighbours unjoined: the ends of the block it cuts. */
  function Cuts(rs: seq<Region>, how: AllocateType, kind: MemoryType, count: nat, address: nat,
      granted: bool): set<nat> {
    var i := FirstFit(rs, how, count, address);
    if i == |rs| || (granted && kind != ConventionalMemory) then {}
    else var base := Base(rs[i], Landing(rs[i], how, address)); {base, base + Bytes(count)}
  }

  lemma ReplaceKeepsCoalesced(rs: seq<Region>, i: nat, mid: seq<Region>, seams: set<nat>, more: set<nat>)
    requires i < |rs| && CoalescedUpTo(rs, seams) && mid != [] && CoalescedUpTo(mid, more)
    requires mid[0].start == rs[i].start && mid[|mid|-1].End() == rs[i].End()
    requires rs[i].kind == ConventionalMemory
    ensures CoalescedUpTo(Replace(rs, i, mid), seams + more)
  {
    var r, out := rs[i], Replace(rs, i, mid);
    forall j | 0 <= j < |out| - 1 && Mergeable(out[j], out[j+1])
      ensures out[j+1].start in seams + more
    {
      if j + 1 < i {
        assert out[j] == rs[j] && out[j+1] == rs[j+1];
      } else if j + 1 == i {
        assert out[j] == rs[j] && out[j+1] == mid[0] && Mergeable(rs[j], rs[j+1]);
      } else if j < i + |mid| - 1 {
        assert out[j] == mid[j-i] && out[j+1] == mid[j-i+1];
      } else if j == i + |mid| - 1 {
        assert out[j] == mid[|mid|-1] && out[j+1] == rs[i+1] && Mergeable(rs[i], rs[i+1]);
      } else {
        assert out[j] == rs[j-|mid|+1] && out[j+1] == rs[j-|mid|+2];
      }
    }
  }

  lemma CarveCuts(r: Region, at: nat, count: nat, kind: MemoryType)
    requires Room(r, at, count)
    ensures var c, base := Carve(r, at, count, kind), Base(r, at);
            && c[0].start == r.start && c[|c|-1].End() == r.End()
            && CoalescedUpTo(c, if kind != ConventionalMemory then {} else {base, base + Bytes(count)})
  {
    var c, f := Carve(r, at, count, kind), |Front(r, at)|;
    assert c[f] == Block(r, at, count, kind);
  }

  /**
    A granted request for anything but free memory makes no new pair of touching
    free descriptors; a request for free memory, or one that fails after a split,
    makes them only at the ends of its block.
   */
  lemma AllocateKeepsCoalesced(rs: seq<Region>, how: AllocateType, kind: MemoryType, count: nat,
      address: nat, seams: set<nat>)
    requires |rs| <= MAX_ALLOCATIONS && CoalescedUpTo(rs, seams)
    ensures var o := Allocate(rs, how, kind, count, address);
            CoalescedUpTo(o.regions, seams + Cuts(rs, how, kind, count, address, o.status == Success))
  {
    hide Allocate, Carve, Replace, Split, CoalescedUpTo, FirstFit;
    AllocateShape(rs, how, kind, count, address);
    var o, i := Allocate(rs, how, kind, count, address), FirstFit(rs, how, count, address);
    var more := Cuts(rs, how, kind, count, address, o.status == Success);
    if i < |rs| {
      var r, at := rs[i], Landing(rs[i], how, address);
      if o.status == Success {
        CarveCuts(r, at, count, kind);
        ReplaceKeepsCoalesced(rs, i, Carve(r, at, count, kind), seams, more);
      } else if o.regions != rs {
        var k := Offset(r, at);
        var a, b := r.(pages := k), r.(start := r.start + Bytes(k), pages := r.pages - k);
        SplitIsReplace(rs, i, k);
        PairCuts(a, b);
        ReplaceKeepsCoalesced(rs, i, [a, b], seams, {b.start});
        MoreSeams(o.regions, seams + {b.start}, seams + more);
      } else {
        MoreSeams(rs, seams, seams + more);
      }
    } else {
      MoreSeams(rs, seams, seams + more);
    }
  }

  lemma PairCuts(a: Region, b: Region)
    ensures CoalescedUpTo([a, b], {b.start})
  {
  }

  lemma MoreSeams(rs: seq<Region>, seams: set<nat>, more: set<nat>)
    requires CoalescedUpTo(rs, seams) && seams <= more
    ensures CoalescedUpTo(rs, more)
  {
  }

  ghost predicate AllFree(rs: seq<Region>, address: nat, count: nat) {
    forall page: nat :: InBlock(page, address, count) ==> TypeAt(rs, page) == Some(ConventionalMemory)
  }

  ghost predicate NoSeamInside(seams: set<nat>, address: nat, count: nat) {
    forall s :: s in seams ==> !(address < s < address + Bytes(count))
  }

  lemma NeighbourAt(rs: seq<Region>, i: nat, j: nat)
    requires WellFormed(rs) && i < |rs| && j < |rs| && rs[j].Covers(rs[i].End() / 4096)
    ensures j == i + 1 && rs[j].start == rs[i].End()
  {
    assert Bytes(rs[i].End() / 4096) == rs[i].End();
    assert j > i;
    assert rs[i].End() <= rs[i+1].start < rs[i+1].End();
  }

  /** Free pages with no seam between them lie in one descriptor. */
  lemma FreeBlockIsInOneRegion(rs: seq<Region>, address: nat, count: nat, seams: set<nat>) returns (i: nat)
    requires WellFormed(rs) && CoalescedUpTo(rs, seams) && address % 4096 == 0 && count >= 1
    requires AllFree(rs, address, count) && NoSeamInside(seams, address, count)
    ensures i < |rs| && Fits(rs[i], AllocateAddress, count, address)
  {
    assert InBlock(address / 4096, address, count);
    i := AtWitness(rs, address / 4096);
    if rs[i].End() < address + Bytes(count) {
      var page := rs[i].End() / 4096;
      assert InBlock(page, address, count);
      var j := AtWitness(rs, page);
      NeighbourAt(rs, i, j);
      assert false;
    }
  }

  lemma RegionIsFree(rs: seq<Region>, i: nat, count: nat, address: nat)
    requires Ordered(rs) && i < |rs| && Fits(rs[i], AllocateAddress, count, address)
    ensures AllFree(rs, address, count)
  {
    forall page: nat | InBlock(page, address, count) ensures TypeAt(rs, page) == Some(ConventionalMemory) {
      AtRegion(rs, i, page);
    }
  }

  function Floor(address: nat): nat {
    address - address % 4096
  }

  /** Pages a fixed-address request must find free: one more than asked for when the address is inside a page. */
  function Span(count: nat, address: nat): nat {
    count + if address % 4096 == 0 then 0 else 1
  }

  lemma FitsSpan(r: Region, count: nat, address: nat)
    requires r.start % 4096 == 0
    ensures Fits(r, AllocateAddress, count, address) <==> Fits(r, AllocateAddress, Span(count, address), Floor(address))
  {
    var q, m := address / 4096, address % 4096;
    assert address == 4096 * q + m && Floor(address) == 4096 * q;
  }

  /**
    With two spare slots and free memory coalesced up to the seams, a fixed
    address is granted exactly when every page from its own page on is free, for
    every request that no seam cuts.
   */
  lemma AddressGrantedIffFree(rs: seq<Region>, kind: MemoryType, count: nat, address: nat, seams: set<nat>)
    requires WellFormed(rs) && CoalescedUpTo(rs, seams) && |rs| + 2 <= MAX_ALLOCATIONS
    requires Span(count, address) >= 1 && NoSeamInside(seams, Floor(address), Span(count, address))
    ensures Allocate(rs, AllocateAddress, kind, count, address).status == Success
            <==> AllFree(rs, Floor(address), Span(count, address))
  {
    hide Allocate, AllFree, NoSeamInside, CoalescedUpTo, Carve, MeetsMode, Fits, Span;
    AllocateMeetsMode(rs, AllocateAddress, kind, count, address);
    var i := FirstFit(rs, AllocateAddress, count, address);
    if i < |rs| {
      FitsSpan(rs[i], count, address);
      RegionIsFree(rs, i, Span(count, address), Floor(address));
    }
    if AllFree(rs, Floor(address), Span(count, address)) {
      var j := FreeBlockIsInOneRegion(rs, Floor(address), Span(count, address), seams);
      FitsSpan(rs[j], count, address);
    }
  }

  ghost predicate IsFree(rs: seq<Region>, page: int) {
    page >= 0 && TypeAt(rs, page) == Some(ConventionalMemory)
  }

  /** Free pages that cannot be extended at either end. */
  ghost predicate MaximalRun(rs: seq<Region>, page: nat, n: nat) {
    && n >= 1 && (forall p :: page <= p < page + n ==> IsFree(rs, p))
    && !IsFree(rs, page + n) && !IsFree(rs, page - 1)
  }

  lemma RunsDoNotOverlap(rs: seq<Region>, p: nat, n: nat, p': nat, n': nat)
    requires MaximalRun(rs, p, n) && MaximalRun(rs, p', n') && p' <= p < p' + n'
    ensures p == p' && n == n'
  {
    assert p' < p ==> IsFree(rs, p - 1);
    assert n < n' ==> IsFree(rs, p + n);
    assert n' < n ==> IsFree(rs, p' + n');
  }

  lemma NotFreeBehind(rs: seq<Region>, i: nat)
    requires WellFormed(rs) && Coalesced(rs) && i < |rs| && rs[i].kind == ConventionalMemory
    ensures !IsFree(rs, rs[i].End() / 4096)
  {
    if IsFree(rs, rs[i].End() / 4096) {
      var j := AtWitness(rs, rs[i].End() / 4096);
      NeighbourAt(rs, i, j);
      assert false;
    }
  }

  lemma NotFreeBefore(rs: seq<Region>, i: nat)
    requires WellFormed(rs) && Coalesced(rs) && i < |rs| && rs[i].kind == ConventionalMemory
    ensures !IsFree(rs, rs[i].start / 4096 - 1)
  {
    var p := rs[i].start / 4096 - 1;
    if IsFree(rs, p) {
      var j := AtWitness(rs, p);
      BeforeStart(rs, i, j);
      NotFreeBehind(rs, j);
      AtRegion(rs, i, rs[j].End() / 4096);
      assert false;
    }
  }

  lemma BeforeStart(rs: seq<Region>, i: nat, j: nat)
    requires WellFormed(rs) && i < |rs| && j < |rs| && rs[i].start >= 4096 && rs[j].Covers(rs[i].start / 4096 - 1)
    ensures rs[j].End() == rs[i].start
  {
    assert Bytes(rs[i].start / 4096 - 1) == rs[i].start - 4096;
    assert j < i;
    assert rs[j].End() <= rs[i].start && rs[j].End() % 4096 == 0;
  }

  lemma DescriptorIsRun(rs: seq<Region>, i: nat)
    requires WellFormed(rs) && Coalesced(rs) && i < |rs| && rs[i].kind == ConventionalMemory
    ensures MaximalRun(rs, rs[i].start / 4096, rs[i].pages)
  {
    var r := rs[i];
    var page := r.start / 4096;
    assert Bytes(page) == r.start && r.End() / 4096 == page + r.pages;
    NotFreeBehind(rs, i);
    NotFreeBefore(rs, i);
    forall p | page <= p < page + r.pages ensures IsFree(rs, p) {
      AtRegion(rs, i, p);
    }
  }

  /** In a coalesced map the free descriptors are exactly the maximal runs of free pages. */
  lemma RunsAreDescriptors(rs: seq<Region>, page: nat, n: nat)
    requires WellFormed(rs) && Coalesced(rs)
    ensures MaximalRun(rs, page, n) <==>
            exists i :: && 0 <= i < |rs| && rs[i].kind == ConventionalMemory
                        && rs[i].start == Bytes(page) && rs[i].pages == n
  {
    hide Coalesced;
    if MaximalRun(rs, page, n) {
      assert IsFree(rs, page);
      var i := AtWitness(rs, page);
      DescriptorIsRun(rs, i);
      assert Bytes(rs[i].start / 4096) == rs[i].start;
      RunsDoNotOverlap(rs, page, n, rs[i].start / 4096, rs[i].pages);
    }
    if i :| 0 <= i < |rs| && rs[i].kind == ConventionalMemory && rs[i].start == Bytes(page) && rs[i].pages == n {
      DescriptorIsRun(rs, i);
    }
  }

  /** A run of n free pages from this page on is long enough and lies where the mode asks. */
  predicate RunSuits(how: AllocateType, count: nat, address: nat, page: nat, n: nat) {
    && n >= count
    && (how == AllocateAnyPages ==> Bytes(page) > 0x10_0000)
    && (how == AllocateMaxAddress ==> Bytes(page) + Bytes(count) <= address)
  }

  /**
    With a spare slot and coalesced free memory, a request without a fixed
    address is granted exactly when some maximal run of free pages suits it, and
    then at the start of the lowest such run.
   */
  lemma PagesGrantedIffRun(rs: seq<Region>, how: AllocateType, kind: MemoryType, count: nat, address: nat)
    requires WellFormed(rs) && Coalesced(rs) && |rs| + 1 <= MAX_ALLOCATIONS && how != AllocateAddress
    ensures var o := Allocate(rs, how, kind, count, address);
            && (o.status == Success <==>
                  exists page: nat, n: nat :: MaximalRun(rs, page, n) && RunSuits(how, count, address, page, n))
            && (o.status == Success ==>
                  forall page: nat, n: nat :: MaximalRun(rs, page, n) && RunSuits(how, count, address, page, n) ==>
                    o.address <= Bytes(page))
  {
    hide Allocate, Coalesced, MaximalRun, Carve;
    AllocateMeetsMode(rs, how, kind, count, address);
    var o, i := Allocate(rs, how, kind, count, address), FirstFit(rs, how, count, address);
    if i < |rs| {
      var r := rs[i];
      CarveAtStart(r, count, kind);
      DescriptorIsRun(rs, i);
      assert Bytes(r.start / 4096) == r.start;
      assert RunSuits(how, count, address, r.start / 4096, r.pages);
    }
    forall page: nat, n: nat | MaximalRun(rs, page, n) && RunSuits(how, count, address, page, n)
      ensures i < |rs| && (o.status == Success ==> o.address <= Bytes(page))
    {
      RunsAreDescriptors(rs, page, n);
      var j :| 0 <= j < |rs| && rs[j].kind == ConventionalMemory && rs[j].start == Bytes(page) && rs[j].pages == n;
      assert Fits(rs[j], how, count, address);
    }
  }

  lemma CarveAtStart(r: Region, count: nat, kind: MemoryType)
    ensures |Carve(r, r.start, count, kind)| <= 2
  {
  }
}

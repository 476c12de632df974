/**
  Base relocation of a loaded PE image: the blocks of the relocation directory
  are walked inside the image, and every listed site is adjusted in place by the
  distance between the preferred and the actual load address.
 */
module PeRelocation {
  import opened Common
  import opened Arithmetic

  // ---------------------------------------------------------------------------
  // Little-endian numbers
  // ---------------------------------------------------------------------------

  function Modulus(width: nat): (m: nat)
    ensures m >= 1
  {
    if width == 0 then 1 else 256 * Modulus(width - 1)
  }

  function Rem(n: nat, m: nat): (r: nat)
    requires m >= 1
    ensures r < m
  {
    n % m
  }

  function Number(bytes: seq<byte>): nat {
    if bytes == [] then 0
    else
      var low: nat := bytes[0];
      low + 256 * Number(bytes[1..])
  }

  function Bytes(n: nat, width: nat): (bytes: seq<byte>)
    ensures |bytes| == width
  {
    if width == 0 then [] else [n % 256] + Bytes(n / 256, width - 1)
  }

  lemma {:induction false} NumberOfBytes(n: nat, width: nat)
    requires n < Modulus(width)
    ensures Number(Bytes(n, width)) == n
  {
    if width > 0 {
      NumberOfBytes(n / 256, width - 1);
      assert Bytes(n, width)[1..] == Bytes(n / 256, width - 1);
    }
  }

  lemma {:induction false} BytesOfNumber(bytes: seq<byte>)
    ensures Bytes(Number(bytes), |bytes|) == bytes && Number(bytes) < Modulus(|bytes|)
  {
    if bytes != [] {
      BytesOfNumber(bytes[1..]);
      var low: nat := bytes[0];
      assert Number(bytes) % 256 == low && Number(bytes) / 256 == Number(bytes[1..]);
      assert bytes == [bytes[0]] + bytes[1..];
    }
  }

  function Get(img: seq<byte>, offset: nat, width: nat): nat
    requires offset + width <= |img|
  {
    Number(img[offset..offset+width])
  }

  function Put(img: seq<byte>, offset: nat, width: nat, n: nat): (r: seq<byte>)
    requires offset + width <= |img|
    ensures |r| == |img|
  {
    img[..offset] + Bytes(n, width) + img[offset+width..]
  }

  lemma GetPut(img: seq<byte>, offset: nat, width: nat, n: nat)
    requires offset + width <= |img| && n < Modulus(width)
    ensures Get(Put(img, offset, width, n), offset, width) == n
  {
    NumberOfBytes(n, width);
    assert Put(img, offset, width, n)[offset..offset+width] == Bytes(n, width);
  }

  lemma GetElsewhere(img: seq<byte>, offset: nat, width: nat, n: nat, o: nat, w: nat)
    requires offset + width <= |img| && o + w <= |img| && (offset + width <= o || o + w <= offset)
    ensures Put(img, offset, width, n)[o..o+w] == img[o..o+w]
  {
  }

  // ---------------------------------------------------------------------------
  // The directory
  // ---------------------------------------------------------------------------

  /** One 16-bit entry of a block: its type and the place it refers to. */
  datatype Reloc = Reloc(kind: nat, offset: nat)

  function Entry(img: seq<byte>, at: nat, page: nat): Reloc
    requires at + 2 <= |img|
  {
    Reloc(Get(img, at, 2) / 4096, Get(img, at, 2) % 4096 + page)
  }

  function BlockEntries(img: seq<byte>, at: nat, count: nat, page: nat): (rs: seq<Reloc>)
    requires at + 2 * count <= |img|
    ensures |rs| == count
    decreases count
  {
    if count == 0 then [] else [Entry(img, at, page)] + BlockEntries(img, at + 2, count - 1, page)
  }

  function Count(size: nat): nat
    requires size >= 8
  {
    (size - 8) / 2
  }

  /** Walking the directory from `at` stays inside the image; a block is at least its own header. */
  predicate InBounds(img: seq<byte>, at: nat, end: nat)
    decreases |img| - at
  {
    at >= end ||
    (&& at + 8 <= |img|
     && var size := Get(img, at + 4, 4);
        size == 0 || (size >= 8 && at + 8 + 2 * Count(size) <= |img| && InBounds(img, at + 8 + 2 * Count(size), end)))
  }

  /** All entries, block after block, up to the end of the directory or an empty block. */
  function Directory(img: seq<byte>, at: nat, end: nat): seq<Reloc>
    requires InBounds(img, at, end)
    decreases |img| - at
  {
    if at >= end || Get(img, at + 4, 4) == 0 then []
    else
      var count := Count(Get(img, at + 4, 4));
      BlockEntries(img, at + 8, count, Get(img, at, 4)) + Directory(img, at + 8 + 2 * count, end)
  }

  /** Where the walk stops reading. */
  function Extent(img: seq<byte>, at: nat, end: nat): (e: nat)
    requires InBounds(img, at, end)
    ensures at <= e && (at < end ==> at + 8 <= e)
    decreases |img| - at
  {
    if at >= end then at
    else if Get(img, at + 4, 4) == 0 then at + 8
    else Extent(img, at + 8 + 2 * Count(Get(img, at + 4, 4)), end)
  }

  // ---------------------------------------------------------------------------
  // Adjusting sites
  // ---------------------------------------------------------------------------

  const ABSOLUTE: nat := 0
  const HIGH: nat := 1
  const LOW: nat := 2
  const HIGHLOW: nat := 3
  const DIR64: nat := 10

  predicate Known(kind: nat) {
    kind == ABSOLUTE || kind == HIGH || kind == LOW || kind == HIGHLOW || kind == DIR64
  }

  function Width(kind: nat): nat {
    if kind == HIGH || kind == LOW then 2
    else if kind == HIGHLOW then 4
    else if kind == DIR64 then 8
    else 0
  }

  /** What a site of this kind is adjusted by. */
  function Addend(kind: nat, delta: nat): nat {
    if kind == HIGH then Rem(delta, 0x1_0000_0000) / 0x1_0000
    else if kind == LOW then Rem(delta, 0x1_0000)
    else if kind == HIGHLOW then Rem(delta, 0x1_0000_0000)
    else if kind == DIR64 then delta
    else 0
  }

  /** The bytes of a site lie in an image of this length. */
  predicate Inside(length: nat, r: Reloc) {
    Width(r.kind) == 0 || r.offset + Width(r.kind) <= length
  }

  predicate AllInside(length: nat, rs: seq<Reloc>) {
    forall i :: 0 <= i < |rs| ==> Inside(length, rs[i])
  }

  function Adjust(img: seq<byte>, r: Reloc, delta: nat): (out: seq<byte>)
    requires Inside(|img|, r)
    ensures |out| == |img|
  {
    var w := Width(r.kind);
    if w == 0 then img
    else Put(img, r.offset, w, Rem(Get(img, r.offset, w) + Addend(r.kind, delta), Modulus(w)))
  }

  /** Adjusts site after site; the first unknown type ends it. */
  function AdjustAll(img: seq<byte>, rs: seq<Reloc>, delta: nat): (out: seq<byte>)
    requires AllInside(|img|, rs)
    ensures |out| == |img|
    decreases |rs|
  {
    if rs == [] || !Known(rs[0].kind) then img else AdjustAll(Adjust(img, rs[0], delta), rs[1..], delta)
  }

  predicate AllKnown(rs: seq<Reloc>) {
    forall i :: 0 <= i < |rs| ==> Known(rs[i].kind)
  }

  // ---------------------------------------------------------------------------
  // What adjusting does
  // ---------------------------------------------------------------------------

  /** Two sites share no byte. */
  predicate Apart(r: Reloc, s: Reloc) {
    || Width(r.kind) == 0 || Width(s.kind) == 0
    || r.offset + Width(r.kind) <= s.offset || s.offset + Width(s.kind) <= r.offset
  }

  predicate AllApart(rs: seq<Reloc>) {
    forall i, j :: 0 <= i < j < |rs| ==> Apart(rs[i], rs[j])
  }

  predicate Touches(r: Reloc, b: nat) {
    r.offset <= b < r.offset + Width(r.kind)
  }

  predicate AnyTouches(rs: seq<Reloc>, b: nat) {
    exists i :: 0 <= i < |rs| && Touches(rs[i], b)
  }

  lemma AdjustSite(img: seq<byte>, r: Reloc, delta: nat)
    requires Inside(|img|, r) && Width(r.kind) > 0
    ensures Get(Adjust(img, r, delta), r.offset, Width(r.kind))
         == Rem(Get(img, r.offset, Width(r.kind)) + Addend(r.kind, delta), Modulus(Width(r.kind)))
  {
    var w := Width(r.kind);
    GetPut(img, r.offset, w, Rem(Get(img, r.offset, w) + Addend(r.kind, delta), Modulus(w)));
  }

  lemma AdjustLeavesByte(img: seq<byte>, r: Reloc, delta: nat, b: nat)
    requires Inside(|img|, r) && b < |img| && !Touches(r, b)
    ensures Adjust(img, r, delta)[b] == img[b]
  {
  }

  /** Bytes that no listed site covers are left alone, whatever the types. */
  lemma {:induction false} AdjustAllLeavesByte(img: seq<byte>, rs: seq<Reloc>, delta: nat, b: nat)
    requires AllInside(|img|, rs) && b < |img| && !AnyTouches(rs, b)
    ensures AdjustAll(img, rs, delta)[b] == img[b]
    decreases |rs|
  {
    if rs != [] && Known(rs[0].kind) {
      AdjustLeavesByte(img, rs[0], delta, b);
      assert forall i :: 0 <= i < |rs[1..]| ==> rs[1..][i] == rs[i+1];
      AdjustAllLeavesByte(Adjust(img, rs[0], delta), rs[1..], delta, b);
    }
  }

  lemma AdjustAllLeavesRange(img: seq<byte>, rs: seq<Reloc>, delta: nat, lo: nat, hi: nat)
    requires AllInside(|img|, rs) && lo <= hi <= |img|
    requires forall b :: lo <= b < hi ==> !AnyTouches(rs, b)
    ensures AdjustAll(img, rs, delta)[lo..hi] == img[lo..hi]
  {
    forall b | lo <= b < hi ensures AdjustAll(img, rs, delta)[b] == img[b] {
      AdjustAllLeavesByte(img, rs, delta, b);
    }
  }

  lemma TailIsFine(rs: seq<Reloc>, length: nat)
    requires rs != [] && AllInside(length, rs) && AllKnown(rs) && AllApart(rs)
    ensures AllInside(length, rs[1..]) && AllKnown(rs[1..]) && AllApart(rs[1..])
    ensures forall i :: 0 <= i < |rs[1..]| ==> Apart(rs[0], rs[1..][i])
  {
    assert forall i :: 0 <= i < |rs[1..]| ==> rs[1..][i] == rs[i+1];
  }

  lemma AdjustLeavesSite(img: seq<byte>, r: Reloc, s: Reloc, delta: nat)
    requires Inside(|img|, r) && Inside(|img|, s) && Apart(r, s) && Width(s.kind) > 0
    ensures Get(Adjust(img, r, delta), s.offset, Width(s.kind)) == Get(img, s.offset, Width(s.kind))
  {
    var w := Width(r.kind);
    if w > 0 {
      var n := Rem(Get(img, r.offset, w) + Addend(r.kind, delta), Modulus(w));
      GetElsewhere(img, r.offset, w, n, s.offset, Width(s.kind));
    }
  }

  lemma AdjustAllLeavesSite(img: seq<byte>, rs: seq<Reloc>, s: Reloc, delta: nat)
    requires AllInside(|img|, rs) && Inside(|img|, s) && Width(s.kind) > 0
    requires forall i :: 0 <= i < |rs| ==> Apart(s, rs[i])
    ensures Get(AdjustAll(img, rs, delta), s.offset, Width(s.kind)) == Get(img, s.offset, Width(s.kind))
  {
    AdjustAllLeavesRange(img, rs, delta, s.offset, s.offset + Width(s.kind));
  }

  /** Every listed site gains its addend, modulo its width. */
  lemma {:induction false} AdjustAllSites(img: seq<byte>, rs: seq<Reloc>, delta: nat, i: nat)
    requires AllInside(|img|, rs) && AllKnown(rs) && AllApart(rs) && i < |rs| && Width(rs[i].kind) > 0
    ensures var w := Width(rs[i].kind);
            Get(AdjustAll(img, rs, delta), rs[i].offset, w)
            == Rem(Get(img, rs[i].offset, w) + Addend(rs[i].kind, delta), Modulus(w))
    decreases |rs|
  {
    hide Addend, Modulus, Number, Get, Adjust, Width;
    TailIsFine(rs, |img|);
    var first := Adjust(img, rs[0], delta);
    if i == 0 {
      AdjustSite(img, rs[0], delta);
      AdjustAllLeavesSite(first, rs[1..], rs[0], delta);
    } else {
      AdjustAllSites(first, rs[1..], delta, i - 1);
      AdjustLeavesSite(img, rs[0], rs[i], delta);
    }
  }

  // ---------------------------------------------------------------------------
  // Relocating twice
  // ---------------------------------------------------------------------------

  function Sum(d1: nat, d2: nat): nat {
    Rem(d1 + d2, U64)
  }

  /** The low halves add up without a carry into the high half. */
  predicate NoCarry(d1: nat, d2: nat) {
    Rem(d1, 0x1_0000) + Rem(d2, 0x1_0000) < 0x1_0000
  }

  lemma RemAdd(x: nat, a: nat, m: nat)
    requires m >= 1
    ensures Rem(x + Rem(a, m), m) == Rem(x + a, m) && Rem(Rem(a, m) + x, m) == Rem(a + x, m)
  {
    ModAdd(x, a, m);
  }

  /** Adding twice modulo m is adding the sum. */
  lemma AddTwice(x: nat, a: nat, b: nat, m: nat)
    requires m >= 1
    ensures Rem(Rem(x + Rem(a, m), m) + Rem(b, m), m) == Rem(x + Rem(a + b, m), m)
  {
    hide Rem;
    RemAdd(x, a, m);
    RemAdd(Rem(x + a, m), b, m);
    RemAdd(b, x + a, m);
    RemAdd(x, a + b, m);
    assert x + a + b == x + (a + b);
  }

  lemma RemOfRem(n: nat, m: nat, k: nat)
    requires m >= 1 && k >= 1 && m * k >= 1
    ensures Rem(Rem(n, m * k), m) == Rem(n, m)
  {
    ModOfMod(n, m, k);
  }

  lemma SmallRem(n: nat, m: nat)
    requires n < m
    ensures Rem(n, m) == n
  {
  }

  lemma LowAddends(x: nat, d1: nat, d2: nat)
    ensures Rem(Rem(x + Rem(d1, 0x1_0000), 0x1_0000) + Rem(d2, 0x1_0000), 0x1_0000)
         == Rem(x + Rem(Sum(d1, d2), 0x1_0000), 0x1_0000)
  {
    hide Rem;
    AddTwice(x, d1, d2, 0x1_0000);
    RemOfRem(d1 + d2, 0x1_0000, 0x1_0000_0000_0000);
  }

  lemma HighLowAddends(x: nat, d1: nat, d2: nat)
    ensures Rem(Rem(x + Rem(d1, 0x1_0000_0000), 0x1_0000_0000) + Rem(d2, 0x1_0000_0000), 0x1_0000_0000)
         == Rem(x + Rem(Sum(d1, d2), 0x1_0000_0000), 0x1_0000_0000)
  {
    hide Rem;
    AddTwice(x, d1, d2, 0x1_0000_0000);
    RemOfRem(d1 + d2, 0x1_0000_0000, 0x1_0000_0000);
  }

  lemma Dir64Addends(x: nat, d1: nat, d2: nat)
    requires d1 < U64 && d2 < U64
    ensures Rem(Rem(x + d1, U64) + d2, U64) == Rem(x + Sum(d1, d2), U64)
  {
    hide Rem;
    SmallRem(d1, U64);
    SmallRem(d2, U64);
    AddTwice(x, d1, d2, U64);
  }

  /** The high half of a sum is the sum of the high halves and the carry. */
  lemma HighHalfOfSum(d1: nat, d2: nat)
    ensures Addend(HIGH, Sum(d1, d2))
         == Rem(Addend(HIGH, d1) + Addend(HIGH, d2) + if NoCarry(d1, d2) then 0 else 1, 0x1_0000)
  {
    var e1, e2 := Rem(d1, 0x1_0000_0000), Rem(d2, 0x1_0000_0000);
    var h1, l1, h2, l2 := e1 / 0x1_0000, e1 % 0x1_0000, e2 / 0x1_0000, e2 % 0x1_0000;
    assert l1 == Rem(d1, 0x1_0000) && l2 == Rem(d2, 0x1_0000) by {
      RemOfRem(d1, 0x1_0000, 0x1_0000);
      RemOfRem(d2, 0x1_0000, 0x1_0000);
    }
    assert Rem(Sum(d1, d2), 0x1_0000_0000) == Rem(e1 + e2, 0x1_0000_0000) by {
      hide Rem;
      RemOfRem(d1 + d2, 0x1_0000_0000, 0x1_0000_0000);
      RemAdd(e1, d2, 0x1_0000_0000);
      RemAdd(d2, d1, 0x1_0000_0000);
    }
    HighOfSum(h1, l1, h2, l2, if l1 + l2 < 0x1_0000 then 0 else 1);
  }

  /** The high halves add up exactly when the low halves do not carry. */
  lemma HighAddends(x: nat, d1: nat, d2: nat)
    ensures Rem(Rem(x + Addend(HIGH, d1), 0x1_0000) + Addend(HIGH, d2), 0x1_0000)
            == Rem(x + Addend(HIGH, Sum(d1, d2)), 0x1_0000)
            <==> NoCarry(d1, d2)
  {
    hide Rem, Addend, NoCarry, Sum;
    HighHalfOfSum(d1, d2);
    CarryShows(x, Addend(HIGH, d1), Addend(HIGH, d2), if NoCarry(d1, d2) then 0 else 1);
  }

  lemma HighOfSum(h1: nat, l1: nat, h2: nat, l2: nat, carry: nat)
    requires h1 < 0x1_0000 && l1 < 0x1_0000 && h2 < 0x1_0000 && l2 < 0x1_0000
    requires carry == if l1 + l2 < 0x1_0000 then 0 else 1
    ensures (0x1_0000 * h1 + l1 + (0x1_0000 * h2 + l2)) % 0x1_0000_0000 / 0x1_0000 == (h1 + h2 + carry) % 0x1_0000
  {
    var h, l := h1 + h2 + carry, l1 + l2 - 0x1_0000 * carry;
    assert 0x1_0000 * h1 + l1 + (0x1_0000 * h2 + l2) == 0x1_0000 * h + l;
    if h < 0x1_0000 {
      assert 0x1_0000 * h + l < 0x1_0000_0000;
    } else {
      assert (0x1_0000 * h + l) % 0x1_0000_0000 == 0x1_0000 * (h - 0x1_0000) + l;
    }
  }

  lemma CarryShows(x: nat, h1: nat, h2: nat, carry: nat)
    requires carry <= 1
    ensures Rem(Rem(x + h1, 0x1_0000) + h2, 0x1_0000) == Rem(x + Rem(h1 + h2 + carry, 0x1_0000), 0x1_0000)
            <==> carry == 0
  {
    var y := x + h1 + h2;
    RemAdd(h2, x + h1, 0x1_0000);
    RemAdd(x, h1 + h2 + carry, 0x1_0000);
    OneMoreDiffers(y);
    assert x + (h1 + h2 + carry) == y + carry;
  }

  lemma OneMoreDiffers(y: nat)
    ensures Rem(y + 1, 0x1_0000) != Rem(y, 0x1_0000)
  {
  }

  lemma Moduli()
    ensures Modulus(2) == 0x1_0000 && Modulus(4) == 0x1_0000_0000 && Modulus(8) == U64
  {
    assert Modulus(3) == 0x100_0000;
    assert Modulus(5) == 0x100_0000_0000 && Modulus(6) == 0x1_0000_0000_0000 && Modulus(7) == 0x100_0000_0000_0000;
  }

  lemma AddendsAgree(kind: nat, x: nat, d1: nat, d2: nat)
    requires Known(kind) && Width(kind) > 0 && d1 < U64 && d2 < U64
    ensures var m := Modulus(Width(kind));
            Rem(Rem(x + Addend(kind, d1), m) + Addend(kind, d2), m) == Rem(x + Addend(kind, Sum(d1, d2)), m)
            <==> kind != HIGH || NoCarry(d1, d2)
  {
    hide Rem, Modulus, NoCarry, Sum;
    Moduli();
    if kind == HIGH {
      HighAddends(x, d1, d2);
    } else if kind == LOW {
      LowAddends(x, d1, d2);
    } else if kind == HIGHLOW {
      HighLowAddends(x, d1, d2);
    } else {
      Dir64Addends(x, d1, d2);
    }
  }

  lemma PutPut(img: seq<byte>, offset: nat, width: nat, n: nat, m: nat)
    requires offset + width <= |img|
    ensures Put(Put(img, offset, width, n), offset, width, m) == Put(img, offset, width, m)
  {
  }

  lemma PutsCommute(img: seq<byte>, o: nat, w: nat, n: nat, o': nat, w': nat, n': nat)
    requires o + w <= |img| && o' + w' <= |img| && (o + w <= o' || o' + w' <= o)
    ensures Put(Put(img, o, w, n), o', w', n') == Put(Put(img, o', w', n'), o, w, n)
  {
    var a, b := Put(Put(img, o, w, n), o', w', n'), Put(Put(img, o', w', n'), o, w, n);
    forall i | 0 <= i < |img| ensures a[i] == b[i] {
      if o <= i < o + w {
        assert a[i] == Bytes(n, w)[i-o] == b[i];
      } else if o' <= i < o' + w' {
        assert a[i] == Bytes(n', w')[i-o'] == b[i];
      }
    }
  }

  lemma AdjustTwice(img: seq<byte>, r: Reloc, d1: nat, d2: nat)
    requires Inside(|img|, r) && Known(r.kind) && d1 < U64 && d2 < U64 && (r.kind != HIGH || NoCarry(d1, d2))
    ensures Adjust(Adjust(img, r, d1), r, d2) == Adjust(img, r, Sum(d1, d2))
  {
    hide Rem, Modulus, NoCarry, Sum, Addend, Put, Get;
    var w := Width(r.kind);
    if w > 0 {
      var x := Get(img, r.offset, w);
      AddendsAgree(r.kind, x, d1, d2);
      AdjustSite(img, r, d1);
      var y := Rem(x + Addend(r.kind, d1), Modulus(w));
      PutPut(img, r.offset, w, y, Rem(y + Addend(r.kind, d2), Modulus(w)));
    }
  }

  lemma AdjustsCommute(img: seq<byte>, r: Reloc, s: Reloc, d: nat, e: nat)
    requires Inside(|img|, r) && Inside(|img|, s) && Apart(r, s)
    ensures Adjust(Adjust(img, r, d), s, e) == Adjust(Adjust(img, s, e), r, d)
  {
    hide Rem, Modulus, Addend, Put, Get;
    var w, v := Width(r.kind), Width(s.kind);
    if w > 0 && v > 0 {
      AdjustLeavesSite(img, r, s, d);
      AdjustLeavesSite(img, s, r, e);
      PutsCommute(img, r.offset, w, Rem(Get(img, r.offset, w) + Addend(r.kind, d), Modulus(w)),
                  s.offset, v, Rem(Get(img, s.offset, v) + Addend(s.kind, e), Modulus(v)));
    }
  }

  lemma {:induction false} AdjustAllCommutes(img: seq<byte>, rs: seq<Reloc>, r: Reloc, d: nat, e: nat)
    requires AllInside(|img|, rs) && AllKnown(rs) && AllApart(rs) && Inside(|img|, r)
    requires forall i :: 0 <= i < |rs| ==> Apart(r, rs[i])
    ensures Adjust(AdjustAll(img, rs, d), r, e) == AdjustAll(Adjust(img, r, e), rs, d)
    decreases |rs|
  {
    hide Adjust;
    if rs != [] {
      TailIsFine(rs, |img|);
      AdjustsCommute(img, r, rs[0], e, d);
      AdjustAllCommutes(Adjust(img, rs[0], d), rs[1..], r, d, e);
    }
  }

  predicate HasHigh(rs: seq<Reloc>) {
    exists i :: 0 <= i < |rs| && rs[i].kind == HIGH
  }

  lemma {:induction false} AddUp(img: seq<byte>, rs: seq<Reloc>, d1: nat, d2: nat)
    requires AllInside(|img|, rs) && AllKnown(rs) && AllApart(rs) && d1 < U64 && d2 < U64
    requires !HasHigh(rs) || NoCarry(d1, d2)
    ensures AdjustAll(AdjustAll(img, rs, d1), rs, d2) == AdjustAll(img, rs, Sum(d1, d2))
    decreases |rs|
  {
    hide Adjust, NoCarry, Sum;
    if rs != [] {
      TailIsFine(rs, |img|);
      var r, rest := rs[0], rs[1..];
      assert !HasHigh(rs) ==> !HasHigh(rest) && r.kind != HIGH;
      AdjustAllCommutes(Adjust(img, r, d1), rest, r, d1, d2);
      AdjustTwice(img, r, d1, d2);
      AddUp(Adjust(img, r, Sum(d1, d2)), rest, d1, d2);
    }
  }

  /**
    Relocating by d1 and then by d2 is relocating by d1 + d2, exactly when there
    is no site of type HIGH or the low halves of d1 and d2 add without a carry.
   */
  lemma RelocatingTwice(img: seq<byte>, rs: seq<Reloc>, d1: nat, d2: nat)
    requires AllInside(|img|, rs) && AllKnown(rs) && AllApart(rs) && d1 < U64 && d2 < U64
    ensures AdjustAll(AdjustAll(img, rs, d1), rs, d2) == AdjustAll(img, rs, Sum(d1, d2))
            <==> !HasHigh(rs) || NoCarry(d1, d2)
  {
    hide Adjust, AdjustAll, NoCarry, Sum, Get, Rem, Modulus, Addend;
    if !HasHigh(rs) || NoCarry(d1, d2) {
      AddUp(img, rs, d1, d2);
    } else {
      var i :| 0 <= i < |rs| && rs[i].kind == HIGH;
      var once := AdjustAll(img, rs, d1);
      AdjustAllSites(img, rs, d1, i);
      AdjustAllSites(once, rs, d2, i);
      AdjustAllSites(img, rs, Sum(d1, d2), i);
      AddendsAgree(HIGH, Get(img, rs[i].offset, 2), d1, d2);
    }
  }

  lemma AdjustByZero(img: seq<byte>, r: Reloc)
    requires Inside(|img|, r)
    ensures Adjust(img, r, 0) == img
  {
    var w := Width(r.kind);
    if w > 0 {
      var bytes := img[r.offset..r.offset+w];
      BytesOfNumber(bytes);
      SmallRem(Number(bytes), Modulus(w));
      assert img == img[..r.offset] + bytes + img[r.offset+w..];
    }
  }

  lemma {:induction false} AdjustAllByZero(img: seq<byte>, rs: seq<Reloc>)
    requires AllInside(|img|, rs)
    ensures AdjustAll(img, rs, 0) == img
    decreases |rs|
  {
    if rs != [] && Known(rs[0].kind) {
      AdjustByZero(img, rs[0]);
      AdjustAllByZero(img, rs[1..]);
    }
  }

  /** Moving an image away and back restores it, byte for byte, under the same condition. */
  lemma RelocatingBack(img: seq<byte>, rs: seq<Reloc>, d: nat)
    requires AllInside(|img|, rs) && AllKnown(rs) && AllApart(rs) && 0 < d < U64
    ensures AdjustAll(AdjustAll(img, rs, d), rs, U64 - d) == img <==> !HasHigh(rs) || d % 0x1_0000 == 0
  {
    hide AdjustAll;
    RelocatingTwice(img, rs, d, U64 - d);
    AdjustAllByZero(img, rs);
    assert Sum(d, U64 - d) == 0;
    NegatedLowHalf(d);
  }

  lemma NegatedLowHalf(d: nat)
    requires 0 < d < U64
    ensures NoCarry(d, U64 - d) <==> d % 0x1_0000 == 0
  {
    var l := d % 0x1_0000;
    if l == 0 {
      assert (U64 - d) % 0x1_0000 == 0;
    } else {
      assert (U64 - d) % 0x1_0000 == 0x1_0000 - l;
    }
  }

  // ---------------------------------------------------------------------------
  // Walking and adjusting in place
  // ---------------------------------------------------------------------------

  /** No listed site touches the bytes from lo to hi. */
  predicate Clear(rs: seq<Reloc>, lo: nat, hi: nat) {
    forall i :: 0 <= i < |rs| ==> Width(rs[i].kind) == 0 || rs[i].offset + Width(rs[i].kind) <= lo || hi <= rs[i].offset
  }

  predicate SameBetween(a: seq<byte>, b: seq<byte>, lo: nat, hi: nat) {
    && |a| == |b|
    && forall k :: lo <= k < hi && k < |a| ==> a[k] == b[k]
  }

  lemma GetSame(a: seq<byte>, b: seq<byte>, lo: nat, hi: nat, o: nat, w: nat)
    requires SameBetween(a, b, lo, hi) && lo <= o && o + w <= hi && o + w <= |a|
    ensures Get(a, o, w) == Get(b, o, w)
  {
    assert a[o..o+w] == b[o..o+w];
  }

  lemma {:induction false} BlockEntriesSame(a: seq<byte>, b: seq<byte>, lo: nat, hi: nat, at: nat,
      count: nat, page: nat)
    requires SameBetween(a, b, lo, hi) && lo <= at && at + 2 * count <= hi && at + 2 * count <= |a|
    ensures BlockEntries(a, at, count, page) == BlockEntries(b, at, count, page)
    decreases count
  {
    if count > 0 {
      GetSame(a, b, lo, hi, at, 2);
      BlockEntriesSame(a, b, lo, hi, at + 2, count - 1, page);
    }
  }

  lemma AdjustKeepsClear(img: seq<byte>, r: Reloc, delta: nat, lo: nat, hi: nat)
    requires Inside(|img|, r) && Clear([r], lo, hi)
    ensures SameBetween(img, Adjust(img, r, delta), lo, hi)
  {
    assert [r][0] == r;
    forall k | lo <= k < hi && k < |img| ensures Adjust(img, r, delta)[k] == img[k] {
      AdjustLeavesByte(img, r, delta, k);
    }
  }

  lemma {:induction false} AdjustAllConcat(img: seq<byte>, a: seq<Reloc>, b: seq<Reloc>, delta: nat)
    requires AllInside(|img|, a) && AllInside(|img|, b)
    ensures AllInside(|img|, a + b)
    ensures AdjustAll(img, a + b, delta) ==
            if AllKnown(a) then AdjustAll(AdjustAll(img, a, delta), b, delta) else AdjustAll(img, a, delta)
    decreases |a|
  {
    if a == [] {
      assert a + b == b;
    } else {
      assert (a + b)[1..] == a[1..] + b;
      assert AllKnown(a) <==> Known(a[0].kind) && AllKnown(a[1..]) by {
        assert forall i :: 0 <= i < |a[1..]| ==> a[1..][i] == a[i+1];
      }
      if Known(a[0].kind) {
        AdjustAllConcat(Adjust(img, a[0], delta), a[1..], b, delta);
      }
    }
  }

  method ReadNumber(image: array<byte>, at: nat, width: nat) returns (n: nat)
    requires at + width <= image.Length
    ensures n == Get(image[..], at, width)
  {
    n := 0;
    var k := width;
    while k > 0
      invariant 0 <= k <= width && n == Number(image[at+k..at+width])
    {
      k := k - 1;
      assert image[at+k..at+width] == [image[at+k]] + image[at+k+1..at+width];
      var low: nat := image[at+k];
      n := low + 256 * n;
    }
    assert image[..][at..at+width] == image[at..at+width];
  }

  lemma BytesStep(n: nat, width: nat, k: nat)
    requires k < width
    ensures Bytes(n, width)[k] == Shifted(n, k) % 256 && Shifted(n, k + 1) == Shifted(n, k) / 256
    decreases k
  {
    if k > 0 {
      BytesStep(n / 256, width - 1, k - 1);
      ShiftedTail(n, k);
      ShiftedTail(n, k + 1);
    }
  }

  /** n without its k lowest bytes. */
  function Shifted(n: nat, k: nat): nat {
    if k == 0 then n else Shifted(n, k - 1) / 256
  }

  lemma {:induction false} ShiftedTail(n: nat, k: nat)
    requires k > 0
    ensures Shifted(n, k) == Shifted(n / 256, k - 1)
  {
    if k > 1 {
      ShiftedTail(n, k - 1);
    }
  }

  method WriteNumber(image: array<byte>, at: nat, width: nat, n: nat)
    requires at + width <= image.Length
    modifies image
    ensures image[..] == Put(old(image[..]), at, width, n)
  {
    var rest := n;
    for k := 0 to width
      invariant rest == Shifted(n, k)
      invariant forall i :: 0 <= i < k ==> image[at+i] == Bytes(n, width)[i]
      invariant forall i :: 0 <= i < image.Length && !(at <= i < at + k) ==> image[i] == old(image[i])
    {
      BytesStep(n, width, k);
      image[at+k] := rest % 256;
      rest := rest / 256;
    }
  }

  /** Adds to the number at a site, wrapping at its width. */
  method AdjustAt(image: array<byte>, r: Reloc, delta: nat)
    requires Known(r.kind) && Inside(image.Length, r)
    modifies image
    ensures image[..] == Adjust(old(image[..]), r, delta)
  {
    var w := Width(r.kind);
    if w > 0 {
      var n := ReadNumber(image, r.offset, w);
      WriteNumber(image, r.offset, w, Rem(n + Addend(r.kind, delta), Modulus(w)));
    }
  }

  /** The entries of one block, in order; an unknown type stops the walk. */
  method RelocateBlock(image: array<byte>, at: nat, count: nat, page: nat, delta: nat, ghost lo: nat, ghost hi: nat)
    returns (ok: bool)
    requires lo <= at && at + 2 * count <= hi && at + 2 * count <= image.Length
    requires var rs := BlockEntries(image[..], at, count, page); AllInside(image.Length, rs) && Clear(rs, lo, hi)
    modifies image
    ensures SameBetween(old(image[..]), image[..], lo, hi)
    ensures var rs := BlockEntries(old(image[..]), at, count, page);
            image[..] == AdjustAll(old(image[..]), rs, delta) && ok == AllKnown(rs)
  {
    hide Adjust, Get, Rem, Modulus, Addend, BlockEntries;
    ghost var img, all := image[..], BlockEntries(image[..], at, count, page);
    var p := at;
    for x := 0 to count
      invariant p == at + 2 * x && image.Length == |img|
      invariant SameBetween(img, image[..], lo, hi)
      invariant forall i :: 0 <= i < x ==> Known(all[i].kind)
      invariant all[x..] == BlockEntries(img, p, count - x, page)
      invariant AllInside(|img|, all[x..]) && AdjustAll(image[..], all[x..], delta) == AdjustAll(img, all, delta)
    {
      BlockEntriesStep(img, p, count - x, page);
      GetSame(img, image[..], lo, hi, p, 2);
      var word := ReadNumber(image, p, 2);
      var r := Reloc(word / 4096, word % 4096 + page);
      assert r == all[x] && all[x..][1..] == all[x+1..];
      ghost var before := image[..];
      if !Known(r.kind) {
        assert !AllKnown(all);
        return false;
      }
      AdjustAt(image, r, delta);
      AdjustKeepsClear(before, r, delta, lo, hi);
      p := p + 2;
    }
    assert all[count..] == [];
    ok := true;
  }

  lemma BlockEntriesStep(img: seq<byte>, at: nat, count: nat, page: nat)
    requires count > 0 && at + 2 * count <= |img|
    ensures var rs := BlockEntries(img, at, count, page);
            rs[0] == Entry(img, at, page) && rs[1..] == BlockEntries(img, at + 2, count - 1, page)
  {
  }

  /** The directory can be walked, its sites lie in the image and clear of the directory itself. */
  ghost predicate Relocatable(img: seq<byte>, at: nat, end: nat) {
    && InBounds(img, at, end)
    && AllInside(|img|, Directory(img, at, end))
    && Clear(Directory(img, at, end), at, Extent(img, at, end))
  }

  function Block(img: seq<byte>, at: nat, end: nat): seq<Reloc>
    requires InBounds(img, at, end) && at < end && Get(img, at + 4, 4) != 0
  {
    BlockEntries(img, at + 8, Count(Get(img, at + 4, 4)), Get(img, at, 4))
  }

  function NextBlock(img: seq<byte>, at: nat, end: nat): nat
    requires InBounds(img, at, end) && at < end && Get(img, at + 4, 4) != 0
  {
    at + 8 + 2 * Count(Get(img, at + 4, 4))
  }

  lemma DirectoryStep(img: seq<byte>, at: nat, end: nat)
    requires InBounds(img, at, end) && at < end
    ensures at + 8 <= |img| && at + 8 <= Extent(img, at, end)
    ensures var size := Get(img, at + 4, 4);
            if size == 0 then Directory(img, at, end) == []
            else
              && size >= 8 && at + 8 + 2 * Count(size) <= |img| && InBounds(img, NextBlock(img, at, end), end)
              && Directory(img, at, end) == Block(img, at, end) + Directory(img, NextBlock(img, at, end), end)
              && Extent(img, at, end) == Extent(img, NextBlock(img, at, end), end)
              && NextBlock(img, at, end) <= Extent(img, at, end)
  {
  }

  lemma SplitFacts(a: seq<Reloc>, b: seq<Reloc>, length: nat, lo: nat, hi: nat)
    requires AllInside(length, a + b) && Clear(a + b, lo, hi)
    ensures AllInside(length, a) && AllInside(length, b) && Clear(a, lo, hi) && Clear(b, lo, hi)
    ensures AllKnown(a + b) <==> AllKnown(a) && AllKnown(b)
  {
    assert forall i :: 0 <= i < |a| ==> (a + b)[i] == a[i];
    assert forall i :: 0 <= i < |b| ==> (a + b)[|a| + i] == b[i];
  }

  /**
    Walks the directory while adjusting the image it lies in. The result is that
    of adjusting the listed sites one after the other; it fails exactly at an
    unknown type, except that nothing is looked at when nothing has to move.
   */
  method RelocateImage(image: array<byte>, relBase: nat, relSize: nat, destAddress: nat,
      imageBase: nat) returns (ok: bool)
    requires destAddress < U64 && imageBase < U64
    requires Relocatable(image[..], relBase, relBase + relSize)
    modifies image
    ensures var rs := Directory(old(image[..]), relBase, relBase + relSize);
            if destAddress == imageBase then ok && image[..] == old(image[..])
            else
              && image[..] == AdjustAll(old(image[..]), rs, Delta(destAddress, imageBase))
              && ok == AllKnown(rs)
  {
    hide BlockEntries, Directory, InBounds, Extent, AdjustAll, Get, Block, NextBlock;
    var delta := Delta(destAddress, imageBase);
    if delta == 0 {
      return true;
    }
    var end := relBase + relSize;
    var at := relBase;
    ghost var img := image[..];
    ghost var all, ext := Directory(img, relBase, end), Extent(img, relBase, end);
    while at < end
      invariant relBase <= at && InBounds(img, at, end) && Extent(img, at, end) == ext
      invariant image.Length == |img| && SameBetween(img, image[..], relBase, ext)
      invariant AllInside(|img|, Directory(img, at, end)) && Clear(Directory(img, at, end), relBase, ext)
      invariant AllKnown(Directory(img, at, end)) <==> AllKnown(all)
      invariant AdjustAll(image[..], Directory(img, at, end), delta) == AdjustAll(img, all, delta)
      decreases end - at
    {
      DirectoryStep(img, at, end);
      GetSame(img, image[..], relBase, ext, at, 4);
      GetSame(img, image[..], relBase, ext, at + 4, 4);
      var page := ReadNumber(image, at, 4);
      var size := ReadNumber(image, at + 4, 4);
      if size == 0 {
        break;
      }
      var count := Count(size);
      ghost var before, rest := image[..], Directory(img, NextBlock(img, at, end), end);
      ghost var block := Block(img, at, end);
      NextIs(img, at, end);
      BlockEntriesSame(img, before, relBase, ext, at + 8, count, page);
      SplitFacts(block, rest, |img|, relBase, ext);
      AdjustAllConcat(before, block, rest, delta);
      ok := RelocateBlock(image, at + 8, count, page, delta, relBase, ext);
      if !ok {
        return;
      }
      at := at + 8 + 2 * count;
    }
    NothingLeft(img, at, end, image[..], delta);
    ok := true;
  }

  function Delta(destAddress: nat, imageBase: nat): (d: nat)
    requires destAddress < U64 && imageBase < U64
    ensures d < U64 && (d == 0 <==> destAddress == imageBase) && Rem(imageBase + d, U64) == destAddress
  {
    if destAddress >= imageBase then destAddress - imageBase else destAddress + U64 - imageBase
  }

  lemma NextIs(img: seq<byte>, at: nat, end: nat)
    requires InBounds(img, at, end) && at < end && Get(img, at + 4, 4) != 0
    ensures NextBlock(img, at, end) == at + 8 + 2 * Count(Get(img, at + 4, 4))
    ensures Block(img, at, end) == BlockEntries(img, at + 8, Count(Get(img, at + 4, 4)), Get(img, at, 4))
  {
  }

  lemma NothingLeft(img: seq<byte>, at: nat, end: nat, cur: seq<byte>, delta: nat)
    requires InBounds(img, at, end) && |cur| == |img| && (at >= end || Get(img, at + 4, 4) == 0)
    ensures Directory(img, at, end) == [] && AdjustAll(cur, [], delta) == cur && AllKnown([])
  {
  }

  // ---------------------------------------------------------------------------
  // Relocating an image again
  // ---------------------------------------------------------------------------

  lemma {:induction false} DirectorySame(a: seq<byte>, b: seq<byte>, at: nat, end: nat, lo: nat, hi: nat)
    requires InBounds(a, at, end) && lo <= at && Extent(a, at, end) <= hi && SameBetween(a, b, lo, hi)
    ensures InBounds(b, at, end)
    ensures Directory(b, at, end) == Directory(a, at, end) && Extent(b, at, end) == Extent(a, at, end)
    decreases |a| - at
  {
    hide BlockEntries, Get;
    if at < end {
      DirectoryStep(a, at, end);
      GetSame(a, b, lo, hi, at, 4);
      GetSame(a, b, lo, hi, at + 4, 4);
      if Get(a, at + 4, 4) != 0 {
        var count := Count(Get(a, at + 4, 4));
        DirectorySame(a, b, at + 8 + 2 * count, end, lo, hi);
        BlockEntriesSame(a, b, lo, hi, at + 8, count, Get(a, at, 4));
      }
    }
  }

  /** Relocation leaves the directory as it is, so the image can be relocated again. */
  lemma DirectorySurvives(img: seq<byte>, at: nat, end: nat, delta: nat)
    requires Relocatable(img, at, end)
    ensures var out := AdjustAll(img, Directory(img, at, end), delta);
            Relocatable(out, at, end) && Directory(out, at, end) == Directory(img, at, end)
  {
    hide AdjustAll, Directory, InBounds, Extent;
    var rs, ext := Directory(img, at, end), Extent(img, at, end);
    var out := AdjustAll(img, rs, delta);
    forall k | at <= k < ext && k < |img| ensures out[k] == img[k] {
      AdjustAllLeavesByte(img, rs, delta, k);
    }
    DirectorySame(img, out, at, end, at, ext);
  }

  /** One relocation of an image, as a function of the image. */
  function Relocated(img: seq<byte>, at: nat, end: nat, delta: nat): seq<byte>
    requires InBounds(img, at, end) && AllInside(|img|, Directory(img, at, end))
  {
    AdjustAll(img, Directory(img, at, end), delta)
  }

  /** Two relocations are one by the sum, and moving back restores the image, exactly when no carry matters. */
  lemma RelocationsAddUp(img: seq<byte>, at: nat, end: nat, d1: nat, d2: nat)
    requires Relocatable(img, at, end) && d1 < U64 && d2 < U64
    requires var rs := Directory(img, at, end); AllKnown(rs) && AllApart(rs)
    ensures var once := Relocated(img, at, end, d1);
            && Relocatable(once, at, end)
            && (Relocated(once, at, end, d2) == Relocated(img, at, end, Sum(d1, d2))
                <==> !HasHigh(Directory(img, at, end)) || NoCarry(d1, d2))
            && (d1 > 0 && d2 == U64 - d1 ==>
                  (Relocated(once, at, end, d2) == img
                   <==> !HasHigh(Directory(img, at, end)) || d1 % 0x1_0000 == 0))
  {
    hide AdjustAll, Directory, Sum, NoCarry, AllKnown, AllApart, HasHigh;
    DirectorySurvives(img, at, end, d1);
    RelocatingTwice(img, Directory(img, at, end), d1, d2);
    if d1 > 0 && d2 == U64 - d1 {
      RelocatingBack(img, Directory(img, at, end), d1);
    }
  }
}

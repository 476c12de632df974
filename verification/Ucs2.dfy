/**
  Converting between UCS-2 strings and UTF-8 bytes. Following the library,
  `Decode` goes from 16-bit units to bytes and `Encode` back.
 */
module Ucs2 {
  import opened Common

  type unit = u: nat | u < 0x1_0000

  datatype Error = BufferOverFlow | MultiByte | NotUtf8String

  type Converted<+T> = Result<T, Error>

  // ---------------------------------------------------------------------------
  // Units to bytes
  // ---------------------------------------------------------------------------

  /** The units whose two bytes are written but not counted. */
  predicate IsTwoByte(u: unit) {
    0x80 <= u < 0x800
  }

  /** Room that must be left in the buffer for a unit. */
  function Need(u: unit): nat {
    if u < 0x80 then 1 else if u < 0x800 then 2 else 3
  }

  function ThreeBytes(u: unit): (bytes: seq<byte>)
    requires u >= 0x800
    ensures |bytes| == 3
  {
    [0xe0 + u / 4096, 0x80 + u / 64 % 64, 0x80 + u % 64]
  }

  /** What a unit contributes to the decoded prefix. */
  function DecodeUnit(u: unit): (bytes: seq<byte>)
    ensures |bytes| <= 3 && (bytes == [] <==> IsTwoByte(u))
  {
    if u < 0x80 then [u] else if u < 0x800 then [] else ThreeBytes(u)
  }

  function Decoded(units: seq<unit>): (bytes: seq<byte>)
    ensures |bytes| <= 3 * |units|
  {
    if units == [] then [] else DecodeUnit(units[0]) + Decoded(units[1..])
  }

  /** No unit on the way runs out of room. */
  predicate Fits(units: seq<unit>, room: nat) {
    units == [] || (Need(units[0]) <= room && Fits(units[1..], room - |DecodeUnit(units[0])|))
  }

  /** Decoding distributes over concatenation. */
  lemma {:induction false} DecodedConcat(a: seq<unit>, b: seq<unit>)
    ensures Decoded(a + b) == Decoded(a) + Decoded(b)
  {
    if a == [] {
      assert a + b == b;
    } else {
      assert (a + b)[1..] == a[1..] + b;
      DecodedConcat(a[1..], b);
    }
  }

  lemma {:induction false} RoomForAll(units: seq<unit>, room: nat)
    requires room >= 3 * |units|
    ensures Fits(units, room)
  {
    if units != [] {
      RoomForAll(units[1..], room - |DecodeUnit(units[0])|);
    }
  }

  /** Writes one unit at the index, if there is room for it. */
  method PutUnit(ch: unit, buffer: array<byte>, index: nat) returns (ok: bool)
    requires index <= buffer.Length
    modifies buffer
    ensures ok <==> index + Need(ch) <= buffer.Length
    ensures ok ==> buffer[..index+|DecodeUnit(ch)|] == old(buffer[..index]) + DecodeUnit(ch)
    ensures forall k :: index + 3 <= k < buffer.Length ==> buffer[k] == old(buffer[k])
    ensures IsTwoByte(ch) ==> forall k :: index + 2 <= k < buffer.Length ==> buffer[k] == old(buffer[k])
    ensures ch < 0x80 ==> forall k :: index + 1 <= k < buffer.Length ==> buffer[k] == old(buffer[k])
  {
    if index + Need(ch) > buffer.Length {
      return false;
    }
    if ch < 0x80 {
      buffer[index] := ch;
    } else if ch < 0x800 {
      buffer[index] := 0xc0 + ch / 64 % 32;
      buffer[index+1] := 0x80 + ch % 64;
    } else {
      buffer[index] := 0xe0 + ch / 4096;
      buffer[index+1] := 0x80 + ch / 64 % 64;
      buffer[index+2] := 0x80 + ch % 64;
    }
    return true;
  }

  lemma DecodeStep(units: seq<unit>, i: nat, room: nat)
    requires i < |units|
    ensures Decoded(units[i..]) == DecodeUnit(units[i]) + Decoded(units[i+1..])
    ensures Fits(units[i..], room)
            <==> Need(units[i]) <= room && Fits(units[i+1..], room - |DecodeUnit(units[i])|)
  {
    assert units[i..][1..] == units[i+1..];
  }

  /**
    Decodes into a buffer. It fails exactly when a unit finds too little room;
    otherwise the counted prefix holds the decoding, and at most two bytes behind
    it have been written.
   */
  method Decode(units: seq<unit>, buffer: array<byte>) returns (r: Converted<nat>)
    modifies buffer
    ensures r.Ok? <==> Fits(units, buffer.Length)
    ensures r.Err? ==> r == Err(BufferOverFlow)
    ensures r.Ok? ==> r.value == |Decoded(units)| <= buffer.Length && buffer[..r.value] == Decoded(units)
    ensures r.Ok? ==> forall k :: r.value + 2 <= k < buffer.Length ==> buffer[k] == old(buffer[k])
  {
    hide Decoded, Fits, DecodeUnit, Need, IsTwoByte;
    var index: nat := 0;
    assert units[0..] == units;
    for i := 0 to |units|
      invariant index <= buffer.Length
      invariant Fits(units, buffer.Length) <==> Fits(units[i..], buffer.Length - index)
      invariant buffer[..index] + Decoded(units[i..]) == Decoded(units)
      invariant forall k :: index + 2 <= k < buffer.Length ==> buffer[k] == old(buffer[k])
    {
      DecodeStep(units, i, buffer.Length - index);
      ghost var done := buffer[..index];
      var ok := PutUnit(units[i], buffer, index);
      if !ok {
        return Err(BufferOverFlow);
      }
      ghost var one, rest := DecodeUnit(units[i]), Decoded(units[i+1..]);
      assert done + (one + rest) == done + one + rest;
      UnitSize(units[i]);
      index := index + |DecodeUnit(units[i])|;
    }
    assert units[|units|..] == [];
    NothingToDecode(buffer.Length - index);
    return Ok(index);
  }

  lemma UnitSize(u: unit)
    ensures IsTwoByte(u) || |DecodeUnit(u)| == Need(u)
    ensures IsTwoByte(u) ==> DecodeUnit(u) == [] && Need(u) == 2
    ensures u < 0x80 ==> Need(u) == 1
    ensures u >= 0x800 ==> Need(u) == 3
    ensures u < 0x80 || IsTwoByte(u) || u >= 0x800
  {
  }

  lemma NothingToDecode(room: nat)
    ensures Decoded([]) == [] && Fits([], room)
  {
  }

  // ---------------------------------------------------------------------------
  // Bytes to units
  // ---------------------------------------------------------------------------

  /** Bytes in a sequence that starts with this byte; none for a byte that starts no sequence. */
  function SequenceLength(b: byte): nat {
    if b < 0x80 then 1
    else if 0xc0 <= b < 0xe0 then 2
    else if 0xe0 <= b < 0xf0 then 3
    else if 0xf0 <= b < 0xf8 then 4
    else 0
  }

  /** The unit at the front of the bytes. */
  function EncodeFirst(bytes: seq<byte>): Converted<unit>
    requires bytes != []
  {
    var n := SequenceLength(bytes[0]);
    if n == 0 || n > |bytes| then Err(NotUtf8String)
    else if n == 4 then Err(MultiByte)
    else
      var a: nat, b: nat, c: nat := bytes[0], if n >= 2 then bytes[1] else 0, if n >= 3 then bytes[2] else 0;
      if n == 1 then Ok(a)
      else if n == 2 then Ok(a % 32 * 64 + b % 64)
      else Ok(a % 16 * 4096 + b % 64 * 64 + c % 64)
  }

  /** The units up to the end or the first error. */
  datatype Parse = Parse(units: seq<unit>, error: Converted<()>)

  function Encoded(bytes: seq<byte>): (p: Parse)
    ensures |p.units| <= |bytes| && p.error != Err(BufferOverFlow)
  {
    if bytes == [] then Parse([], Ok(()))
    else match EncodeFirst(bytes)
         case Err(e) => Parse([], Err(e))
         case Ok(u) =>
           var rest := Encoded(bytes[SequenceLength(bytes[0])..]);
           Parse([u] + rest.units, rest.error)
  }

  lemma EncodeStep(bytes: seq<byte>, k: nat)
    requires k < |bytes|
    ensures match EncodeFirst(bytes[k..])
            case Err(e) => Encoded(bytes[k..]) == Parse([], Err(e))
            case Ok(u) =>
              && k + SequenceLength(bytes[k]) <= |bytes|
              && var rest := Encoded(bytes[k+SequenceLength(bytes[k])..]);
                 Encoded(bytes[k..]) == Parse([u] + rest.units, rest.error)
  {
    if EncodeFirst(bytes[k..]).Ok? {
      assert bytes[k..][SequenceLength(bytes[k])..] == bytes[k+SequenceLength(bytes[k])..];
    }
  }

  /** An encoding ends with an answer, or with an index out of bounds. */
  datatype Ending = Answered(answer: Converted<nat>) | OutOfBounds

  /** How encoding into a buffer of this length ends. */
  function EndingOf(p: Parse, length: nat): Ending {
    if |p.units| > length then OutOfBounds
    else match p.error
         case Ok(_) => Answered(Ok(|p.units|))
         case Err(e) => Answered(Err(e))
  }

  /**
    Encodes into a buffer. The units arrive in order, as far as there is room.
    When there are more units than room the program stops; its test for that
    case comes too late.
   */
  method Encode(bytes: seq<byte>, buffer: array<unit>) returns (r: Ending)
    modifies buffer
    ensures var p := Encoded(bytes);
            && r == EndingOf(p, buffer.Length)
            && r != Answered(Err(BufferOverFlow))
            && (r == OutOfBounds <==> |p.units| > buffer.Length)
            && (r == OutOfBounds ==> buffer[..] == p.units[..buffer.Length])
            && (r != OutOfBounds ==>
                  buffer[..|p.units|] == p.units && buffer[..][|p.units|..] == old(buffer[..])[|p.units|..])
  {
    hide Encoded, EncodeFirst, SequenceLength;
    var k: nat, i: nat := 0, 0;
    ghost var p, was := Encoded(bytes), buffer[..];
    assert bytes[0..] == bytes;
    while k < |bytes|
      invariant k <= |bytes| && i <= |p.units| && i <= buffer.Length && |was| == buffer.Length
      invariant Encoded(bytes[k..]) == Parse(p.units[i..], p.error)
      invariant buffer[..i] == p.units[..i] && buffer[..][i..] == was[i..]
      decreases |p.units| - i
    {
      EncodeStep(bytes, k);
      var first := EncodeFirst(bytes[k..]);
      if first.Err? {
        return Answered(Err(first.error));
      }
      ghost var rest := Encoded(bytes[k+SequenceLength(bytes[k])..]);
      assert p.units[i..] == [first.value] + rest.units;
      assert p.units[i+1..] == p.units[i..][1..] == rest.units;
      k := k + SequenceLength(bytes[k]);
      if i > buffer.Length + 1 {
        return Answered(Err(BufferOverFlow));
      }
      if i >= buffer.Length {
        assert buffer[..] == buffer[..i];
        return OutOfBounds;
      }
      ghost var before := buffer[..];
      buffer[i] := first.value;
      assert buffer[..] == before[i := first.value];
      assert before[i := first.value][i+1..] == before[i..][1..] == was[i..][1..] == was[i+1..];
      i := i + 1;
    }
    assert bytes[k..] == [];
    NothingToEncode();
    return Answered(Ok(i));
  }

  /** Two characters do not fit a buffer of one unit, and no error says so. */
  lemma EncodeOverrunExample()
    ensures EndingOf(Encoded([0x41, 0x42]), 1) == OutOfBounds
  {
    var bytes: seq<byte> := [0x41, 0x42];
    assert bytes[1..] == [0x42] && bytes[1..][1..] == [];
    assert Encoded(bytes[1..][1..]) == Parse([], Ok(()));
    assert Encoded(bytes[1..]) == Parse([0x42], Ok(()));
  }

  lemma NothingToEncode()
    ensures Encoded([]) == Parse([], Ok(()))
  {
  }

  // ---------------------------------------------------------------------------
  // Round trip
  // ---------------------------------------------------------------------------

  lemma EncodeOfUnit(u: unit, rest: seq<byte>)
    requires !IsTwoByte(u)
    ensures var bytes := DecodeUnit(u) + rest;
            EncodeFirst(bytes) == Ok(u) && SequenceLength(bytes[0]) == |DecodeUnit(u)|
  {
    if u >= 0x800 {
      Sixes(u);
    }
  }

  lemma Sixes(u: unit)
    ensures (0xe0 + u / 4096) % 16 * 4096 + (0x80 + u / 64 % 64) % 64 * 64 + (0x80 + u % 64) % 64 == u
    ensures 0xe0 <= 0xe0 + u / 4096 < 0xf0
  {
    var a, b, c := u / 4096, u / 64 % 64, u % 64;
    assert u / 64 == 64 * a + b;
    assert u == 64 * (u / 64) + c;
    assert (0xe0 + a) % 16 == a && (0x80 + b) % 64 == b && (0x80 + c) % 64 == c;
  }

  predicate NoTwoByte(units: seq<unit>) {
    forall i :: 0 <= i < |units| ==> !IsTwoByte(units[i])
  }

  function Counted(units: seq<unit>): (r: seq<unit>)
    ensures |r| <= |units|
  {
    if units == [] then [] else (if IsTwoByte(units[0]) then [] else [units[0]]) + Counted(units[1..])
  }

  /** Encoding what was decoded gives back the units, without those of two bytes. */
  lemma {:induction false} EncodeOfDecoded(units: seq<unit>)
    ensures Encoded(Decoded(units)) == Parse(Counted(units), Ok(()))
  {
    hide EncodeFirst, SequenceLength, DecodeUnit;
    if units != [] {
      EncodeOfDecoded(units[1..]);
      var u, rest := units[0], Decoded(units[1..]);
      if IsTwoByte(u) {
        UnitSize(u);
        assert [] + rest == rest;
      } else {
        EncodeOfUnit(u, rest);
        UnitSize(u);
        var bytes := DecodeUnit(u) + rest;
        assert bytes[SequenceLength(bytes[0])..] == rest;
      }
    }
  }

  lemma {:induction false} CountedIsAll(units: seq<unit>)
    ensures Counted(units) == units <==> NoTwoByte(units)
    ensures !NoTwoByte(units) ==> |Counted(units)| < |units|
  {
    if units != [] {
      CountedIsAll(units[1..]);
      assert NoTwoByte(units) <==> !IsTwoByte(units[0]) && NoTwoByte(units[1..]) by {
        assert forall i :: 0 <= i < |units[1..]| ==> units[1..][i] == units[i+1];
      }
      assert units == [units[0]] + units[1..];
    }
  }

  /** The round trip is the identity exactly for strings without units from 0x80 to 0x7FF. */
  lemma RoundTrip(units: seq<unit>)
    ensures Encoded(Decoded(units)) == Parse(units, Ok(())) <==> NoTwoByte(units)
  {
    hide Encoded, Decoded, Counted;
    EncodeOfDecoded(units);
    CountedIsAll(units);
  }

  // ---------------------------------------------------------------------------
  // Well-formed UTF-8
  // ---------------------------------------------------------------------------

  predicate IsTail(b: byte) {
    0x80 <= b < 0xc0
  }

  /** The sequence of one to three bytes at the front is one of the forms of section 4 of RFC 3629. */
  predicate FirstOk(bytes: seq<byte>, n: nat) {
    && n <= |bytes|
    && (|| (n == 1 && bytes[0] < 0x80)
        || (n == 2 && 0xc2 <= bytes[0] < 0xe0 && IsTail(bytes[1]))
        || (n == 3 && IsTail(bytes[1]) && IsTail(bytes[2])
            && (|| (bytes[0] == 0xe0 && bytes[1] >= 0xa0)
                || 0xe1 <= bytes[0] <= 0xec
                || (bytes[0] == 0xed && bytes[1] < 0xa0)
                || 0xee <= bytes[0] <= 0xef)))
  }

  /** Well-formed UTF-8 without characters beyond the basic plane. */
  predicate IsUtf8(bytes: seq<byte>)
    decreases |bytes|
  {
    bytes == [] || exists n: nat :: 1 <= n <= 3 && FirstOk(bytes, n) && IsUtf8(bytes[n..])
  }

  predicate IsSurrogate(u: unit) {
    0xd800 <= u < 0xe000
  }

  lemma UnitIsOk(u: unit, rest: seq<byte>, n: nat)
    requires !IsTwoByte(u) && 1 <= n <= 3
    ensures FirstOk(DecodeUnit(u) + rest, n) <==> n == |DecodeUnit(u)| && !IsSurrogate(u)
  {
    if u >= 0x800 {
      var a, b := u / 4096, u / 64 % 64;
      assert u / 64 == 64 * a + b;
      assert (a == 0 ==> b >= 0x20) && (a == 0xd ==> (b < 0x20 <==> u < 0xd800));
    }
  }

  /** The decoded bytes are well-formed UTF-8 exactly when no unit is a surrogate. */
  lemma {:induction false} DecodedIsUtf8(units: seq<unit>)
    ensures IsUtf8(Decoded(units)) <==> forall i :: 0 <= i < |units| ==> !IsSurrogate(units[i])
  {
    if units != [] {
      var u, rest := units[0], units[1..];
      DecodedIsUtf8(rest);
      assert (forall i :: 0 <= i < |units| ==> !IsSurrogate(units[i]))
          <==> !IsSurrogate(u) && (forall i :: 0 <= i < |rest| ==> !IsSurrogate(rest[i])) by {
        assert forall i :: 0 <= i < |rest| ==> rest[i] == units[i+1];
      }
      assert IsUtf8(Decoded(units)) <==> !IsSurrogate(u) && IsUtf8(Decoded(rest)) by {
        UnitInFront(u, Decoded(rest));
      }
    }
  }

  lemma UnitInFront(u: unit, rest: seq<byte>)
    ensures IsUtf8(DecodeUnit(u) + rest) <==> !IsSurrogate(u) && IsUtf8(rest)
  {
    var bytes := DecodeUnit(u) + rest;
    if IsTwoByte(u) {
      assert bytes == rest;
    } else {
      var n := |DecodeUnit(u)|;
      assert bytes[n..] == rest;
      UnitIsOk(u, rest, 1);
      UnitIsOk(u, rest, 2);
      UnitIsOk(u, rest, 3);
    }
  }

  // ---------------------------------------------------------------------------
  // Formatting in chunks
  // ---------------------------------------------------------------------------

  const BUFFER_LEN: nat := 42

  /** Index of the first surrogate, or the length when there is none. */
  function FirstSurrogate(units: seq<unit>): (i: nat)
    ensures i <= |units| && (i < |units| ==> IsSurrogate(units[i]))
    ensures forall j :: 0 <= j < i ==> !IsSurrogate(units[j])
  {
    if units == [] || IsSurrogate(units[0]) then 0 else 1 + FirstSurrogate(units[1..])
  }

  /** How far printing gets: to the end, or up to the chunk with the first surrogate. */
  function PrintedUnits(units: seq<unit>): (n: nat)
    ensures n <= |units|
  {
    var s := FirstSurrogate(units);
    if s == |units| then s else s / BUFFER_LEN * BUFFER_LEN
  }

  lemma ChunkIsPrintable(units: seq<unit>, from: nat, end: nat)
    requires from <= end <= |units| && from <= FirstSurrogate(units)
    ensures IsUtf8(Decoded(units[from..end])) <==> end <= FirstSurrogate(units)
  {
    var chunk, s := units[from..end], FirstSurrogate(units);
    DecodedIsUtf8(chunk);
    assert forall i :: 0 <= i < |chunk| ==> chunk[i] == units[from+i];
    if s < end {
      assert IsSurrogate(chunk[s - from]);
    }
  }

  /**
    Prints a string chunk by chunk through one small buffer, which no chunk
    overflows. The program stops at a chunk that is not well-formed UTF-8, so the
    whole decoding is printed exactly when no unit is a surrogate, and otherwise
    the chunks in front of the one with the first surrogate.
   */
  method Format(units: seq<unit>) returns (out: seq<byte>, finished: bool)
    ensures finished <==> forall i :: 0 <= i < |units| ==> !IsSurrogate(units[i])
    ensures out == Decoded(units[..PrintedUnits(units)])
    ensures finished ==> out == Decoded(units)
  {
    hide Decoded, Fits, FirstSurrogate, IsUtf8;
    var buffer := new byte[BUFFER_LEN * 3 + 1](_ => 0);
    out := [];
    var covered: nat := 0;
    NothingToDecode(0);
    assert units[..0] == [];
    for i := 0 to (|units| + BUFFER_LEN) / BUFFER_LEN
      invariant covered == if i * BUFFER_LEN >= |units| then |units| else i * BUFFER_LEN
      invariant out == Decoded(units[..covered]) && covered <= FirstSurrogate(units)
    {
      var end: nat := if (i + 1) * BUFFER_LEN >= |units| then |units| else (i + 1) * BUFFER_LEN;
      assert i * BUFFER_LEN <= |units|;
      var chunk := units[i * BUFFER_LEN..end];
      RoomForAll(chunk, buffer.Length);
      var r := Decode(chunk, buffer);
      DecodedConcat(units[..covered], chunk);
      assert units[..end] == units[..covered] + chunk;
      ChunkIsPrintable(units, covered, end);
      if r.Ok? {
        if !IsUtf8(buffer[..r.value]) {
          StoppedAt(units, i);
          return out, false;
        }
        out := out + buffer[..r.value];
      }
      covered := end;
    }
    assert units[..covered] == units;
    finished := true;
  }

  lemma {:induction false} StoppedAt(units: seq<unit>, i: nat)
    requires i * BUFFER_LEN <= FirstSurrogate(units) < |units|
    requires FirstSurrogate(units) < (i + 1) * BUFFER_LEN
    ensures PrintedUnits(units) == i * BUFFER_LEN
  {
    hide FirstSurrogate;
    assert FirstSurrogate(units) / BUFFER_LEN == i;
  }
}

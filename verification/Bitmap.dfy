/**
 Arrays of bits (kern/lib/bitmap.c), refined to sets of naturals.
 */
module Bitmap {
  import opened SfsLayout

  // ---- Bits of a byte --------------------------------------------------

  function Mask(k: nat): bv8
    requires k < 8
  {
    (1 as bv8) << k
  }

  predicate Bit(b: Byte, k: nat)
    requires k < 8
  {
    (b as bv8) & Mask(k) != 0
  }

  function SetBit(b: Byte, k: nat): Byte
    requires k < 8
  {
    ((b as bv8) | Mask(k)) as int
  }

  function ClearBit(b: Byte, k: nat): Byte
    requires k < 8
  {
    ((b as bv8) & !Mask(k)) as int
  }

  lemma MaskBits(b: bv8, k: nat, j: nat)
    requires k < 8 && j < 8
    ensures ((b | Mask(k)) & Mask(j) != 0) == (j == k || b & Mask(j) != 0)
    ensures ((b & !Mask(k)) & Mask(j) != 0) == (j != k && b & Mask(j) != 0)
  {}

  lemma ByteCast(b: bv8)
    ensures (b as int) as bv8 == b
  {}

  lemma BitOfSet(b: Byte, k: nat, j: nat)
    requires k < 8 && j < 8
    ensures Bit(SetBit(b, k), j) == (j == k || Bit(b, j))
  {
    MaskBits(b as bv8, k, j);
    ByteCast((b as bv8) | Mask(k));
  }

  lemma BitOfClear(b: Byte, k: nat, j: nat)
    requires k < 8 && j < 8
    ensures Bit(ClearBit(b, k), j) == (j != k && Bit(b, j))
  {
    MaskBits(b as bv8, k, j);
    ByteCast((b as bv8) & !Mask(k));
  }

  lemma AllBits(b: Byte)
    ensures b == 0xff <==> forall k | 0 <= k < 8 :: Bit(b, k)
  {
    if forall k | 0 <= k < 8 :: Bit(b, k) {
      assert Bit(b, 0) && Bit(b, 1) && Bit(b, 2) && Bit(b, 3) && Bit(b, 4) && Bit(b, 5) && Bit(b, 6) && Bit(b, 7);
    }
  }

  lemma NoBits(k: nat)
    requires k < 8
    ensures !Bit(0, k)
  {}

  // ---- Bits of a byte sequence -----------------------------------------

  predicate BitAt(v: seq<Byte>, k: nat)
    requires k < 8 * |v|
  {
    Bit(v[k / 8], k % 8)
  }

  /** The indices below n whose bit is set. */
  function BitSet(v: seq<Byte>, n: nat): set<nat>
    requires n <= 8 * |v|
  {
    set k: nat | k < n && BitAt(v, k)
  }

  lemma BitAtSet(v: seq<Byte>, i: nat, k: nat)
    requires i < 8 * |v| && k < 8 * |v|
    ensures BitAt(v[i / 8 := SetBit(v[i / 8], i % 8)], k) == (k == i || BitAt(v, k))
  {
    BitOfSet(v[i / 8], i % 8, k % 8);
  }

  lemma BitAtClear(v: seq<Byte>, i: nat, k: nat)
    requires i < 8 * |v| && k < 8 * |v|
    ensures BitAt(v[i / 8 := ClearBit(v[i / 8], i % 8)], k) == (k != i && BitAt(v, k))
  {
    BitOfClear(v[i / 8], i % 8, k % 8);
  }

  lemma MarkBit(v: seq<Byte>, n: nat, i: nat)
    requires i < n <= 8 * |v|
    ensures var w := v[i / 8 := SetBit(v[i / 8], i % 8)];
            && BitSet(w, n) == BitSet(v, n) + {i}
            && forall k: nat | k < 8 * |v| && BitAt(v, k) :: BitAt(w, k)
  {
    forall k: nat | k < 8 * |v| {
      BitAtSet(v, i, k);
    }
  }

  lemma UnmarkBit(v: seq<Byte>, n: nat, i: nat)
    requires i < n <= 8 * |v|
    ensures var w := v[i / 8 := ClearBit(v[i / 8], i % 8)];
            && BitSet(w, n) == BitSet(v, n) - {i}
            && forall k: nat | k < 8 * |v| && k != i && BitAt(v, k) :: BitAt(w, k)
  {
    forall k: nat | k < 8 * |v| {
      BitAtClear(v, i, k);
    }
  }

  /** Every bit at or past n is set: bitmap_create marks the leftover bits in use. */
  predicate PadSet(v: seq<Byte>, n: nat) {
    forall k: nat | n <= k < 8 * |v| :: BitAt(v, k)
  }

  // ---- The bitmap object -----------------------------------------------

  class Bits {
    const nbits: nat
    const v: array<Byte>

    ghost predicate Valid()
      reads v
    {
      v.Length == (nbits + 7) / 8 && PadSet(v[..], nbits)
    }

    ghost function Marked(): set<nat>
      requires Valid()
      reads v
    {
      BitSet(v[..], nbits)
    }

    constructor Create(nbits: nat)
      ensures Valid() && fresh(v) && this.nbits == nbits
      ensures Marked() == {}
    {
      var words := (nbits + 7) / 8;
      var a := new Byte[words](i => 0);
      this.nbits := nbits;
      v := a;
      new;
      forall k: nat | k < 8 * words
        ensures !BitAt(v[..], k)
      {
        NoBits(k % 8);
      }
      if nbits / 8 < words {
        var ix := words - 1;
        var overbits := nbits - ix * 8;
        assert nbits / 8 == words - 1;
        assert 0 < overbits < 8;
        for j := overbits to 8
          invariant forall k: nat | k < nbits :: !BitAt(v[..], k)
          invariant forall k: nat | nbits <= k < ix * 8 + j :: BitAt(v[..], k)
        {
          var i := ix * 8 + j;
          ghost var was := v[..];
          v[ix] := SetBit(v[ix], j);
          assert v[..] == was[i / 8 := SetBit(was[i / 8], i % 8)];
          forall k: nat | k < 8 * words
            ensures BitAt(v[..], k) == (k == i || BitAt(was, k))
          {
            BitAtSet(was, i, k);
          }
        }
      }
    }

    /** A bitmap over existing data, as when the bits were read from disk. */
    constructor FromData(nbits: nat, bytes: seq<Byte>)
      requires |bytes| == (nbits + 7) / 8 && PadSet(bytes, nbits)
      ensures Valid() && fresh(v) && this.nbits == nbits && v[..] == bytes
    {
      var a := new Byte[|bytes|](i requires 0 <= i < |bytes| => bytes[i]);
      this.nbits := nbits;
      v := a;
      new;
      assert v[..] == bytes;
    }

    /** The least clear bit is marked and returned; ENOSPC exactly when there is none. */
    method Alloc() returns (r: Result<nat>)
      requires Valid()
      modifies v
      ensures Valid()
      ensures r.Ok? ==> r.value < nbits && r.value !in old(Marked()) && Marked() == old(Marked()) + {r.value}
      ensures r.Ok? ==> forall k: nat | k < r.value :: k in old(Marked())
      ensures r.Err? ==> forall k: nat | k < nbits :: k in old(Marked())
      ensures r.Err? ==> r.error == ENOSPC && v[..] == old(v[..])
    {
      var maxix := (nbits + 7) / 8;
      for ix := 0 to maxix
        invariant v[..] == old(v[..])
        invariant forall k: nat | k < 8 * ix :: BitAt(v[..], k)
      {
        AllBits(v[ix]);
        if v[ix] != 0xff {
          for offset := 0 to 8
            invariant v[..] == old(v[..])
            invariant forall j | 0 <= j < offset :: Bit(v[ix], j)
          {
            if !Bit(v[ix], offset) {
              var index := ix * 8 + offset;
              assert !BitAt(v[..], index);
              assert index < nbits;
              MarkBit(v[..], nbits, index);
              ghost var was := v[..];
              v[ix] := SetBit(v[ix], offset);
              assert v[..] == was[index / 8 := SetBit(was[index / 8], index % 8)];
              forall k: nat | k < index
                ensures BitAt(was, k)
              {
                assert k / 8 < ix || (k / 8 == ix && k % 8 < offset);
              }
              return Ok(index);
            }
          }
          assert false;
        }
      }
      return Err(ENOSPC);
    }

    method Mark(index: nat)
      requires Valid() && index < nbits && index !in Marked()
      modifies v
      ensures Valid() && Marked() == old(Marked()) + {index}
    {
      var ix, offset := index / 8, index % 8;
      assert !Bit(v[ix], offset);
      MarkBit(v[..], nbits, index);
      ghost var was := v[..];
      v[ix] := SetBit(v[ix], offset);
      assert v[..] == was[index / 8 := SetBit(was[index / 8], index % 8)];
    }

    method Unmark(index: nat)
      requires Valid() && index in Marked()
      modifies v
      ensures Valid() && Marked() == old(Marked()) - {index}
    {
      var ix, offset := index / 8, index % 8;
      assert index < nbits;
      assert BitAt(v[..], index);
      assert Bit(v[ix], offset);
      UnmarkBit(v[..], nbits, index);
      ghost var was := v[..];
      v[ix] := ClearBit(v[ix], offset);
      assert v[..] == was[index / 8 := ClearBit(was[index / 8], index % 8)];
    }

    method IsSet(index: nat) returns (used: bool)
      requires Valid() && index < nbits
      ensures used <==> index in Marked()
    {
      assert v[..][index / 8] == v[index / 8];
      used := Bit(v[index / 8], index % 8);
    }
  }

  // ---- The same operations on a byte string ----------------------------

  method AllocBit(bytes: seq<Byte>, nbits: nat) returns (r: Result<nat>, bytes': seq<Byte>)
    requires |bytes| == (nbits + 7) / 8 && PadSet(bytes, nbits)
    ensures |bytes'| == |bytes| && PadSet(bytes', nbits)
    ensures r.Err? ==> forall k: nat | k < nbits :: k in BitSet(bytes, nbits)
    ensures r.Ok? ==> r.value < nbits && r.value !in BitSet(bytes, nbits)
    ensures r.Ok? ==> forall k: nat | k < r.value :: k in BitSet(bytes, nbits)
    ensures r.Ok? ==> BitSet(bytes', nbits) == BitSet(bytes, nbits) + {r.value}
    ensures r.Err? ==> r.error == ENOSPC && bytes' == bytes
  {
    var m := new Bits.FromData(nbits, bytes);
    assert m.Marked() == BitSet(bytes, nbits);
    r := m.Alloc();
    bytes' := m.v[..];
  }

  method UnmarkBitOf(bytes: seq<Byte>, nbits: nat, index: nat) returns (bytes': seq<Byte>)
    requires |bytes| == (nbits + 7) / 8 && PadSet(bytes, nbits) && index in BitSet(bytes, nbits)
    ensures |bytes'| == |bytes| && PadSet(bytes', nbits)
    ensures BitSet(bytes', nbits) == BitSet(bytes, nbits) - {index}
  {
    var m := new Bits.FromData(nbits, bytes);
    m.Unmark(index);
    bytes' := m.v[..];
  }
}

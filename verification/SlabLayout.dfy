/** Where the parts of a slab are: a header of two words, then objNum slots of an object
    and a link word each. Addresses count bytes. */
module SlabLayout {
  const WORD: nat := 8
  const HEADER: nat := 16

  /** Divisible by the size of a word. */
  predicate Aligned(a: int) {
    a % 8 == 0
  }

  datatype Layout = Layout(objNum: nat, objSize: nat)
  {
    ghost predicate Valid() {
      objNum > 0 && Aligned(objSize)
    }

    function RealObjSize(): nat {
      objSize + WORD
    }

    /** The distance of slot i from slot 0. */
    ghost function Offset(i: nat): nat {
      if i == 0 then 0 else Offset(i - 1) + RealObjSize()
    }

    ghost function Slot(slab: int, i: nat): int {
      slab + HEADER + Offset(i)
    }

    /** The link word of slot i. */
    ghost function Link(slab: int, i: nat): int {
      Slot(slab, i) + objSize
    }

    ghost function SlabSize(): nat {
      HEADER + Offset(objNum)
    }

    lemma {:induction false} OffsetIsProduct(i: nat)
      ensures Offset(i) == i * RealObjSize()
    {
      if i > 0 {
        OffsetIsProduct(i - 1);
        assert i * RealObjSize() == (i - 1) * RealObjSize() + RealObjSize();
      }
    }

    lemma {:induction false} OffsetsGrow(i: nat, j: nat)
      requires i < j
      ensures Offset(i) + RealObjSize() <= Offset(j)
      decreases j
    {
      if i < j - 1 {
        OffsetsGrow(i, j - 1);
      }
    }

    lemma {:induction false} OffsetAligned(i: nat)
      requires Valid()
      ensures Aligned(Offset(i))
    {
      if i > 0 {
        OffsetAligned(i - 1);
      }
    }

    /** A slab is a header of two words of 8 bytes, and objNum slots of an object and a word. */
    lemma AddressesAre(slab: int, i: nat)
      ensures Slot(slab, i) == slab + 16 + i * (objSize + 8) && Link(slab, i) == Slot(slab, i) + objSize
      ensures SlabSize() == 16 + objNum * (objSize + 8)
    {
      OffsetIsProduct(i);
      OffsetIsProduct(objNum);
    }

    /** A slot lies within its slab, behind the header. */
    lemma SlotInside(slab: int, i: nat)
      requires i < objNum
      ensures slab + HEADER <= Slot(slab, i)
      ensures Slot(slab, i) + RealObjSize() <= slab + SlabSize()
    {
      OffsetsGrow(i, objNum);
    }

    /** Slabs do not overlap. */
    ghost predicate Apart(s: int, t: int) {
      s + SlabSize() <= t || t + SlabSize() <= s
    }

    /** Different slots of slabs that do not overlap do not overlap. */
    lemma SlotsApart(s: int, i: nat, t: int, j: nat)
      requires i < objNum && j < objNum && (s == t || Apart(s, t)) && (s, i) != (t, j)
      ensures Slot(s, i) + RealObjSize() <= Slot(t, j) || Slot(t, j) + RealObjSize() <= Slot(s, i)
    {
      SlotInside(s, i);
      SlotInside(t, j);
      if s == t {
        if i < j {
          OffsetsGrow(i, j);
        } else {
          OffsetsGrow(j, i);
        }
      }
    }

    /** The link word of slot i is an aligned word within the slab, behind those of the
        slots before it. */
    lemma LinkFollows(slab: int, i: nat)
      requires Valid() && Aligned(slab) && i < objNum
      ensures Aligned(Link(slab, i)) && slab + HEADER <= Link(slab, i) < slab + SlabSize()
      ensures forall k :: 0 <= k < i ==> Link(slab, k) < Link(slab, i)
    {
      SlotInside(slab, i);
      OffsetAligned(i);
      forall k | 0 <= k < i
        ensures Link(slab, k) < Link(slab, i)
      {
        OffsetsGrow(k, i);
      }
    }
  }
}

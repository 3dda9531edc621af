/** The slab allocator of mem_pool.c, over a memory of words at byte addresses. */
module MemPool {
  import opened SlabLayout

  /** The free slots of a slab, in the order of its free list. */
  type FreeList = seq<nat>

  /** A slot, named by its slab and its number there. */
  datatype Place = Place(slab: int, i: nat)

  function CeilDiv(a: nat, b: nat): nat
    requires b > 0
  {
    (a + b - 1) / b
  }

  ghost function MaxOf(s: seq<nat>): nat {
    if s == [] then 0
    else if s[|s| - 1] >= MaxOf(s[..|s| - 1]) then s[|s| - 1] else MaxOf(s[..|s| - 1])
  }

  /** The lengths of all free lists together. */
  ghost function TotalFree(slabs: seq<int>, free: map<int, FreeList>): nat
    requires forall k :: 0 <= k < |slabs| ==> slabs[k] in free
  {
    if slabs == [] then 0
    else
      |free[slabs[0]]| + TotalFree(slabs[1..], free)
  }

  lemma {:induction false} TotalFreeEmpty(slabs: seq<int>, free: map<int, FreeList>)
    requires forall k :: 0 <= k < |slabs| ==> slabs[k] in free && free[slabs[k]] == []
    ensures TotalFree(slabs, free) == 0
  {
    if slabs != [] {
      TotalFreeEmpty(slabs[1..], free);
    }
  }

  lemma {:induction false} TotalFreeOther(slabs: seq<int>, free: map<int, FreeList>, s: int, fl: FreeList)
    requires (forall k :: 0 <= k < |slabs| ==> slabs[k] in free) && s !in slabs
    ensures TotalFree(slabs, free[s := fl]) == TotalFree(slabs, free)
  {
    if slabs != [] {
      TotalFreeOther(slabs[1..], free, s, fl);
    }
  }

  /** Changing one free list changes the total by the difference in length. */
  lemma {:induction false} TotalFreeUpdate(slabs: seq<int>, free: map<int, FreeList>, s: int, fl: FreeList)
    requires forall k :: 0 <= k < |slabs| ==> slabs[k] in free
    requires forall a, b :: 0 <= a < b < |slabs| ==> slabs[a] != slabs[b]
    requires s in slabs
    ensures TotalFree(slabs, free[s := fl]) == TotalFree(slabs, free) - |free[s]| + |fl|
  {
    if slabs[0] == s {
      TotalFreeOther(slabs[1..], free, s, fl);
    } else {
      TotalFreeUpdate(slabs[1..], free, s, fl);
    }
  }

  /** r is mem with the word at s set to head and the word at a set to link. */
  ghost predicate TwoWrites(mem: map<int, int>, r: map<int, int>, s: int, head: int, a: int, link: int) {
    && s in r && r[s] == head && a in r && r[a] == link
    && mem.Keys <= r.Keys
    && forall x :: x in mem && x != s && x != a ==> r[x] == mem[x]
  }

  /** What the memory says about a pool. */
  datatype Shape = Shape(layout: Layout, slabs: seq<int>, free: map<int, FreeList>, live: map<int, Place>)
  {
    ghost predicate WellPlaced() {
      && layout.Valid()
      && (forall k :: 0 <= k < |slabs| ==> slabs[k] in free)
      && (forall s :: s in free ==> s in slabs)
      && (forall s :: s in free ==> s > 0 && Aligned(s))
      && (forall a, b :: 0 <= a < b < |slabs| ==> slabs[a] != slabs[b])
      && (forall s, t :: s in free && t in free && s != t ==> layout.Apart(s, t))
    }

    /** Free lists hold each slot once; a live object is in one slot of one slab; and every
        slot is either free or live. */
    ghost predicate Partition() {
      && (forall s, k :: s in free && 0 <= k < |free[s]| ==> free[s][k] < layout.objNum)
      && (forall s, j, k :: s in free && 0 <= j < k < |free[s]| ==> free[s][j] != free[s][k])
      && (forall o :: o in live ==>
            && live[o].slab in free && live[o].i < layout.objNum
            && o == layout.Slot(live[o].slab, live[o].i) && live[o].i !in free[live[o].slab])
      && (forall s, i :: s in free && 0 <= i < layout.objNum ==>
            i in free[s] || layout.Slot(s, i) in live)
    }

    /** The address of the first slot of a free list; 0 is the null pointer. */
    ghost function Head(s: int, fl: FreeList): int {
      if fl == [] then 0 else layout.Slot(s, fl[0])
    }

    /** All addresses of a slab belong to the memory. */
    ghost predicate Mapped(mem: map<int, int>) {
      forall s, a :: s in free && s <= a < s + layout.SlabSize() ==> a in mem
    }

    /** The free lists and the owners, as written in the memory. */
    ghost predicate Heads(mem: map<int, int>) {
      forall s :: s in free ==> s in mem && mem[s] == Head(s, free[s])
    }

    ghost predicate FreeLinks(mem: map<int, int>) {
      forall s :: s in free ==> Threaded(mem, s, free[s])
    }

    /** Each slot of the list links to the next one, the last to none. */
    ghost predicate Threaded(mem: map<int, int>, s: int, fl: FreeList) {
      forall k :: 0 <= k < |fl| ==>
        layout.Link(s, fl[k]) in mem && mem[layout.Link(s, fl[k])] == Head(s, fl[k + 1..])
    }

    ghost predicate Owners(mem: map<int, int>) {
      forall o :: o in live ==> o + layout.objSize in mem && mem[o + layout.objSize] == live[o].slab
    }

    /** The list of slabs, as written in the memory. */
    ghost predicate Chain(mem: map<int, int>) {
      forall k {:trigger NextSlab(k)} :: 0 <= k < |slabs| ==>
        slabs[k] + WORD in mem && mem[slabs[k] + WORD] == NextSlab(k)
    }

    ghost function NextSlab(k: nat): int {
      if k + 1 < |slabs| then slabs[k + 1] else 0
    }

    ghost predicate Valid(mem: map<int, int>) {
      WellPlaced() && Partition() && Mapped(mem) && Heads(mem) && FreeLinks(mem) && Owners(mem) && Chain(mem)
    }

    lemma HeaderBelow(s: int, i: nat, t: int)
      requires layout.Valid() && i < layout.objNum && (s == t || layout.Apart(s, t))
      ensures t != layout.Link(s, i) && t + WORD != layout.Link(s, i)
    {
      layout.SlotInside(s, i);
      layout.OffsetsGrow(0, layout.objNum);
    }

    lemma AlignedSum(s: int, offset: nat, size: nat)
      requires Aligned(s) && Aligned(offset) && Aligned(size)
      ensures Aligned(s + HEADER + offset + size)
    {
    }

    lemma LinkAligned(s: int, i: nat)
      requires layout.Valid() && Aligned(s)
      ensures s + HEADER <= layout.Link(s, i) && Aligned(layout.Link(s, i))
    {
      layout.OffsetAligned(i);
      AlignedSum(s, layout.Offset(i), layout.objSize);
    }

    /** The link word of slot i of slab s is a word of its own. */
    lemma LinkApart(s: int, i: nat)
      requires WellPlaced() && s in free && i < layout.objNum
      ensures s + HEADER <= layout.Link(s, i) && Aligned(layout.Link(s, i))
      ensures forall t :: t in free ==> t != layout.Link(s, i) && t + WORD != layout.Link(s, i)
      ensures forall t, j :: t in free && 0 <= j < layout.objNum && (t, j) != (s, i) ==>
        layout.Link(t, j) != layout.Link(s, i)
    {
      LinkAligned(s, i);
      forall t | t in free
        ensures t != layout.Link(s, i) && t + WORD != layout.Link(s, i)
      {
        HeaderBelow(s, i, t);
      }
      forall t, j | t in free && 0 <= j < layout.objNum && (t, j) != (s, i)
        ensures layout.Link(t, j) != layout.Link(s, i)
      {
        layout.SlotsApart(s, i, t, j);
      }
    }

    /** The header words of slab s are words of their own. */
    lemma HeaderApart(s: int)
      requires WellPlaced() && s in free
      ensures forall t :: t in free ==> t + WORD != s
      ensures forall t, j :: t in free && 0 <= j < layout.objNum ==>
        layout.Link(t, j) != s && layout.Link(t, j) != s + WORD
    {
      layout.OffsetsGrow(0, layout.objNum);
      forall t, j | t in free && 0 <= j < layout.objNum
        ensures layout.Link(t, j) != s && layout.Link(t, j) != s + WORD
      {
        HeaderBelow(t, j, s);
      }
    }

    /** The first free slot of slab s becomes live. */
    ghost function Pop(s: int): Shape
      requires s in free && free[s] != []
    {
      this.(free := free[s := free[s][1..]], live := live[layout.Slot(s, free[s][0]) := Place(s, free[s][0])])
    }

    /** A live object becomes the first free slot of its slab. */
    ghost function Push(o: int): Shape
      requires o in live && live[o].slab in free
    {
      var p := live[o];
      this.(free := free[p.slab := [p.i] + free[p.slab]], live := live - {o})
    }

    lemma PopPartition(s: int)
      requires WellPlaced() && Partition() && s in free && free[s] != []
      ensures Pop(s).WellPlaced() && Pop(s).Partition()
      ensures layout.Slot(s, free[s][0]) !in live
    {
      var i := free[s][0];
      var o := layout.Slot(s, i);
      if o in live {
        LiveSlot(o, s, i);
        assert false;
      }
      hide Layout.Slot, Layout.Apart, Layout.Valid, Aligned;
      assert forall t, j :: t in free && 0 <= j < layout.objNum && j in free[t] && (t, j) != (s, i) ==>
        j in Pop(s).free[t];
    }

    /** The slot of a live object is known from its address. */
    lemma LiveSlot(o: int, s: int, i: nat)
      requires WellPlaced() && Partition() && o in live && s in free && i < layout.objNum && o == layout.Slot(s, i)
      ensures live[o] == Place(s, i)
    {
      if live[o] != Place(s, i) {
        layout.SlotsApart(s, i, live[o].slab, live[o].i);
        assert false;
      }
    }

    /** Every slot is still free or live when an object has been released. */
    lemma PushCovers(o: int, t: int, j: nat)
      requires WellPlaced() && Partition() && o in live && live[o].slab in free && t in free && j < layout.objNum
      ensures j in Push(o).free[t] || layout.Slot(t, j) in Push(o).live
    {
      var p, r := live[o], Push(o);
      if layout.Slot(t, j) == o {
        LiveSlot(o, t, j);
        assert r.free[t][0] == j;
      } else if j in free[t] {
        var k :| 0 <= k < |free[t]| && free[t][k] == j;
        assert t == p.slab ==> r.free[t][k + 1] == j;
      }
    }

    lemma PushPartition(o: int)
      requires WellPlaced() && Partition() && o in live
      ensures Push(o).WellPlaced() && Push(o).Partition()
    {
      hide Layout.Slot, Layout.Apart, Aligned, Layout.Valid;
      var r := Push(o);
      forall t, j | t in free && 0 <= j < layout.objNum
        ensures j in r.free[t] || layout.Slot(t, j) in r.live
      {
        PushCovers(o, t, j);
      }
      forall o' | o' in r.live
        ensures r.live[o'].i !in r.free[r.live[o'].slab]
      {
        assert layout.Slot(r.live[o'].slab, r.live[o'].i) == o' != o;
      }
    }

    /** Writing a header word and a link word keeps every other word of the pool. */
    lemma WritesKeep(mem: map<int, int>, r: map<int, int>, s: int, i: nat, a: int, head: int, link: int)
      requires WellPlaced() && s in free && i < layout.objNum && a == layout.Link(s, i)
      requires TwoWrites(mem, r, s, head, a, link)
      ensures OnlyWrote(mem, r, s, i)
    {
      LinkApart(s, i);
      HeaderApart(s);
    }

    /** Only the two words of the slot popped or pushed have been written. */
    ghost predicate OnlyWrote(mem: map<int, int>, r: map<int, int>, s: int, i: nat)
      requires s in free && i < layout.objNum
    {
      && mem.Keys <= r.Keys
      && (forall t :: t in free && t != s && t in mem ==> r[t] == mem[t])
      && (forall t :: t in free && t + WORD in mem ==> r[t + WORD] == mem[t + WORD])
      && (forall t, j :: t in free && 0 <= j < layout.objNum && (t, j) != (s, i) && layout.Link(t, j) in mem ==>
           r[layout.Link(t, j)] == mem[layout.Link(t, j)])
    }

    lemma SameThread(mem: map<int, int>, r: map<int, int>, s: int, i: nat, t: int, fl: FreeList)
      requires s in free && i < layout.objNum && OnlyWrote(mem, r, s, i)
      requires t in free && Threaded(mem, t, fl)
      requires forall k :: 0 <= k < |fl| ==> fl[k] < layout.objNum && (t, fl[k]) != (s, i)
      ensures Threaded(r, t, fl)
    {
    }

    lemma TailThread(mem: map<int, int>, s: int, fl: FreeList)
      requires fl != [] && Threaded(mem, s, fl)
      ensures Threaded(mem, s, fl[1..])
    {
    }

    lemma ConsThread(mem: map<int, int>, s: int, i: nat, fl: FreeList)
      requires Threaded(mem, s, fl)
      requires layout.Link(s, i) in mem && mem[layout.Link(s, i)] == Head(s, fl)
      ensures Threaded(mem, s, [i] + fl)
    {
    }

    lemma PopFreeLinks(mem: map<int, int>, r: map<int, int>, s: int)
      requires Partition() && FreeLinks(mem) && s in free && free[s] != []
      requires OnlyWrote(mem, r, s, free[s][0])
      ensures Pop(s).FreeLinks(r)
    {
      var p := Pop(s);
      forall t | t in p.free
        ensures Threaded(r, t, p.free[t])
      {
        assert Threaded(mem, t, free[t]);
        if t == s {
          TailThread(mem, s, free[s]);
        }
        SameThread(mem, r, s, free[s][0], t, p.free[t]);
      }
    }

    /** The owner of a live object other than the one in slot i of slab s is still written. */
    lemma SameOwner(mem: map<int, int>, r: map<int, int>, s: int, i: nat, o: int)
      requires Partition() && Owners(mem) && s in free && i < layout.objNum && OnlyWrote(mem, r, s, i)
      requires o in live && live[o] != Place(s, i)
      ensures o + layout.objSize in r && r[o + layout.objSize] == live[o].slab
    {
      LiveLink(o);
      var t, j := live[o].slab, live[o].i;
      assert (t, j) != (s, i);
    }

    lemma PopOwners(mem: map<int, int>, r: map<int, int>, s: int)
      requires Partition() && Owners(mem) && s in free && free[s] != []
      requires OnlyWrote(mem, r, s, free[s][0])
      requires layout.Link(s, free[s][0]) in r && r[layout.Link(s, free[s][0])] == s
      ensures Pop(s).Owners(r)
    {
      var p := Pop(s);
      forall o | o in p.live
        ensures o + layout.objSize in r && r[o + layout.objSize] == p.live[o].slab
      {
        if o != layout.Slot(s, free[s][0]) {
          SameOwner(mem, r, s, free[s][0], o);
        }
      }
    }

    lemma KeepChain(mem: map<int, int>, r: map<int, int>, s: int, i: nat, p: Shape)
      requires WellPlaced() && Mapped(mem) && Chain(mem) && s in free && i < layout.objNum
      requires OnlyWrote(mem, r, s, i)
      requires p.layout == layout && p.slabs == slabs && p.free.Keys == free.Keys
      ensures p.Chain(r) && p.Mapped(r)
    {
      forall k | 0 <= k < |slabs|
        ensures slabs[k] + WORD in r && r[slabs[k] + WORD] == p.NextSlab(k)
      {
        assert slabs[k] in free && mem[slabs[k] + WORD] == NextSlab(k);
      }
    }

    lemma LiveLink(o: int)
      requires Partition() && o in live
      ensures live[o].slab in free && live[o].i < layout.objNum
      ensures o + layout.objSize == layout.Link(live[o].slab, live[o].i)
    {
    }

    /** The words an allocation writes bring the memory to the shape with the slot popped. */
    lemma PopLinks(mem: map<int, int>, r: map<int, int>, s: int)
      requires Valid(mem) && s in free && free[s] != []
      requires TwoWrites(mem, r, s, Head(s, free[s][1..]), layout.Link(s, free[s][0]), s)
      ensures Pop(s).Valid(r)
    {
      var i := free[s][0];
      PopPartition(s);
      WritesKeep(mem, r, s, i, layout.Link(s, i), Head(s, free[s][1..]), s);
      PopFreeLinks(mem, r, s);
      PopOwners(mem, r, s);
      KeepChain(mem, r, s, i, Pop(s));
    }

    lemma PushFreeLinks(mem: map<int, int>, r: map<int, int>, o: int)
      requires Partition() && FreeLinks(mem) && o in live
      requires OnlyWrote(mem, r, live[o].slab, live[o].i)
      requires o + layout.objSize in r && r[o + layout.objSize] == Head(live[o].slab, free[live[o].slab])
      ensures Push(o).FreeLinks(r)
    {
      var s, p := live[o].slab, Push(o);
      LiveLink(o);
      forall t | t in p.free
        ensures Threaded(r, t, p.free[t])
      {
        SameThread(mem, r, s, live[o].i, t, free[t]);
        if t == s {
          ConsThread(r, s, live[o].i, free[s]);
        }
      }
    }

    lemma PushOwners(mem: map<int, int>, r: map<int, int>, o: int)
      requires Partition() && Owners(mem) && o in live
      requires live[o].slab in free && live[o].i < layout.objNum
      requires OnlyWrote(mem, r, live[o].slab, live[o].i)
      ensures Push(o).Owners(r)
    {
      forall o' | o' in Push(o).live
        ensures o' + layout.objSize in r && r[o' + layout.objSize] == Push(o).live[o'].slab
      {
        assert o' in live && o' != o;
        if live[o'] == live[o] {
          assert false;
        }
        SameOwner(mem, r, live[o].slab, live[o].i, o');
      }
    }

    /** The pool stays consistent when the two words of a released slot are written. */
    lemma PushWrites(mem: map<int, int>, r: map<int, int>, o: int)
      requires Valid(mem) && o in live && live[o].slab in free && live[o].i < layout.objNum
      requires OnlyWrote(mem, r, live[o].slab, live[o].i)
      requires r[live[o].slab] == o
      requires o + layout.objSize in r && r[o + layout.objSize] == Head(live[o].slab, free[live[o].slab])
      ensures Push(o).Valid(r)
    {
      PushPartition(o);
      PushFreeLinks(mem, r, o);
      PushOwners(mem, r, o);
      KeepChain(mem, r, live[o].slab, live[o].i, Push(o));
    }

    /** The words a release writes bring the memory to the shape with the slot pushed. */
    lemma PushLinks(mem: map<int, int>, r: map<int, int>, o: int)
      requires Valid(mem) && o in live
      requires TwoWrites(mem, r, live[o].slab, o, o + layout.objSize, Head(live[o].slab, free[live[o].slab]))
      ensures Push(o).Valid(r)
    {
      hide Heads, FreeLinks, Owners, Chain, Mapped;
      var s, i := live[o].slab, live[o].i;
      var head := Head(s, free[s]);
      LiveLink(o);
      WritesKeep(mem, r, s, i, o + layout.objSize, o, head);
      PushWrites(mem, r, o);
    }

    /** An address in the payload of a slot is none of the pool's words. */
    lemma PayloadApart(s: int, i: nat, a: int, t: int)
      requires WellPlaced() && s in free && t in free && i < layout.objNum
      requires layout.Slot(s, i) <= a < layout.Slot(s, i) + layout.objSize && Aligned(a)
      ensures t != a && t + WORD != a && s <= a < s + layout.SlabSize()
      ensures forall j :: 0 <= j < layout.objNum ==> layout.Link(t, j) != a
    {
      layout.SlotInside(s, i);
      layout.OffsetsGrow(0, layout.objNum);
      forall j | 0 <= j < layout.objNum
        ensures layout.Link(t, j) != a
      {
        if (t, j) != (s, i) {
          layout.SlotsApart(s, i, t, j);
        }
      }
    }

    lemma PayloadApartAll(s: int, i: nat, a: int)
      requires WellPlaced() && s in free && i < layout.objNum
      requires layout.Slot(s, i) <= a < layout.Slot(s, i) + layout.objSize && Aligned(a)
      ensures s <= a < s + layout.SlabSize()
      ensures forall t :: t in free ==> t != a && t + WORD != a
      ensures forall t, j :: t in free && 0 <= j < layout.objNum ==> layout.Link(t, j) != a
    {
      PayloadApart(s, i, a, s);
      forall t | t in free
        ensures t != a && t + WORD != a
        ensures forall j :: 0 <= j < layout.objNum ==> layout.Link(t, j) != a
      {
        PayloadApart(s, i, a, t);
      }
    }

    /** Writing to addresses from lo up to hi, where the pool has no words, changes
        nothing for the pool. */
    lemma KeepWords(mem: map<int, int>, r: map<int, int>, lo: int, hi: int)
      requires Valid(mem) && mem.Keys <= r.Keys
      requires forall x :: x in mem && !(lo <= x < hi) ==> r[x] == mem[x]
      requires forall t :: t in free ==> !(lo <= t < hi) && !(lo <= t + WORD < hi)
      requires forall t, j :: t in free && 0 <= j < layout.objNum ==> !(lo <= layout.Link(t, j) < hi)
      requires forall o :: o in live ==> !(lo <= o + layout.objSize < hi)
      ensures Valid(r)
    {
    }

    /** A write into the payload of a live object touches no word of the pool. */
    lemma PayloadKeeps(mem: map<int, int>, r: map<int, int>, o: int, a: int)
      requires Valid(mem) && o in live && o <= a < o + layout.objSize && Aligned(a)
      requires mem.Keys <= r.Keys && forall x :: x in mem && x != a ==> r[x] == mem[x]
      ensures a in mem && Valid(r)
    {
      LiveLink(o);
      PayloadApartAll(live[o].slab, live[o].i, a);
      forall o' | o' in live
        ensures o' + layout.objSize != a
      {
        LiveLink(o');
      }
      KeepWords(mem, r, a, a + 1);
    }

    /** A new slab at the front of the list, all of its slots free in ascending order. */
    ghost function AddSlab(at: int): Shape {
      this.(slabs := [at] + slabs, free := free[at := Ascending(layout.objNum, 0)])
    }

    /** The slab as init_slab and add_new_slab write it. */
    ghost predicate FreshSlab(r: map<int, int>, at: int) {
      && at in r && at + WORD in r
      && (forall x :: at <= x < at + layout.SlabSize() ==> x in r)
      && r[at] == layout.Slot(at, 0)
      && r[at + WORD] == (if slabs == [] then 0 else slabs[0])
      && forall i {:trigger layout.Link(at, i)} :: 0 <= i < layout.objNum ==>
           layout.Link(at, i) in r
           && r[layout.Link(at, i)] == if i + 1 < layout.objNum then layout.Slot(at, i + 1) else 0
    }

    /** A place for a slab that malloc may return. */
    ghost predicate Fresh(at: int) {
      at > 0 && Aligned(at) && forall s :: s in free ==> layout.Apart(at, s) && layout.Apart(s, at)
    }

    lemma AddSlabPartition(at: int)
      requires WellPlaced() && Partition() && Fresh(at)
      ensures at !in free && AddSlab(at).WellPlaced() && AddSlab(at).Partition()
    {
      layout.OffsetsGrow(0, layout.objNum);
      AscendingAt(layout.objNum, 0);
      var p := AddSlab(at);
      forall s, i | s in p.free && 0 <= i < layout.objNum
        ensures i in p.free[s] || layout.Slot(s, i) in p.live
      {
        if s == at {
          assert p.free[s][i] == i;
        }
      }
    }

    /** The words of the pool stay when only a new block is written. */
    lemma AddSlabKeeps(mem: map<int, int>, r: map<int, int>, at: int)
      requires Valid(mem) && Fresh(at) && mem.Keys <= r.Keys
      requires forall x :: x in mem && !(at <= x < at + layout.SlabSize()) ==> r[x] == mem[x]
      ensures Valid(r)
    {
      var hi := at + layout.SlabSize();
      layout.OffsetsGrow(0, layout.objNum);
      forall s, i | s in free && 0 <= i < layout.objNum
        ensures !(at <= layout.Link(s, i) < hi)
      {
        layout.SlotInside(s, i);
      }
      forall o | o in live
        ensures !(at <= o + layout.objSize < hi)
      {
        LiveLink(o);
      }
      KeepWords(mem, r, at, hi);
    }

    lemma FreshThread(r: map<int, int>, at: int)
      requires FreshSlab(r, at) && layout.objNum > 0
      ensures Threaded(r, at, Ascending(layout.objNum, 0)) && r[at] == Head(at, Ascending(layout.objNum, 0))
    {
      var fl := Ascending(layout.objNum, 0);
      AscendingAt(layout.objNum, 0);
      forall k | 0 <= k < |fl|
        ensures layout.Link(at, fl[k]) in r && r[layout.Link(at, fl[k])] == Head(at, fl[k + 1..])
      {
        assert fl[k] == k;
      }
    }

    lemma AddSlabChain(r: map<int, int>, at: int)
      requires Chain(r) && FreshSlab(r, at)
      ensures AddSlab(at).Chain(r)
    {
      var p := AddSlab(at);
      forall k | 0 <= k < |p.slabs|
        ensures p.slabs[k] + WORD in r && r[p.slabs[k] + WORD] == p.NextSlab(k)
      {
        if k > 0 {
          assert NextSlab(k - 1) == p.NextSlab(k);
        }
      }
    }

    lemma AddSlabThreads(r: map<int, int>, at: int)
      requires layout.objNum > 0 && FreeLinks(r) && FreshSlab(r, at)
      ensures AddSlab(at).FreeLinks(r)
    {
      var p := AddSlab(at);
      FreshThread(r, at);
      forall t | t in p.free
        ensures p.Threaded(r, t, p.free[t])
      {
        if t != at {
          assert Threaded(r, t, free[t]);
        }
      }
    }

    lemma AddSlabHeads(r: map<int, int>, at: int)
      requires layout.objNum > 0 && Heads(r) && FreshSlab(r, at)
      ensures AddSlab(at).Heads(r)
    {
    }

    lemma AddSlabOwners(r: map<int, int>, at: int)
      requires Mapped(r) && Owners(r) && FreshSlab(r, at)
      ensures AddSlab(at).Mapped(r) && AddSlab(at).Owners(r)
    {
    }

    lemma AddSlabLinks(r: map<int, int>, at: int)
      requires Valid(r) && Fresh(at) && FreshSlab(r, at)
      ensures AddSlab(at).Valid(r)
    {
      hide Heads, FreeLinks, Owners, Chain, Mapped, FreshSlab, Partition;
      AddSlabOwners(r, at);
      layout.OffsetsGrow(0, layout.objNum);
      AddSlabPartition(at);
      AddSlabHeads(r, at);
      AddSlabThreads(r, at);
      AddSlabChain(r, at);
    }
  }

  /** The numbers from i up to n. */
  ghost function Ascending(n: nat, i: nat): FreeList
    requires i <= n
    decreases n - i
  {
    if i == n then [] else [i] + Ascending(n, i + 1)
  }

  lemma {:induction false} AscendingAt(n: nat, i: nat)
    requires i <= n
    ensures |Ascending(n, i)| == n - i
    ensures forall k :: 0 <= k < n - i ==> Ascending(n, i)[k] == i + k
    decreases n - i
  {
    if i < n {
      AscendingAt(n, i + 1);
    }
  }
}

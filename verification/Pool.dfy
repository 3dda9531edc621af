/** The pool as mem_pool.c keeps it: counters, a list of slabs and words in memory. */
module Pool {
  import opened SlabLayout
  import opened MemPool

  function RoundUp(objSize: nat): (r: nat)
    ensures objSize <= r < objSize + WORD && Aligned(r)
  {
    if objSize % WORD != 0 then (objSize / WORD + 1) * WORD else objSize
  }

  lemma MaxOfGrows(s: seq<nat>, x: nat)
    ensures MaxOf(s + [x]) == if x >= MaxOf(s) then x else MaxOf(s)
  {
  }

  lemma CeilDivIs(k: nat, peak: nat, n: nat)
    requires n > 0 && peak <= k * n && (k > 0 ==> (k - 1) * n < peak)
    ensures CeilDiv(peak, n) == k
  {
    var q := CeilDiv(peak, n);
    var r := (peak + n - 1) % n;
    assert peak + n - 1 == q * n + r;
    if k == 0 {
      assert k * n == 0;
    } else {
      assert (k - 1) * n == k * n - n;
    }
    assert q > k ==> q * n >= (k + 1) * n;
    assert q < k ==> q * n <= (k - 1) * n;
  }

  /** The payloads of the live objects of sh are the same in m and in r. */
  ghost predicate SamePayloads(sh: Shape, m: map<int, int>, r: map<int, int>) {
    forall o, a :: o in sh.live && o <= a < o + sh.layout.objSize && Aligned(a) && a in m ==> a in r && r[a] == m[a]
  }

  lemma NewSlab(sh: Shape, m: map<int, int>, r: map<int, int>, at: int)
    requires sh.Valid(m) && sh.Fresh(at) && m.Keys <= r.Keys
    requires forall x :: x in m && !(at <= x < at + sh.layout.SlabSize()) ==> r[x] == m[x]
    requires sh.FreshSlab(r, at)
    ensures sh.AddSlab(at).Valid(r) && SamePayloads(sh, m, r) && at !in sh.free
  {
    sh.AddSlabPartition(at);
    sh.AddSlabKeeps(m, r, at);
    sh.AddSlabLinks(r, at);
    forall o, a | o in sh.live && o <= a < o + sh.layout.objSize && Aligned(a) && a in m
      ensures a in r && r[a] == m[a]
    {
      sh.LiveLink(o);
      sh.PayloadApartAll(sh.live[o].slab, sh.live[o].i, a);
    }
  }

  /** What the counters count. */
  ghost predicate CountsOf(sh: Shape, slabNr: nat, objNr: nat, freeObjNr: nat) {
    && (forall k :: 0 <= k < |sh.slabs| ==> sh.slabs[k] in sh.free)
    && slabNr == |sh.slabs|
    && objNr == slabNr * sh.layout.objNum
    && freeObjNr == TotalFree(sh.slabs, sh.free)
    && freeObjNr + |sh.live| == objNr
  }

  lemma NewSlabCounts(sh: Shape, at: int, slabNr: nat, objNr: nat, freeObjNr: nat)
    requires CountsOf(sh, slabNr, objNr, freeObjNr) && at !in sh.free
    ensures CountsOf(sh.AddSlab(at), slabNr + 1, objNr + sh.layout.objNum, freeObjNr + sh.layout.objNum)
  {
    hide TotalFree;
    var p := sh.AddSlab(at);
    AscendingAt(sh.layout.objNum, 0);
    TotalFreeOther(sh.slabs, sh.free, at, Ascending(sh.layout.objNum, 0));
    assert p.slabs[0] == at && p.slabs[1..] == sh.slabs;
    TotalOfFirst(p.slabs, p.free);
    SlabsTimes(slabNr + 1, sh.layout.objNum);
  }

  lemma TotalOfFirst(slabs: seq<int>, free: map<int, FreeList>)
    requires slabs != [] && forall k :: 0 <= k < |slabs| ==> slabs[k] in free
    ensures TotalFree(slabs, free) == |free[slabs[0]]| + TotalFree(slabs[1..], free)
  {
  }

  lemma PopMemory(sh: Shape, m: map<int, int>, r: map<int, int>, s: int)
    requires sh.Valid(m) && s in sh.free && sh.free[s] != []
    requires s in m && m[s] == sh.layout.Slot(s, sh.free[s][0])
    requires r == m[s := sh.Head(s, sh.free[s][1..])][sh.layout.Link(s, sh.free[s][0]) := s]
    ensures sh.Pop(s).Valid(r) && SamePayloads(sh, m, r)
    ensures sh.layout.Slot(s, sh.free[s][0]) !in sh.live
  {
    hide Shape.Heads, Shape.FreeLinks, Shape.Owners, Shape.Chain, Shape.Mapped;
    var i := sh.free[s][0];
    sh.PopPartition(s);
    sh.LinkApart(s, i);
    sh.PopLinks(m, r, s);
    TwoWritesKeepPayloads(sh, m, r, s, i);
  }

  lemma TwoWritesKeepPayloads(sh: Shape, m: map<int, int>, r: map<int, int>, s: int, i: nat)
    requires sh.WellPlaced() && sh.Partition() && s in sh.free && i < sh.layout.objNum
    requires m.Keys <= r.Keys
    requires forall x :: x in m && x != s && x != sh.layout.Link(s, i) ==> r[x] == m[x]
    ensures SamePayloads(sh, m, r)
  {
    forall o, a | o in sh.live && o <= a < o + sh.layout.objSize && Aligned(a) && a in m
      ensures a in r && r[a] == m[a]
    {
      sh.LiveLink(o);
      sh.PayloadApartAll(sh.live[o].slab, sh.live[o].i, a);
    }
  }

  lemma MapShrinks<K, V>(m: map<K, V>, k: K)
    requires k in m
    ensures |m - {k}| == |m| - 1
  {
  }

  ghost predicate SlabsDistinct(sh: Shape) {
    && (forall k :: 0 <= k < |sh.slabs| ==> sh.slabs[k] in sh.free)
    && (forall a, b :: 0 <= a < b < |sh.slabs| ==> sh.slabs[a] != sh.slabs[b])
    && (forall s :: s in sh.free ==> s in sh.slabs)
  }

  lemma PopCounts(sh: Shape, s: int)
    requires SlabsDistinct(sh) && s in sh.free && sh.free[s] != []
    ensures var p := sh.Pop(s);
      && (forall k :: 0 <= k < |p.slabs| ==> p.slabs[k] in p.free)
      && TotalFree(p.slabs, p.free) == TotalFree(sh.slabs, sh.free) - 1
  {
    TotalFreeUpdate(sh.slabs, sh.free, s, sh.free[s][1..]);
  }

  lemma PushCounts(sh: Shape, o: int)
    requires SlabsDistinct(sh) && o in sh.live && sh.live[o].slab in sh.free
    ensures var p := sh.Push(o);
      && (forall k :: 0 <= k < |p.slabs| ==> p.slabs[k] in p.free)
      && TotalFree(p.slabs, p.free) == TotalFree(sh.slabs, sh.free) + 1
      && |p.live| == |sh.live| - 1
  {
    var s := sh.live[o].slab;
    TotalFreeUpdate(sh.slabs, sh.free, s, [sh.live[o].i] + sh.free[s]);
    MapShrinks(sh.live, o);
  }

  /** One more live object, and n more slots exactly if no slot was free. */
  lemma PeakStep(c0: nat, c: nat, n: nat, live0: nat, history: seq<nat>)
    requires n > 0 && live0 <= c0
    requires live0 <= MaxOf(history) <= c0 && (c0 > 0 ==> c0 - n < MaxOf(history))
    requires c == if live0 == c0 then c0 + n else c0
    ensures var peak := MaxOf(history + [live0 + 1]); live0 + 1 <= peak <= c && c - n < peak
  {
  }

  lemma PopLive(sh: Shape, s: int)
    requires s in sh.free && sh.free[s] != [] && sh.layout.Slot(s, sh.free[s][0]) !in sh.live
    ensures |sh.Pop(s).live| == |sh.live| + 1
  {
  }

  lemma PayloadsTrans(sh: Shape, sh': Shape, m: map<int, int>, m': map<int, int>, m'': map<int, int>)
    requires sh.layout == sh'.layout && sh.live == sh'.live
    requires SamePayloads(sh, m, m') && SamePayloads(sh', m', m'')
    ensures SamePayloads(sh, m, m'')
  {
  }

  /** The slab that serves the next request: the recent one if it has a free slot,
      otherwise the first of the list that has one. */
  ghost predicate Serves(sh: Shape, recent: int, s: int) {
    && s in sh.free && sh.free[s] != []
    && (s == recent
        || ((recent in sh.free ==> sh.free[recent] == [])
            && exists k :: 0 <= k < |sh.slabs| && sh.slabs[k] == s
                 && forall j :: 0 <= j < k ==> sh.slabs[j] in sh.free && sh.free[sh.slabs[j]] == []))
  }

  lemma Offsets(layout: Layout, i: nat)
    ensures layout.Offset(0) == 0 && layout.Offset(i + 1) == layout.Offset(i) + layout.RealObjSize()
  {
  }

  lemma EmptyPool(layout: Layout)
    requires layout.Valid()
    ensures Shape(layout, [], map[], map[]).Valid(map[]) && TotalFree([], map[]) == 0 && MaxOf([]) == 0
  {
  }

  class MemoryPool {
    const layout: Layout
    const realObjSize: nat
    const cacheSize: nat
    var slabNr: nat
    var objNr: nat
    var freeObjNr: nat
    var slabHead: int
    var recentSlab: int
    var mem: map<int, int>

    ghost var shape: Shape
    ghost var history: seq<nat>  // the number of live objects after each operation

    ghost predicate Valid()
      reads this
    {
      Sized() && Consistent() && Counted() && Peaked()
    }

    ghost predicate Sized()
      reads this
    {
      && shape.layout == layout && layout.Valid()
      && realObjSize == layout.RealObjSize()
      && cacheSize == layout.Offset(layout.objNum)
    }

    ghost predicate Consistent()
      reads this
    {
      && shape.Valid(mem)
      && slabHead == (if shape.slabs == [] then 0 else shape.slabs[0])
      && (recentSlab != 0 ==> recentSlab in shape.free)
    }

    ghost predicate Counted()
      reads this
    {
      CountsOf(shape, slabNr, objNr, freeObjNr)
    }

    /** What the counters say about the history. */
    ghost predicate Peaked()
      reads this
    {
      && |shape.live| <= MaxOf(history) <= objNr
      && (objNr > 0 ==> objNr - layout.objNum < MaxOf(history))
    }

    /** No slab has a free slot. */
    ghost predicate AllBusy()
      reads this
    {
      forall s :: s in shape.free ==> shape.free[s] == []
    }

    /** create_mem_pool */
    constructor (objNum: nat, objSize: nat)
      requires objNum > 0
      ensures Valid() && layout == Layout(objNum, RoundUp(objSize))
      ensures shape.slabs == [] && shape.live == map[] && history == []
      ensures slabNr == objNr == freeObjNr == 0
    {
      layout := Layout(objNum, RoundUp(objSize));
      realObjSize := RoundUp(objSize) + WORD;
      cacheSize := objNum * (RoundUp(objSize) + WORD);
      slabNr, objNr, freeObjNr, slabHead, recentSlab, mem := 0, 0, 0, 0, 0, map[];
      shape := Shape(Layout(objNum, RoundUp(objSize)), [], map[], map[]);
      history := [];
      new;
      hide Shape.Valid, TotalFree, MaxOf;
      layout.OffsetIsProduct(objNum);
      EmptyPool(layout);
    }

    /** set_freepointer: writes the link word of an object. */
    method SetFreePointer(obj: int, fp: int)
      requires obj + layout.objSize in mem && Aligned(obj + layout.objSize)
      modifies this`mem
      ensures mem == old(mem)[obj + layout.objSize := fp]
    {
      mem := mem[obj + layout.objSize := fp];
    }

    /** The loop of init_slab: each slot is linked to the place behind it (lines 58-60). */
    method LinkSlots(slab: int) returns (start: int)
      requires layout.Valid() && Aligned(slab)
      requires realObjSize == layout.RealObjSize() && cacheSize == layout.Offset(layout.objNum)
      requires forall x :: slab <= x < slab + layout.SlabSize() ==> x in mem
      modifies this`mem
      ensures mem.Keys == old(mem.Keys) && start == layout.Slot(slab, layout.objNum)
      ensures forall x :: x in mem && !(slab < x < slab + layout.SlabSize()) ==> mem[x] == old(mem[x])
      ensures forall i {:trigger layout.Link(slab, i)} :: 0 <= i < layout.objNum ==>
        layout.Link(slab, i) in mem && mem[layout.Link(slab, i)] == layout.Slot(slab, i + 1)
    {
      hide Layout.Valid, Layout.Offset;
      start := slab + HEADER;
      var end := slab + HEADER + cacheSize;
      Offsets(layout, 0);
      ghost var i := 0;
      while start < end
        invariant 0 <= i <= layout.objNum && start == layout.Slot(slab, i) && mem.Keys == old(mem.Keys)
        invariant forall x :: x in mem && !(slab < x < slab + layout.SlabSize()) ==> mem[x] == old(mem[x])
        invariant forall k {:trigger layout.Link(slab, k)} :: 0 <= k < i ==>
          layout.Link(slab, k) in mem && mem[layout.Link(slab, k)] == layout.Slot(slab, k + 1)
        decreases layout.objNum - i
      {
        layout.LinkFollows(slab, i);
        Offsets(layout, i);
        SetFreePointer(start, start + realObjSize);
        start := start + realObjSize;
        i := i + 1;
      }
      if i < layout.objNum {
        layout.OffsetsGrow(i, layout.objNum);
      }
    }

    /** init_slab: threads the free list through the slots of a block. */
    method InitSlab(slab: int)
      requires layout.Valid() && Aligned(slab)
      requires realObjSize == layout.RealObjSize() && cacheSize == layout.Offset(layout.objNum)
      requires forall x :: slab <= x < slab + layout.SlabSize() ==> x in mem
      modifies this`mem
      ensures mem.Keys == old(mem.Keys)
      ensures forall x :: x in mem && !(slab <= x < slab + layout.SlabSize()) ==> mem[x] == old(mem[x])
      ensures slab in mem && mem[slab] == layout.Slot(slab, 0)
      ensures forall i {:trigger layout.Link(slab, i)} :: 0 <= i < layout.objNum ==>
        layout.Link(slab, i) in mem
        && mem[layout.Link(slab, i)] == if i + 1 < layout.objNum then layout.Slot(slab, i + 1) else 0
    {
      layout.OffsetsGrow(0, layout.objNum);
      Offsets(layout, 0);
      mem := mem[slab := slab + HEADER];
      var start := LinkSlots(slab);
      hide Layout.Offset;
      layout.LinkFollows(slab, layout.objNum - 1);
      Offsets(layout, layout.objNum - 1);
      SetFreePointer(start - realObjSize, 0);
    }

    /** Obtains and initialises a block for a slab, and puts it before the others
        (lines 69-74); malloc returns the block at address at, with stale contents. */
    method NewBlock(at: int, stale: int -> int)
      requires Sized() && shape.Fresh(at) && slabHead == (if shape.slabs == [] then 0 else shape.slabs[0])
      modifies this`mem, this`slabHead
      ensures slabHead == at
      ensures old(mem).Keys <= mem.Keys
      ensures forall x :: x in old(mem) && !(at <= x < at + layout.SlabSize()) ==> mem[x] == old(mem)[x]
      ensures shape.FreshSlab(mem, at)
    {
      mem := mem + map x | at <= x < at + HEADER + cacheSize :: stale(x);
      layout.OffsetsGrow(0, layout.objNum);
      ghost var block := mem;
      InitSlab(at);
      forall i | 0 <= i < layout.objNum
        ensures at + WORD != layout.Link(at, i)
      {
        layout.LinkFollows(at, i);
      }
      mem := mem[at + WORD := slabHead];
      slabHead := at;
    }

    /** add_new_slab */
    method AddNewSlab(at: int, stale: int -> int) returns (slab: int)
      requires Sized() && Consistent() && Counted() && shape.Fresh(at)
      modifies this
      ensures slab == at && Sized() && Consistent() && Counted()
      ensures shape == old(shape).AddSlab(at) && objNr == old(objNr) + layout.objNum
      ensures history == old(history) && recentSlab == old(recentSlab)
      ensures SamePayloads(old(shape), old(mem), mem)
    {
      hide Shape.Valid, Shape.FreshSlab, Shape.Fresh, SamePayloads, CountsOf;
      NewBlock(at, stale);
      slab := at;
      slabNr := slabNr + 1;
      objNr := objNr + layout.objNum;
      freeObjNr := freeObjNr + layout.objNum;
      NewSlab(shape, old(mem), mem, at);
      NewSlabCounts(shape, at, old(slabNr), old(objNr), old(freeObjNr));
      shape := shape.AddSlab(at);
    }

    /** Takes the first free slot of a slab (lines 146-151). */
    method TakeSlot(slab: int) returns (obj: int)
      requires Sized() && Consistent() && Counted() && slab in shape.free && shape.free[slab] != []
      modifies this`mem, this`freeObjNr, this`shape
      ensures Sized() && Consistent() && Counted()
      ensures shape == old(shape).Pop(slab) && obj == layout.Slot(slab, old(shape.free[slab][0]))
      ensures obj !in old(shape).live && SamePayloads(old(shape), old(mem), mem)
    {
      hide Shape.Valid, TotalFree, SamePayloads;
      SlabsListed();
      obj := ReadSlot(slab);
      var next := mem[obj + layout.objSize];
      PopMemory(shape, mem, mem[slab := next][obj + layout.objSize := slab], slab);
      mem := mem[slab := next];
      SetFreePointer(obj, slab);
      PopCounts(shape, slab);
      PopLive(shape, slab);
      freeObjNr := freeObjNr - 1;
      shape := shape.Pop(slab);
    }

    /** The first free slot of a slab, and where its link word is. */
    method ReadSlot(slab: int) returns (obj: int)
      requires Sized() && Consistent() && slab in shape.free && shape.free[slab] != []
      ensures slab in mem && obj == mem[slab] == layout.Slot(slab, shape.free[slab][0])
      ensures obj + layout.objSize in mem && Aligned(obj + layout.objSize)
      ensures mem[obj + layout.objSize] == shape.Head(slab, shape.free[slab][1..])
    {
      hide Shape.Valid, Shape.Head, Layout.Valid;
      SlotFacts(shape, mem, slab);
      obj := mem[slab];
    }

    /** A slab's free pointer is null exactly if its free list is empty. */
    lemma FreePointer(s: int)
      requires Sized() && Consistent() && s in shape.free
      ensures s != 0 && s in mem && (mem[s] != 0 <==> shape.free[s] != [])
    {
    }

    lemma NextPointer(k: nat)
      requires Sized() && Consistent() && k < |shape.slabs|
      ensures shape.slabs[k] + WORD in mem && mem[shape.slabs[k] + WORD] == shape.NextSlab(k)
      ensures shape.NextSlab(k) == 0 <==> k + 1 == |shape.slabs|
    {
    }

    /** Walks the list of slabs to the first one with a free slot; 0 if there is none
        (lines 135-142). */
    method FindSlab() returns (found: int)
      requires Sized() && Consistent()
      requires recentSlab in shape.free ==> shape.free[recentSlab] == []
      modifies this`recentSlab
      ensures found == 0 ==> AllBusy() && recentSlab == old(recentSlab)
      ensures found != 0 ==> Serves(old(shape), old(recentSlab), found) && recentSlab == found
    {
      hide Shape.Valid;
      found := slabHead;
      ghost var k := 0;
      SlabsListed();
      while found != 0
        invariant 0 <= k <= |shape.slabs|
        invariant found == if k < |shape.slabs| then shape.slabs[k] else 0
        invariant recentSlab == old(recentSlab)
        invariant forall j :: 0 <= j < k ==> shape.slabs[j] in shape.free && shape.free[shape.slabs[j]] == []
        decreases |shape.slabs| - k
      {
        FreePointer(found);
        if mem[found] != 0 {
          recentSlab := found;
          return;
        }
        NextPointer(k);
        found := mem[found + WORD];
        k := k + 1;
      }
    }

    lemma SlabsListed()
      requires Sized() && Consistent()
      ensures SlabsDistinct(shape) && 0 !in shape.free
      ensures forall k :: 0 <= k < |shape.slabs| ==> shape.slabs[k] != 0
    {
    }

    lemma BusyMeansNoneFree()
      requires Sized() && Consistent() && Counted()
      ensures AllBusy() <==> freeObjNr == 0
      ensures forall s :: s in shape.free && shape.free[s] != [] ==> freeObjNr > 0
    {
      hide Shape.Valid;
      SlabsListed();
      if AllBusy() {
        TotalFreeEmpty(shape.slabs, shape.free);
      }
      forall s | s in shape.free && shape.free[s] != []
        ensures freeObjNr > 0
      {
        TotalFreeUpdate(shape.slabs, shape.free, s, shape.free[s][1..]);
      }
    }

    /** Finds the slab to take a slot from; if every slot is taken, malloc supplies a block
        at address at (lines 130-144). */
    method PickSlab(at: int, stale: int -> int) returns (found: int)
      requires Valid() && (AllBusy() ==> shape.Fresh(at))
      modifies this
      ensures Sized() && Consistent() && Counted() && history == old(history)
      ensures found in shape.free && shape.free[found] != []
      ensures old(AllBusy()) ==>
        shape == old(shape).AddSlab(at) && found == at && objNr == old(objNr) + layout.objNum
        && recentSlab == old(recentSlab)
      ensures !old(AllBusy()) ==>
        shape == old(shape) && Serves(old(shape), old(recentSlab), found) && objNr == old(objNr)
        && recentSlab == found
      ensures SamePayloads(old(shape), old(mem), mem)
    {
      hide Shape.Valid, TotalFree, MaxOf;
      SlabsListed();
      found := recentSlab;
      if recentSlab != 0 {
        FreePointer(recentSlab);
      }
      if recentSlab == 0 || mem[recentSlab] == 0 {
        found := FindSlab();
        if found == 0 {
          found := AddNewSlab(at, stale);
          AscendingAt(layout.objNum, 0);
        }
      }
    }

    /** mem_pool_alloc */
    method Alloc(at: int, stale: int -> int) returns (obj: int)
      requires Valid() && (AllBusy() ==> shape.Fresh(at))
      modifies this
      ensures Valid() && obj !in old(shape).live
      ensures old(AllBusy()) ==>
        shape == old(shape).AddSlab(at).Pop(at) && obj == layout.Slot(at, 0) && recentSlab == old(recentSlab)
      ensures !old(AllBusy()) ==>
        && Serves(old(shape), old(recentSlab), recentSlab)
        && shape == old(shape).Pop(recentSlab) && obj == layout.Slot(recentSlab, old(shape).free[recentSlab][0])
      ensures history == old(history) + [|shape.live|]
      ensures SamePayloads(old(shape), old(mem), mem)
    {
      hide Shape.Valid, TotalFree, MaxOf, SamePayloads;
      BusyMeansNoneFree();
      var found := PickSlab(at, stale);
      ghost var before, m := shape, mem;
      obj := TakeSlot(found);
      PopLive(before, found);
      PayloadsTrans(old(shape), before, old(mem), m, mem);
      history := history + [|shape.live|];
      PeakStep(old(objNr), objNr, layout.objNum, |before.live|, old(history));
    }

    /** The link word of a live object names its slab. */
    method OwnerOf(obj: int) returns (slab: int)
      requires Sized() && Consistent() && obj in shape.live
      ensures obj + layout.objSize in mem && Aligned(obj + layout.objSize)
      ensures slab == mem[obj + layout.objSize] == shape.live[obj].slab
      ensures slab in shape.free && slab in mem && mem[slab] == shape.Head(slab, shape.free[slab])
    {
      hide Shape.Valid, Shape.Head, Layout.Valid;
      OwnerFacts(shape, mem, obj);
      slab := mem[obj + layout.objSize];
    }

    /** mem_pool_free */
    method Free(obj: int)
      requires Valid() && obj in shape.live
      modifies this
      ensures Valid() && shape == old(shape).Push(obj) && recentSlab == old(recentSlab)
      ensures history == old(history) + [|shape.live|]
      ensures SamePayloads(shape, old(mem), mem)
    {
      hide Shape.Valid, TotalFree, MaxOf, SamePayloads;
      SlabsListed();
      var slab := OwnerOf(obj);
      PushMemory(shape, mem, mem[obj + layout.objSize := mem[slab]][slab := obj], obj);
      PushCounts(shape, obj);
      SetFreePointer(obj, mem[slab]);
      mem := mem[slab := obj];
      freeObjNr := freeObjNr + 1;
      shape := shape.Push(obj);
      history := history + [|shape.live|];
      MaxOfGrows(old(history), |shape.live|);
    }

    /** The owner of a live object writes a word of its payload. */
    method WritePayload(obj: int, a: int, v: int)
      requires Valid() && obj in shape.live && obj <= a < obj + layout.objSize && Aligned(a)
      modifies this`mem
      ensures Valid() && mem == old(mem)[a := v]
    {
      hide Shape.Valid;
      shape.PayloadKeeps(mem, mem[a := v], obj, a);
      mem := mem[a := v];
    }

    /** destroy_mem_pool: frees every slab once, reading the next one before. */
    method Destroy() returns (freed: seq<int>)
      requires Valid()
      modifies this`slabHead
      ensures freed == shape.slabs && slabHead == 0
    {
      hide Shape.Valid;
      SlabsListed();
      var slab := slabHead;
      freed := [];
      while slab != 0
        invariant |freed| <= |shape.slabs| && freed == shape.slabs[..|freed|]
        invariant slab == slabHead == if |freed| < |shape.slabs| then shape.slabs[|freed|] else 0
        decreases |shape.slabs| - |freed|
      {
        NextInChain(|freed|);
        slabHead := mem[slab + WORD];
        freed := freed + [slab];
        slab := slabHead;
      }
    }

    lemma NextInChain(k: nat)
      requires Sized() && shape.Valid(mem) && k < |shape.slabs|
      ensures shape.slabs[k] + WORD in mem && mem[shape.slabs[k] + WORD] == shape.NextSlab(k)
    {
    }

    /** The number of slabs is decided by the peak number of live objects alone. */
    lemma SlabsMatchPeak()
      requires Valid()
      ensures slabNr == CeilDiv(MaxOf(history), layout.objNum)
      ensures objNr == slabNr * layout.objNum && freeObjNr == objNr - |shape.live|
    {
      hide Shape.Valid, TotalFree, MaxOf;
      if slabNr > 0 {
        SlabsTimes(slabNr, layout.objNum);
      }
      CeilDivIs(slabNr, MaxOf(history), layout.objNum);
    }
  }

  lemma SlabsTimes(k: nat, n: nat)
    requires k > 0
    ensures k * n == (k - 1) * n + n
  {
  }

  lemma PushMemory(sh: Shape, m: map<int, int>, r: map<int, int>, o: int)
    requires sh.Valid(m) && o in sh.live && sh.live[o].slab in sh.free
    requires r == m[o + sh.layout.objSize := sh.Head(sh.live[o].slab, sh.free[sh.live[o].slab])][sh.live[o].slab := o]
    ensures sh.Push(o).Valid(r) && SamePayloads(sh.Push(o), m, r)
  {
    hide Shape.Heads, Shape.FreeLinks, Shape.Owners, Shape.Chain, Shape.Mapped;
    sh.LiveLink(o);
    var s, i := sh.live[o].slab, sh.live[o].i;
    sh.LinkApart(s, i);
    sh.PushLinks(m, r, o);
    TwoWritesKeepPayloads(sh, m, r, s, i);
  }

  /** What a slab's free pointer and the link word of its first free slot hold. */
  ghost predicate FirstSlot(sh: Shape, m: map<int, int>, s: int)
    requires s in sh.free && sh.free[s] != []
  {
    var o := sh.layout.Slot(s, sh.free[s][0]);
    && s in m && m[s] == o && o + sh.layout.objSize in m && Aligned(o + sh.layout.objSize)
    && m[o + sh.layout.objSize] == sh.Head(s, sh.free[s][1..])
  }

  lemma SlotFacts(sh: Shape, m: map<int, int>, s: int)
    requires sh.Valid(m) && s in sh.free && sh.free[s] != []
    ensures FirstSlot(sh, m, s)
  {
    hide Shape.Chain, Shape.Owners, Shape.Mapped, Layout.Apart, Aligned;
    sh.LinkAligned(s, sh.free[s][0]);
    assert sh.Threaded(m, s, sh.free[s]);
    assert sh.free[s][0 + 1..] == sh.free[s][1..];
  }

  /** What a live object's link word and its slab's free pointer hold. */
  lemma OwnerFacts(sh: Shape, m: map<int, int>, o: int)
    requires sh.Valid(m) && o in sh.live
    ensures o + sh.layout.objSize in m && Aligned(o + sh.layout.objSize)
    ensures m[o + sh.layout.objSize] == sh.live[o].slab
    ensures var s := sh.live[o].slab; s in sh.free && s in m && m[s] == sh.Head(s, sh.free[s])
  {
    hide Shape.Chain, Shape.FreeLinks, Shape.Mapped, Shape.Head, Layout.Link, Layout.Apart, Aligned;
    sh.LiveLink(o);
    sh.LinkAligned(sh.live[o].slab, sh.live[o].i);
  }

  /** Releasing the object just allocated restores every free list and the live objects. */
  lemma FreeUndoesAlloc(sh: Shape, s: int)
    requires sh.WellPlaced() && sh.Partition() && s in sh.free && sh.free[s] != []
    ensures var o := sh.layout.Slot(s, sh.free[s][0]); o in sh.Pop(s).live && sh.Pop(s).Push(o) == sh
  {
    sh.PopPartition(s);
    hide Shape.WellPlaced, Shape.Partition, Layout.Slot;
    var o := sh.layout.Slot(s, sh.free[s][0]);
    assert [sh.free[s][0]] + sh.free[s][1..] == sh.free[s];
    assert sh.Pop(s).Push(o).free == sh.free;
    assert sh.Pop(s).Push(o).live == sh.live;
  }

  /** Allocating from the slab of the object just released gives that object again. */
  lemma AllocUndoesFree(sh: Shape, o: int)
    requires sh.Partition() && o in sh.live
    ensures var s := sh.live[o].slab;
      && s in sh.free && sh.Push(o).free[s] != []
      && sh.layout.Slot(s, sh.Push(o).free[s][0]) == o && sh.Push(o).Pop(s) == sh
  {
    LivePlace(sh, o);
    hide Shape.Partition, Layout.Slot;
    var p := sh.live[o];
    assert ([p.i] + sh.free[p.slab])[1..] == sh.free[p.slab];
    assert sh.Push(o).Pop(p.slab).free == sh.free;
    assert sh.Push(o).Pop(p.slab).live == sh.live;
  }

  lemma LivePlace(sh: Shape, o: int)
    requires sh.Partition() && o in sh.live
    ensures sh.live[o].slab in sh.free && o == sh.layout.Slot(sh.live[o].slab, sh.live[o].i)
  {
  }
}

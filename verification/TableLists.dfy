/** The list of tables and its lookup by name. */
module TableLists {
  import opened Wrappers
  import opened CStrings
  import opened Tables

  /** The first table of a name, ignoring case. */
  function Find(ts: seq<Content>, name: string): (r: Option<nat>)
    ensures r.Some? ==> r.value < |ts| && EqIgnoreCase(ts[r.value].name, name)
    ensures r.Some? ==> forall i :: 0 <= i < r.value ==> !EqIgnoreCase(ts[i].name, name)
    ensures r.None? ==> forall i :: 0 <= i < |ts| ==> !EqIgnoreCase(ts[i].name, name)
  {
    FindFrom(ts, name, 0)
  }

  function FindFrom(ts: seq<Content>, name: string, i: nat): (r: Option<nat>)
    requires i <= |ts|
    ensures r.Some? ==> i <= r.value < |ts| && EqIgnoreCase(ts[r.value].name, name)
    ensures r.Some? ==> forall j :: i <= j < r.value ==> !EqIgnoreCase(ts[j].name, name)
    ensures r.None? ==> forall j :: i <= j < |ts| ==> !EqIgnoreCase(ts[j].name, name)
    decreases |ts| - i
  {
    if i == |ts| then None
    else if EqIgnoreCase(ts[i].name, name) then Some(i)
    else FindFrom(ts, name, i + 1)
  }

  /** No two tables have the same name, ignoring case. */
  ghost predicate NamesDistinct(ts: seq<Content>) {
    forall i, j :: 0 <= i < j < |ts| ==> !EqIgnoreCase(ts[i].name, ts[j].name)
  }

  /** With distinct names, any table of a name is the one a scan finds. */
  lemma FoundAnywhere(ts: seq<Content>, name: string, i: nat)
    requires NamesDistinct(ts) && i < |ts| && EqIgnoreCase(ts[i].name, name)
    ensures Find(ts, name) == Some(i)
  {
  }

  /** The list with a table of that name, and where it is. */
  function WithTable(ts: seq<Content>, name: string): (r: (seq<Content>, nat))
    ensures r.1 < |r.0| && EqIgnoreCase(r.0[r.1].name, name) && ts <= r.0
  {
    match Find(ts, name)
    case Some(i) => (ts, i)
    case None => (ts + [Fresh(name)], |ts|)
  }

  lemma WithTableDistinct(ts: seq<Content>, name: string)
    requires NamesDistinct(ts)
    ensures NamesDistinct(WithTable(ts, name).0)
    ensures Find(WithTable(ts, name).0, name) == Some(WithTable(ts, name).1)
  {
  }

  /** The list after a run of requests for tables of these names. */
  function AfterAll(ts: seq<Content>, names: seq<string>): seq<Content> {
    if names == [] then ts else WithTable(AfterAll(ts, names[..|names| - 1]), names[|names| - 1]).0
  }

  lemma {:induction false} AfterAllDistinct(ts: seq<Content>, names: seq<string>)
    requires NamesDistinct(ts)
    ensures NamesDistinct(AfterAll(ts, names))
  {
    if names != [] {
      AfterAllDistinct(ts, names[..|names| - 1]);
      WithTableDistinct(AfterAll(ts, names[..|names| - 1]), names[|names| - 1]);
    }
  }

  lemma {:induction false} AfterAllGrows(ts: seq<Content>, names: seq<string>, k: nat)
    requires k <= |names|
    ensures AfterAll(ts, names[..k]) <= AfterAll(ts, names)
    decreases |names|
  {
    if k == |names| {
      assert names[..k] == names;
    } else {
      var prefix := names[..|names| - 1];
      AfterAllGrows(ts, prefix, k);
      assert prefix[..k] == names[..k];
    }
  }

  /** Over any run of requests names stay distinct, and a table once there keeps its place
      and is the one found by its name ever after. */
  lemma PlacesAreKept(ts: seq<Content>, names: seq<string>, k: nat, i: nat)
    requires NamesDistinct(ts) && k <= |names| && i < |AfterAll(ts, names[..k])|
    ensures NamesDistinct(AfterAll(ts, names))
    ensures AfterAll(ts, names[..k]) <= AfterAll(ts, names)
    ensures Find(AfterAll(ts, names), AfterAll(ts, names[..k])[i].name) == Some(i)
  {
    AfterAllDistinct(ts, names);
    AfterAllGrows(ts, names, k);
    FoundAnywhere(AfterAll(ts, names), AfterAll(ts, names[..k])[i].name, i);
  }

  ghost function Contents(ts: seq<Table>): (r: seq<Content>)
    reads ts
    ensures |r| == |ts| && forall i :: 0 <= i < |ts| ==> r[i] == ts[i].View()
  {
    seq(|ts|, i requires 0 <= i < |ts| reads ts => ts[i].View())
  }

  class TableList {
    var tables: seq<Table>
    var posCache: nat  // shared by all lists, so any number

    ghost predicate Valid()
      reads this, tables
    {
      && (forall i, j :: 0 <= i < j < |tables| ==> tables[i] != tables[j])
      && NamesDistinct(Contents(tables))
    }

    ghost function View(): seq<Content>
      reads this, tables
    {
      Contents(tables)
    }

    constructor (posCache: nat)
      ensures Valid() && tables == [] && this.posCache == posCache
    {
      tables := [];
      this.posCache := posCache;
    }

    /** The lookup, by the remembered position and then by a scan (lines 310-319). */
    method Lookup(name: string) returns (r: Option<nat>)
      requires Valid()
      modifies this`posCache
      ensures r == Find(View(), name)
    {
      if posCache < |tables| && EqIgnoreCase(tables[posCache].name, name) {
        FoundAnywhere(View(), name, posCache);
        return Some(posCache);
      }
      for i := 0 to |tables|
        invariant forall j :: 0 <= j < i ==> !EqIgnoreCase(View()[j].name, name)
      {
        if EqIgnoreCase(tables[i].name, name) {
          posCache := i;
          FoundAnywhere(View(), name, i);
          return Some(i);
        }
      }
      r := None;
    }

    /** The loop that is meant to shift tables up to the place of a new one (lines 325-332):
        it assigns the same slot, the new one, each time. */
    method Shift(i: nat, name: string)
      requires |tables| == i + 1 && (forall j :: 0 <= j < i ==> tables[j] != tables[i])
      modifies tables[i]
    {
      if i > 0 {
        var inspos := i - 1;
        while inspos > 0 && Greater(tables[inspos].name, name)
          invariant inspos <= i - 1
        {
          tables[i].Assign(tables[i - 1]);
          inspos := inspos - 1;
        }
      }
    }

    /** Appends a table (lines 322-339); whatever the loop left in the new slot is
        initialised afterwards. */
    method Append(name: string) returns (i: nat)
      requires Valid() && Find(View(), name) == None
      modifies this
      ensures Valid() && i == |old(tables)|
      ensures |tables| == i + 1 && tables[..i] == old(tables) && fresh(tables[i])
      ensures View() == old(View()) + [Fresh(name)]
    {
      i := |tables|;
      ghost var before := View();
      var slot := new Table();
      tables := tables + [slot];
      Shift(i, name);
      tables[i].Init();
      tables[i].name := name;
      posCache := i;
      assert forall j :: 0 <= j < i ==> tables[j] == old(tables)[j] && tables[j].View() == before[j];
      assert View() == before + [Fresh(name)];
      WithTableDistinct(before, name);
    }

    /** oris_get_or_create_table: the index of the table with a name, ignoring case. A table
        that is created comes last; the others keep their places and contents. */
    method GetOrCreate(name: Option<string>, create: bool) returns (r: Option<nat>)
      requires Valid()
      modifies this
      ensures Valid()
      ensures name == None ==> r == None && tables == old(tables)
      ensures name.Some? && Find(old(View()), name.value).Some? ==>
        r == Find(old(View()), name.value) && tables == old(tables)
      ensures name.Some? && Find(old(View()), name.value).None? && !create ==> r == None && tables == old(tables)
      ensures name.Some? && Find(old(View()), name.value).None? && create ==>
        && r == Some(|old(tables)|) && |tables| == |old(tables)| + 1
        && tables[..|old(tables)|] == old(tables) && fresh(tables[|old(tables)|])
      ensures name.Some? && create ==>
        View() == WithTable(old(View()), name.value).0 && r == Some(WithTable(old(View()), name.value).1)
      ensures !create ==> View() == old(View())
    {
      if name == None {
        return None;
      }
      r := Lookup(name.value);
      if r.None? && create {
        var i := Append(name.value);
        r := Some(i);
      }
    }

    /** The table with a name, created if there is none. */
    method TableNamed(name: string) returns (tbl: Table, ghost i: nat)
      requires Valid()
      modifies this
      ensures Valid() && i < |tables| && tbl == tables[i]
      ensures View() == WithTable(old(View()), name).0 && i == WithTable(old(View()), name).1
      ensures forall k :: 0 <= k < |tables| ==> tables[k] in old(tables) || fresh(tables[k])
    {
      var r := GetOrCreate(Some(name), true);
      tbl := tables[r.value];
      i := r.value;
    }

    /** Changing one table of the list changes this table only. */
    twostate lemma OnlyOneChanged(i: nat)
      requires old(Valid()) && i < |tables| && tables == old(tables)
      requires forall k :: 0 <= k < |tables| && k != i ==> tables[k].View() == old(tables[k].View())
      requires tables[i].name == old(tables[i].name)
      ensures Valid() && View() == old(View())[i := tables[i].View()]
    {
    }
  }
}

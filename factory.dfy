/**
 The keyed registry `Factory<T, TArgs...>`: a table from C-string keys to creation
 functions, ordered by `cmp_cstr`, where the first registration of a key wins.

 The table is a `std::map` with comparator `cmp_cstr`. It is modelled by its in-order
 sequence of entries, which is strictly increasing in the key order; `Table()` gives
 the same table as a Dafny `map`. A creation function takes the constructor arguments
 (the tuple type `Args`, standing for `TArgs...`) and returns the created instance of
 the base type `T`. Each instantiation of the template owns exactly one process-wide
 table, so one `Factory` object stands for the single static registry of one
 instantiation in one run; registries of different instantiations are independent.
 */
module Factories {

  import opened Wrappers
  import opened CStrings

  /** One element of the map: a key and the creation function registered under it. */
  datatype Entry<!Args, T> = Entry(name: CStr, create: Args -> T)

  /** The in-order view of a map ordered by `cmp_cstr`: keys strictly increase. */
  ghost predicate Sorted<Args, T>(es: seq<Entry<Args, T>>)
  {
    forall i, j :: 0 <= i < j < |es| ==> Less(es[i].name, es[j].name)
  }

  /** The table a run of entries stands for. */
  function TableOf<Args, T>(es: seq<Entry<Args, T>>): map<CStr, Args -> T>
  {
    if es == [] then map[] else TableOf(es[1..])[es[0].name := es[0].create]
  }

  /** Every entry's key is in the table, and every key of the table is some entry's key. */
  lemma {:induction false} TableOfKeys<Args, T>(es: seq<Entry<Args, T>>)
    ensures forall i :: 0 <= i < |es| ==> es[i].name in TableOf(es)
    ensures forall k :: k in TableOf(es) ==> exists i :: 0 <= i < |es| && es[i].name == k
  {
    if es != [] {
      TableOfKeys(es[1..]);
      forall k | k in TableOf(es) ensures exists i :: 0 <= i < |es| && es[i].name == k {
        if k != es[0].name {
          var i :| 0 <= i < |es[1..]| && es[1..][i].name == k;
          assert es[i + 1].name == k;
        }
      }
    }
  }

  /**
   For strictly increasing keys the entries hold exactly the table: each entry's
   function is the one stored under its key, and there are as many entries as keys.
   */
  lemma {:induction false} TableOfSorted<Args, T>(es: seq<Entry<Args, T>>)
    requires Sorted(es)
    ensures forall i :: 0 <= i < |es| ==> es[i].name in TableOf(es) && TableOf(es)[es[i].name] == es[i].create
    ensures |TableOf(es)| == |es|
  {
    TableOfKeys(es);
    if es != [] {
      TableOfSorted(es[1..]);
      TableOfKeys(es[1..]);
      LessIrreflexive(es[0].name);
      assert es[0].name !in TableOf(es[1..]);
    }
  }

  /** A key ordering before every entry orders before every key of the table. */
  lemma KeysAbove<Args, T>(es: seq<Entry<Args, T>>, lo: CStr)
    requires forall i :: 0 <= i < |es| ==> Less(lo, es[i].name)
    ensures forall k :: k in TableOf(es) ==> Less(lo, k)
  {
    TableOfKeys(es);
  }

  /** Everything strictly after `mid` orders after a key that orders before `es[mid]`. */
  lemma AboveIsGreater<Args, T>(es: seq<Entry<Args, T>>, name: CStr, mid: nat)
    requires Sorted(es) && mid < |es| && Less(name, es[mid].name)
    ensures forall j :: mid <= j < |es| ==> Less(name, es[j].name)
  {
    forall j | mid < j < |es| ensures Less(name, es[j].name) {
      LessTransitive(name, es[mid].name, es[j].name);
    }
  }

  /** Everything strictly before `mid` orders before a key that orders after `es[mid]`. */
  lemma BelowIsSmaller<Args, T>(es: seq<Entry<Args, T>>, name: CStr, mid: nat)
    requires Sorted(es) && mid < |es| && Less(es[mid].name, name)
    ensures forall j :: 0 <= j <= mid ==> Less(es[j].name, name)
  {
    forall j | 0 <= j < mid ensures Less(es[j].name, name) {
      LessTransitive(es[j].name, es[mid].name, name);
    }
  }

  /**
   `std::map::find` with comparator `cmp_cstr`: descends by comparing the key with the
   middle entry and reports the position of the entry whose key is equivalent to
   `name` (neither orders before the other), or `None` for `end()`.
   */
  function Find<Args, T>(es: seq<Entry<Args, T>>, name: CStr): (r: Option<nat>)
    requires Sorted(es)
    ensures r.Some? ==> r.value < |es| && es[r.value].name == name
    ensures r.None? ==> forall i :: 0 <= i < |es| ==> es[i].name != name
    decreases |es|
  {
    if es == [] then None
    else
      var mid := |es| / 2;
      if Less(name, es[mid].name) then
        AboveIsGreater(es, name, mid);
        Find(es[..mid], name)
      else if Less(es[mid].name, name) then
        BelowIsSmaller(es, name, mid);
        match Find(es[mid + 1..], name)
        case None => None
        case Some(j) => Some(mid + 1 + j)
      else
        LessConnected(name, es[mid].name);
        Some(mid)
  }

  /**
   The insertion `operator[]` performs on a key that is not in the map: the new entry
   goes where the key order puts it, and the map then holds `name` with `create`.
   */
  function Insert<Args, T>(es: seq<Entry<Args, T>>, name: CStr, create: Args -> T): (r: seq<Entry<Args, T>>)
    requires Sorted(es) && name !in TableOf(es)
    ensures Sorted(r)
    ensures |r| == |es| + 1
    ensures TableOf(r) == TableOf(es)[name := create]
    decreases |es|
  {
    if es == [] then
      [Entry(name, create)]
    else if Less(name, es[0].name) then
      AboveIsGreater(es, name, 0);
      assert ([Entry(name, create)] + es)[1..] == es;
      [Entry(name, create)] + es
    else
      var rest := Insert(es[1..], name, create);
      InsertBehindHead(es, name, create, rest);
      [es[0]] + rest
  }

  /**
   The step of `Insert` that keeps the first entry in front: once the rest holds the
   new key, putting the first entry back keeps the keys increasing and the table right.
   */
  lemma InsertBehindHead<Args, T>(es: seq<Entry<Args, T>>, name: CStr, create: Args -> T, rest: seq<Entry<Args, T>>)
    requires Sorted(es) && es != [] && name !in TableOf(es) && !Less(name, es[0].name)
    requires Sorted(rest) && TableOf(rest) == TableOf(es[1..])[name := create]
    ensures Sorted([es[0]] + rest)
    ensures TableOf([es[0]] + rest) == TableOf(es)[name := create]
  {
    var head := es[0];
    var r := [head] + rest;
    assert r[1..] == rest;
    assert head.name != name;
    LessConnected(name, head.name);
    forall i | 0 <= i < |es[1..]| ensures Less(head.name, es[1..][i].name) {
      assert es[1..][i] == es[i + 1];
    }
    KeysAbove(es[1..], head.name);
    TableOfKeys(rest);
    forall i, j | 0 <= i < j < |r| ensures Less(r[i].name, r[j].name) {
      assert r[j] == rest[j - 1];
      if i == 0 {
        assert rest[j - 1].name in TableOf(rest);
      } else {
        assert r[i] == rest[i - 1];
      }
    }
    calc {
      TableOf(r);
      TableOf(rest)[head.name := head.create];
      TableOf(es[1..])[name := create][head.name := head.create];
      TableOf(es[1..])[head.name := head.create][name := create];
      TableOf(es)[name := create];
    }
  }

  /**
   One registry: the table of a single `Factory<T, TArgs...>` instantiation. The
   lazily built static map of the source is the field `entries`, empty at the start.
   */
  class Factory<Args, T> {

    /** The map's entries in iteration order. */
    var entries: seq<Entry<Args, T>>

    /** The map's ordering invariant: keys strictly increase under `cmp_cstr`. */
    ghost predicate Valid()
      reads this
    {
      Sorted(entries)
    }

    /** The registry as a table from key to creation function. */
    function Table(): map<CStr, Args -> T>
      reads this
    {
      TableOf(entries)
    }

    /** The map exists, empty, before any registration. */
    constructor ()
      ensures Valid() && entries == [] && Table() == map[]
    {
      entries := [];
    }

    /**
     `Register`: a key that is not yet in the table is stored with `create` and the
     call returns true; a key already present leaves the whole table as it was and the
     call returns false. No other key's entry changes either way.
     */
    method Register(name: CStr, create: Args -> T) returns (added: bool)
      requires Valid()
      modifies this
      ensures Valid()
      ensures added <==> name !in old(Table())
      ensures added ==> Table() == old(Table())[name := create]
      ensures added ==> |Table()| == |old(Table())| + 1
      ensures !added ==> entries == old(entries)
      ensures added ==> forall args :: Create(name, args) == Some(create(args))
      ensures !added ==> forall args :: Create(name, args) == Some(old(Table())[name](args))
    {
      TableOfKeys(entries);
      var found := Find(entries, name);
      if found.None? {
        entries := Insert(entries, name, create);
        added := true;
        TableOfSorted(entries);
      } else {
        added := false;
      }
    }

    /** `GetCount`: the number of keys in the table. */
    function GetCount(): (n: nat)
      reads this
      requires Valid()
      ensures n == |Table()|
    {
      TableOfSorted(entries);
      |entries|
    }

    /** `IsRegistered`: whether the table holds an entry for `name`. */
    function IsRegistered(name: CStr): (r: bool)
      reads this
      requires Valid()
      ensures r <==> name in Table()
    {
      TableOfKeys(entries);
      Find(entries, name).Some?
    }

    /**
     `Create`: the function stored under `name` applied to `args`, or `None` (the null
     pointer) when no entry has that key.
     */
    function Create(name: CStr, args: Args): (r: Option<T>)
      reads this
      requires Valid()
      ensures name in Table() ==> r == Some(Table()[name](args))
      ensures name !in Table() ==> r == None
    {
      TableOfKeys(entries);
      TableOfSorted(entries);
      match Find(entries, name)
      case Some(i) => Some(entries[i].create(args))
      case None => None
    }

    /**
     `GetNameByIndex`: the key at position `index` of the map's ascending key order, or
     `None` (the null pointer) when `index` is not below `GetCount()`. The key returned
     is registered and has exactly `index` registered keys ordering before it.
     */
    function GetNameByIndex(index: nat): (r: Option<CStr>)
      reads this
      requires Valid()
      ensures r.None? <==> index >= GetCount()
      ensures r.Some? ==> r.value in Table()
      ensures r.Some? ==> |set k | k in Table() && Less(k, r.value)| == index
    {
      if index >= |entries| then None
      else
        TableOfKeys(entries);
        KeysBefore(entries, index);
        Some(entries[index].name)
    }
  }

  /** Successive indices give strictly increasing keys. */
  lemma GetNameByIndexIncreasing<Args, T>(f: Factory<Args, T>, i: nat, j: nat)
    requires f.Valid() && i < j < f.GetCount()
    ensures f.GetNameByIndex(i).Some? && f.GetNameByIndex(j).Some?
    ensures Less(f.GetNameByIndex(i).value, f.GetNameByIndex(j).value)
  {
  }

  /** Enumeration by index reaches every registered key. */
  lemma GetNameByIndexComplete<Args, T>(f: Factory<Args, T>, k: CStr)
    requires f.Valid() && f.IsRegistered(k)
    ensures exists i :: 0 <= i < f.GetCount() && f.GetNameByIndex(i) == Some(k)
  {
    TableOfKeys(f.entries);
    var i :| 0 <= i < |f.entries| && f.entries[i].name == k;
    assert f.GetNameByIndex(i) == Some(k);
  }

  /** The registered keys ordering before the `i`-th are the keys of the first `i` entries. */
  lemma KeysBefore<Args, T>(es: seq<Entry<Args, T>>, i: nat)
    requires Sorted(es) && i < |es|
    ensures |set k | k in TableOf(es) && Less(k, es[i].name)| == i
  {
    TableOfKeys(es);
    var below := set k | k in TableOf(es) && Less(k, es[i].name);
    var prefix := PrefixNames(es, i);
    forall k | k in below ensures k in prefix {
      var j :| 0 <= j < |es| && es[j].name == k;
      if j == i {
        LessIrreflexive(k);
      } else if j > i {
        LessAsymmetric(es[i].name, es[j].name);
      }
    }
    forall k | k in prefix ensures k in below {
      var j :| 0 <= j < i && es[j].name == k;
      assert es[j].name in TableOf(es);
    }
    assert below == prefix;
    PrefixNamesCount(es, i);
  }

  /** The set of the keys of the first `i` entries. */
  ghost function PrefixNames<Args, T>(es: seq<Entry<Args, T>>, i: nat): set<CStr>
    requires i <= |es|
  {
    set j | 0 <= j < i :: es[j].name
  }

  /** Distinct keys: the first `i` entries have `i` different keys. */
  lemma {:induction false} PrefixNamesCount<Args, T>(es: seq<Entry<Args, T>>, i: nat)
    requires Sorted(es) && i <= |es|
    ensures |PrefixNames(es, i)| == i
  {
    if i > 0 {
      PrefixNamesCount(es, i - 1);
      assert PrefixNames(es, i) == PrefixNames(es, i - 1) + {es[i - 1].name};
      forall j | 0 <= j < i - 1 ensures es[j].name != es[i - 1].name {
        LessIrreflexive(es[j].name);
      }
    }
  }
}

/**
 * The fake variable store of libeos-payg/efi.c: a table of 200 slots with holes, searched
 * from the front, used as a map from full names to contents.
 */
module EfiStore {
  import opened Integers
  import opened Wrappers

  const FAKE_VAR_COUNT: nat := 200

  datatype Slot = Free | Taken(name: string, content: seq<byte>)

  predicate Holds(slots: seq<Slot>, i: int, name: string) {
    0 <= i < |slots| && slots[i].Taken? && slots[i].name == name
  }

  /** No name is stored twice. */
  predicate Unique(slots: seq<Slot>) {
    forall i, j :: 0 <= i < j < |slots| && slots[i].Taken? && slots[j].Taken? ==> slots[i].name != slots[j].name
  }

  function Contents(slots: seq<Slot>): map<string, seq<byte>> {
    if slots == [] then map[]
    else
      var last := slots[|slots| - 1];
      var rest := Contents(slots[..|slots| - 1]);
      if last.Taken? then rest[last.name := last.content] else rest
  }

  /** The names from one slot on, as successive calls list them. */
  function Listing(slots: seq<Slot>, from: nat): seq<string>
    requires from <= |slots|
    decreases |slots| - from
  {
    if from == |slots| then []
    else if slots[from].Taken? then [slots[from].name] + Listing(slots, from + 1)
    else Listing(slots, from + 1)
  }

  // ----- The table as a map -----

  lemma {:induction false} ContentsAreStored(slots: seq<Slot>, name: string)
    requires Unique(slots)
    ensures name in Contents(slots) <==> exists i :: Holds(slots, i, name)
    ensures forall i :: Holds(slots, i, name) ==> name in Contents(slots) && Contents(slots)[name] == slots[i].content
  {
    if slots == [] {
    } else {
      var init := slots[..|slots| - 1];
      ContentsAreStored(init, name);
      forall i | Holds(slots, i, name)
        ensures i == |slots| - 1 || Holds(init, i, name)
      {
      }
      if name in Contents(init) {
        var i :| Holds(init, i, name);
        assert Holds(slots, i, name);
      }
      if slots[|slots| - 1].Taken? && slots[|slots| - 1].name == name {
        assert Holds(slots, |slots| - 1, name);
      }
    }
  }

  /** The map has one entry for each taken slot. */
  lemma {:induction false} SizeIsTakenSlots(slots: seq<Slot>)
    requires Unique(slots)
    ensures |Contents(slots)| <= |slots|
    ensures |Contents(slots)| == |slots| <==> forall i :: 0 <= i < |slots| ==> slots[i].Taken?
  {
    if slots == [] {
    } else {
      var init, last := slots[..|slots| - 1], slots[|slots| - 1];
      SizeIsTakenSlots(init);
      if last.Taken? {
        ContentsAreStored(init, last.name);
        assert last.name !in Contents(init);
      }
    }
  }

  /** Storing into a free slot, or into the slot that has the name, is a map update. */
  lemma StoreIsUpdate(slots: seq<Slot>, i: nat, name: string, content: seq<byte>)
    requires Unique(slots) && i < |slots|
    requires Holds(slots, i, name) || (slots[i].Free? && forall j :: !Holds(slots, j, name))
    ensures var slots' := slots[i := Taken(name, content)];
            Unique(slots') && Contents(slots') == Contents(slots)[name := content]
  {
    var slots' := slots[i := Taken(name, content)];
    forall a, b | 0 <= a < b < |slots'| && slots'[a].Taken? && slots'[b].Taken?
      ensures slots'[a].name != slots'[b].name
    {
      assert a != i ==> !Holds(slots, a, name);
      assert b != i ==> !Holds(slots, b, name);
    }
    forall n
      ensures n in Contents(slots') <==> n in Contents(slots) || n == name
      ensures n in Contents(slots') ==> Contents(slots')[n] == if n == name then content else Contents(slots)[n]
    {
      ContentsAreStored(slots, n);
      ContentsAreStored(slots', n);
      assert Holds(slots', i, name);
      assert n != name ==> forall j :: Holds(slots', j, n) <==> Holds(slots, j, n);
    }
  }

  /** Clearing the slot of a name removes it from the map. */
  lemma ZapIsRemoval(slots: seq<Slot>, i: nat, name: string)
    requires Unique(slots) && Holds(slots, i, name)
    ensures var slots' := slots[i := Free];
            Unique(slots') && Contents(slots') == Contents(slots) - {name}
  {
    var slots' := slots[i := Free];
    assert forall j :: !Holds(slots', j, name);
    forall n
      ensures n in Contents(slots') <==> n in Contents(slots) && n != name
      ensures n in Contents(slots') ==> Contents(slots')[n] == Contents(slots)[n]
    {
      ContentsAreStored(slots, n);
      ContentsAreStored(slots', n);
      assert n != name ==> forall j :: Holds(slots', j, n) <==> Holds(slots, j, n);
    }
  }

  lemma {:induction false} AllFreeIsEmpty(slots: seq<Slot>)
    requires forall i :: 0 <= i < |slots| ==> slots[i].Free?
    ensures Unique(slots) && Contents(slots) == map[]
  {
    if slots == [] {
    } else {
      AllFreeIsEmpty(slots[..|slots| - 1]);
    }
  }

  // ----- Listing -----

  lemma {:induction false} ListingHasStoredNames(slots: seq<Slot>, from: nat, name: string)
    requires from <= |slots|
    ensures name in Listing(slots, from) <==> exists i :: from <= i && Holds(slots, i, name)
    decreases |slots| - from
  {
    if from == |slots| {
    } else {
      ListingHasStoredNames(slots, from + 1, name);
      if Holds(slots, from, name) {
        assert from <= from && Holds(slots, from, name);
      }
    }
  }

  lemma {:induction false} ListingHasNoRepeats(slots: seq<Slot>, from: nat)
    requires Unique(slots) && from <= |slots|
    ensures forall i, j :: 0 <= i < j < |Listing(slots, from)| ==> Listing(slots, from)[i] != Listing(slots, from)[j]
    decreases |slots| - from
  {
    if from == |slots| {
    } else {
      ListingHasNoRepeats(slots, from + 1);
      if slots[from].Taken? {
        ListingHasStoredNames(slots, from + 1, slots[from].name);
      }
    }
  }

  /** Rewinding and listing to the end yields every stored name exactly once. */
  lemma ListingIsContents(slots: seq<Slot>)
    requires Unique(slots)
    ensures var names := Listing(slots, 0);
            && (forall name :: name in names <==> name in Contents(slots))
            && (forall i, j :: 0 <= i < j < |names| ==> names[i] != names[j])
  {
    ListingHasNoRepeats(slots, 0);
    forall name
      ensures name in Listing(slots, 0) <==> name in Contents(slots)
    {
      ContentsAreStored(slots, name);
      ListingHasStoredNames(slots, 0, name);
    }
  }

  // ----- The operations -----

  class FakeStore {
    const vars: array<Slot>
    var ptr: nat

    ghost predicate Valid()
      reads this, vars
    {
      vars.Length == FAKE_VAR_COUNT && ptr <= FAKE_VAR_COUNT && Unique(vars[..])
    }

    ghost function View(): map<string, seq<byte>>
      reads this, vars
    {
      Contents(vars[..])
    }

    constructor ()
      ensures Valid() && fresh(vars) && View() == map[] && ptr == 0
    {
      vars := new Slot[FAKE_VAR_COUNT](_ => Free);
      ptr := 0;
      new;
      AllFreeIsEmpty(vars[..]);
    }

    /** Overwrites the slot of the name if there is one, else takes the first free slot. */
    method Write(name: string, content: seq<byte>) returns (ok: bool)
      requires Valid()
      modifies vars
      ensures Valid()
      ensures ok <==> name in old(View()) || |old(View())| < FAKE_VAR_COUNT
      ensures View() == if ok then old(View())[name := content] else old(View())
    {
      var target: nat := FAKE_VAR_COUNT;
      var i := 0;
      while i < FAKE_VAR_COUNT && !(vars[i].Taken? && vars[i].name == name)
        invariant i <= FAKE_VAR_COUNT
        invariant forall j :: 0 <= j < i ==> !Holds(vars[..], j, name)
        invariant target <= FAKE_VAR_COUNT
        invariant target < i || (target == FAKE_VAR_COUNT && forall j :: 0 <= j < i ==> vars[j].Taken?)
        invariant target < i ==> vars[target].Free?
      {
        if target == FAKE_VAR_COUNT && vars[i].Free? {
          target := i;
        }
        i := i + 1;
      }
      if i < FAKE_VAR_COUNT {
        target := i;
      }
      ghost var slots := vars[..];
      ContentsAreStored(slots, name);
      SizeIsTakenSlots(slots);
      if i < FAKE_VAR_COUNT {
        assert Holds(slots, i, name);
      }
      ok := target < FAKE_VAR_COUNT;
      if ok {
        StoreIsUpdate(slots, target, name, content);
        vars[target] := Taken(name, content);
        assert vars[..] == slots[target := Taken(name, content)];
      }
    }

    method Delete(name: string) returns (ok: bool)
      requires Valid()
      modifies vars
      ensures Valid()
      ensures ok <==> name in old(View())
      ensures View() == old(View()) - {name}
    {
      var i := Find(name);
      ok := i < FAKE_VAR_COUNT;
      if ok {
        ghost var slots := vars[..];
        ZapIsRemoval(slots, i, name);
        vars[i] := Free;
        assert vars[..] == slots[i := Free];
      }
    }

    method Exists(name: string) returns (found: bool)
      requires Valid()
      ensures found <==> name in View()
    {
      var i := Find(name);
      found := i < FAKE_VAR_COUNT;
    }

    method Read(name: string) returns (content: Option<seq<byte>>)
      requires Valid()
      ensures content == if name in View() then Some(View()[name]) else None
    {
      var i := Find(name);
      content := if i < FAKE_VAR_COUNT then Some(vars[i].content) else None;
    }

    /** The loop that deleting, reading and testing share. */
    method Find(name: string) returns (i: nat)
      requires Valid()
      ensures i <= FAKE_VAR_COUNT
      ensures i < FAKE_VAR_COUNT <==> name in View()
      ensures i < FAKE_VAR_COUNT ==> Holds(vars[..], i, name) && View()[name] == vars[i].content
    {
      i := 0;
      while i < FAKE_VAR_COUNT && !(vars[i].Taken? && vars[i].name == name)
        invariant i <= FAKE_VAR_COUNT
        invariant forall j :: 0 <= j < i ==> !Holds(vars[..], j, name)
      {
        i := i + 1;
      }
      ContentsAreStored(vars[..], name);
      if i < FAKE_VAR_COUNT {
        assert Holds(vars[..], i, name);
      }
    }

    method ListRewind()
      requires Valid()
      modifies this`ptr
      ensures Valid() && ptr == 0 && View() == old(View())
    {
      ptr := 0;
    }

    /** Hands out the listing from the cursor on, one name at a time. */
    method ListNext() returns (name: Option<string>)
      requires Valid()
      modifies this`ptr
      ensures Valid() && View() == old(View())
      ensures match name {
                case None => old(Listing(vars[..], ptr)) == [] && ptr == FAKE_VAR_COUNT
                case Some(n) => old(Listing(vars[..], ptr)) == [n] + Listing(vars[..], ptr)
              }
    {
      name := None;
      while ptr < FAKE_VAR_COUNT && vars[ptr].Free?
        invariant ptr <= FAKE_VAR_COUNT
        invariant old(Listing(vars[..], ptr)) == Listing(vars[..], ptr)
      {
        ptr := ptr + 1;
      }
      if ptr < FAKE_VAR_COUNT {
        name := Some(vars[ptr].name);
        ptr := ptr + 1;
      }
    }

    method Clear()
      requires Valid()
      modifies this`ptr, vars
      ensures Valid() && View() == map[] && ptr == 0
    {
      ptr := 0;
      for i := 0 to FAKE_VAR_COUNT
        invariant ptr == 0
        invariant forall j :: 0 <= j < i ==> vars[j].Free?
      {
        vars[i] := Free;
      }
      assert forall i :: 0 <= i < |vars[..]| ==> vars[..][i].Free?;
      AllFreeIsEmpty(vars[..]);
    }
  }

  /** A client: rewinding and then asking for the next name until there is none lists every stored name once, and changes nothing. */
  method ListAll(store: FakeStore) returns (names: seq<string>)
    requires store.Valid()
    modifies store`ptr
    ensures store.Valid() && store.View() == old(store.View())
    ensures forall name :: name in names <==> name in store.View()
    ensures forall i, j :: 0 <= i < j < |names| ==> names[i] != names[j]
  {
    store.ListRewind();
    ghost var slots := store.vars[..];
    names := [];
    var next := store.ListNext();
    while next.Some?
      invariant store.Valid() && store.vars[..] == slots
      invariant next.None? ==> store.ptr == FAKE_VAR_COUNT
      invariant Listing(slots, 0) ==
                names + (if next.Some? then [next.value] else []) + Listing(slots, store.ptr)
      decreases |Listing(slots, store.ptr)|, next.Some?
    {
      names := names + [next.value];
      next := store.ListNext();
    }
    assert Listing(slots, store.ptr) == [];
    assert names == Listing(slots, 0);
    ListingIsContents(slots);
  }
}

/**
 The reference counts of shared objects. An object is counted once for each map that holds it and once
 for each caller that has looked it up and not released it yet; at zero it is deleted.
 */
module References {
  import opened ObjectIndex
  import opened SharedObject
  import opened Wrappers
  import Manager

  class Reference {
    const obj: Object
    var refs: int
    ghost var deletions: nat

    constructor (obj: Object)
      ensures this.obj == obj && refs == 1 && deletions == 0
    {
      this.obj := obj;
      refs, deletions := 1, 0;
    }

    method IncRef()
      modifies this
      ensures refs == old(refs) + 1 && deletions == old(deletions)
    {
      refs := refs + 1;
    }

    method DecRef()
      modifies this
      ensures refs == old(refs) - 1
      ensures deletions == old(deletions) + if refs == 0 then 1 else 0
    {
      refs := refs - 1;
      if refs == 0 {
        deletions := deletions + 1;
      }
    }
  }

  /** The maps of a process: one for each mode, three shared ones, and the set of host-mapped objects. */
  datatype Place = Own(mode: nat) | Shared | Global | Orphans | HostMapped

  type Maps = map<Place, map<nat, Reference>>

  function At(maps: Maps, p: Place): map<nat, Reference> {
    if p in maps then maps[p] else map[]
  }

  ghost predicate Holds(maps: Maps, p: Place, r: Reference) {
    p in maps && r.obj.End() in maps[p] && maps[p][r.obj.End()] == r
  }

  ghost function Holders(maps: Maps, r: Reference): (s: set<Place>)
    ensures forall p :: p in s <==> Holds(maps, p, r)
  {
    set p | p in maps && Holds(maps, p, r)
  }

  ghost predicate Keyed(maps: Maps) {
    forall p :: p in maps ==> forall e :: e in maps[p] ==> maps[p][e].obj.End() == e
  }

  function Put(maps: Maps, p: Place, r: Reference): Maps {
    maps[p := At(maps, p)[r.obj.End() := r]]
  }

  function Take(maps: Maps, p: Place, r: Reference): Maps {
    maps[p := At(maps, p) - {r.obj.End()}]
  }

  lemma {:induction false} HoldersPut(maps: Maps, p: Place, r: Reference, x: Reference)
    requires Keyed(maps) && r.obj.End() !in At(maps, p)
    ensures Keyed(Put(maps, p, r))
    ensures Holders(Put(maps, p, r), x) == if x == r then Holders(maps, r) + {p} else Holders(maps, x)
    ensures !Holds(maps, p, r)
  {
  }

  lemma {:induction false} HoldersTake(maps: Maps, p: Place, r: Reference, x: Reference)
    requires Keyed(maps) && Holds(maps, p, r)
    ensures Keyed(Take(maps, p, r))
    ensures Holders(Take(maps, p, r), x) == if x == r then Holders(maps, r) - {p} else Holders(maps, x)
  {
  }

  lemma {:induction false} PutChanges(maps: Maps, p: Place, r: Reference)
    requires Keyed(maps) && r.obj.End() !in At(maps, p)
    ensures Keyed(Put(maps, p, r)) && !Holds(maps, p, r)
    ensures Holders(Put(maps, p, r), r) == Holders(maps, r) + {p} && p !in Holders(maps, r)
    ensures forall x :: x != r ==> Holders(Put(maps, p, r), x) == Holders(maps, x)
    ensures forall q, e :: q in Put(maps, p, r) && e in Put(maps, p, r)[q] ==>
      Put(maps, p, r)[q][e] == r || (q in maps && e in maps[q] && Put(maps, p, r)[q][e] == maps[q][e])
  {
    hide Holders, Keyed, Holds;
    forall x
      ensures Keyed(Put(maps, p, r)) && !Holds(maps, p, r)
      ensures Holders(Put(maps, p, r), x) == if x == r then Holders(maps, r) + {p} else Holders(maps, x)
    {
      HoldersPut(maps, p, r, x);
    }
    assert p !in Holders(maps, r);
  }

  lemma {:induction false} TakeChanges(maps: Maps, p: Place, r: Reference)
    requires Keyed(maps) && Holds(maps, p, r)
    ensures Keyed(Take(maps, p, r))
    ensures Holders(Take(maps, p, r), r) == Holders(maps, r) - {p} && p in Holders(maps, r)
    ensures forall x :: x != r ==> Holders(Take(maps, p, r), x) == Holders(maps, x)
    ensures forall q, e :: q in Take(maps, p, r) && e in Take(maps, p, r)[q] ==>
      q in maps && e in maps[q] && Take(maps, p, r)[q][e] == maps[q][e]
  {
    forall x
      ensures Holders(Take(maps, p, r), x) == if x == r then Holders(maps, r) - {p} else Holders(maps, x)
    {
      HoldersTake(maps, p, r, x);
    }
    assert p in Holders(maps, r);
  }

  /** mapFind on one of the maps. */
  function Find(maps: Maps, p: Place, addr: nat, size: nat): (r: Option<Reference>)
    ensures r.Some? ==> exists e :: e in At(maps, p) && At(maps, p)[e] == r.value
  {
    var entries := At(maps, p);
    match MapFind(map e | e in entries :: entries[e].obj, addr, size)
    case None => None
    case Some(o) => if o.End() in entries then Some(entries[o.End()]) else None
  }

  // ---- what a lookup is to answer ----

  /** `x` has the least end above `addr` in the map, and starts at or before the end of the range. */
  ghost predicate HitIn(maps: Maps, p: Place, addr: nat, size: nat, x: Reference) {
    && p in maps && x.obj.addr + x.obj.size in maps[p] && maps[p][x.obj.addr + x.obj.size] == x
    && addr < x.obj.addr + x.obj.size && x.obj.addr <= addr + size
    && forall e :: e in maps[p] && addr < e ==> x.obj.addr + x.obj.size <= e
  }

  ghost predicate NoneHit(maps: Maps, p: Place, addr: nat, size: nat) {
    p in maps ==> forall e :: e in maps[p] ==> !HitIn(maps, p, addr, size, maps[p][e])
  }

  /**
   The answer of a mode: the hit in its own map, else in the shared, the global and the orphans' map, in this
   order.
   */
  ghost predicate Answers(maps: Maps, mode: nat, addr: nat, size: nat, r: Option<Reference>) {
    match r
    case None =>
      && NoneHit(maps, Own(mode), addr, size) && NoneHit(maps, Shared, addr, size)
      && NoneHit(maps, Global, addr, size) && NoneHit(maps, Orphans, addr, size)
    case Some(x) =>
      || HitIn(maps, Own(mode), addr, size, x)
      || (NoneHit(maps, Own(mode), addr, size) && HitIn(maps, Shared, addr, size, x))
      || (NoneHit(maps, Own(mode), addr, size) && NoneHit(maps, Shared, addr, size) &&
        HitIn(maps, Global, addr, size, x))
      || (NoneHit(maps, Own(mode), addr, size) && NoneHit(maps, Shared, addr, size) && NoneHit(maps, Global, addr, size)
          && HitIn(maps, Orphans, addr, size, x))
  }

  /** One of the four maps has a hit. */
  ghost predicate Seen(maps: Maps, mode: nat, addr: nat, size: nat) {
    !(NoneHit(maps, Own(mode), addr, size) && NoneHit(maps, Shared, addr, size)
      && NoneHit(maps, Global, addr, size) && NoneHit(maps, Orphans, addr, size))
  }

  /** There is only one answer. */
  lemma {:induction false} OneAnswer(maps: Maps, mode: nat, addr: nat, size: nat, r: Option<Reference>,
      q: Option<Reference>)
    requires Answers(maps, mode, addr, size, r) && Answers(maps, mode, addr, size, q)
    ensures r == q && (r.Some? <==> Seen(maps, mode, addr, size))
  {
    hide HitIn, NoneHit;
    forall p, x, y | HitIn(maps, p, addr, size, x)
      ensures !NoneHit(maps, p, addr, size) && (HitIn(maps, p, addr, size, y) ==> x == y)
    {
      OneHit(maps, p, addr, size, x, y);
    }
  }

  lemma {:induction false} OneHit(maps: Maps, p: Place, addr: nat, size: nat, x: Reference, y: Reference)
    requires HitIn(maps, p, addr, size, x)
    ensures !NoneHit(maps, p, addr, size) && (HitIn(maps, p, addr, size, y) ==> x == y)
  {
  }

  /** The keyed lookup finds the hit, if there is one. */
  lemma {:induction false} FindIsHit(maps: Maps, p: Place, addr: nat, size: nat)
    requires Keyed(maps)
    ensures match Find(maps, p, addr, size)
      case None => NoneHit(maps, p, addr, size)
      case Some(x) => HitIn(maps, p, addr, size, x)
  {
    var entries := At(maps, p);
    var objects := map e | e in entries :: entries[e].obj;
    assert objects.Keys == entries.Keys;
    var u := UpperBound(objects.Keys, addr);
    if u.Some? {
      var x := entries[u.value];
      assert x.obj.End() == u.value && objects[u.value] == x.obj;
    }
  }

  /** Looking through the visible maps in turn gives the answer. */
  lemma {:induction false} FindsAnswer(maps: Maps, mode: nat, addr: nat, size: nat)
    requires Keyed(maps)
    ensures Answers(maps, mode, addr, size, FindFrom(maps, Visible(mode), addr, size))
  {
    hide Keyed, HitIn, NoneHit, Find;
    FindIsHit(maps, Own(mode), addr, size);
    FindIsHit(maps, Shared, addr, size);
    FindIsHit(maps, Global, addr, size);
    FindIsHit(maps, Orphans, addr, size);
    var places := Visible(mode);
    FindStep(maps, places, addr, size);
    FindStep(maps, places[1..], addr, size);
    FindStep(maps, places[1..][1..], addr, size);
    FindStep(maps, places[1..][1..][1..], addr, size);
    assert places[1..][1..][1..][1..] == [];
  }

  lemma {:induction false} FindStep(maps: Maps, places: seq<Place>, addr: nat, size: nat)
    requires places != []
    ensures FindFrom(maps, places, addr, size) ==
      if Find(maps, places[0], addr, size).Some? then Find(maps, places[0], addr, size)
      else FindFrom(maps, places[1..], addr, size)
  {
  }

  /** AddressSpace::getObject looks in the map of the mode and then in the shared ones. */
  function FindFrom(maps: Maps, places: seq<Place>, addr: nat, size: nat): (r: Option<Reference>)
    ensures r.Some? ==> exists p, e :: p in maps && e in maps[p] && maps[p][e] == r.value
    decreases |places|
  {
    if places == [] then None else
      match Find(maps, places[0], addr, size)
      case Some(r) => Some(r)
      case None => FindFrom(maps, places[1..], addr, size)
  }

  class Process {
    var maps: Maps
    ghost var all: set<Reference>
    ghost var handles: multiset<Reference>

    constructor ()
      ensures Conserved() && maps == map[] && all == {} && handles == multiset{}
    {
      maps, all, handles := map[], {}, multiset{};
    }

    /** An object is counted for its holders and its handles, and is deleted once, when both are gone. */
    ghost predicate Counted(r: Reference)
      reads `maps, `handles, r
    {
      r.refs == |Holders(maps, r)| + handles[r] && r.deletions == if r.refs == 0 then 1 else 0
    }

    /** The maps and the handles name objects that have been made, and entries are keyed by end address. */
    ghost predicate Known()
      reads `maps, `handles, `all
    {
      && Keyed(maps)
      && (forall p :: p in maps ==> forall e :: e in maps[p] ==> maps[p][e] in all)
      && (forall r :: r in handles ==> r in all)
    }

    ghost predicate Conserved()
      reads this, all
    {
      && Known()
      && (forall r :: r in all ==> Counted(r) && r.obj.size > 0)
      && (forall r, s :: r in all && s in all && r.refs > 0 && s.refs > 0 && r.obj.End() == s.obj.End() ==> r == s)
    }

    lemma {:induction false} ConservedFacts(r: Reference)
      requires Conserved() && r in all
      ensures Known() && Counted(r)
    {
      hide Counted, Keyed;
    }

    /** A step that changes one object and leaves it counted keeps the invariant. */
    twostate lemma OneChanged(r: Reference)
      requires old(Conserved()) && all == old(all) && Known()
      requires r in all && Counted(r) && (r.refs > 0 ==> old(r.refs) > 0)
      requires forall x :: x in all && x != r ==> x.refs == old(x.refs) && x.deletions == old(x.deletions)
      requires forall x :: x in all && x != r ==>
        Holders(maps, x) == old(Holders(maps, x)) && handles[x] == old(handles[x])
      ensures Conserved()
    {
      hide Keyed, Holders;
      assert forall x :: x in all ==> old(Counted(x));
    }

    /** A new object that is counted and shares its end with no live one keeps it, too. */
    twostate lemma OneCreated(new r: Reference)
      requires old(Conserved()) && all == old(all) + {r} && Known() && Counted(r) && r.obj.size > 0
      requires forall x :: x in old(all) ==> x != r && x.refs == old(x.refs) && x.deletions == old(x.deletions)
      requires forall x :: x in old(all) ==> Holders(maps, x) == old(Holders(maps, x)) && handles[x] == old(handles[x])
      requires forall x :: x in old(all) && x.refs > 0 ==> x.obj.End() != r.obj.End()
      ensures Conserved()
    {
      hide Keyed, Holders;
      assert forall x :: x in old(all) ==> old(Counted(x));
    }

    /** incRef on an object that is held, by a caller that keeps the reference. */
    method Acquire(r: Reference)
      requires Conserved() && r in all && r.refs > 0
      modifies `handles, r
      ensures Conserved() && handles == old(handles) + multiset{r} && r.refs == old(r.refs) + 1
    {
      hide Holders, Keyed, Conserved;
      ConservedFacts(r);
      r.IncRef();
      handles := handles + multiset{r};
      OneChanged(r);
    }

    /** decRef by a caller that has kept a reference. */
    method Release(r: Reference)
      requires Conserved() && r in handles
      modifies `handles, r
      ensures Conserved() && handles == old(handles) - multiset{r} && r.refs == old(r.refs) - 1
      ensures r.deletions == if Holders(maps, r) == {} && r !in handles then 1 else 0
    {
      hide Holders, Keyed, Conserved;
      HandleIsLive(r);
      ConservedFacts(r);
      r.DecRef();
      handles := handles - multiset{r};
      NoOneLeft(r);
      OneChanged(r);
    }

    lemma {:induction false} NoOneLeft(r: Reference)
      requires Counted(r)
      ensures r.deletions == if Holders(maps, r) == {} && r !in handles then 1 else 0
    {
      hide Holders;
      assert |Holders(maps, r)| == 0 ==> Holders(maps, r) == {};
    }

    lemma {:induction false} HeldIsLive(p: Place, e: nat)
      requires Conserved() && p in maps && e in maps[p]
      ensures maps[p][e] in all && maps[p][e].refs > 0 && Holds(maps, p, maps[p][e])
    {
      hide Holders;
      var r := maps[p][e];
      assert Holds(maps, p, r);
      assert p in Holders(maps, r);
      assert Counted(r);
    }

    /** Two live objects have different ends, so the entry at the end of a live object is that object. */
    lemma {:induction false} EntryIsObject(p: Place, r: Reference)
      requires Conserved() && r in all && r.refs > 0
      ensures r.obj.End() in At(maps, p) <==> Holds(maps, p, r)
    {
      hide Holders, Counted;
      if r.obj.End() in At(maps, p) {
        HeldIsLive(p, r.obj.End());
      }
    }

    /** ObjectMap::addObject */
    method AddObject(p: Place, r: Reference) returns (inserted: bool)
      requires Conserved() && r in all && r.refs > 0
      modifies `maps, r
      ensures Conserved() && inserted == !old(Holds(maps, p, r))
      ensures maps == if inserted then Put(old(maps), p, r) else old(maps)
      ensures r.refs == old(r.refs) + if inserted then 1 else 0
      ensures Holders(maps, r) == old(Holders(maps, r)) + {p}
      ensures forall x :: x in all && x != r ==> Holders(maps, x) == old(Holders(maps, x))
    {
      hide Holders, Holds, Put, Take, Keyed, Conserved;
      EntryIsObject(p, r);
      ConservedFacts(r);
      inserted := r.obj.End() !in At(maps, p);
      if inserted {
        PutChanges(maps, p, r);
        maps := Put(maps, p, r);
        r.IncRef();
        OneChanged(r);
      }
    }

    /** ObjectMap::removeObject */
    method RemoveObject(p: Place, r: Reference) returns (removed: bool)
      requires Conserved() && r in all && r.refs > 0
      modifies `maps, r
      ensures Conserved() && removed == old(Holds(maps, p, r))
      ensures maps == if removed then Take(old(maps), p, r) else old(maps)
      ensures r.refs == old(r.refs) - if removed then 1 else 0
      ensures Holders(maps, r) == old(Holders(maps, r)) - {p}
      ensures forall x :: x in all && x != r ==> Holders(maps, x) == old(Holders(maps, x))
    {
      hide Holders, Holds, Put, Take, Keyed, Conserved;
      EntryIsObject(p, r);
      ConservedFacts(r);
      removed := r.obj.End() in At(maps, p);
      if removed {
        TakeChanges(maps, p, r);
        r.DecRef();
        maps := Take(maps, p, r);
        OneChanged(r);
      }
    }

    /** AddressSpace::getObject of a mode: the caller gets a counted reference. */
    method GetObject(mode: nat, addr: nat, size: nat) returns (r: Option<Reference>)
      requires Conserved()
      modifies `handles, all
      ensures Conserved() && r == FindFrom(maps, Visible(mode), addr, size)
      ensures Answers(maps, mode, addr, size, r) && (r.Some? <==> Seen(maps, mode, addr, size))
      ensures r.Some? ==> r.value in all && handles == old(handles) + multiset{r.value}
      ensures r == None ==> handles == old(handles)
    {
      hide Conserved, Answers, Seen, Visible;
      AnswerFound(mode, addr, size);
      r := FindFrom(maps, Visible(mode), addr, size);
      if r.Some? {
        FoundIsLive(r.value);
        Acquire(r.value);
      }
    }

    lemma {:induction false} AnswerFound(mode: nat, addr: nat, size: nat)
      requires Conserved()
      ensures var r := FindFrom(maps, Visible(mode), addr, size);
        Answers(maps, mode, addr, size, r) && (r.Some? <==> Seen(maps, mode, addr, size))
    {
      hide Counted, Answers, Seen, Visible, Keyed;
      FindsAnswer(maps, mode, addr, size);
      var r := FindFrom(maps, Visible(mode), addr, size);
      OneAnswer(maps, mode, addr, size, r, r);
    }

    lemma {:induction false} FoundIsLive(r: Reference)
      requires Conserved() && exists p, e :: p in maps && e in maps[p] && maps[p][e] == r
      ensures r in all && r.refs > 0
    {
      hide Conserved;
      var p, e :| p in maps && e in maps[p] && maps[p][e] == r;
      HeldIsLive(p, e);
    }

    lemma {:induction false} HandleIsLive(r: Reference)
      requires Conserved() && r in handles
      ensures r in all && r.refs > 0
    {
      hide Holders, Keyed;
      assert Counted(r);
    }

    /** No live object has the address range of `o`, which is not empty. */
    ghost predicate Vacant(o: Object)
      reads this, all
    {
      o.size > 0 && forall r :: r in all && r.refs > 0 ==> Apart(r.obj, o)
    }

    lemma {:induction false} KnownSoFar()
      requires Conserved()
      ensures Known()
    {
      hide Counted, Keyed;
    }

    lemma {:induction false} VacantEnd(o: Object)
      requires Conserved() && Vacant(o)
      ensures o.size > 0 && forall r :: r in all && r.refs > 0 ==> r.obj.End() != o.End()
    {
    }

    lemma {:induction false} NotHeld(r: Reference)
      requires Conserved() && r !in all
      ensures Holders(maps, r) == {} && handles[r] == 0
    {
      hide Keyed, Counted;
      assert forall p :: !Holds(maps, p, r);
      assert r !in handles;
    }

    /** A new object, referenced by whoever created it. */
    method CreateObject(o: Object) returns (r: Reference)
      requires Conserved() && Vacant(o)
      modifies `all, `handles
      ensures Conserved() && fresh(r) && all == old(all) + {r} && handles == old(handles) + multiset{r}
      ensures r.obj == o && r.refs == 1 && r.deletions == 0 && Holders(maps, r) == {}
    {
      hide Keyed, Vacant, Holders, Conserved;
      VacantEnd(o);
      KnownSoFar();
      r := new Reference(o);
      NotHeld(r);
      all := all + {r};
      handles := handles + multiset{r};
      OneCreated(r);
    }

    /**
     Manager::hostMappedAlloc. The set does not count its reference: it takes over the one the object was
     created with.
     */
    method HostMappedAlloc(created: Option<Object>) returns (addr: Option<nat>, ghost r: Option<Reference>)
      requires Conserved() && (created.Some? ==> Vacant(created.value))
      modifies this
      ensures Conserved() && handles == old(handles) && (created.Some? <==> r.Some?)
      ensures addr == if created.Some? then Some(created.value.addr) else None
      ensures all == old(all) + (if r.Some? then {r.value} else {})
      ensures r.Some? ==> r.value.obj == created.value && fresh(r.value)
      ensures r.Some? ==> Holders(maps, r.value) == {HostMapped} && r.value.deletions == 0
    {
      hide Conserved, Vacant, Put, Holders, Keyed;
      if created == None {
        return None, None;
      }
      var o := CreateObject(created.value);
      r, addr := Some(o), Some(created.value.addr);
      MoveToSet(o);
    }

    /** HostMappedSet::insert of an object that no map holds. */
    method MoveToSet(r: Reference)
      requires Conserved() && r in handles && Holders(maps, r) == {}
      modifies `maps, `handles
      ensures Conserved() && handles == old(handles) - multiset{r} && Holders(maps, r) == {HostMapped}
    {
      hide Conserved, Put, Holders, Keyed, Holds;
      HandleIsLive(r);
      ConservedFacts(r);
      EntryIsObject(HostMapped, r);
      assert HostMapped !in Holders(maps, r);
      PutChanges(maps, HostMapped, r);
      maps := Put(maps, HostMapped, r);
      handles := handles - multiset{r};
      OneChanged(r);
    }

    /**
     Manager::alloc. `created` is the object the protocol makes, if it can, and `owned` whether the mode
     could become its owner. The object ends up in the map of the mode and in the shared one, or deleted.
     With integrated memory it is host-mapped instead.
     */
    method Alloc(mode: nat, integrated: bool, created: Option<Object>, owned: bool)
      returns (addr: Option<nat>, ghost r: Option<Reference>)
      requires Conserved() && (created.Some? ==> Vacant(created.value))
      modifies this
      ensures Conserved() && handles == old(handles)
      ensures addr == if created.Some? && (owned || integrated) then Some(created.value.addr) else None
      ensures created.Some? <==> r.Some?
      ensures all == old(all) + (if r.Some? then {r.value} else {})
      ensures r.Some? ==> r.value.obj == created.value && fresh(r.value)
      ensures r.Some? ==> Holders(maps, r.value) == if integrated then {HostMapped}
        else if owned then {Own(mode), Shared} else {}
      ensures r.Some? ==> r.value.deletions == if owned || integrated then 0 else 1
    {
      hide Conserved, Vacant, Put, Holders;
      if integrated {
        addr, r := HostMappedAlloc(created);
        return;
      }
      if created == None {
        return None, None;
      }
      var o := CreateObject(created.value);
      r, addr := Some(o), None;
      if owned {
        addr := Some(created.value.addr);
        Publish(mode, o);
      }
      Release(o);
    }

    /** AddressSpace::addObject: into the map of the mode and into the shared one. */
    method Publish(mode: nat, r: Reference)
      requires Conserved() && r in handles && Holders(maps, r) == {}
      modifies `maps, r
      ensures Conserved() && Holders(maps, r) == {Own(mode), Shared}
    {
      hide Conserved, Put, Holders;
      HandleIsLive(r);
      var added := AddObject(Own(mode), r);
      if added {
        HandleIsLive(r);
        added := AddObject(Shared, r);
      }
    }

    /** AddressSpace::removeObject: from the map of the mode, and from the first shared map that holds it. */
    method RemoveFromSpace(mode: nat, r: Reference) returns (removed: bool)
      requires Conserved() && r in handles
      modifies `maps, r
      ensures Conserved() && Own(mode) !in Holders(maps, r)
      ensures Removed(old(Holders(maps, r)), Holders(maps, r), mode)
      ensures forall x :: x in all && x != r ==> Holders(maps, x) == old(Holders(maps, x))
      ensures removed <==> old(Holders(maps, r)) * {Shared, Global, Orphans} != {}
    {
      hide Conserved, Holds, Holders;
      HandleIsLive(r);
      removed := RemoveObject(Own(mode), r);
      HandleIsLive(r);
      removed := RemoveObject(Shared, r);
      if removed {
        return;
      }
      HandleIsLive(r);
      removed := RemoveObject(Global, r);
      if removed {
        return;
      }
      HandleIsLive(r);
      removed := RemoveObject(Orphans, r);
    }

    /**
     The part of Manager::free for host-mapped objects: the object is looked up, released, taken from the
     set and released once more. But it is taken from the set only when `addr` is its start; otherwise
     the last release takes away the reference of the set, which goes on holding the object.
     */
    method FreeHostMapped(addr: nat) returns (found: bool, ghost r: Option<Reference>)
      requires Conserved()
      modifies this, all
      ensures handles == old(handles) && all == old(all)
      ensures r == old(Find(maps, HostMapped, addr, 0)) && found == r.Some?
      ensures found <==> !NoneHit(old(maps), HostMapped, addr, 0)
      ensures found ==> HitIn(old(maps), HostMapped, addr, 0, r.value)
      ensures forall x :: x in all && Some(x) != r ==> Holders(maps, x) == old(Holders(maps, x))
      ensures Conserved() <==> (found ==> addr == r.value.obj.addr)
      ensures !found ==> maps == old(maps)
      ensures found && addr == r.value.obj.addr ==> Holders(maps, r.value) == old(Holders(maps, r.value)) - {HostMapped}
      ensures found && addr == r.value.obj.addr ==>
        (r.value.deletions == 1 <==> Holders(maps, r.value) == {} && r.value !in handles)
      ensures found && addr != r.value.obj.addr ==> maps == old(maps) && HostMapped in Holders(maps, r.value)
      ensures found && addr != r.value.obj.addr ==> r.value.refs == |Holders(maps, r.value)| + handles[r.value] - 1
      ensures found && addr != r.value.obj.addr ==> r.value.deletions == if r.value.refs == 0 then 1 else 0
    {
      hide Conserved, Put, Take, Holders, Keyed, Holds, Find, HitIn, NoneHit;
      HostAnswer(addr);
      var o := Find(maps, HostMapped, addr, 0);
      r, found := o, o.Some?;
      if found {
        FoundHolder(HostMapped, addr, 0);
        Touch(o.value);
        ConservedFacts(o.value);
        if addr == o.value.obj.addr {
          TakeChanges(maps, HostMapped, o.value);
          o.value.DecRef();
          maps := Take(maps, HostMapped, o.value);
          NoOneLeft(o.value);
          OneChanged(o.value);
        } else {
          o.value.DecRef();
          NotConserved(o.value);
        }
      }
    }

    /** A reference that is taken and given back. */
    method Touch(r: Reference)
      requires Conserved() && r in all && r.refs > 0
      modifies `handles, r
      ensures Conserved() && handles == old(handles) && r.refs == old(r.refs)
    {
      hide Conserved;
      Acquire(r);
      Release(r);
    }

    lemma {:induction false} NoneLive(o: Object)
      requires all == {} && o.size > 0
      ensures Vacant(o)
    {
    }

    /**
     The only object there is is the answer of every mode, at each of its addresses, while the shared map holds
     it.
     */
    lemma {:induction false} SoleAnswer(r: Reference, mode: nat, a: nat)
      requires Conserved() && all == {r} && Shared in Holders(maps, r) && r.obj.addr <= a < r.obj.End()
      ensures Seen(maps, mode, a, 0) && Freeable(mode, a)
      ensures Answers(maps, mode, a, 0, Some(r))
    {
      hide Counted;
      assert Holds(maps, Shared, r);
      assert HitIn(maps, Shared, a, 0, r);
      assert !NoneHit(maps, Shared, a, 0);
      assert forall p, x :: HitIn(maps, p, a, 0, x) ==> x in all;
    }

    lemma {:induction false} Emptied(r: Reference)
      requires Conserved() && r in all && Holders(maps, r) == {} && r !in handles
      ensures r.refs == 0 && r.deletions == 1
    {
      hide Keyed, Holders;
      assert Counted(r);
    }

    /** The only object there is is found at each of its addresses. */
    lemma {:induction false} SoleFound(r: Reference, a: nat)
      requires Conserved() && all == {r} && HostMapped in Holders(maps, r) && r.obj.addr <= a < r.obj.End()
      ensures Find(maps, HostMapped, a, 0) == Some(r)
    {
      hide Counted;
      var entries := At(maps, HostMapped);
      var objects := map e | e in entries :: entries[e].obj;
      assert Holds(maps, HostMapped, r);
      assert objects[r.obj.End()] == r.obj;
      assert forall e :: e in objects ==> e == r.obj.End();
      assert UpperBound(objects.Keys, a) == Some(r.obj.End());
    }

    lemma {:induction false} FoundHolder(p: Place, addr: nat, size: nat)
      requires Conserved() && Find(maps, p, addr, size).Some?
      ensures var r := Find(maps, p, addr, size).value;
        r in all && r.refs > 0 && Holds(maps, p, r) && p in Holders(maps, r)
    {
      hide Conserved, Holders, Counted;
      var r := Find(maps, p, addr, size).value;
      var e :| e in At(maps, p) && At(maps, p)[e] == r;
      HeldIsLive(p, e);
    }

    lemma {:induction false} NotConserved(r: Reference)
      requires r in all && r.refs != |Holders(maps, r)| + handles[r]
      ensures !Conserved()
    {
      hide Holders;
      assert !Counted(r);
    }

    /**
     Manager::free of an object the mode can see, or else of a host-mapped one. The maps of other modes keep
     the object, and it is deleted exactly if there are none and no other caller has a reference.
     */
    method Free(mode: nat, addr: nat) returns (found: bool, ghost r: Option<Reference>)
      requires Conserved()
      modifies this, all
      ensures handles == old(handles) && all == old(all) && found == r.Some?
      ensures old(Seen(maps, mode, addr, 0)) ==> found && Answers(old(maps), mode, addr, 0, r)
      ensures !old(Seen(maps, mode, addr, 0)) ==> (found <==> !NoneHit(old(maps), HostMapped, addr, 0))
      ensures !old(Seen(maps, mode, addr, 0)) && found ==> HitIn(old(maps), HostMapped, addr, 0, r.value)
      ensures Conserved() <==> old(Freeable(mode, addr))
      ensures !found ==> maps == old(maps)
      ensures forall x :: x in all && Some(x) != r ==> Holders(maps, x) == old(Holders(maps, x))
      ensures old(Seen(maps, mode, addr, 0)) ==>
        Own(mode) !in Holders(maps, r.value) && Removed(old(Holders(maps, r.value)), Holders(maps, r.value), mode)
      ensures old(Seen(maps, mode, addr, 0)) && old(Holders(maps, r.value)) == {Own(mode), Shared} ==>
        Holders(maps, r.value) == {} && (r.value !in handles ==> r.value.deletions == 1)
      ensures found && !old(Seen(maps, mode, addr, 0)) && Conserved() ==>
        Holders(maps, r.value) == old(Holders(maps, r.value)) - {HostMapped}
      ensures found && Conserved() ==> (r.value.deletions == 1 <==> Holders(maps, r.value) == {} && r.value !in handles)
    {
      hide Conserved, Visible, Find, Holders, Answers, Seen, HitIn, NoneHit, Freeable;
      AnswerFound(mode, addr, 0);
      HostAnswer(addr);
      FreeableFound(mode, addr);
      var o := GetObject(mode, addr, 0);
      if o == None {
        found, r := FreeHostMapped(addr);
        return;
      }
      r, found := o, true;
      FreeObject(mode, o.value);
    }

    /** The part of Manager::free for shared objects; the caller's reference is the one of the lookup. */
    method FreeObject(mode: nat, r: Reference)
      requires Conserved() && r in handles
      modifies `maps, `handles, r
      ensures Conserved() && handles == old(handles) - multiset{r} && Own(mode) !in Holders(maps, r)
      ensures forall x :: x in all && x != r ==> Holders(maps, x) == old(Holders(maps, x))
      ensures Removed(old(Holders(maps, r)), Holders(maps, r), mode)
      ensures r.deletions == if Holders(maps, r) == {} && r !in handles then 1 else 0
    {
      hide Conserved, Holders, Removed;
      var removed := RemoveFromSpace(mode, r);
      Release(r);
    }

    lemma {:induction false} HostAnswer(addr: nat)
      requires Conserved()
      ensures match Find(maps, HostMapped, addr, 0)
        case None => NoneHit(maps, HostMapped, addr, 0)
        case Some(x) => HitIn(maps, HostMapped, addr, 0, x) && !NoneHit(maps, HostMapped, addr, 0)
    {
      hide Counted, Keyed, NoneHit, HitIn, Find;
      FindIsHit(maps, HostMapped, addr, 0);
      var x := Find(maps, HostMapped, addr, 0);
      if x.Some? {
        OneHit(maps, HostMapped, addr, 0, x.value, x.value);
      }
    }

    /** A shared object that the mode can see, no object at all, or the start of a host-mapped one. */
    ghost predicate Freeable(mode: nat, addr: nat)
      reads `maps
    {
      Seen(maps, mode, addr, 0) || HostMapped !in maps ||
      forall e :: e in maps[HostMapped] && HitIn(maps, HostMapped, addr, 0, maps[HostMapped][e]) ==>
        addr == maps[HostMapped][e].obj.addr
    }

    /** The same, decided by the lookups. */
    predicate FreesWell(mode: nat, addr: nat)
      reads `maps
    {
      FindFrom(maps, Visible(mode), addr, 0).Some? ||
      match Find(maps, HostMapped, addr, 0)
      case None => true
      case Some(r) => addr == r.obj.addr
    }

    lemma {:induction false} FreeableFound(mode: nat, addr: nat)
      requires Conserved()
      ensures Freeable(mode, addr) <==> FreesWell(mode, addr)
    {
      hide Conserved, Visible, Find, Answers, Seen, HitIn, NoneHit;
      AnswerFound(mode, addr, 0);
      HostAnswer(addr);
      HostStart(addr);
    }

    lemma {:induction false} HostStart(addr: nat)
      ensures forall x :: HitIn(maps, HostMapped, addr, 0, x) ==>
        ((forall e :: e in maps[HostMapped] && HitIn(maps, HostMapped, addr, 0, maps[HostMapped][e]) ==>
          addr == maps[HostMapped][e].obj.addr) <==> addr == x.obj.addr)
      ensures NoneHit(maps, HostMapped, addr, 0) ==>
        (HostMapped in maps ==> forall e :: e in maps[HostMapped] ==>
            !HitIn(maps, HostMapped, addr, 0, maps[HostMapped][e]))
      ensures forall x :: HitIn(maps, HostMapped, addr, 0, x) ==> HostMapped in maps
    {
    }

    /** Manager::signalRead, and every other function that looks an object up and releases it. */
    method SignalRead(mode: nat, addr: nat) returns (ok: bool)
      requires Conserved()
      modifies `handles, all
      ensures Conserved() && handles == old(handles)
      ensures ok == Seen(maps, mode, addr, 0)
    {
      hide Conserved, Visible, Seen, Answers;
      var o := GetObject(mode, addr, 0);
      ok := o.Some?;
      if o.Some? {
        Release(o.value);
      }
    }

    /** Manager::signalWrite; `handled` is what the object's own handler answers. */
    method SignalWrite(mode: nat, addr: nat, handled: bool) returns (ok: bool)
      requires Conserved()
      modifies `handles, all
      ensures Conserved() && handles == old(handles)
      ensures ok == (Seen(maps, mode, addr, 0) && handled)
    {
      hide Conserved, Visible, Seen, Answers;
      var o := GetObject(mode, addr, 0);
      if o == None {
        return false;
      }
      ok := handled;
      Release(o.value);
    }

    lemma {:induction false} OwnerFound(addr: nat, size: nat)
      requires Conserved()
      ensures FindFrom(maps, [Shared, Global], addr, size) == None
        <==> NoneHit(maps, Shared, addr, size) && NoneHit(maps, Global, addr, size)
    {
      hide Counted, Keyed, NoneHit, HitIn, Find;
      forall p, x | HitIn(maps, p, addr, size, x)
        ensures !NoneHit(maps, p, addr, size)
      {
        OneHit(maps, p, addr, size, x, x);
      }
      FindIsHit(maps, Shared, addr, size);
      FindIsHit(maps, Global, addr, size);
      FindStep(maps, [Shared, Global], addr, size);
      assert [Shared, Global][1..] == [Global];
      FindStep(maps, [Global], addr, size);
      assert [Global][1..] == [];
    }

    /** Process::owner; `choice` is the mode that the object answers. */
    method Owner(addr: nat, size: nat, choice: nat) returns (mode: Option<nat>)
      requires Conserved()
      modifies `handles, all
      ensures Conserved() && handles == old(handles)
      ensures mode == None <==> NoneHit(maps, Shared, addr, size) && NoneHit(maps, Global, addr, size)
      ensures mode.Some? ==> mode.value == choice
    {
      hide Conserved, NoneHit;
      OwnerFound(addr, size);
      var o := FindFrom(maps, [Shared, Global], addr, size);
      mode := None;
      if o.Some? {
        FoundIsLive(o.value);
        Acquire(o.value);
        mode := Some(choice);
        Release(o.value);
      }
    }

    /** What a lookup finds ends after the address and starts at or before the end of the range. */
    lemma {:induction false} FoundHits(places: seq<Place>, addr: nat, size: nat)
      requires Conserved() && FindFrom(maps, places, addr, size).Some?
      ensures var o := FindFrom(maps, places, addr, size).value.obj;
        addr < o.End() && o.addr <= addr + size
      decreases |places|
    {
      hide Counted;
      if Find(maps, places[0], addr, size) == None {
        FoundHits(places[1..], addr, size);
      }
    }

    /** An address that no object made so far ends after. */
    lemma {:induction false} EndBound(rs: set<Reference>) returns (top: nat)
      ensures forall r :: r in rs ==> r.obj.End() <= top
    {
      if rs == {} {
        top := 0;
      } else {
        var r :| r in rs;
        top := EndBound(rs - {r});
        top := if top < r.obj.End() then r.obj.End() else top;
      }
    }

    /** The piece of a turn of Manager::memset gets on within the object, whatever the gap is. */
    lemma {:induction false} TurnGetsOn(o: Object, s: nat, left: nat)
      requires o.addr <= s < o.End() && left > 0
      ensures var gap := Manager.Gap(o, s);
        var left1 := Manager.LeftAfterGap(left, gap);
        var n := Manager.PieceInObject(o, gap, left1);
        0 <= n <= left1 && Manager.PastGap(s, gap) + n > s
    {
      hide Manager.Int32;
      Manager.GapExact(o, s);
    }

    /**
     The lookups of Manager::memset: the object of each position is released before the next is looked up.
     It is not `ok` when a null object is dereferenced.
     */
    method Memset(mode: Option<nat>, start: nat, size: nat) returns (ok: bool)
      requires Conserved()
      modifies `handles, all
      ensures Conserved() && handles == old(handles)
      ensures ok == (mode == None || Seen(maps, mode.value, start, 0))
    {
      hide Conserved, Visible, Seen, Answers, Manager.Gap, Manager.LeftAfterGap, Manager.PieceInObject, Manager.PastGap;
      if mode == None {
        return true;
      }
      var obj := GetObject(mode.value, start, 0);
      if obj == None {
        return false;
      }
      FoundHits(Visible(mode.value), start, 0);
      ok := true;
      if obj.value.obj.addr <= start && obj.value.obj.End() >= start + size {
        Release(obj.value);
        return;
      }
      MemsetLoop(mode.value, obj, start, size);
    }

    /** The object at a position, while there is anything left to set. */
    ghost predicate AtPosition(obj: Option<Reference>, s: nat, left: nat, others: multiset<Reference>)
      reads this
    {
      && handles == others + (if left > 0 then Handle(obj) else multiset{})
      && (left > 0 && obj.Some? ==> obj.value in all && obj.value.obj.addr <= s < obj.value.obj.End())
    }

    method MemsetLoop(mode: nat, first: Option<Reference>, start: nat, size: nat)
      requires Conserved() && first.Some? && first.value in handles && size > 0
      requires first.value.obj.addr <= start < first.value.obj.End()
      modifies `handles, all
      ensures Conserved() && handles == old(handles) - Handle(first)
    {
      hide Conserved, AtPosition;
      ghost var others := handles - Handle(first);
      ghost var top := EndBound(all);
      var obj, left, s := first, size, start;
      FirstPosition(obj, s, left, others);
      while left > 0
        invariant Conserved() && all == old(all) && AtPosition(obj, s, left, others)
        decreases if s <= top then top + 1 - s else 0, left
      {
        s, left := TurnOver(obj, s, left, others, top);
        obj := LookUp(mode, s, left, others);
      }
      LastPosition(obj, s, others);
    }

    lemma {:induction false} FirstPosition(obj: Option<Reference>, s: nat, left: nat, others: multiset<Reference>)
      requires Conserved() && obj.Some? && obj.value in handles && left > 0
      requires obj.value.obj.addr <= s < obj.value.obj.End()
      requires others == handles - Handle(obj)
      ensures AtPosition(obj, s, left, others)
    {
      hide Conserved;
      HandleIsLive(obj.value);
    }

    lemma {:induction false} LastPosition(obj: Option<Reference>, s: nat, others: multiset<Reference>)
      requires AtPosition(obj, s, 0, others)
      ensures handles == others
    {
    }

    /** A turn of the loop up to the lookup at the end of it: no object is held there. */
    method TurnOver(obj: Option<Reference>, start: nat, size: nat, ghost others: multiset<Reference>, ghost top: nat)
      returns (s: nat, left: nat)
      requires Conserved() && AtPosition(obj, start, size, others) && size > 0
      requires forall r :: r in all ==> r.obj.End() <= top
      modifies `handles, all
      ensures Conserved() && handles == others
      ensures (start < s && start < top) || (s == start && left == 0)
    {
      hide Conserved;
      s, left := start, 0;
      if obj.Some? {
        left, s := Turn(obj.value, start, size);
      }
    }

    /** The lookup at the end of a turn, when there is anything left to set. */
    method LookUp(mode: nat, s: nat, left: nat, ghost others: multiset<Reference>) returns (obj: Option<Reference>)
      requires Conserved() && handles == others
      modifies `handles, all
      ensures Conserved() && AtPosition(obj, s, left, others)
    {
      hide Conserved, Visible;
      obj := None;
      if left > 0 {
        obj := GetObject(mode, s, 0);
        if obj.Some? {
          FoundHits(Visible(mode), s, 0);
        }
      }
    }

    /** A turn of the loop of Manager::memset with an object, which is released at the end of it. */
    method Turn(r: Reference, start: nat, size: nat) returns (left: nat, s: nat)
      requires Conserved() && r in handles && size > 0 && r.obj.addr <= start < r.obj.End()
      modifies `handles, r
      ensures Conserved() && handles == old(handles) - multiset{r} && s > start
    {
      hide Conserved, Manager.Gap, Manager.LeftAfterGap, Manager.PieceInObject, Manager.PastGap;
      TurnGetsOn(r.obj, start, size);
      var gap := Manager.Gap(r.obj, start);
      left := Manager.LeftAfterGap(size, gap);
      var objSize: nat := Manager.PieceInObject(r.obj, gap, left);
      left := left - objSize;
      s := Manager.PastGap(start, gap) + objSize;
      Release(r);
    }

    /** The first object of a range, when the range has an owner. */
    method First(mode: Option<nat>, addr: nat, size: nat) returns (r: Option<Reference>)
      requires Conserved()
      modifies `handles, all
      ensures Conserved() && handles == old(handles) + Handle(r) && (r.Some? ==> mode.Some?)
      ensures Ahead(r, addr, size)
    {
      hide Conserved, Visible;
      r := None;
      if mode.Some? {
        r := GetObject(mode.value, addr, size);
        if r.Some? {
          FoundHits(Visible(mode.value), addr, size);
        }
      }
    }

    /** Replace an object by that of a later address when the copy is past its end. */
    method Next(mode: Option<nat>, obj: Option<Reference>, addr: nat, left: nat, ghost others: multiset<Reference>)
      returns (r: Option<Reference>)
      requires Conserved() && handles == others + Handle(obj) && (obj.Some? ==> mode.Some?)
      requires obj.Some? ==> obj.value.obj.addr <= addr + left
      modifies `handles, all
      ensures Conserved() && handles == others + Handle(r) && (r.Some? ==> mode.Some?)
      ensures Ahead(r, addr, left)
    {
      hide Conserved, Visible;
      r := obj;
      if mode.Some? && obj.Some? && obj.value.obj.End() < addr {
        Drop(obj, others);
        r := GetObject(mode.value, addr, left);
        if r.Some? {
          FoundHits(Visible(mode.value), addr, left);
        }
      }
    }

    method Drop(obj: Option<Reference>, ghost others: multiset<Reference>)
      requires Conserved() && handles == others + Handle(obj)
      modifies `handles, all
      ensures Conserved() && handles == others
    {
      hide Conserved;
      if obj.Some? {
        HandleIsLive(obj.value);
        Release(obj.value);
      }
    }

    /** The replacements at the start of an iteration. */
    method NextBoth(dstMode: Option<nat>, srcMode: Option<nat>, d: Option<Reference>, s: Option<Reference>, dst: nat,
        src: nat, left: nat, ghost others: multiset<Reference>)
      returns (dstObject: Option<Reference>, srcObject: Option<Reference>)
      requires Conserved() && handles == others + Handle(d) + Handle(s)
      requires (d.Some? ==> dstMode.Some?) && (s.Some? ==> srcMode.Some?)
      requires Ahead(d, dst, left) && Ahead(s, src, left)
      modifies `handles, all
      ensures Conserved() && handles == others + Handle(dstObject) + Handle(srcObject)
      ensures (dstObject.Some? ==> dstMode.Some?) && (srcObject.Some? ==> srcMode.Some?)
      ensures Ahead(dstObject, dst, left) && Ahead(srcObject, src, left)
    {
      hide Conserved, Handle;
      assert handles == others + Handle(s) + Handle(d);
      dstObject := Next(dstMode, d, dst, left, others + Handle(s));
      assert handles == others + Handle(dstObject) + Handle(s);
      srcObject := Next(srcMode, s, src, left, others + Handle(dstObject));
    }

    /**
     The lookups of Manager::memcpy. It is not `ended` when an iteration copies nothing, as then all the
     later ones do; the references it holds are not released.
     */
    method Memcpy(dstMode: Option<nat>, srcMode: Option<nat>, dst: nat, src: nat, size: nat) returns (ended: bool)
      requires Conserved()
      modifies `handles, all
      ensures Conserved() && old(handles) <= handles && (ended ==> handles == old(handles))
    {
      hide Conserved, Handle, Manager.PieceSize, Ahead;
      ended := true;
      if dstMode == None && srcMode == None {
        return;
      }
      ghost var others := handles;
      var dstObject := First(dstMode, dst, size);
      var srcObject := First(srcMode, src, size);
      var left: nat, offset: nat := size, 0;
      while left > 0
        invariant Conserved() && all == old(all) && offset + left == size
        invariant handles == others + Handle(dstObject) + Handle(srcObject)
        invariant (dstObject.Some? ==> dstMode.Some?) && (srcObject.Some? ==> srcMode.Some?)
        invariant Ahead(dstObject, dst + offset, left) && Ahead(srcObject, src + offset, left)
      {
        dstObject, srcObject :=
          NextBoth(dstMode, srcMode, dstObject, srcObject, dst + offset, src + offset, left, others);
        PieceAhead(dst + offset, src + offset, left, dstObject, srcObject);
        var copySize := Manager.PieceSize(dst + offset, src + offset, left, ObjectOf(dstObject), ObjectOf(srcObject));
        if copySize == 0 {
          return false;
        }
        offset := offset + copySize;
        left := left - copySize;
      }
      assert handles == others + Handle(srcObject) + Handle(dstObject);
      Drop(dstObject, others + Handle(srcObject));
      Drop(srcObject, others);
    }

    /** Process::makeOrphan, when the last owner of a held object goes: it is never deleted on the way. */
    method MakeOrphan(r: Reference)
      requires Conserved() && r in all && r.refs > 0
      modifies `maps, r
      ensures Conserved() && r.refs > 0
      ensures Holders(maps, r) == old(Holders(maps, r)) + {Orphans} - {Shared}
    {
      hide Holds;
      var inserted := AddObject(Orphans, r);
      var removed := RemoveObject(Shared, r);
      assert Orphans in Holders(maps, r);
      assert Counted(r);
    }

    /** The memory of `o` belongs to no object of the maps: what the allocator guarantees. */
    predicate Unused(o: Object)
      reads `maps
    {
      o.size > 0 && forall p :: p in maps ==> forall e :: e in maps[p] ==> Apart(maps[p][e].obj, o)
    }

    lemma {:induction false} UnusedIsVacant(o: Object)
      requires Conserved() && handles == multiset{} && Unused(o)
      ensures Vacant(o)
    {
      hide Keyed, Apart;
      forall r | r in all && r.refs > 0
        ensures Apart(r.obj, o)
      {
        assert Counted(r);
        var p :| p in Holders(maps, r);
        assert Holds(maps, p, r);
      }
    }

    /** A call; it does not come to a good end if it is not `ok`. */
    method Perform(call: Call) returns (ok: bool)
      requires Conserved() && handles == multiset{}
      modifies this, all
      ensures ok ==> Conserved() && handles == multiset{}
      ensures old(all) <= all && fresh(all - old(all))
      ensures !ok ==> call.Deallocate? || call.Set? || call.Copy?
      ensures Conserved() <==> ok || !call.Deallocate?
      ensures call.Deallocate? ==> ok == old(Freeable(call.mode, call.addr))
    {
      hide Conserved, Vacant, Unused, Visible, Freeable, FreesWell, Seen, Answers;
      ok := true;
      match call
      case Allocate(mode, integrated, created, owned) =>
        if created.Some? && Unused(created.value) {
          UnusedIsVacant(created.value);
          var addr, r := Alloc(mode, integrated, created, owned);
        } else {
          var addr, r := Alloc(mode, integrated, None, owned);
        }
      case Deallocate(mode, addr) =>
        FreeableFound(mode, addr);
        ok := FreesWell(mode, addr);
        var found, r := Free(mode, addr);
      case ReadFault(mode, addr) =>
        var handled := SignalRead(mode, addr);
      case WriteFault(mode, addr, answer) =>
        var handled := SignalWrite(mode, addr, answer);
      case Lookup(addr, size, choice) =>
        var mode := Owner(addr, size, choice);
      case Set(mode, start, size) =>
        ok := Memset(mode, start, size);
      case Copy(dstMode, srcMode, dst, src, size) =>
        ok := Memcpy(dstMode, srcMode, dst, src, size);
      case Orphan(mode, addr) =>
        var r := FindFrom(maps, [Own(mode)], addr, 0);
        if r.Some? {
          FoundIsLive(r.value);
          MakeOrphan(r.value);
        }
    }

    /** When no caller keeps a reference, an object is deleted exactly if no map holds it. */
    lemma {:induction false} Settled(r: Reference)
      requires Conserved() && handles == multiset{} && r in all
      ensures r.refs == |Holders(maps, r)| && r.deletions <= 1 && (r.deletions == 1 <==> Holders(maps, r) == {})
    {
      hide Keyed, Holders;
      assert Counted(r);
    }

    /**
     Any calls, until one does not come to a good end: it frees the inside of a host-mapped object,
     dereferences a null object or goes on for ever. After `n` good ones that were all, the count of every
     object ever made is the number of maps that hold it, and it has been deleted once if there are none
     and not at all otherwise. Counts stop being conserved only with a bad free.
     */
    method Run(calls: seq<Call>) returns (n: nat)
      requires Conserved() && handles == multiset{}
      modifies this, all
      ensures old(all) <= all && fresh(all - old(all)) && n <= |calls|
      ensures n < |calls| ==> calls[n].Deallocate? || calls[n].Set? || calls[n].Copy?
      ensures Conserved() <==> n == |calls| || !calls[n].Deallocate?
      ensures n == |calls| ==> handles == multiset{}
      ensures n == |calls| ==> forall r :: r in all ==>
        r.refs == |Holders(maps, r)| && r.deletions <= 1 && (r.deletions == 1 <==> Holders(maps, r) == {})
    {
      hide Conserved, Holders;
      n := 0;
      while n < |calls|
        invariant 0 <= n <= |calls| && Conserved() && handles == multiset{}
        invariant old(all) <= all && fresh(all - old(all))
      {
        var ok := Perform(calls[n]);
        if !ok {
          return;
        }
        n := n + 1;
      }
      forall r | r in all
        ensures r.refs == |Holders(maps, r)| && r.deletions <= 1 && (r.deletions == 1 <==> Holders(maps, r) == {})
      {
        Settled(r);
      }
    }
  }

  /** The maps AddressSpace::getObject looks in, in this order. */
  function Visible(mode: nat): seq<Place> {
    [Own(mode), Shared, Global, Orphans]
  }

  /** An object that mode 1 has allocated is seen by mode 2, and a free by mode 1 deletes it. */
  method AllocFreeExample() returns (p: Process, ghost r: Reference, seen: bool)
    ensures fresh(p) && p.Conserved() && r.obj.addr == 10 && r.obj.size == 8
    ensures seen && r.refs == 0 && r.deletions == 1 && Holders(p.maps, r) == {}
  {
    hide Process.Conserved, Process.Vacant, Find, Holders, Seen, Answers, HitIn, NoneHit, Process.Freeable;
    p := new Process();
    var o := new Object(10, 8, [], 8);
    p.NoneLive(o);
    var addr, made := p.Alloc(1, false, Some(o), true);
    r := made.value;
    assert p.all == {r};
    p.SoleAnswer(r, 1, 10);
    p.SoleAnswer(r, 2, 12);
    seen := p.SignalRead(2, 12);
    p.SoleAnswer(r, 1, 10);
    ghost var maps0 := p.maps;
    var found, freed := p.Free(1, 10);
    OneAnswer(maps0, 1, 10, 0, freed, Some(r));
    p.Emptied(r);
  }

  /** An object of 8 bytes at address 10 that is freed at address 12 is deleted while the set still holds it. */
  method DanglingExample() returns (p: Process, ghost r: Reference)
    ensures fresh(p) && r.obj.addr == 10 && r.obj.size == 8
    ensures !p.Conserved() && r.refs == 0 && r.deletions == 1 && HostMapped in Holders(p.maps, r)
  {
    hide Process.Conserved, Process.Vacant, Find, Holders;
    p := new Process();
    var o := new Object(10, 8, [], 8);
    p.NoneLive(o);
    var addr, made := p.HostMappedAlloc(Some(o));
    r := made.value;
    assert p.all == {r};
    p.SoleFound(r, 12);
    var found, freed := p.FreeHostMapped(12);
    assert |Holders(p.maps, r)| == 1;
  }

  /**
   What AddressSpace::removeObject leaves of the holders of an object: the mode is none of them any more,
   and just one of the other maps lets go of it.
   */
  ghost predicate Removed(before: set<Place>, after: set<Place>, mode: nat) {
    && (Shared in before ==> after == before - {Own(mode), Shared})
    && (Shared !in before && Global in before ==> after == before - {Own(mode), Global})
    && (Shared !in before && Global !in before ==> after == before - {Own(mode), Orphans})
  }

  function ObjectOf(r: Option<Reference>): Option<Object> {
    if r.Some? then Some(r.value.obj) else None
  }

  /** The copy is not past the end of the object, which starts at or before the end of the range. */
  ghost predicate Ahead(r: Option<Reference>, addr: nat, left: nat) {
    r.Some? ==> addr <= r.value.obj.End() && r.value.obj.addr <= addr + left
  }

  /** A piece stays within the range and the objects. */
  lemma {:induction false} PieceAhead(dst: nat, src: nat, left: nat, d: Option<Reference>, s: Option<Reference>)
    requires Ahead(d, dst, left) && Ahead(s, src, left)
    ensures var n := Manager.PieceSize(dst, src, left, ObjectOf(d), ObjectOf(s));
      0 <= n <= left && Ahead(d, dst + n, left - n) && Ahead(s, src + n, left - n)
  {
  }

  ghost function Handle(r: Option<Reference>): multiset<Reference> {
    if r.Some? then multiset{r.value} else multiset{}
  }

  /** A call of the memory manager, with what its environment decides. */
  datatype Call =
    | Allocate(mode: nat, integrated: bool, created: Option<Object>, owned: bool)
    | Deallocate(mode: nat, addr: nat)
    | ReadFault(mode: nat, addr: nat)
    | WriteFault(mode: nat, addr: nat, handled: bool)
    | Lookup(addr: nat, size: nat, choice: nat)
    | Set(owner: Option<nat>, start: nat, size: nat)
    | Copy(dstMode: Option<nat>, srcMode: Option<nat>, dst: nat, src: nat, size: nat)
    | Orphan(mode: nat, addr: nat)
}

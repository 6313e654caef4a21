/**
 The index of shared objects: a std::map from the end address of an object to the object. A lookup is
 an upper_bound on the end addresses followed by one comparison; for disjoint non-empty objects it is
 proved to be the linear scan for the lowest object of the range.
 */
module ObjectIndex {
  import opened Arithmetic
  import opened SharedObject
  import opened Wrappers

  predicate Apart(a: Object, b: Object) {
    a.End() <= b.addr || b.End() <= a.addr
  }

  /** The entries are keyed by end address, and their objects are non-empty and disjoint. */
  ghost predicate Index(entries: map<nat, Object>) {
    && (forall e :: e in entries ==> entries[e].End() == e && entries[e].size > 0)
    && (forall e, f :: e in entries && f in entries && e != f ==> Apart(entries[e], entries[f]))
  }

  /** std::map::upper_bound: the least key greater than `a`. */
  function UpperBound(keys: set<nat>, a: nat): (r: Option<nat>)
    ensures r == None ==> forall k :: k in keys ==> k <= a
    ensures r.Some? ==> r.value in keys && a < r.value && forall k :: k in keys && a < k ==> r.value <= k
  {
    var above := set k | k in keys && a < k;
    assert forall k :: k in keys && a < k ==> k in above;
    if above == {} then
      None
    else
      LeastExists(above);
      var k :| k in above && IsLeast(above, k);
      Some(k)
  }

  /** ObjectMap::mapFind */
  function MapFind(entries: map<nat, Object>, addr: nat, size: nat): (r: Option<Object>)
    ensures r.Some? ==> r.value in entries.Values
  {
    match UpperBound(entries.Keys, addr)
    case None => None
    case Some(e) => if entries[e].addr <= addr + size then Some(entries[e]) else None
  }

  /** The object ends after `addr` and starts at or before `addr + size`. */
  predicate Hit(o: Object, addr: nat, size: nat) {
    addr < o.End() && o.addr <= addr + size
  }

  /** A linear scan for the lowest hit. */
  function Scan(objs: seq<Object>, addr: nat, size: nat): (r: Option<Object>) {
    if objs == [] then None else
      var r := Scan(objs[1..], addr, size);
      if Hit(objs[0], addr, size) && (r == None || objs[0].addr < r.value.addr) then Some(objs[0]) else r
  }

  lemma {:induction false} ScanLowest(objs: seq<Object>, addr: nat, size: nat)
    ensures Scan(objs, addr, size) == None ==> forall o :: o in objs ==> !Hit(o, addr, size)
    ensures var r := Scan(objs, addr, size);
      r.Some? ==> r.value in objs && Hit(r.value, addr, size) && forall o :: o in objs && Hit(o, addr, size) ==>
        r.value.addr <= o.addr
  {
    if objs != [] {
      ScanLowest(objs[1..], addr, size);
    }
  }

  ghost predicate Lists(objs: seq<Object>, entries: map<nat, Object>) {
    (set o | o in objs) == entries.Values
  }

  /** The lookup refines the linear scan, in whatever order the objects are listed. */
  lemma {:induction false} MapFindIsScan(entries: map<nat, Object>, objs: seq<Object>, addr: nat, size: nat)
    requires Index(entries) && Lists(objs, entries)
    ensures MapFind(entries, addr, size) == Scan(objs, addr, size)
  {
    ScanLowest(objs, addr, size);
    var r := MapFind(entries, addr, size);
    match r
    case None =>
      forall o | o in objs
        ensures !Hit(o, addr, size)
      {
        assert o in (set x | x in objs);
        NoHit(entries, o, addr, size);
      }
    case Some(found) =>
      assert found in (set o | o in objs) && Hit(found, addr, size);
      var o := Scan(objs, addr, size).value;
      assert o in (set x | x in objs);
      assert o in entries.Values;
      assert entries[o.End()] == o && entries[found.End()] == found;
  }

  lemma {:induction false} NoHit(entries: map<nat, Object>, o: Object, addr: nat, size: nat)
    requires Index(entries) && o in entries.Values && MapFind(entries, addr, size) == None
    ensures !Hit(o, addr, size)
  {
    assert entries[o.End()] == o;
  }

  /** With size 0 the lookup finds exactly the object that contains the address. */
  lemma {:induction false} FindContaining(entries: map<nat, Object>, addr: nat, o: Object)
    requires Index(entries)
    ensures MapFind(entries, addr, 0) == Some(o) <==> o in entries.Values && o.addr <= addr < o.End()
  {
    if o in entries.Values && o.addr <= addr < o.End() {
      assert entries[o.End()] == o;
      var e := UpperBound(entries.Keys, addr).value;
      assert e == o.End();
    }
  }

  // ---- updates ----

  function Insert(entries: map<nat, Object>, o: Object): map<nat, Object> {
    if o.End() in entries then entries else entries[o.End() := o]
  }

  function Erase(entries: map<nat, Object>, o: Object): map<nat, Object> {
    entries - {o.End()}
  }

  /** `o` is non-empty, and a member or disjoint from every member. */
  ghost predicate Compatible(entries: map<nat, Object>, o: Object) {
    o.size > 0 && forall e :: e in entries ==> entries[e] == o || Apart(entries[e], o)
  }

  lemma {:induction false} InsertMember(entries: map<nat, Object>, o: Object)
    requires Index(entries) && Compatible(entries, o)
    ensures Index(Insert(entries, o)) && Insert(entries, o).Values == entries.Values + {o}
    ensures o.End() in entries <==> o in entries.Values
  {
    hide Apart;
    EndIsKey(entries, o);
    var after := Insert(entries, o);
    assert after[o.End()] == o;
    forall x | x in entries.Values
      ensures x in after.Values
    {
      assert after[x.End()] == x;
    }
  }

  /** An entry at the end of a compatible object is that object. */
  lemma {:induction false} EndIsKey(entries: map<nat, Object>, o: Object)
    requires Index(entries) && Compatible(entries, o)
    ensures o.End() in entries ==> entries[o.End()] == o
    ensures forall a, b :: Apart(a, b) ==> Apart(b, a)
  {
  }

  lemma {:induction false} EraseMember(entries: map<nat, Object>, o: Object)
    requires Index(entries) && Compatible(entries, o)
    ensures Index(Erase(entries, o)) && Erase(entries, o).Values == entries.Values - {o}
    ensures o.End() in entries <==> o in entries.Values
  {
    var after := Erase(entries, o);
    forall x | x in entries.Values && x != o
      ensures x in after.Values
    {
      assert entries[x.End()] == x;
      assert after[x.End()] == x;
    }
  }

  class ObjectMap {
    var entries: map<nat, Object>
    var modifiedObjects: bool
    var releasedObjects: bool

    constructor ()
      ensures entries == map[] && !modifiedObjects && !releasedObjects
    {
      entries := map[];
      modifiedObjects, releasedObjects := false, false;
    }

    method AddObject(o: Object) returns (inserted: bool)
      requires Index(entries) && Compatible(entries, o)
      modifies this
      ensures Index(entries) && entries.Values == old(entries.Values) + {o}
      ensures inserted <==> o !in old(entries.Values)
      ensures modifiedObjects && !releasedObjects
    {
      InsertMember(entries, o);
      inserted := o.End() !in entries;
      entries := Insert(entries, o);
      modifiedObjects, releasedObjects := true, false;
    }

    method RemoveObject(o: Object) returns (removed: bool)
      requires Index(entries) && Compatible(entries, o)
      modifies `entries
      ensures Index(entries) && entries.Values == old(entries.Values) - {o}
      ensures removed <==> o in old(entries.Values)
    {
      EraseMember(entries, o);
      removed := o.End() in entries;
      if removed {
        entries := Erase(entries, o);
      }
    }

    /** True exactly for the members, whatever other object is asked for. */
    method HasObject(o: Object) returns (r: bool)
      requires Index(entries)
      ensures r <==> o in entries.Values
    {
      HasMember(entries, o);
      r := MapFind(entries, o.addr, o.size) == Some(o);
    }
  }

  lemma {:induction false} HasMember(entries: map<nat, Object>, o: Object)
    requires Index(entries)
    ensures MapFind(entries, o.addr, o.size) == Some(o) <==> o in entries.Values
  {
    if o in entries.Values {
      assert entries[o.End()] == o;
      var e := UpperBound(entries.Keys, o.addr).value;
      assert e == o.End();
    }
  }

  // ---- any sequence of updates ----

  datatype Update = Add(o: Object) | Remove(o: Object)

  ghost function Replay(us: seq<Update>): map<nat, Object> {
    if us == [] then map[] else
      var before := Replay(us[..|us| - 1]);
      match us[|us| - 1]
      case Add(o) => Insert(before, o)
      case Remove(o) => Erase(before, o)
  }

  ghost function Members(us: seq<Update>): set<Object> {
    if us == [] then {} else
      var before := Members(us[..|us| - 1]);
      match us[|us| - 1]
      case Add(o) => before + {o}
      case Remove(o) => before - {o}
  }

  /** The objects the updates mention are non-empty and pairwise disjoint. */
  ghost predicate Disjoint(us: seq<Update>) {
    && (forall k :: 0 <= k < |us| ==> us[k].o.size > 0)
    && (forall j, k :: 0 <= j < k < |us| ==> us[j].o == us[k].o || Apart(us[j].o, us[k].o))
  }

  lemma {:induction false} ReplayMembers(us: seq<Update>)
    requires Disjoint(us)
    ensures Index(Replay(us)) && Replay(us).Values == Members(us)
    ensures forall o :: o in Members(us) ==> exists k :: 0 <= k < |us| && us[k].o == o
  {
    if us != [] {
      var front, last := us[..|us| - 1], us[|us| - 1];
      ReplayMembers(front);
      var before := Replay(front);
      forall e | e in before
        ensures before[e] == last.o || Apart(before[e], last.o)
      {
        assert before[e] in Members(front);
        var k :| 0 <= k < |front| && front[k].o == before[e];
        assert us[k].o == before[e];
      }
      if last.Add? {
        InsertMember(before, last.o);
      } else {
        EraseMember(before, last.o);
      }
      forall o | o in Members(us)
        ensures exists k :: 0 <= k < |us| && us[k].o == o
      {
        if o in Members(front) {
          var k :| 0 <= k < |front| && front[k].o == o;
          assert us[k].o == o;
        } else {
          assert us[|us| - 1].o == o;
        }
      }
    }
  }

  /** After any updates of disjoint objects, a lookup is the linear scan over the current members. */
  lemma {:induction false} FindAfterUpdates(us: seq<Update>, objs: seq<Object>, addr: nat, size: nat)
    requires Disjoint(us) && (set o | o in objs) == Members(us)
    ensures MapFind(Replay(us), addr, size) == Scan(objs, addr, size)
  {
    ReplayMembers(us);
    MapFindIsScan(Replay(us), objs, addr, size);
  }
}

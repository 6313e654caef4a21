/**
 Who owns an object, and at which accelerator address: one list of modes per accelerator address. The
 lists of an object and those of its blocks change by the same two operations.
 */
module OwnerLists {
  import opened Wrappers

  /** An execution mode; modes are ordered, as the pointers that key the owner maps are. */
  type Mode = nat

  /** accptr_t: an address in the address space of an accelerator. */
  datatype AccPtr = AccPtr(pas: nat, addr: int) {
    function Plus(off: int): AccPtr { AccPtr(pas, addr + off) }
  }

  type Lists = map<AccPtr, seq<Mode>>

  ghost predicate NoDuplicates(s: seq<Mode>) {
    forall i, j :: 0 <= i < j < |s| ==> s[i] != s[j]
  }

  /** No list is empty, and no mode is listed twice. */
  ghost predicate Good(l: Lists) {
    && (forall a :: a in l ==> |l[a]| > 0 && NoDuplicates(l[a]))
    && (forall a, b :: a in l && b in l && a != b ==> forall m :: m in l[a] ==> m !in l[b])
  }

  ghost function Listed(l: Lists): set<Mode> {
    set a, m | a in l && m in l[a] :: m
  }

  /** Push a mode to the list of an address, creating the list when there is none. */
  function AddTo(l: Lists, a: AccPtr, m: Mode): Lists {
    if a in l then l[a := l[a] + [m]] else l[a := [m]]
  }

  /** std::list::erase of the first occurrence. */
  function EraseOne(s: seq<Mode>, m: Mode): seq<Mode> {
    if s == [] then [] else if s[0] == m then s[1..] else [s[0]] + EraseOne(s[1..], m)
  }

  /** Erase a mode from the list of an address, and the address with its last mode. */
  function RemoveAt(l: Lists, a: AccPtr, m: Mode): Lists
    requires a in l
  {
    var rest := EraseOne(l[a], m);
    if rest == [] then l - {a} else l[a := rest]
  }

  lemma {:induction false} EraseOneMembers(s: seq<Mode>, m: Mode)
    requires m in s && NoDuplicates(s)
    ensures forall x :: x in EraseOne(s, m) <==> x in s && x != m
    ensures NoDuplicates(EraseOne(s, m)) && |EraseOne(s, m)| == |s| - 1
  {
    if s[0] != m {
      EraseOneMembers(s[1..], m);
      var rest := EraseOne(s[1..], m);
      forall j | 0 <= j < |rest|
        ensures rest[j] != s[0]
      {
        assert rest[j] in s[1..];
      }
    }
  }

  /** Adding a mode appends it to the list of its address, or starts that list; the others stay. */
  lemma {:induction false} AddToPlaces(l: Lists, a: AccPtr, m: Mode)
    ensures var l' := AddTo(l, a, m);
      && a in l' && l'[a] == (if a in l then l[a] else []) + [m]
      && forall b :: b != a ==> (b in l' <==> b in l) && (b in l' ==> l'[b] == l[b])
  {
  }

  /** Erasing takes out one place of the list and keeps the order of the others. */
  lemma {:induction false} EraseOnePlace(s: seq<Mode>, m: Mode, i: nat)
    requires i < |s| && s[i] == m && m !in s[..i]
    ensures EraseOne(s, m) == s[..i] + s[i + 1..]
  {
    if i > 0 {
      assert s[0] == s[..i][0];
      assert s[1..][..i - 1] == s[..i][1..];
      EraseOnePlace(s[1..], m, i - 1);
    }
  }

  /** Removing a mode from a list takes it out of that list, and the list with its last mode; the others stay. */
  lemma {:induction false} RemoveAtPlaces(l: Lists, a: AccPtr, m: Mode, i: nat)
    requires a in l && i < |l[a]| && l[a][i] == m && m !in l[a][..i]
    ensures var l' := RemoveAt(l, a, m);
      && (|l[a]| == 1 ==> a !in l')
      && (|l[a]| > 1 ==> a in l' && l'[a] == l[a][..i] + l[a][i + 1..])
      && forall b :: b != a ==> (b in l' <==> b in l) && (b in l' ==> l'[b] == l[b])
  {
    EraseOnePlace(l[a], m, i);
  }

  lemma {:induction false} PushGood(s: seq<Mode>, m: Mode)
    requires NoDuplicates(s) && m !in s
    ensures NoDuplicates(s + [m])
  {
  }

  lemma {:induction false} AddToListed(l: Lists, a: AccPtr, m: Mode)
    ensures Listed(AddTo(l, a, m)) == Listed(l) + {m}
  {
    var l' := AddTo(l, a, m);
    assert m in l'[a];
    forall b, x | b in l && x in l[b]
      ensures b in l' && x in l'[b]
    {
    }
  }

  lemma {:induction false} AddToGood(l: Lists, a: AccPtr, m: Mode)
    requires Good(l) && m !in Listed(l)
    ensures Good(AddTo(l, a, m))
    ensures |Listed(AddTo(l, a, m))| == |Listed(l)| + 1
  {
    hide Listed, NoDuplicates;
    AddToListed(l, a, m);
    ListedIn(l);
    if a in l {
      PushGood(l[a], m);
    } else {
      SingleGood(m);
    }
  }

  lemma {:induction false} ListedIn(l: Lists)
    ensures forall b :: b in l ==> forall x :: x in l[b] ==> x in Listed(l)
  {
  }

  lemma {:induction false} SingleGood(m: Mode)
    ensures NoDuplicates([m])
  {
  }

  lemma {:induction false} RemoveAtGood(l: Lists, a: AccPtr, m: Mode)
    requires Good(l) && a in l && m in l[a]
    ensures Good(RemoveAt(l, a, m)) && Listed(RemoveAt(l, a, m)) == Listed(l) - {m}
    ensures m in Listed(l) && |Listed(RemoveAt(l, a, m))| == |Listed(l)| - 1
  {
    hide NoDuplicates;
    var l' := RemoveAt(l, a, m);
    EraseOneMembers(l[a], m);
    assert forall b :: b in l && b != a ==> b in l' && l'[b] == l[b];
    forall x | x in Listed(l) - {m}
      ensures x in Listed(l')
    {
      var b :| b in l && x in l[b];
      assert b in l' && x in l'[b];
    }
  }

  // ---- the owner map of a block ----

  /** Each mode of the lists is mapped to the address that lists it, and no other mode is mapped. */
  ghost predicate Inverse(l: Lists, owners: map<Mode, AccPtr>) {
    && (forall m :: m in owners ==> owners[m] in l && m in l[owners[m]])
    && (forall a :: a in l ==> forall m :: m in l[a] ==> m in owners && owners[m] == a)
  }

  lemma {:induction false} InverseAdd(l: Lists, owners: map<Mode, AccPtr>, a: AccPtr, m: Mode)
    requires Inverse(l, owners) && m !in owners
    ensures Inverse(AddTo(l, a, m), owners[m := a])
  {
  }

  lemma {:induction false} InverseRemove(l: Lists, owners: map<Mode, AccPtr>, m: Mode)
    requires Good(l) && Inverse(l, owners) && m in owners
    ensures Inverse(RemoveAt(l, owners[m], m), owners - {m})
  {
    EraseOneMembers(l[owners[m]], m);
  }

  /** The keys of the inverse are the modes listed. */
  lemma {:induction false} InverseKeys(l: Lists, owners: map<Mode, AccPtr>)
    requires Inverse(l, owners)
    ensures owners.Keys == Listed(l)
  {
  }

  /** The total length of the lists. */
  ghost function Sum(l: Lists): nat {
    if l == map[] then 0 else
      var a :| a in l;
      |l[a]| + Sum(l - {a})
  }

  ghost function Modes(s: seq<Mode>): set<Mode> {
    set m | m in s
  }

  lemma {:induction false} Without(l: Lists, a: AccPtr)
    requires Good(l) && a in l
    ensures Good(l - {a}) && NoDuplicates(l[a])
    ensures Listed(l) == Modes(l[a]) + Listed(l - {a}) && Modes(l[a]) !! Listed(l - {a})
  {
    hide NoDuplicates;
    var rest := l - {a};
    forall b, m | b in l && m in l[b] && b != a
      ensures b in rest && m in rest[b]
    {
    }
  }

  lemma {:induction false} LengthIsSize(s: seq<Mode>)
    requires NoDuplicates(s)
    ensures |s| == |Modes(s)|
  {
    if s != [] {
      LengthIsSize(s[1..]);
      assert forall k :: 0 <= k < |s[1..]| ==> s[1..][k] == s[k + 1] != s[0];
      assert s[0] !in Modes(s[1..]);
      assert Modes(s) == Modes(s[1..]) + {s[0]};
    }
  }

  /** The list lengths sum to the number of modes listed. */
  lemma {:induction false} SumIsListed(l: Lists)
    requires Good(l)
    ensures Sum(l) == |Listed(l)|
    decreases l, 1
  {
    if l == map[] {
      assert Listed(l) == {};
    } else {
      var a :| a in l && Sum(l) == |l[a]| + Sum(l - {a});
      SumStep(l, a);
    }
  }

  lemma {:induction false} SumStep(l: Lists, a: AccPtr)
    requires Good(l) && a in l
    ensures |l[a]| + Sum(l - {a}) == |Listed(l)|
    decreases l, 0
  {
    hide *;
    Without(l, a);
    SumIsListed(l - {a});
    LengthIsSize(l[a]);
  }
}

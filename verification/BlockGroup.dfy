/**
 A group of coherence blocks that share one object: which modes own it, where each of them has its copy,
 and how a host address is translated. The objects of the group are updated in place; `Valid` is the
 invariant every successful operation keeps.
 */
module BlockGroup {
  import opened Arithmetic
  import opened OwnerLists
  import opened Wrappers

  /** The null accelerator pointer. */
  const NO_ADDRESS := AccPtr(0, 0)

  class GenericBlock {
    const addr: nat
    const size: nat
    var lists: Lists
    var owners: map<Mode, AccPtr>
    var ownerShortcut: Option<Mode>

    constructor (addr: nat, size: nat)
      ensures this.addr == addr && this.size == size
      ensures lists == map[] && owners == map[] && ownerShortcut == None
    {
      this.addr, this.size := addr, size;
      lists, owners, ownerShortcut := map[], map[], None;
    }

    /** The owner map is the inverse of the address lists. */
    ghost predicate Consistent()
      reads this
    {
      Good(lists) && Inverse(lists, owners)
    }

    method AddOwner(mode: Mode, acc: AccPtr)
      requires Consistent() && mode !in owners
      modifies this
      ensures Consistent() && owners == old(owners)[mode := acc] && lists == AddTo(old(lists), acc, mode)
      ensures acc in lists && lists[acc] == (if acc in old(lists) then old(lists)[acc] + [mode] else [mode])
      ensures forall a :: a != acc ==> (a in lists <==> a in old(lists)) && (a in lists ==> lists[a] == old(lists)[a])
      ensures ownerShortcut == if |owners| == 1 then Some(mode) else old(ownerShortcut)
    {
      hide AddTo, Good, Inverse, Listed;
      InverseKeys(lists, owners);
      AddToPlaces(lists, acc, mode);
      AddToGood(lists, acc, mode);
      InverseAdd(lists, owners, acc, mode);
      lists := AddTo(lists, acc, mode);
      owners := owners[mode := acc];
      if |owners| == 1 {
        ownerShortcut := Some(mode);
      }
    }

    /** The list that holds the mode is found by going through all the addresses. */
    method RemoveOwner(mode: Mode)
      requires Consistent() && mode in owners
      modifies this
      ensures Consistent() && owners == old(owners) - {mode}
      ensures lists == RemoveAt(old(lists), old(owners)[mode], mode) && ownerShortcut == old(ownerShortcut)
    {
      RemoveAtGood(lists, owners[mode], mode);
      InverseRemove(lists, owners, mode);
      var acc := FindList(lists, mode);
      lists := RemoveAt(lists, acc, mode);
      owners := owners - {mode};
    }

    /** The owner an operation of `current` uses. The shortcut is not refreshed when an owner is removed. */
    function Owner(current: Mode): Mode
      requires |owners| > 0 && (|owners| == 1 ==> ownerShortcut.Some?)
      reads this
    {
      if |owners| == 1 then ownerShortcut.value
      else if current in owners then current else FirstKey(owners)
    }

    /** The address at this block's accelerator copy, for a host address within the block. */
    function AcceleratorAddr(current: Mode, a: int): AccPtr
      reads this
    {
      if |owners| == 1 then
        SoleKey(owners);
        var m :| m in owners;
        owners[m].Plus(a - addr)
      else if current in owners then owners[current].Plus(a - addr) else NO_ADDRESS
    }
  }

  // ---- the shortcut of a block, over any history ----

  datatype Change = Join(mode: Mode, acc: AccPtr) | Leave(mode: Mode)

  /** Who owns a block, and which mode last joined it while it had no owners. */
  datatype History = History(members: set<Mode>, first: Option<Mode>)

  ghost function After(us: seq<Change>): (h: History)
    ensures h.members != {} ==> h.first.Some?
  {
    if us == [] then History({}, None) else
      var h := After(us[..|us| - 1]);
      match us[|us| - 1]
      case Join(m, _) => History(h.members + {m}, if h.members == {} then Some(m) else h.first)
      case Leave(m) => History(h.members - {m}, h.first)
  }

  /** Modes join that are no owners, and owners leave. */
  ghost predicate Legal(us: seq<Change>) {
    us == [] ||
    (Legal(us[..|us| - 1]) &&
      var owners := After(us[..|us| - 1]).members;
      match us[|us| - 1]
      case Join(m, _) => m !in owners
      case Leave(m) => m in owners)
  }

  /** The shortcut names an owner. */
  ghost predicate ShortcutOwns(b: GenericBlock)
    reads b
  {
    b.ownerShortcut.Some? && b.ownerShortcut.value in b.owners
  }

  lemma {:induction false} LegalPrefix(us: seq<Change>, k: nat)
    requires Legal(us) && k <= |us|
    ensures Legal(us[..k])
  {
    if k < |us| {
      LegalPrefix(us[..|us| - 1], k);
      assert us[..|us| - 1][..k] == us[..k];
    } else {
      assert us[..k] == us;
    }
  }

  lemma {:induction false} NextChange(us: seq<Change>, k: nat)
    requires Legal(us) && k < |us|
    ensures var h, h' := After(us[..k]), After(us[..k + 1]);
      match us[k]
      case Join(m, _) => m !in h.members && h' == History(h.members + {m}, if h.members == {} then Some(m) else h.first)
      case Leave(m) => m in h.members && h' == History(h.members - {m}, h.first)
  {
    LegalPrefix(us, k + 1);
    assert us[..k + 1][..k] == us[..k];
  }

  /**
   The shortcut of a block is the mode that last joined it while it had no owners, whatever happened since.
   So with a single owner it names that owner exactly if the mode that came first has not left.
   */
  method Replay(addr: nat, size: nat, us: seq<Change>) returns (b: GenericBlock)
    requires Legal(us)
    ensures fresh(b) && b.Consistent() && b.addr == addr && b.size == size
    ensures b.owners.Keys == After(us).members && b.ownerShortcut == After(us).first
    ensures |b.owners| == 1 ==>
      (ShortcutOwns(b) <==> After(us).first.Some? && After(us).first.value in After(us).members)
  {
    hide Good, Inverse, Legal, After, AddTo, RemoveAt;
    b := new GenericBlock(addr, size);
    NewBlocksKnow([b], 0);
    assert Knows([b][0], map[], 0);
    var k := 0;
    NoChange();
    while k < |us|
      invariant 0 <= k <= |us| && fresh(b) && b.Consistent() && b.addr == addr && b.size == size
      invariant b.owners.Keys == After(us[..k]).members && b.ownerShortcut == After(us[..k]).first
    {
      NextChange(us, k);
      PerformChange(b, us[k], After(us[..k]), After(us[..k + 1]));
      k := k + 1;
    }
    assert us[..k] == us;
  }

  /** One change of a history. */
  method PerformChange(b: GenericBlock, c: Change, ghost h: History, ghost h': History)
    requires b.Consistent() && b.owners.Keys == h.members && b.ownerShortcut == h.first
    requires match c
      case Join(m, _) => m !in h.members && h' == History(h.members + {m}, if h.members == {} then Some(m) else h.first)
      case Leave(m) => m in h.members && h' == History(h.members - {m}, h.first)
    modifies b
    ensures b.Consistent() && b.owners.Keys == h'.members && b.ownerShortcut == h'.first
  {
    hide Good, Inverse, AddTo, RemoveAt;
    match c {
      case Join(m, acc) =>
        JoinedSize(b.owners, m, acc);
        b.AddOwner(m, acc);
      case Leave(m) =>
        b.RemoveOwner(m);
    }
  }

  lemma {:induction false} NoChange()
    ensures After([]) == History({}, None)
  {
  }

  lemma {:induction false} JoinedSize(owners: map<Mode, AccPtr>, m: Mode, acc: AccPtr)
    requires m !in owners
    ensures |owners[m := acc]| == 1 <==> owners.Keys == {}
  {
    assert owners[m := acc].Keys == owners.Keys + {m};
    assert |owners[m := acc].Keys| == |owners.Keys| + 1;
  }

  /** The first key in the order of an owner map. */
  function FirstKey(owners: map<Mode, AccPtr>): (m: Mode)
    requires |owners| > 0
    ensures m in owners && forall k :: k in owners ==> m <= k
  {
    assert owners.Keys != {} by { assert |owners.Keys| > 0; }
    LeastExists(owners.Keys);
    var k :| k in owners.Keys && IsLeast(owners.Keys, k);
    k
  }

  lemma {:induction false} SoleKey(owners: map<Mode, AccPtr>)
    requires |owners| == 1
    ensures exists m :: m in owners
    ensures forall m, n :: m in owners && n in owners ==> m == n
  {
    var k :| k in owners.Keys;
    var rest := owners.Keys - {k};
    assert |rest| == 0;
    assert forall m :: m in owners ==> m == k || m in rest;
  }

  /** The loop over the address lists that looks for the list of a mode. */
  method FindList(lists: Lists, mode: Mode) returns (acc: AccPtr)
    requires Good(lists) && mode in Listed(lists)
    ensures acc in lists && mode in lists[acc]
  {
    var todo := lists.Keys;
    while true
      invariant todo <= lists.Keys && exists a :: a in todo && mode in lists[a]
      decreases todo
    {
      acc :| acc in todo;
      if mode in lists[acc] {
        return;
      }
      todo := todo - {acc};
    }
  }

  /** Consecutive blocks from `addr` on, all of size `b` except perhaps the last one. */
  ghost predicate Chain(blocks: seq<GenericBlock>, addr: nat, b: nat) {
    && (forall k :: 0 <= k < |blocks| ==> 0 < blocks[k].size <= b)
    && (forall k :: 0 <= k < |blocks| - 1 ==> blocks[k].size == b && blocks[k + 1].addr == blocks[k].addr + b)
    && (|blocks| > 0 ==> blocks[0].addr == addr)
  }

  ghost function EndOf(blocks: seq<GenericBlock>, addr: nat): nat {
    if blocks == [] then addr else blocks[|blocks| - 1].addr + blocks[|blocks| - 1].size
  }

  ghost predicate Distinct(blocks: seq<GenericBlock>) {
    forall j, k :: 0 <= j < k < |blocks| ==> blocks[j] != blocks[k]
  }

  /** blocks_.upper_bound(a): the first block whose end lies beyond `a`. */
  function UpperBlock(blocks: seq<GenericBlock>, a: int): (k: nat)
    ensures k <= |blocks| && (k < |blocks| ==> a < blocks[k].addr + blocks[k].size)
    ensures forall j :: 0 <= j < k ==> blocks[j].addr + blocks[j].size <= a
  {
    if blocks == [] || a < blocks[0].addr + blocks[0].size then 0
    else
      var k := UpperBlock(blocks[1..], a);
      assert forall j :: 1 <= j < 1 + k ==> blocks[j] == blocks[1..][j - 1];
      1 + k
  }

  lemma {:induction false} ChainAddr(blocks: seq<GenericBlock>, addr: nat, b: nat, k: nat)
    requires Chain(blocks, addr, b) && k < |blocks|
    ensures addr <= blocks[k].addr && blocks[k].addr + blocks[k].size <= EndOf(blocks, addr)
    ensures k > 0 ==> blocks[k].addr == blocks[k - 1].addr + blocks[k - 1].size
  {
    ChainFrom(blocks, addr, b, k);
    ChainTo(blocks, addr, b, k);
  }

  lemma {:induction false} ChainFrom(blocks: seq<GenericBlock>, addr: nat, b: nat, k: nat)
    requires Chain(blocks, addr, b) && k < |blocks|
    ensures addr <= blocks[k].addr
  {
    if k > 0 {
      ChainFrom(blocks, addr, b, k - 1);
      assert blocks[k - 1 + 1].addr == blocks[k - 1].addr + b;
    }
  }

  lemma {:induction false} ChainTo(blocks: seq<GenericBlock>, addr: nat, b: nat, k: nat)
    requires Chain(blocks, addr, b) && k < |blocks|
    ensures blocks[k].addr + blocks[k].size <= EndOf(blocks, addr)
    decreases |blocks| - k
  {
    if k < |blocks| - 1 {
      ChainTo(blocks, addr, b, k + 1);
    }
  }

  /** The keyed lookup finds the block that contains the address. */
  lemma {:induction false} UpperBlockContains(blocks: seq<GenericBlock>, addr: nat, b: nat, a: nat)
    requires Chain(blocks, addr, b) && addr <= a < EndOf(blocks, addr)
    ensures var k := UpperBlock(blocks, a);
      k < |blocks| && blocks[k].addr <= a < blocks[k].addr + blocks[k].size
  {
    var k := UpperBlock(blocks, a);
    if k < |blocks| {
      ChainAddr(blocks, addr, b, k);
    }
  }

  /** A block of the group at `base` knows every owner, at the owner's address plus the offset of the block. */
  ghost predicate Knows(b: GenericBlock, lists: Lists, base: nat)
    reads b
  {
    && b.Consistent()
    && b.owners.Keys == Listed(lists)
    && (forall a :: a in lists ==> forall m :: m in lists[a] && m in b.owners ==> b.owners[m] == a.Plus(b.addr - base))
  }

  /** Adding an owner to one block of the group. */
  method AddOwnerTo(b: GenericBlock, mode: Mode, acc: AccPtr, base: nat, ghost lists: Lists)
    requires Knows(b, lists, base) && mode !in Listed(lists)
    modifies b
    ensures Knows(b, AddTo(lists, acc, mode), base)
  {
    hide Inverse, Good, Listed, AddTo;
    AddToListed(lists, acc, mode);
    ListedIn(lists);
    NewlyListed(lists, acc, mode);
    b.AddOwner(mode, acc.Plus(b.addr - base));
  }

  /** The modes listed for an address were listed for it before, or it is the new owner at its address. */
  lemma {:induction false} NewlyListed(lists: Lists, acc: AccPtr, mode: Mode)
    ensures forall a :: a in AddTo(lists, acc, mode) ==> forall m :: m in AddTo(lists, acc, mode)[a] ==>
      (a in lists && m in lists[a]) || (a == acc && m == mode)
  {
  }

  /** Removing an owner from one block of the group. */
  method RemoveOwnerFrom(b: GenericBlock, mode: Mode, base: nat, ghost lists: Lists, ghost acc: AccPtr)
    requires Knows(b, lists, base) && Good(lists) && acc in lists && mode in lists[acc]
    modifies b
    ensures Knows(b, RemoveAt(lists, acc, mode), base)
  {
    hide Inverse, Good, RemoveAt;
    RemoveAtGood(lists, acc, mode);
    StillListed(lists, acc, mode);
    b.RemoveOwner(mode);
  }

  /** The modes still listed for an address were listed for it before. */
  lemma {:induction false} StillListed(lists: Lists, acc: AccPtr, mode: Mode)
    requires Good(lists) && acc in lists && mode in lists[acc]
    ensures forall a :: a in RemoveAt(lists, acc, mode) ==>
      a in lists && forall m :: m in RemoveAt(lists, acc, mode)[a] ==> m in lists[a]
  {
    EraseOneMembers(lists[acc], mode);
  }

  class BlockGroup {
    var addr: nat
    const size: nat
    const blockSize: nat
    const hasUserMemory: bool
    var blocks: seq<GenericBlock>
    var lists: Lists
    var owners: nat
    var ownerShortcut: Option<Mode>
    var locked: bool

    constructor (hostAddr: Option<nat>, size: nat, blockSize: nat)
      requires size > 0 && blockSize > 0
      ensures Valid() && blocks == [] && lists == map[] && owners == 0
      ensures this.size == size && this.blockSize == blockSize && hasUserMemory == hostAddr.Some? && !locked
    {
      addr := if hostAddr.Some? then hostAddr.value else 0;
      this.size, this.blockSize, hasUserMemory := size, blockSize, hostAddr.Some?;
      blocks, lists, owners, ownerShortcut, locked := [], map[], 0, None, false;
    }

    /** The blocks, once there are any, partition the object. */
    ghost predicate Tiled()
      reads `addr, `blocks
    {
      && size > 0 && blockSize > 0
      && Chain(blocks, addr, blockSize) && Distinct(blocks)
      && (blocks != [] ==> EndOf(blocks, addr) == addr + size)
    }

    /** Each mode is in one non-empty list, all of them are counted, and a sole owner is the shortcut. */
    ghost predicate Counted()
      reads `lists, `owners, `ownerShortcut
    {
      && Good(lists) && owners == |Listed(lists)|
      && (owners == 1 ==> ownerShortcut.Some? && Listed(lists) == {ownerShortcut.value})
      && (owners != 1 ==> ownerShortcut == None)
    }

    ghost predicate Valid()
      reads `addr, `blocks, `lists, `owners, `ownerShortcut, blocks
    {
      && Tiled() && Counted()
      && (blocks == [] <==> owners == 0)
      && (forall k :: 0 <= k < |blocks| ==> Knows(blocks[k], lists, addr))
    }

    /** Cut the object into blocks. */
    method PopulateBlocks()
      requires blocks == [] && size > 0 && blockSize > 0
      modifies `blocks
      ensures Tiled() && blocks != []
      ensures forall k :: 0 <= k < |blocks| ==> fresh(blocks[k])
      ensures forall k :: 0 <= k < |blocks| ==>
        blocks[k].lists == map[] && blocks[k].owners == map[] && blocks[k].ownerShortcut == None
    {
      hide Chain, Distinct, EndOf;
      var mark, left := addr, size;
      NoBlocks(addr, blockSize);
      while left > 0
        invariant 0 <= left <= size && mark == addr + (size - left)
        invariant Chain(blocks, addr, blockSize) && Distinct(blocks) && EndOf(blocks, addr) == mark
        invariant left < size ==> blocks != []
        invariant left > 0 ==> forall k :: 0 <= k < |blocks| ==> blocks[k].size == blockSize
        invariant forall k :: 0 <= k < |blocks| ==> fresh(blocks[k])
        invariant forall k :: 0 <= k < |blocks| ==>
          blocks[k].lists == map[] && blocks[k].owners == map[] && blocks[k].ownerShortcut == None
      {
        var n := if left > blockSize then blockSize else left;
        var block := new GenericBlock(mark, n);
        assert forall k :: 0 <= k < |blocks| ==> blocks[k] != block;
        ChainExtend(blocks, addr, blockSize, block);
        blocks := blocks + [block];
        mark := mark + n;
        left := left - n;
      }
    }

    /** Tell every block about a new owner. */
    method AddOwnerToAll(mode: Mode, acc: AccPtr, ghost before: Lists)
      requires Distinct(blocks) && mode !in Listed(before)
      requires forall k :: 0 <= k < |blocks| ==> Knows(blocks[k], before, addr)
      modifies blocks
      ensures forall k :: 0 <= k < |blocks| ==> Knows(blocks[k], AddTo(before, acc, mode), addr)
    {
      hide Good, Inverse, Listed, AddTo;
      var i := 0;
      while i < |blocks|
        invariant 0 <= i <= |blocks|
        invariant forall k :: 0 <= k < i ==> Knows(blocks[k], AddTo(before, acc, mode), addr)
        invariant forall k :: i <= k < |blocks| ==> Knows(blocks[k], before, addr)
        modifies blocks
      {
        AddOwnerTo(blocks[i], mode, acc, addr, before);
        i := i + 1;
      }
    }

    /** Make every block forget an owner. */
    method RemoveOwnerFromAll(mode: Mode, ghost before: Lists, ghost acc: AccPtr)
      requires Distinct(blocks) && Good(before) && acc in before && mode in before[acc]
      requires forall k :: 0 <= k < |blocks| ==> Knows(blocks[k], before, addr)
      modifies blocks
      ensures forall k :: 0 <= k < |blocks| ==> Knows(blocks[k], RemoveAt(before, acc, mode), addr)
    {
      hide Good, Inverse, Listed, RemoveAt;
      var j := 0;
      while j < |blocks|
        invariant 0 <= j <= |blocks|
        invariant forall k :: 0 <= k < j ==> Knows(blocks[k], RemoveAt(before, acc, mode), addr)
        invariant forall k :: j <= k < |blocks| ==> Knows(blocks[k], before, addr)
        modifies blocks
      {
        RemoveOwnerFrom(blocks[j], mode, addr, before, acc);
        j := j + 1;
      }
    }

    /** The host memory of a group without blocks is allocated anew; whatever comes of it, nothing else changes. */
    method MapHost(host: Option<nat>, mapped: bool) returns (ok: bool)
      requires Valid() && blocks == []
      modifies `addr
      ensures Valid() && ok == (host.Some? && mapped)
      ensures addr == if host.Some? then host.value else 0
    {
      hide Good, Listed, Distinct;
      addr := if host.Some? then host.value else 0;
      ok := host.Some? && mapped;
      NoBlocks(addr, blockSize);
    }

    /** The part of BlockGroup::addOwner that comes after the allocations. */
    method Join(mode: Mode, acc: AccPtr)
      requires Valid() && mode !in Listed(lists)
      modifies `lists, `owners, `ownerShortcut, `blocks, blocks
      ensures Valid() && lists == AddTo(old(lists), acc, mode) && owners == old(owners) + 1
      ensures if old(blocks) == [] then forall k :: 0 <= k < |blocks| ==> fresh(blocks[k]) else blocks == old(blocks)
    {
      hide Good, Inverse, Listed, AddTo, Chain, Distinct, EndOf, Knows;
      AddToGood(lists, acc, mode);
      AddToListed(lists, acc, mode);
      if |blocks| == 0 {
        NoOwners(lists);
        PopulateBlocks();
        NewBlocksKnow(blocks, addr);
      }
      AddOwnerToAll(mode, acc, lists);
      lists := AddTo(lists, acc, mode);
      ownerShortcut := if owners == 0 then Some(mode) else None;
      owners := owners + 1;
    }

    /**
     BlockGroup::addOwner, for a mode that is not an owner yet. The environment decides what accelerator
     and host memory there is, and whether the host memory can be `mapped`. The first owner brings the
     blocks; when an allocation fails there is no new owner.
     */
    method AddOwner(mode: Mode, acc: Option<AccPtr>, host: Option<nat>, mapped: bool) returns (ok: bool)
      requires Valid() && mode !in Listed(lists) && !locked
      modifies this, blocks
      ensures Valid() && !locked && ok == (acc.Some? && (old(blocks) == [] ==> host.Some? && mapped))
      ensures ok ==> lists == AddTo(old(lists), acc.value, mode) && owners == old(owners) + 1
      ensures ok && old(blocks) == [] ==> addr == host.value && forall k :: 0 <= k < |blocks| ==> fresh(blocks[k])
      ensures !ok ==> lists == old(lists) && owners == old(owners)
      ensures !ok || old(blocks) != [] ==> blocks == old(blocks)
      ensures old(blocks) != [] || acc == None ==> addr == old(addr)
    {
      hide Good, Inverse, Listed, AddTo, Valid;
      if acc == None {
        return false;
      }
      locked := true;
      ok := true;
      if |blocks| == 0 {
        ok := MapHost(host, mapped);
      }
      if ok {
        Join(mode, acc.value);
      }
      locked := false;
    }

    /**
     BlockGroup::removeOwner, for a mode that is an owner. With the last owner the blocks go, too; with
     the last but one, the remaining owner becomes the shortcut. An object that has lost its last owner is
     `orphaned` unless its memory is the user's.
     */
    method RemoveOwner(mode: Mode) returns (orphaned: bool)
      requires Valid() && mode in Listed(lists) && !locked
      modifies this, blocks
      ensures Valid() && !locked && orphaned == (owners == 0 && !hasUserMemory)
      ensures owners == old(owners) - 1 && Listed(lists) == Listed(old(lists)) - {mode}
      ensures exists acc :: acc in old(lists) && mode in old(lists)[acc] && lists == RemoveAt(old(lists), acc, mode)
      ensures blocks == (if old(owners) == 1 then [] else old(blocks)) && addr == old(addr)
    {
      hide Good, Inverse, Listed, RemoveAt, Knows, Chain, Distinct, EndOf;
      locked, orphaned := true, false;
      var acc := FindList(lists, mode);
      RemoveAtGood(lists, acc, mode);
      NoBlocks(addr, blockSize);
      if owners == 1 {
        NoOwners(RemoveAt(lists, acc, mode));
        orphaned := !hasUserMemory;
        lists := map[];
        blocks := [];
        ownerShortcut := None;
      } else {
        RemoveOwnerFromAll(mode, lists, acc);
        lists := RemoveAt(lists, acc, mode);
        if owners == 2 {
          var last := SoleOwner(lists);
          ownerShortcut := Some(last);
        }
      }
      owners := owners - 1;
      locked := false;
    }

    /** BlockGroup::repopulateBlocks: a new block for each old one, at the same place, with a single owner. */
    method RepopulateBlocks(acc: AccPtr, mode: Mode)
      requires Tiled()
      modifies `blocks
      ensures Tiled() && |blocks| == |old(blocks)|
      ensures forall k :: 0 <= k < |blocks| ==>
        fresh(blocks[k]) && blocks[k].addr == old(blocks)[k].addr && blocks[k].size == old(blocks)[k].size
      ensures forall k :: 0 <= k < |blocks| ==> Knows(blocks[k], AddTo(map[], acc, mode), addr)
    {
      hide Knows, AddTo, Inverse, Good, Chain, Distinct;
      ghost var before := blocks;
      var i, offset := 0, 0;
      if i < |blocks| {
        ChainStart(before, addr, blockSize);
      }
      while i < |blocks|
        invariant 0 <= i <= |blocks| == |before|
        invariant i < |blocks| ==> addr + offset == before[i].addr
        invariant forall k :: 0 <= k < i ==>
          fresh(blocks[k]) && blocks[k].addr == before[k].addr && blocks[k].size == before[k].size
        invariant forall k :: 0 <= k < i ==> Knows(blocks[k], AddTo(map[], acc, mode), addr)
        invariant forall j, k :: 0 <= j < k < i ==> blocks[j] != blocks[k]
        invariant forall k :: i <= k < |blocks| ==> blocks[k] == before[k]
      {
        var oldBlock := blocks[i];
        var newBlock := NewOwnedBlock(addr + offset, oldBlock.size, addr, acc, mode);
        blocks := blocks[i := newBlock];
        offset := offset + oldBlock.size;
        i := i + 1;
        if i < |blocks| {
          ChainAddr(before, addr, blockSize, i);
        }
      }
      SameChain(before, blocks, addr, blockSize);
    }

    /** The sole owner, and what its object consists of. */
    lemma {:induction false} SoleFacts()
      requires Valid() && owners == 1
      ensures Tiled() && blocks != [] && ownerShortcut.Some?
    {
    }

    /** One owner at one address, known to every block. */
    lemma {:induction false} SoleValid(acc: AccPtr)
      requires Tiled() && blocks != [] && owners == 1 && ownerShortcut.Some?
      requires lists == AddTo(map[], acc, ownerShortcut.value)
      requires forall k :: 0 <= k < |blocks| ==> Knows(blocks[k], AddTo(map[], acc, ownerShortcut.value), addr)
      ensures Valid() && lists == map[acc := [ownerShortcut.value]]
    {
      hide Tiled, Knows, AddTo, Good, Listed;
      OnlyOwner(acc, ownerShortcut.value);
    }

    /**
     BlockGroup::mapToAccelerator: a single owner moves its copy, if there is accelerator memory; `mapped` is
     what the protocol answers. With several owners it is not supported, and the lock is not released.
     */
    method MapToAccelerator(acc: Option<AccPtr>, mapped: bool) returns (ok: bool)
      requires Valid() && !locked
      modifies `blocks, `lists, `locked
      ensures Valid() && ok == (owners == 1 && acc.Some? && mapped) && locked == (owners != 1)
      ensures owners == 1 && acc.Some? ==>
        lists == map[acc.value := [ownerShortcut.value]] && |blocks| == |old(blocks)|
      ensures owners == 1 && acc.Some? ==> forall k :: 0 <= k < |blocks| ==>
        fresh(blocks[k]) && blocks[k].addr == old(blocks)[k].addr && blocks[k].size == old(blocks)[k].size
      ensures owners != 1 || acc == None ==> blocks == old(blocks) && lists == old(lists)
    {
      hide *;
      locked := true;
      if owners != 1 {
        return false;
      }
      ok := acc.Some? && mapped;
      if acc.Some? {
        SoleFacts();
        RepopulateBlocks(acc.value, ownerShortcut.value);
        lists := AddTo(map[], acc.value, ownerShortcut.value);
        SoleValid(acc.value);
      }
      locked := false;
    }

    /** BlockGroup::acceleratorAddr */
    function AcceleratorAddr(current: Mode, a: int): AccPtr
      reads this, blocks
    {
      var k := UpperBlock(blocks, a);
      if k < |blocks| then blocks[k].AcceleratorAddr(current, a) else NO_ADDRESS
    }

    /** BlockGroup::owner */
    function Owner(current: Mode, a: nat): (r: Mode)
      requires if owners == 1 then ownerShortcut.Some?
        else UpperBlock(blocks, a) < |blocks| && |blocks[UpperBlock(blocks, a)].owners| > 1
      reads this, blocks
    {
      if owners == 1 then ownerShortcut.value else blocks[UpperBlock(blocks, a)].Owner(current)
    }

    /** The keyed lookup of a host address of the object finds a block that knows all the owners. */
    lemma {:induction false} GroupBlock(a: nat)
      requires Valid() && owners > 0 && addr <= a < addr + size
      ensures Good(lists) && |Listed(lists)| == owners
      ensures UpperBlock(blocks, a) < |blocks|
      ensures var b := blocks[UpperBlock(blocks, a)];
        Knows(b, lists, addr) && |b.owners| == owners && b.owners.Keys == Listed(lists)
    {
      hide Good, Listed, Inverse, Distinct;
      UpperBlockContains(blocks, addr, blockSize, a);
      var b := blocks[UpperBlock(blocks, a)];
      assert Knows(b, lists, addr);
      assert |b.owners.Keys| == owners;
    }

    /** The owner of an address is an owner of the object, and the current mode if that is one. */
    lemma {:induction false} OwnerIsListed(current: Mode, a: nat)
      requires Valid() && owners > 0 && addr <= a < addr + size
      ensures owners == 1 ==> ownerShortcut.Some?
      ensures owners > 1 ==> UpperBlock(blocks, a) < |blocks| && |blocks[UpperBlock(blocks, a)].owners| == owners
      ensures Owner(current, a) in Listed(lists)
      ensures current in Listed(lists) ==> Owner(current, a) == current
      ensures owners == 1 ==> Owner(current, a) == ownerShortcut.value && Listed(lists) == {ownerShortcut.value}
      ensures owners > 1 && current !in Listed(lists) ==> forall m :: m in Listed(lists) ==> Owner(current, a) <= m
    {
      hide Tiled, Good, Listed, Knows, UpperBlock;
      GroupBlock(a);
    }

    /**
     Every host address of the object translates to its owner's base plus the offset within the object;
     with a single owner this is so for every mode, otherwise other modes get the null pointer.
     */
    lemma {:induction false} Translation(current: Mode, a: nat)
      requires Valid() && owners > 0 && addr <= a < addr + size
      ensures forall base :: base in lists && current in lists[base] ==>
        AcceleratorAddr(current, a) == base.Plus(a - addr)
      ensures forall base :: base in lists && owners == 1 ==> AcceleratorAddr(current, a) == base.Plus(a - addr)
      ensures owners > 1 && current !in Listed(lists) ==> AcceleratorAddr(current, a) == AccPtr(0, 0)
      ensures forall base :: base in lists && (current in lists[base] || owners == 1) ==>
        AcceleratorAddr(current, a).pas == base.pas && AcceleratorAddr(current, a).addr == base.addr + (a - addr)
    {
      hide Good, Listed, Knows, Valid, UpperBlock;
      GroupBlock(a);
      BlockTranslation(blocks[UpperBlock(blocks, a)], lists, addr, current, a);
    }
  }

  lemma {:induction false} ChainStart(blocks: seq<GenericBlock>, addr: nat, b: nat)
    requires Chain(blocks, addr, b) && blocks != []
    ensures blocks[0].addr == addr
  {
  }

  /** Blocks at the same places make the same chain. */
  lemma {:induction false} SameChain(before: seq<GenericBlock>, after: seq<GenericBlock>, addr: nat, b: nat)
    requires Chain(before, addr, b) && |after| == |before|
    requires forall k :: 0 <= k < |after| ==> after[k].addr == before[k].addr && after[k].size == before[k].size
    requires forall j, k :: 0 <= j < k < |after| ==> after[j] != after[k]
    ensures Chain(after, addr, b) && Distinct(after) && EndOf(after, addr) == EndOf(before, addr)
  {
    forall k | 0 <= k < |after| - 1
      ensures after[k].size == b && after[k + 1].addr == after[k].addr + b
    {
      assert before[k].size == b && before[k + 1].addr == before[k].addr + b;
    }
  }

  /** A new block of the group at `base`, owned by one mode. */
  method NewOwnedBlock(addr: nat, size: nat, base: nat, acc: AccPtr, mode: Mode) returns (b: GenericBlock)
    ensures fresh(b) && b.addr == addr && b.size == size && Knows(b, AddTo(map[], acc, mode), base)
  {
    hide Good, Inverse, Listed, AddTo;
    b := new GenericBlock(addr, size);
    NewBlocksKnow([b], base);
    assert Knows([b][0], map[], base);
    NotListed(mode);
    AddOwnerTo(b, mode, acc, base, map[]);
  }

  lemma {:induction false} NoBlocks(addr: nat, b: nat)
    ensures Chain([], addr, b) && Distinct([]) && EndOf([], addr) == addr
  {
  }

  /** Full blocks, continued by one more. */
  lemma {:induction false} ChainExtend(blocks: seq<GenericBlock>, addr: nat, b: nat, last: GenericBlock)
    requires Chain(blocks, addr, b) && Distinct(blocks) && forall k :: 0 <= k < |blocks| ==>
      blocks[k].size == b && blocks[k] != last
    requires last.addr == EndOf(blocks, addr) && 0 < last.size <= b
    ensures Chain(blocks + [last], addr, b) && Distinct(blocks + [last])
    ensures EndOf(blocks + [last], addr) == last.addr + last.size
  {
  }

  lemma {:induction false} OnlyOwner(acc: AccPtr, mode: Mode)
    ensures var l := map[acc := [mode]];
      l == AddTo(map[], acc, mode) && Good(l) && Listed(l) == {mode} && |Listed(l)| == 1
  {
    NotListed(mode);
    AddToGood(map[], acc, mode);
    AddToListed(map[], acc, mode);
  }

  lemma {:induction false} NotListed(mode: Mode)
    ensures mode !in Listed(map[]) && Good(map[]) && |Listed(map[])| == 0
  {
    assert Listed(map[]) == {};
  }

  lemma {:induction false} BlockTranslation(b: GenericBlock, lists: Lists, base: nat, current: Mode, a: int)
    requires Knows(b, lists, base) && |b.owners| == |Listed(lists)| > 0 && Good(lists)
    ensures forall acc :: acc in lists && current in lists[acc] ==> b.AcceleratorAddr(current, a) == acc.Plus(a - base)
    ensures forall acc :: acc in lists && |Listed(lists)| == 1 ==> b.AcceleratorAddr(current, a) == acc.Plus(a - base)
    ensures |Listed(lists)| > 1 && current !in Listed(lists) ==> b.AcceleratorAddr(current, a) == NO_ADDRESS
  {
    ListedIn(lists);
    if |b.owners| == 1 {
      SoleKey(b.owners);
      SoleList(lists);
    }
  }

  lemma {:induction false} FirstListed(l: Lists, a: AccPtr)
    requires Good(l) && a in l
    ensures l[a][0] in l[a] && l[a][0] in Listed(l)
    ensures |l[a]| > 1 ==> l[a][1] != l[a][0] && l[a][1] in Listed(l)
  {
    ListedIn(l);
    assert forall i :: 0 <= i < |l[a]| ==> l[a][i] in l[a];
  }

  lemma {:induction false} NoOwners(l: Lists)
    requires Good(l) && |Listed(l)| == 0
    ensures l == map[] && Listed(l) == {}
  {
    if l != map[] {
      var a :| a in l;
      FirstListed(l, a);
    }
  }

  lemma {:induction false} NewBlocksKnow(blocks: seq<GenericBlock>, base: nat)
    requires forall k :: 0 <= k < |blocks| ==> blocks[k].lists == map[] && blocks[k].owners == map[]
    ensures forall k :: 0 <= k < |blocks| ==> Knows(blocks[k], map[], base)
  {
  }

  /** The only mode left, at the front of the only list left. */
  method SoleOwner(lists: Lists) returns (m: Mode)
    requires Good(lists) && |Listed(lists)| == 1
    ensures Listed(lists) == {m}
    ensures |lists| == 1
  {
    hide Good, Listed;
    SoleList(lists);
    var acc :| acc in lists;
    m := lists[acc][0];
    OneElement(Listed(lists), m);
  }

  lemma {:induction false} OneElement(s: set<Mode>, m: Mode)
    requires |s| == 1 && m in s
    ensures s == {m}
  {
    assert |s - {m}| == 0;
    assert s == (s - {m}) + {m};
  }

  /** With one owner there is one list, and it holds one mode. */
  lemma {:induction false} SoleList(lists: Lists)
    requires Good(lists) && |Listed(lists)| == 1
    ensures |lists| == 1 && (exists a :: a in lists)
    ensures forall a :: a in lists ==> |lists[a]| == 1 && lists[a][0] in Listed(lists)
  {
    var m :| m in Listed(lists);
    OneElement(Listed(lists), m);
    var acc :| acc in lists && m in lists[acc];
    forall a | a in lists
      ensures a == acc && |lists[a]| == 1
    {
      FirstListed(lists, a);
    }
    assert lists.Keys == {acc};
  }
}

/**
 `sstd::unique_handle`: a resource with one owner, released by the destructor of
 the handle that owns it last.

 `World` is the state of any number of handles; the class shows the same
 operations on two objects.
 */
module UniqueHandles {

  /** Resources are told apart by identity. Only an active handle owns its resource. */
  datatype Handle = Handle(resource: nat, active: bool)

  /** Handles alive, resources ever put into a handle, and the releases so far. */
  datatype World = World(live: map<nat, Handle>, owned: set<nat>, released: seq<nat>)

  datatype Op =
    | Construct(handle: nat, resource: nat)
    | MoveConstruct(to: nat, from: nat)
    | MoveAssign(to: nat, from: nat)
    | Destroy(handle: nat)

  /** What the language asks of the program: live operands, new objects, and a resource given away once. */
  predicate Enabled(w: World, op: Op) {
    match op
    case Construct(h, r) => h !in w.live && r !in w.owned
    case MoveConstruct(to, from) => to !in w.live && from in w.live
    case MoveAssign(to, from) => to in w.live && from in w.live
    case Destroy(h) => h in w.live
  }

  /** The body of the destructor. */
  function Release(w: World, h: nat): World
    requires h in w.live
  {
    var handle := w.live[h];
    if handle.active
    then w.(live := w.live[h := handle.(active := false)], released := w.released + [handle.resource])
    else w
  }

  /** `std::exchange(rhs.active_, false)` into `to`, together with the base object. */
  function Transfer(w: World, to: nat, from: nat): World
    requires from in w.live
  {
    var handle := w.live[from];
    w.(live := w.live[from := handle.(active := false)][to := handle])
  }

  function Apply(w: World, op: Op): World
    requires Enabled(w, op)
  {
    match op
    case Construct(h, r) => w.(live := w.live[h := Handle(r, true)], owned := w.owned + {r})
    case MoveConstruct(to, from) => Transfer(w, to, from)
    case MoveAssign(to, from) =>
      var released := Release(w, to);
      if to == from then released else Transfer(released, to, from)
    case Destroy(h) =>
      var released := Release(w, h);
      released.(live := released.live - {h})
  }

  // ---------- The invariant ----------

  /** Some live handle is active and holds `r`. */
  ghost predicate Held(w: World, r: nat) {
    exists h :: h in w.live && w.live[h].active && w.live[h].resource == r
  }

  /** A resource has at most one active handle, or one release, and never both. */
  ghost predicate Inv(w: World) {
    && (forall h :: h in w.live && w.live[h].active ==> w.live[h].resource in w.owned)
    && (forall h, k :: h in w.live && k in w.live && h != k && w.live[h].active && w.live[k].active ==>
                         w.live[h].resource != w.live[k].resource)
    && (forall r <- w.owned :: multiset(w.released)[r] == if Held(w, r) then 0 else 1)
    && (forall r <- w.released :: r in w.owned)
  }

  lemma ReleaseKeepsInv(w: World, h: nat)
    requires Inv(w) && h in w.live
    ensures Inv(Release(w, h)) && !Release(w, h).live[h].active
  {
    var v := Release(w, h);
    var x := w.live[h].resource;
    if w.live[h].active {
      forall r | r in v.owned
        ensures multiset(v.released)[r] == if Held(v, r) then 0 else 1
      {
        if r == x {
          assert Held(w, x);
          assert !Held(v, x);
        } else {
          SameHolders(w, v, r, h, h);
        }
      }
    }
  }

  /** Nothing but handles `a` and `b` differ, and they do not hold `r`: `r` is held as before. */
  lemma SameHolders(w: World, v: World, r: nat, a: nat, b: nat)
    requires forall k :: k != a && k != b ==> (k in w.live <==> k in v.live) && (k in w.live ==> w.live[k] == v.live[k])
    requires forall k :: (k == a || k == b) && k in w.live && w.live[k].active ==> w.live[k].resource != r
    requires forall k :: (k == a || k == b) && k in v.live && v.live[k].active ==> v.live[k].resource != r
    ensures Held(w, r) <==> Held(v, r)
  {
    if Held(w, r) {
      var k :| k in w.live && w.live[k].active && w.live[k].resource == r;
      assert k in v.live && v.live[k].active && v.live[k].resource == r;
    }
    if Held(v, r) {
      var k :| k in v.live && v.live[k].active && v.live[k].resource == r;
      assert k in w.live && w.live[k].active && w.live[k].resource == r;
    }
  }

  lemma TransferKeepsInv(w: World, to: nat, from: nat)
    requires Inv(w) && from in w.live && to != from
    requires to in w.live ==> !w.live[to].active
    ensures Inv(Transfer(w, to, from))
  {
    var v := Transfer(w, to, from);
    var x := w.live[from].resource;
    forall r | r in v.owned
      ensures Held(v, r) <==> Held(w, r)
    {
      if w.live[from].active && r == x {
        assert w.live[from].active && v.live[to].active && v.live[to].resource == x;
      } else {
        SameHolders(w, v, r, to, from);
      }
    }
  }

  lemma ConstructKeepsInv(w: World, h: nat, x: nat)
    requires Inv(w) && Enabled(w, Construct(h, x))
    ensures Inv(Apply(w, Construct(h, x)))
  {
    var v := Apply(w, Construct(h, x));
    forall r | r in v.owned
      ensures multiset(v.released)[r] == if Held(v, r) then 0 else 1
    {
      if r == x {
        assert v.live[h].active && v.live[h].resource == x;
        assert r !in w.released;
      } else {
        SameHolders(w, v, r, h, h);
      }
    }
  }

  lemma DestroyKeepsInv(w: World, h: nat)
    requires Inv(w) && h in w.live
    ensures Inv(Apply(w, Destroy(h)))
  {
    ReleaseKeepsInv(w, h);
    var u, v := Release(w, h), Apply(w, Destroy(h));
    forall r | r in v.owned
      ensures Held(v, r) <==> Held(u, r)
    {
      SameHolders(u, v, r, h, h);
    }
  }

  lemma ApplyKeepsInv(w: World, op: Op)
    requires Inv(w) && Enabled(w, op)
    ensures Inv(Apply(w, op))
  {
    match op
    case Construct(h, r) => ConstructKeepsInv(w, h, r);
    case MoveConstruct(to, from) => TransferKeepsInv(w, to, from);
    case MoveAssign(to, from) =>
      ReleaseKeepsInv(w, to);
      if to != from {
        TransferKeepsInv(Release(w, to), to, from);
      }
    case Destroy(h) => DestroyKeepsInv(w, h);
  }

  /**
   Move assignment moves the handle exactly when the two sides are different or
   there was nothing to move; an active handle assigned to itself is released.
   */
  lemma MoveAssignMovesIff(w: World, to: nat, from: nat)
    requires Enabled(w, MoveAssign(to, from))
    ensures Apply(w, MoveAssign(to, from)).live[to] == w.live[from] <==> to != from || !w.live[to].active
    ensures to == from && w.live[to].active ==>
              && !Apply(w, MoveAssign(to, from)).live[to].active
              && Apply(w, MoveAssign(to, from)).released == w.released + [w.live[to].resource]
  {
  }

  /** Between different handles it releases what the left side owned and takes over the right side's. */
  lemma MoveAssignMoves(w: World, to: nat, from: nat)
    requires Enabled(w, MoveAssign(to, from)) && to != from
    ensures
      var v := Apply(w, MoveAssign(to, from));
      && v.live.Keys == w.live.Keys && v.live[to] == w.live[from]
      && v.live[from] == Handle(w.live[from].resource, false)
      && (forall h :: h in w.live && h != to && h != from ==> v.live[h] == w.live[h])
      && v.released == w.released + (if w.live[to].active then [w.live[to].resource] else [])
      && v.owned == w.owned
  {
  }

  /** Move construction takes resource and activity over, leaves the source inactive and releases nothing. */
  lemma MoveConstructMoves(w: World, to: nat, from: nat)
    requires Enabled(w, MoveConstruct(to, from))
    ensures
      var v := Apply(w, MoveConstruct(to, from));
      && v.live.Keys == w.live.Keys + {to} && v.live[to] == w.live[from]
      && v.live[from] == Handle(w.live[from].resource, false)
      && (forall h :: h in w.live && h != from ==> v.live[h] == w.live[h])
      && v.released == w.released && v.owned == w.owned
  {
  }

  // ---------- Runs ----------

  const EMPTY := World(map[], {}, [])

  /** Operation after operation, each allowed where it happens. */
  ghost predicate IsRun(w: World, ops: seq<Op>, end: World)
    decreases |ops|
  {
    if ops == [] then end == w
    else Enabled(w, ops[0]) && IsRun(Apply(w, ops[0]), ops[1..], end)
  }

  lemma {:induction false} RunKeepsInv(w: World, ops: seq<Op>, end: World)
    requires Inv(w) && IsRun(w, ops, end)
    ensures Inv(end)
    decreases |ops|
  {
    if ops != [] {
      ApplyKeepsInv(w, ops[0]);
      RunKeepsInv(Apply(w, ops[0]), ops[1..], end);
    }
  }

  /**
   Over any run, self-assignments included: no two active handles own the same
   resource, none is released twice or while it is owned, and once every handle
   is destroyed each resource has been released exactly once.
   */
  lemma OwnershipOverRuns(ops: seq<Op>, end: World)
    requires IsRun(EMPTY, ops, end)
    ensures forall h, k :: h in end.live && k in end.live && h != k && end.live[h].active && end.live[k].active ==>
                             end.live[h].resource != end.live[k].resource
    ensures forall r :: multiset(end.released)[r] <= 1
    ensures forall h :: h in end.live && end.live[h].active ==> end.live[h].resource !in end.released
    ensures end.live == map[] ==> multiset(end.released) == multiset(end.owned)
  {
    RunKeepsInv(EMPTY, ops, end);
    forall r
      ensures multiset(end.released)[r] <= 1
    {
      if r !in end.owned {
        assert r !in end.released;
      }
    }
    forall h | h in end.live && end.live[h].active
      ensures end.live[h].resource !in end.released
    {
      assert Held(end, end.live[h].resource);
    }
    if end.live == map[] {
      forall r
        ensures multiset(end.released)[r] == multiset(end.owned)[r]
      {
        assert !Held(end, r);
        if r !in end.owned {
          assert r !in end.released;
        }
      }
    }
  }

  // ---------- Objects ----------

  /** Records the calls of the releaser. */
  class Ledger {
    ghost var released: seq<nat>

    constructor ()
      ensures released == []
    {
      released := [];
    }
  }

  class UniqueHandle {
    var resource: nat
    var active: bool
    const ledger: Ledger

    constructor (resource: nat, ledger: Ledger, ghost owned: set<nat>)
      ensures this.resource == resource && active && this.ledger == ledger
      ensures resource !in owned ==>
                World(map[0 := Handle(this.resource, active)], owned + {resource}, ledger.released)
                == Apply(World(map[], owned, ledger.released), Construct(0, resource))
    {
      this.resource, active, this.ledger := resource, true, ledger;
    }

    /** The world in which `this` is handle 0 and `rhs` is handle 1, or 0 if it is the same object. */
    ghost function WorldWith(rhs: UniqueHandle, owned: set<nat>): World
      reads this, rhs, ledger
    {
      World((if rhs == this then map[] else map[1 := Handle(rhs.resource, rhs.active)])[0 := Handle(resource, active)],
            owned, ledger.released)
    }

    /** The destructor. */
    method Destruct()
      modifies this`active, ledger
      ensures !active
      ensures ledger.released == old(ledger.released) + (if old(active) then [resource] else [])
      ensures forall owned: set<nat> ::
                World(map[], owned, ledger.released)
                == Apply(World(map[0 := Handle(resource, old(active))], owned, old(ledger.released)), Destroy(0))
    {
      if active {
        active := false;
        ledger.released := ledger.released + [resource];
      }
    }

    constructor Move(rhs: UniqueHandle, ghost owned: set<nat>)
      modifies rhs`active
      ensures resource == rhs.resource && active == old(rhs.active) && !rhs.active
      ensures ledger == rhs.ledger
      ensures WorldWith(rhs, owned) ==
              Apply(World(map[1 := Handle(rhs.resource, old(rhs.active))], owned, ledger.released), MoveConstruct(0, 1))
    {
      resource, active, ledger := rhs.resource, rhs.active, rhs.ledger;
      new;
      rhs.active := false;
    }

    method Assign(rhs: UniqueHandle, ghost owned: set<nat>)
      requires rhs.ledger == ledger
      modifies this`resource, this`active, rhs`active, ledger
      ensures WorldWith(rhs, owned) == Apply(old(WorldWith(rhs, owned)), MoveAssign(0, if rhs == this then 0 else 1))
    {
      Destruct();
      var wasActive := rhs.active;
      rhs.active := false;
      active := wasActive;
      resource := rhs.resource;
    }
  }
}

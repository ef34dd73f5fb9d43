/** The owning handle of external/Backward/backward.hpp: construct, move, assign,
    reset, release and destroy, over every run of a program that uses them. */
module Ownership {

  type Id = nat
  type Resource = nat

  /** The null value, which no handle owns. */
  const NULL: Resource := 0

  datatype Handle = Handle(val: Resource, empty: bool)

  /** The live handles, every resource ever handed to one, and what became of them. */
  datatype World = World(
    handles: map<Id, Handle>, created: set<Resource>,
    deleted: multiset<Resource>, released: multiset<Resource>)

  datatype Op =
    | NewEmpty(id: Id)
    | New(id: Id, res: Resource)
    | MoveNew(id: Id, from: Id)
    | Assign(id: Id, from: Id)
    | Reset(id: Id, res: Resource)
    | Release(id: Id)
    | Destroy(id: Id)

  /** What the destructor of a handle deletes. */
  function Deletes(h: Handle): multiset<Resource> {
    if h.empty then multiset{} else multiset{h.val}
  }

  function Made(res: Resource): Handle {
    Handle(res, res == NULL)
  }

  function MadeOf(res: Resource): set<Resource> {
    if res == NULL then {} else {res}
  }

  predicate IsNew(w: World, res: Resource) {
    res == NULL || res !in w.created
  }

  /** The caller's part: ids of live handles, resources that are handed over once,
      and no release of an empty handle. */
  predicate Allowed(w: World, op: Op) {
    match op
    case NewEmpty(id) => id !in w.handles
    case New(id, res) => id !in w.handles && IsNew(w, res)
    case MoveNew(id, from) => id !in w.handles && from in w.handles
    case Assign(id, from) => id in w.handles && from in w.handles
    case Reset(id, res) => id in w.handles && IsNew(w, res)
    case Release(id) => id in w.handles && !w.handles[id].empty
    case Destroy(id) => id in w.handles
  }

  function Swapped(hs: map<Id, Handle>, a: Id, b: Id): map<Id, Handle>
    requires a in hs && b in hs
  {
    hs[a := hs[b]][b := hs[a]]
  }

  function Step(w: World, op: Op): World
    requires Allowed(w, op)
  {
    match op
    case NewEmpty(id) => w.(handles := w.handles[id := Handle(NULL, true)])
    case New(id, res) => w.(handles := w.handles[id := Made(res)], created := w.created + MadeOf(res))
    case MoveNew(id, from) => w.(handles := Swapped(w.handles[id := Handle(NULL, true)], id, from))
    case Assign(id, from) => w.(handles := Swapped(w.handles, id, from))
    case Reset(id, res) =>
      w.(handles := w.handles[id := Made(res)], created := w.created + MadeOf(res),
         deleted := w.deleted + Deletes(w.handles[id]))
    case Release(id) =>
      w.(handles := w.handles[id := w.handles[id].(empty := true)], released := w.released + multiset{w.handles[id].val})
    case Destroy(id) => w.(handles := w.handles - {id}, deleted := w.deleted + Deletes(w.handles[id]))
  }

  predicate Owns(w: World, id: Id, res: Resource) {
    id in w.handles && !w.handles[id].empty && w.handles[id].val == res
  }

  ghost predicate HasOwner(w: World, res: Resource) {
    exists id :: Owns(w, id, res)
  }

  ghost predicate OneOwner(w: World, res: Resource) {
    forall a, b | Owns(w, a, res) && Owns(w, b, res) :: a == b
  }

  /** Every resource is in exactly one place: with one owner, deleted once, or released once. */
  ghost predicate Accounted(w: World) {
    forall res: Resource :: AccountedFor(w, res)
  }

  ghost predicate AccountedFor(w: World, res: Resource) {
    && OneOwner(w, res)
    && (HasOwner(w, res) ==> res in w.created)
    && w.deleted[res] + w.released[res] == if res in w.created && !HasOwner(w, res) then 1 else 0
  }

  /** After an exchange, ownership is the same up to the exchange of names. */
  function Renamed(a: Id, b: Id, id: Id): Id {
    if id == a then b else if id == b then a else id
  }

  lemma SwapAccounts(w: World, a: Id, b: Id)
    requires Accounted(w) && a in w.handles && b in w.handles
    ensures Accounted(w.(handles := Swapped(w.handles, a, b)))
  {
    var w' := w.(handles := Swapped(w.handles, a, b));
    forall id, res: Resource
      ensures Owns(w', id, res) <==> Owns(w, Renamed(a, b, id), res)
    {
    }
    forall res: Resource
      ensures AccountedFor(w', res)
    {
      assert AccountedFor(w, res);
      if HasOwner(w, res) {
        var id :| Owns(w, id, res);
        assert Renamed(a, b, Renamed(a, b, id)) == id;
        assert Owns(w', Renamed(a, b, id), res);
      }
      forall x, y | Owns(w', x, res) && Owns(w', y, res)
        ensures x == y
      {
        assert Owns(w, Renamed(a, b, x), res) && Owns(w, Renamed(a, b, y), res);
      }
    }
  }

  lemma AddAccounts(w: World, id: Id, h: Handle, res: Resource)
    requires Accounted(w) && id !in w.handles && h == Made(res) && IsNew(w, res)
    ensures Accounted(w.(handles := w.handles[id := h], created := w.created + MadeOf(res)))
  {
    var w' := w.(handles := w.handles[id := h], created := w.created + MadeOf(res));
    forall r: Resource
      ensures AccountedFor(w', r)
    {
      assert AccountedFor(w, r);
      assert forall x | x != id :: Owns(w', x, r) <==> Owns(w, x, r);
      if HasOwner(w, r) {
        var x :| Owns(w, x, r);
        assert Owns(w', x, r);
      }
      if r == res && res != NULL {
        assert Owns(w', id, r);
      }
    }
  }

  lemma DestroyAccounts(w: World, id: Id)
    requires Accounted(w) && id in w.handles
    ensures Accounted(w.(handles := w.handles - {id}, deleted := w.deleted + Deletes(w.handles[id])))
  {
    var w' := w.(handles := w.handles - {id}, deleted := w.deleted + Deletes(w.handles[id]));
    forall r: Resource
      ensures AccountedFor(w', r)
    {
      assert AccountedFor(w, r);
      assert forall x | x != id :: Owns(w', x, r) <==> Owns(w, x, r);
      if Owns(w, id, r) {
        assert HasOwner(w, r);
        assert forall x | x != id :: !Owns(w, x, r);
      } else if HasOwner(w, r) {
        var x :| Owns(w, x, r);
        assert Owns(w', x, r);
      }
    }
  }

  lemma ReleaseAccounts(w: World, id: Id)
    requires Accounted(w) && id in w.handles && !w.handles[id].empty
    ensures Accounted(Step(w, Release(id)))
  {
    var w' := Step(w, Release(id));
    forall r: Resource
      ensures AccountedFor(w', r)
    {
      assert AccountedFor(w, r);
      assert forall x | x != id :: Owns(w', x, r) <==> Owns(w, x, r);
      if Owns(w, id, r) {
        assert HasOwner(w, r);
        assert forall x | x != id :: !Owns(w, x, r);
      } else if HasOwner(w, r) {
        var x :| Owns(w, x, r);
        assert Owns(w', x, r);
      }
    }
  }

  lemma StepAccounts(w: World, op: Op)
    requires Accounted(w) && Allowed(w, op)
    ensures Accounted(Step(w, op))
  {
    match op
    case NewEmpty(id) =>
      AddAccounts(w, id, Handle(NULL, true), NULL);
      assert w.created + {} == w.created;
    case New(id, res) => AddAccounts(w, id, Made(res), res);
    case MoveNew(id, from) =>
      AddAccounts(w, id, Handle(NULL, true), NULL);
      assert w.created + {} == w.created;
      SwapAccounts(w.(handles := w.handles[id := Handle(NULL, true)]), id, from);
    case Assign(id, from) => SwapAccounts(w, id, from);
    case Reset(id, res) =>
      DestroyAccounts(w, id);
      var gone := w.(handles := w.handles - {id}, deleted := w.deleted + Deletes(w.handles[id]));
      AddAccounts(gone, id, Made(res), res);
      assert gone.handles[id := Made(res)] == w.handles[id := Made(res)];
    case Release(id) => ReleaseAccounts(w, id);
    case Destroy(id) => DestroyAccounts(w, id);
  }

  // ---------------------------------------------------------------- runs

  predicate AllAllowed(w: World, ops: seq<Op>)
    decreases |ops|
  {
    ops == [] || (Allowed(w, ops[0]) && AllAllowed(Step(w, ops[0]), ops[1..]))
  }

  function Run(w: World, ops: seq<Op>): World
    requires AllAllowed(w, ops)
    decreases |ops|
  {
    if ops == [] then w else Run(Step(w, ops[0]), ops[1..])
  }

  const EMPTY: World := World(map[], {}, multiset{}, multiset{})

  lemma {:induction false} RunAccounts(w: World, ops: seq<Op>)
    requires Accounted(w) && AllAllowed(w, ops)
    ensures Accounted(Run(w, ops))
    decreases |ops|
  {
    if ops != [] {
      hide Accounted, Step, Allowed;
      StepAccounts(w, ops[0]);
      RunAccounts(Step(w, ops[0]), ops[1..]);
    }
  }

  /** Ownership over every run: each resource has at most one owner, is not
      deleted while it has one, and once all handles are gone it has been deleted
      exactly once, or released exactly once instead. */
  lemma OwnershipHolds(ops: seq<Op>, res: Resource)
    requires AllAllowed(EMPTY, ops)
    ensures var w := Run(EMPTY, ops);
            && OneOwner(w, res)
            && (HasOwner(w, res) ==> w.deleted[res] == 0 && w.released[res] == 0)
            && (w.handles == map[] && res in w.created ==> w.deleted[res] + w.released[res] == 1)
            && (res !in w.created ==> w.deleted[res] == 0 && w.released[res] == 0)
  {
    assert Accounted(EMPTY) by {
      forall r: Resource
        ensures AccountedFor(EMPTY, r)
      {
      }
    }
    RunAccounts(EMPTY, ops);
    assert AccountedFor(Run(EMPTY, ops), res);
  }

  // ---------------------------------------------------------------- the handle itself

  /** Counts what destructors delete. */
  class Heap {
    var deleted: multiset<Resource>

    constructor ()
      ensures deleted == multiset{}
    {
      deleted := multiset{};
    }
  }

  class OwningHandle {
    var val: Resource
    var empty: bool

    ghost function Now(): Handle
      reads this
    {
      Handle(val, empty)
    }

    constructor (res: Resource)
      ensures Now() == Made(res)
    {
      val, empty := res, res == NULL;
    }

    /** swap, also of a handle with itself. */
    method Swap(other: OwningHandle)
      modifies this, other
      ensures Now() == old(other.Now()) && other.Now() == old(Now())
    {
      var v, e := other.val, other.empty;
      other.val, other.empty := val, empty;
      val, empty := v, e;
    }

    /** The destructor. */
    method Destroy(heap: Heap)
      modifies heap
      ensures heap.deleted == old(heap.deleted) + Deletes(Now())
    {
      if !empty {
        heap.deleted := heap.deleted + multiset{val};
      }
    }

    /** reset: a temporary takes over the old value and deletes it. */
    method Reset(res: Resource, heap: Heap)
      modifies this, heap
      ensures Now() == Made(res) && heap.deleted == old(heap.deleted) + Deletes(old(Now()))
    {
      var tmp := new OwningHandle(res);
      Swap(tmp);
      tmp.Destroy(heap);
    }

    method Release() returns (res: Resource)
      modifies `empty
      ensures res == old(val) && Now() == old(Now()).(empty := true)
    {
      empty := true;
      res := val;
    }
  }
}

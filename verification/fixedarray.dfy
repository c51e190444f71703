/**
  The fixed-size owned buffer `exact::Array<T>` and its `ArrayDeleter<T>`.

  The allocator is modelled as a ledger of allocate/deallocate events. Its
  only obligation is the one the C++ allocator contract puts on callers: a
  block is handed back once, with the element count it was allocated with.
 */
module FixedArray {

  /** One call into the allocator: the block and the element count passed. */
  datatype Event = Allocation(block: object, size: nat) | Deallocation(block: object, size: nat)

  /** The blocks allocated and not yet released after a history, with their sizes. */
  ghost function Outstanding(history: seq<Event>): map<object, nat>
    decreases |history|
  {
    if history == [] then map[]
    else
      var live := Outstanding(history[..|history| - 1]);
      match history[|history| - 1]
      case Allocation(b, n) => live[b := n]
      case Deallocation(b, _) => live - {b}
  }

  /** An event the allocator accepts when `live` is outstanding. */
  ghost predicate Permitted(live: map<object, nat>, e: Event)
  {
    match e
    case Allocation(b, _) => b !in live
    case Deallocation(b, n) => b in live && live[b] == n
  }

  /** Every event of the history was permitted when it happened. */
  ghost predicate Balanced(history: seq<Event>)
  {
    forall k :: 0 <= k < |history| ==> Permitted(Outstanding(history[..k]), history[k])
  }

  lemma BalancedSnoc(history: seq<Event>, e: Event)
    requires Balanced(history) && Permitted(Outstanding(history), e)
    ensures Balanced(history + [e])
  {
    var h := history + [e];
    forall k | 0 <= k < |h|
      ensures Permitted(Outstanding(h[..k]), h[k])
    {
      if k < |history| {
        assert h[..k] == history[..k];
        assert h[k] == history[k];
      } else {
        assert h[..k] == history;
      }
    }
  }

  /**
    A block outstanding after a history was allocated, with the size it is
    outstanding with, and no later event of the history concerns it.
   */
  lemma {:induction false} OutstandingTraced(history: seq<Event>, b: object)
    requires b in Outstanding(history)
    ensures exists i :: 0 <= i < |history| && history[i] == Allocation(b, Outstanding(history)[b]) &&
                        forall j :: i < j < |history| ==> history[j].block != b
    decreases |history|
  {
    var last := |history| - 1;
    var before := history[..last];
    assert history == before + [history[last]];
    if history[last].block == b {
      match history[last]
      case Allocation(_, n) =>
        assert Outstanding(history)[b] == n;
      case Deallocation(_, _) =>
        assert false;
    } else {
      assert b in Outstanding(before) && Outstanding(history)[b] == Outstanding(before)[b];
      OutstandingTraced(before, b);
      var i :| 0 <= i < |before| && before[i] == Allocation(b, Outstanding(before)[b]) &&
               forall j :: i < j < |before| ==> before[j].block != b;
      assert history[i] == before[i];
      forall j | i < j < |history|
        ensures history[j].block != b
      {
        if j < last {
          assert history[j] == before[j];
        }
      }
    }
  }

  /**
    In a balanced history every deallocation hands back a block that was
    allocated earlier with exactly the same size, and not released since.
   */
  lemma DeallocationMatchesAllocation(history: seq<Event>, k: int)
    requires Balanced(history) && 0 <= k < |history| && history[k].Deallocation?
    ensures exists i :: 0 <= i < k && history[i] == Allocation(history[k].block, history[k].size) &&
                        forall j :: i < j < k ==> history[j].block != history[k].block
  {
    var b, n := history[k].block, history[k].size;
    var before := history[..k];
    assert Permitted(Outstanding(before), history[k]);
    OutstandingTraced(before, b);
    var i :| 0 <= i < |before| && before[i] == Allocation(b, Outstanding(before)[b]) &&
             forall j :: i < j < |before| ==> before[j].block != b;
    assert history[i] == before[i];
    forall j | i < j < k
      ensures history[j].block != b
    {
      assert history[j] == before[j];
    }
  }

  /** Between two releases of the same block of a balanced history lies a new allocation of it. */
  lemma NoDoubleRelease(history: seq<Event>, k1: int, k2: int)
    requires Balanced(history) && 0 <= k1 < k2 < |history|
    requires history[k1].Deallocation? && history[k2].Deallocation?
    requires history[k1].block == history[k2].block
    ensures exists j :: k1 < j < k2 && history[j] == Allocation(history[k2].block, history[k2].size)
  {
    DeallocationMatchesAllocation(history, k2);
    var i :| 0 <= i < k2 && history[i] == Allocation(history[k2].block, history[k2].size) &&
             forall j :: i < j < k2 ==> history[j].block != history[k2].block;
    if i < k1 {
      assert false;
    }
    assert i != k1;
  }

  /**
    The allocator as seen by `Array`: `allocate(n)` returns a fresh block of
    n elements whose contents are unspecified, `deallocate(p, n)` takes it
    back. Both are recorded in the ghost history.
   */
  class Ledger {
    ghost var history: seq<Event>

    ghost predicate Valid()
      reads this
    {
      Balanced(history)
    }

    ghost function Live(): map<object, nat>
      reads this
    {
      Outstanding(history)
    }

    constructor ()
      ensures Valid() && history == []
    {
      history := [];
    }

    /** `Allocator<T>().allocate(n)`: no claim is made about the elements. */
    method Allocate<T(0)>(n: nat) returns (p: array<T>)
      requires Valid()
      modifies this
      ensures fresh(p) && p.Length == n
      ensures history == old(history) + [Allocation(p, n)]
      ensures Valid() && Live() == old(Live())[p := n]
    {
      p := new T[n];
      if p in Live() {
        OutstandingTraced(history, p);
        assert false;
      }
      BalancedSnoc(history, Allocation(p, n));
      history := history + [Allocation(p, n)];
      assert history[..|history| - 1] == old(history);
    }

    /** `Allocator<T>().deallocate(p, n)`: n must be the count p was allocated with. */
    method Deallocate(p: object, n: nat)
      requires Valid() && p in Live() && Live()[p] == n
      modifies this
      ensures history == old(history) + [Deallocation(p, n)]
      ensures Valid() && Live() == old(Live()) - {p}
    {
      BalancedSnoc(history, Deallocation(p, n));
      history := history + [Deallocation(p, n)];
      assert history[..|history| - 1] == old(history);
    }
  }

  /** `ArrayDeleter<T>`: the element count captured when the buffer was allocated. */
  datatype ArrayDeleter = ArrayDeleter(size: nat)
  {
    /** `operator()(p)`: release p through the allocator with the stored count. */
    method Apply(p: object, ledger: Ledger)
      requires ledger.Valid() && p in ledger.Live() && ledger.Live()[p] == size
      modifies ledger
      ensures ledger.history == old(ledger.history) + [Deallocation(p, size)]
      ensures ledger.Valid() && ledger.Live() == old(ledger.Live()) - {p}
    {
      ledger.Deallocate(p, size);
    }
  }

  /**
    `Array<T>`: a buffer of a fixed number of elements, owned until released.
    The buffer and the deleter are constants: nothing resizes or reseats it.
   */
  class Array<T(0)> {
    const data: array<T>
    const deleter: ArrayDeleter
    const ledger: Ledger

    /** The buffer is outstanding in the ledger with the count the deleter holds. */
    ghost predicate Valid()
      reads this, ledger
    {
      ledger.Valid() && data.Length == deleter.size &&
      data in ledger.Live() && ledger.Live()[data] == deleter.size
    }

    /** `Array(n)`: allocate n elements and remember n in the deleter. */
    constructor (n: nat, ledger: Ledger)
      requires ledger.Valid()
      modifies ledger
      ensures Valid() && this.ledger == ledger && fresh(data)
      ensures GetSize() == n && deleter.size == n
      ensures ledger.history == old(ledger.history) + [Allocation(data, n)]
    {
      var p := ledger.Allocate<T>(n);
      data := p;
      deleter := ArrayDeleter(n);
      this.ledger := ledger;
    }

    /** `getSize()`: the count stored in the deleter is the length of the buffer. */
    function GetSize(): (r: nat)
      reads this, ledger
      requires Valid()
      ensures r == data.Length
    {
      deleter.size
    }

    /** The const `operator[](i)`: element i, for an index inside the buffer. */
    function Get(i: int): (r: T)
      reads this, ledger, data
      requires Valid() && 0 <= i < GetSize()
      ensures r == data[..][i]
    {
      data[i]
    }

    /** Writing through `operator[](i)`: element i becomes v, every other element is kept. */
    method Set(i: int, v: T)
      requires Valid() && 0 <= i < GetSize()
      modifies data
      ensures Valid() && GetSize() == old(GetSize())
      ensures Get(i) == v
      ensures forall j :: 0 <= j < GetSize() && j != i ==> Get(j) == old(Get(j))
      ensures data[..] == old(data[..])[i := v]
    {
      data[i] := v;
    }

    /** The `unique_ptr` destructor: the deleter hands the buffer back with its count. */
    method Release()
      requires Valid()
      modifies ledger
      ensures ledger.history == old(ledger.history) + [Deallocation(data, deleter.size)]
      ensures ledger.Valid() && data !in ledger.Live() && !Valid()
    {
      deleter.Apply(data, ledger);
    }
  }
}

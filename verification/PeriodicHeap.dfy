/** `periodicHeap`: launch times in a binary heap whose entries know their own
    position, and a map from job identifiers to entries. */
module PeriodicHeap {
  import opened Basics
  import opened HeapOrder

  datatype PJob = PJob(id: string, period: int)

  /** What the heap says about one job. */
  datatype Plan = Plan(value: PJob, next: Time)

  class Item {
    const id: string
    const value: PJob
    var next: Time
    var index: int

    constructor (id: string, value: PJob, next: Time)
      ensures this.id == id && this.value == value && this.next == next && index == 0
    {
      this.id := id;
      this.value := value;
      this.next := next;
      index := 0;
    }
  }

  /** A job planned for the first time; one already planned keeps its plan. */
  function Planned(plans: map<string, Plan>, job: PJob, next: Time): map<string, Plan> {
    if job.id in plans then plans else plans[job.id := Plan(job, next)]
  }

  function Replanned(plans: map<string, Plan>, id: string, next: Time): map<string, Plan> {
    if id in plans then plans[id := plans[id].(next := next)] else plans
  }

  /** Equally long arrays with the same entry at position `n`, the first one outside the heap. */
  ghost predicate SameTail(h: seq<Item>, h': seq<Item>, n: nat) {
    |h| == |h'| && (n < |h| ==> h[n] == h'[n])
  }

  /** A minimal plan: no other job is due earlier. */
  ghost predicate Minimal(plans: map<string, Plan>, id: string) {
    id in plans && forall other :: other in plans ==> !Earlier(plans[other].next, plans[id].next)
  }

  class PeriodicHeap {
    var index: map<string, Item>
    var heap: seq<Item>
    /** The entries in the array, and their launch times by position. */
    ghost var items: set<Item>
    ghost var keys: seq<Time>
    /** The planned launches, by job. */
    ghost var plans: map<string, Plan>

    ghost predicate Placed(x: Item)
      reads this`heap, x`index
    {
      0 <= x.index < |heap| && heap[x.index] == x
    }

    /** Every entry is at the position it records, and nowhere else. */
    ghost predicate Stored()
      reads this`heap, this`keys, this`items, items`index, items`next
    {
      && |keys| == |heap|
      && (forall i :: 0 <= i < |heap| ==> heap[i] in items && heap[i].index == i && heap[i].next == keys[i])
      && (forall x {:trigger Placed(x)} :: x in items ==> Placed(x))
    }

    ghost predicate Named(x: Item)
      reads this`index
    {
      x.id in index && index[x.id] == x
    }

    ghost predicate Agrees(id: string)
      reads this`index, this`items, this`plans, items`next
    {
      && id in index && index[id] in items && index[id].id == index[id].value.id == id
      && id in plans && plans[id] == Plan(index[id].value, index[id].next)
    }

    /** The map holds exactly these entries, under their identifiers, and the plans are theirs. */
    ghost predicate Mapped()
      reads this`index, this`items, this`plans, items`next
    {
      && index.Keys == plans.Keys
      && (forall x {:trigger Named(x)} :: x in items ==> Named(x))
      && (forall id {:trigger Agrees(id)} :: id in index ==> Agrees(id))
    }

    ghost predicate Linked()
      reads this, items
    {
      Stored() && Mapped()
    }

    ghost predicate Valid()
      reads this, items
    {
      Linked() && Ordered(keys, |keys|)
    }

    constructor ()
      ensures Valid() && heap == [] && items == {} && plans == map[]
    {
      index := map[];
      heap := [];
      items := {};
      keys := [];
      plans := map[];
    }

    // ----- the sift loops -----

    method Swap(i: nat, j: nat)
      requires Linked() && i < |heap| && j < |heap|
      modifies this`heap, this`keys, items`index
      ensures Linked() && heap == Swapped(old(heap), i, j) && keys == Swapped(old(keys), i, j)
    {
      heap := heap[i := heap[j]][j := heap[i]];
      heap[i].index := i;
      heap[j].index := j;
      keys := Swapped(keys, i, j);
      forall x | x in items
        ensures Placed(x)
      {
        assert old(Placed(x));
      }
    }

    /** One turn of `up`: where the entry is afterwards; unmoved means the loop is done. */
    method Rise(j: nat, ghost n: nat) returns (i: nat)
      requires Linked() && j < n <= |heap|
      requires OrderedBut(keys, n, j) && ChildrenInOrder(keys, n, j)
      modifies this`heap, this`keys, items`index
      ensures Linked() && SameTail(heap, old(heap), n) && i <= j
      ensures if i == j then Ordered(keys, n) else OrderedBut(keys, n, i) && ChildrenInOrder(keys, n, i)
    {
      i := Parent(j);
      if i == j || !Earlier(heap[j].next, heap[i].next) {
        UpEnd(keys, n, j);
        return j;
      }
      UpStep(keys, n, j);
      Swap(i, j);
    }

    /** `up` */
    method Up(j0: nat, ghost n: nat)
      requires Linked() && j0 < n <= |heap|
      requires OrderedBut(keys, n, j0) && ChildrenInOrder(keys, n, j0)
      modifies this`heap, this`keys, items`index
      ensures Linked() && SameTail(heap, old(heap), n) && Ordered(keys, n)
    {
      var j := j0;
      while true
        invariant Linked() && 0 <= j < n <= |heap| && SameTail(heap, old(heap), n)
        invariant OrderedBut(keys, n, j) && ChildrenInOrder(keys, n, j)
        decreases j
      {
        var i := Rise(j, n);
        if i == j {
          return;
        }
        j := i;
      }
    }

    /** The child that `down` compares with. */
    method LeastChild(i: nat, n: nat) returns (j: nat)
      requires Linked() && 2 * i + 1 < n <= |heap|
      ensures SmallerChild(keys, n, i, j)
    {
      j := 2 * i + 1;
      var j2 := j + 1;
      if j2 < n && Earlier(heap[j2].next, heap[j].next) {
        j := j2;
      }
      PickedChild(keys, n, i, j);
    }

    /** One turn of `down`: where the entry is afterwards; unmoved means the loop is done. */
    method Sink(i: nat, n: nat) returns (j: nat)
      requires Linked() && i < n <= |heap| && OrderedBut(keys, n, i)
      modifies this`heap, this`keys, items`index
      ensures Linked() && SameTail(heap, old(heap), n)
      ensures i <= j < n && OrderedBut(keys, n, j)
      ensures if j == i then ChildrenInOrder(keys, n, i) && keys == old(keys) else !Earlier(keys[j], keys[Parent(j)])
    {
      if 2 * i + 1 >= n {
        NoChildren(keys, n, i);
        return i;
      }
      j := LeastChild(i, n);
      if !Earlier(heap[j].next, heap[i].next) {
        StopsHere(keys, n, i, j);
        return i;
      }
      DownStep(keys, n, i, j);
      Swap(i, j);
    }

    /** `down`; says whether the entry moved. */
    method Down(i0: nat, n: nat) returns (moved: bool)
      requires Linked() && i0 < n <= |heap| && OrderedBut(keys, n, i0)
      modifies this`heap, this`keys, items`index
      ensures Linked() && SameTail(heap, old(heap), n)
      ensures moved ==> Ordered(keys, n)
      ensures !moved ==> OrderedBut(keys, n, i0) && ChildrenInOrder(keys, n, i0)
    {
      var i := i0;
      while true
        invariant Linked() && i0 <= i < n <= |heap| && SameTail(heap, old(heap), n)
        invariant OrderedBut(keys, n, i)
        invariant i > i0 ==> !Earlier(keys[i], keys[Parent(i)])
        decreases n - i
      {
        var j := Sink(i, n);
        if j == i {
          DownEnd(keys, n, i);
          return i > i0;
        }
        i := j;
      }
    }

    /** heap.Fix, after the key at `i` changed. */
    method Fix(i: nat, n: nat)
      requires Linked() && i < n <= |heap| && OrderedBut(keys, n, i)
      modifies this`heap, this`keys, items`index
      ensures Linked() && SameTail(heap, old(heap), n) && Ordered(keys, n)
    {
      var moved := Down(i, n);
      if !moved {
        Up(i, n);
      }
    }

    // ----- operations -----

    method Push(job: PJob, next: Time) returns (ok: bool)
      requires Valid()
      modifies this, items
      ensures Valid() && fresh(items - old(items))
      ensures ok <==> job.id !in old(plans)
      ensures plans == Planned(old(plans), job, next)
    {
      if job.id in index {
        return false;
      }
      AppendLast(keys, next);
      Append(job, next);
      Up(|heap| - 1, |heap|);
      return true;
    }

    /** A new entry at the end of the slice and in the map. */
    method Append(job: PJob, next: Time)
      requires Linked() && job.id !in index
      modifies this
      ensures Linked() && heap != [] && fresh(items - old(items)) && items >= old(items)
      ensures keys == old(keys) + [next] && plans == Planned(old(plans), job, next)
    {
      var item := new Item(job.id, job, next);
      AppendEntry(item);
      index, plans := index[job.id := item], plans[job.id := Plan(job, next)];
      forall x | x in items
        ensures Named(x)
      {
        if x != item { assert old(Named(x)); }
      }
      forall id | id in index
        ensures Agrees(id)
      {
        if id != job.id { assert old(Agrees(id)); }
      }
    }

    /** Push of the underlying slice. */
    method AppendEntry(item: Item)
      requires Stored() && item !in items
      modifies this`heap, this`keys, this`items, item`index
      ensures Stored() && heap == old(heap) + [item] && items == old(items) + {item}
      ensures keys == old(keys) + [item.next]
    {
      item.index := |heap|;
      heap, keys, items := heap + [item], keys + [item.next], items + {item};
      forall x | x in items
        ensures Placed(x)
      {
        if x != item { assert old(Placed(x)); }
      }
    }

    /** heap.Remove, and forgetting the identifier. */
    method RemoveAt(i: nat)
      requires Valid() && i < |heap|
      modifies this, items`index
      ensures Valid() && items <= old(items)
      ensures plans == old(plans) - {old(heap[i].id)}
    {
      MoveToEnd(i);
      DropLast();
    }

    /** heap.Remove up to the final pop: the entry goes to the end, the rest is a heap again. */
    method MoveToEnd(i: nat)
      requires Valid() && i < |heap|
      modifies this`heap, this`keys, items`index
      ensures Linked() && |heap| == |old(heap)| && heap[|heap| - 1] == old(heap[i])
      ensures Ordered(keys, |heap| - 1)
    {
      var n := |heap| - 1;
      if n != i {
        SwapOut(keys, i);
        Swap(i, n);
        assert heap[n] == old(heap[i]);
        Fix(i, n);
      } else {
        OrderedPrefix(keys);
      }
    }

    /** The pop at the end of heap.Remove, and forgetting the identifier. */
    method DropLast()
      requires Linked() && heap != [] && Ordered(keys, |heap| - 1)
      modifies this, items`index
      ensures Valid() && items == old(items) - {old(heap[|heap| - 1])}
      ensures plans == old(plans) - {old(heap[|heap| - 1].id)}
    {
      assert Named(heap[|heap| - 1]);
      var last := DropEntry();
      index, plans := index - {last.id}, plans - {last.id};
      forall x | x in items
        ensures Named(x)
      {
        assert old(Named(x)) && old(Named(last));
      }
      forall id | id in index
        ensures Agrees(id)
      {
        assert old(Agrees(id));
      }
    }

    /** Pop of the underlying slice. */
    method DropEntry() returns (last: Item)
      requires Stored() && heap != []
      modifies this`heap, this`keys, this`items, items`index
      ensures Stored() && last == old(heap[|heap| - 1]) && items == old(items) - {last}
      ensures keys == old(keys)[..|old(keys)| - 1]
    {
      var n := |heap| - 1;
      last := heap[n];
      last.index := -1;
      heap, keys, items := heap[..n], keys[..n], items - {last};
      forall x | x in items
        ensures Placed(x)
      {
        assert old(Placed(x));
      }
    }

    method Pop() returns (item: Item?)
      requires Valid()
      modifies this, items`index
      ensures Valid() && items <= old(items)
      ensures item == null <==> old(plans) == map[]
      ensures item == null ==> plans == map[]
      ensures item != null ==> Minimal(old(plans), item.id) && plans == old(plans) - {item.id}
      ensures item != null ==> old(plans)[item.id] == Plan(item.value, item.next)
    {
      item := Peek();
      if item != null {
        RemoveAt(0);
      }
    }

    method Peek() returns (item: Item?)
      requires Valid()
      ensures item == null <==> plans == map[]
      ensures item != null ==> heap != [] && item == heap[0] && Minimal(plans, item.id)
      ensures item != null ==> item.value.id == item.id && plans[item.id] == Plan(item.value, item.next)
    {
      if |heap| == 0 {
        assert forall id :: id in index ==> Agrees(id) && Placed(index[id]);
        return null;
      }
      item := heap[0];
      assert Named(item) && Agrees(item.id);
      forall other | other in plans
        ensures !Earlier(plans[other].next, item.next)
      {
        assert Agrees(other) && Placed(index[other]);
        RootIsMinimum(keys, |keys|, index[other].index);
      }
    }

    method Contains(id: string) returns (found: bool)
      requires Linked()
      ensures found <==> id in plans
    {
      found := id in index;
    }

    method Update(id: string, next: Time) returns (ok: bool)
      requires Valid()
      modifies this, items
      ensures Valid() && items == old(items)
      ensures ok <==> id in old(plans)
      ensures plans == Replanned(old(plans), id, next)
    {
      if id in index {
        var item := index[id];
        assert Agrees(id) && Placed(item);
        SetNext(item, next);
        Fix(item.index, |heap|);
        return true;
      }
      return false;
    }

    method SetNext(item: Item, next: Time)
      requires Valid() && item in items
      modifies this`keys, this`plans, item`next
      ensures Linked() && Placed(item) && OrderedBut(keys, |keys|, item.index)
      ensures plans == Replanned(old(plans), item.id, next)
    {
      assert Placed(item) && Named(item) && Agrees(item.id);
      ChangeOne(keys, |keys|, item.index, next);
      item.next := next;
      keys, plans := keys[item.index := next], plans[item.id := plans[item.id].(next := next)];
      forall id | id in index
        ensures Agrees(id)
      {
        assert old(Agrees(id));
      }
    }

    method Remove(id: string) returns (ok: bool)
      requires Valid()
      modifies this, items
      ensures Valid() && items <= old(items)
      ensures ok <==> id in old(plans)
      ensures plans == old(plans) - {id}
    {
      if id in index {
        assert Agrees(id) && Placed(index[id]);
        RemoveAt(index[id].index);
        return true;
      }
      assert plans - {id} == plans;
      return false;
    }

    method Length() returns (n: nat)
      requires Linked()
      ensures n == |heap| && (n == 0 <==> plans == map[])
    {
      n := |heap|;
      if n > 0 {
        assert Named(heap[0]);
      } else {
        assert forall id :: id in index ==> Agrees(id) && Placed(index[id]);
      }
    }
  }

  // ----- facts about keys -----

  lemma NoChildren(k: seq<Time>, n: nat, i: nat)
    requires i < n <= |k| && 2 * i + 1 >= n
    ensures ChildrenInOrder(k, n, i)
  {
    forall c | 1 <= c < n && Parent(c) == i
      ensures false
    {
      ChildIndices(i, c);
    }
  }

  lemma PickedChild(k: seq<Time>, n: nat, i: nat, j: nat)
    requires n <= |k| && 2 * i + 1 < n
    requires j == if 2 * i + 2 < n && Earlier(k[2 * i + 2], k[2 * i + 1]) then 2 * i + 2 else 2 * i + 1
    ensures SmallerChild(k, n, i, j)
  {
    forall c | 1 <= c < n && Parent(c) == i
      ensures !Earlier(k[c], k[j])
    {
      ChildIndices(i, c);
    }
    ChildIndices(i, j);
  }

  lemma StopsHere(k: seq<Time>, n: nat, i: nat, j: nat)
    requires i < n <= |k| && SmallerChild(k, n, i, j) && !Earlier(k[j], k[i])
    ensures ChildrenInOrder(k, n, i)
  {
    forall c | 1 <= c < n && Parent(c) == i
      ensures !Earlier(k[c], k[i])
    {
      assert !Earlier(k[c], k[j]);
    }
  }

  lemma AppendLast(k: seq<Time>, t: Time)
    requires Ordered(k, |k|)
    ensures var k' := k + [t]; OrderedBut(k', |k'|, |k|) && ChildrenInOrder(k', |k'|, |k|)
  {
    var k' := k + [t];
    forall a | 1 <= a < |k'| && a != |k| && Parent(a) != |k|
      ensures !Earlier(k'[a], k'[Parent(a)])
    {
      assert !Earlier(k[a], k[Parent(a)]);
    }
  }

  lemma OrderedPrefix(k: seq<Time>)
    requires k != [] && Ordered(k, |k|)
    ensures Ordered(k, |k| - 1)
  {}

  /** Moving the last key to `i` and dropping the last place. */
  lemma SwapOut(k: seq<Time>, i: nat)
    requires Ordered(k, |k|) && i < |k| - 1
    ensures OrderedBut(Swapped(k, i, |k| - 1), |k| - 1, i)
  {
    var n := |k| - 1;
    ChangeOne(k, n, i, k[n]);
    var a, b := Swapped(k, i, n), k[i := k[n]];
    assert forall x :: 0 <= x < n ==> a[x] == b[x];
    forall x | 1 <= x < n && x != i && Parent(x) != i
      ensures !Earlier(a[x], a[Parent(x)])
    {
      assert !Earlier(b[x], b[Parent(x)]);
    }
    forall c | 1 <= c < n && Parent(c) == i && 0 < i < n
      ensures !Earlier(a[c], a[Parent(i)])
    {
      assert !Earlier(b[c], b[Parent(i)]);
    }
  }
}

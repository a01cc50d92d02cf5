/** The generic queue of BRLTTY (Programs/queue.c). The C queue is a
    circular doubly linked list reached through its head; here it is the
    sequence of its elements from the head onwards. An element's address is
    an identifier that the queue hands out, and a NULL item is None. */
module Queue {
  import opened Common

  /** An element of a queue: its identity and the item it holds. */
  datatype Element<T> = Element(id: nat, item: Option<T>)

  /** The ordering callback: compare(new item, existing item, queue data)
      is true when the new item belongs in front of the existing one. */
  type Comparator<!T, !D> = (Option<T>, Option<T>, Option<D>) -> bool

  /** A queue: its elements from the head, the element count it keeps, the
      caller's data, whether it has a deallocator, its comparator if any,
      and the next fresh element identity. */
  datatype Queue<!T, !D> = Queue(
    elements: seq<Element<T>>,
    size: nat,
    data: Option<D>,
    deallocates: bool,
    compare: Option<Comparator<T, D>>,
    nextId: nat)

  /** The count matches the list, and identities are distinct and already
      handed out. */
  predicate Valid<T, D>(q: Queue<T, D>)
  {
    && q.size == |q.elements|
    && (forall i :: 0 <= i < |q.elements| ==> q.elements[i].id < q.nextId)
    && (forall i, j :: 0 <= i < j < |q.elements| ==> q.elements[i].id != q.elements[j].id)
  }

  /** The items from the head onwards. */
  function Items<T>(elements: seq<Element<T>>): (r: seq<Option<T>>)
    ensures |r| == |elements|
    ensures forall i :: 0 <= i < |elements| ==> r[i] == elements[i].item
  {
    seq(|elements|, i requires 0 <= i < |elements| => elements[i].item)
  }

  /** newQueue: empty, without data. */
  function NewQueue<T, D>(deallocates: bool, compare: Option<Comparator<T, D>>): (q: Queue<T, D>)
    ensures Valid(q) && q.elements == [] && q.size == 0 && q.data.None?
  {
    Queue([], 0, None, deallocates, compare, 0)
  }

  // ---------------------------------------------------------------------------
  // Searching
  // ---------------------------------------------------------------------------

  /** The position of the first element, from the head, whose item passes
      the test. */
  function FirstWhere<T>(elements: seq<Element<T>>, test: Option<T> -> bool): (r: Option<nat>)
    ensures r.Some? ==> r.value < |elements|
    decreases |elements|
  {
    if |elements| == 0 then None
    else if test(elements[0].item) then Some(0)
    else match FirstWhere(elements[1..], test)
      case None => None
      case Some(k) => Some(k + 1)
  }

  /** FirstWhere finds the first passing element, and finds none exactly
      when no element passes. */
  lemma {:induction false} FirstWhereMeaning<T>(elements: seq<Element<T>>, test: Option<T> -> bool)
    ensures FirstWhere(elements, test).Some? ==>
      var k := FirstWhere(elements, test).value;
      test(elements[k].item) && forall j :: 0 <= j < k ==> !test(elements[j].item)
    ensures FirstWhere(elements, test).None? <==> forall j :: 0 <= j < |elements| ==> !test(elements[j].item)
    decreases |elements|
  {
    if |elements| > 0 && !test(elements[0].item) {
      FirstWhereMeaning(elements[1..], test);
      assert forall j :: 1 <= j < |elements| ==> elements[1..][j - 1] == elements[j];
    }
  }

  /** findElement: the first element whose item passes the test. */
  function FindElement<T, D>(q: Queue<T, D>, test: Option<T> -> bool): (r: Option<Element<T>>)
    ensures r.Some? <==> exists j :: 0 <= j < |q.elements| && test(q.elements[j].item)
    ensures r.Some? ==> exists k :: (0 <= k < |q.elements| && r.value == q.elements[k]
      && test(r.value.item) && forall j :: 0 <= j < k ==> !test(q.elements[j].item))
  {
    FirstWhereMeaning(q.elements, test);
    match FirstWhere(q.elements, test)
    case None => None
    case Some(k) => Some(q.elements[k])
  }

  /** findItem: the item of the first element that passes, None (NULL) when
      there is none. */
  function FindItem<T, D>(q: Queue<T, D>, test: Option<T> -> bool): (r: Option<T>)
    ensures (forall j :: 0 <= j < |q.elements| ==> !test(q.elements[j].item)) ==> r.None?
    ensures r.Some? ==> test(r) && exists k :: (0 <= k < |q.elements| && q.elements[k].item == r
      && forall j :: 0 <= j < k ==> !test(q.elements[j].item))
    ensures forall k :: (0 <= k < |q.elements| && test(q.elements[k].item)
      && (forall j :: 0 <= j < k ==> !test(q.elements[j].item))) ==> r == q.elements[k].item
  {
    match FindElement(q, test)
    case None => None
    case Some(e) => e.item
  }

  /** processQueue: the items are handed to the processor from the head
      onwards until it returns true; that element is the result. */
  method ProcessQueue<T, D>(q: Queue<T, D>, process: Option<T> -> bool) returns (r: Option<Element<T>>)
    ensures r.None? <==> forall j :: 0 <= j < |q.elements| ==> !process(q.elements[j].item)
    ensures r.Some? ==> exists k :: (0 <= k < |q.elements| && r.value == q.elements[k]
      && process(r.value.item) && forall j :: 0 <= j < k ==> !process(q.elements[j].item))
  {
    var i := 0;
    while i < |q.elements|
      invariant 0 <= i <= |q.elements|
      invariant forall j :: 0 <= j < i ==> !process(q.elements[j].item)
    {
      if process(q.elements[i].item) {
        return Some(q.elements[i]);
      }
      i := i + 1;
    }
    return None;
  }

  // ---------------------------------------------------------------------------
  // Adding
  // ---------------------------------------------------------------------------

  /** Where enqueueElement links a new item: in front of the first element
      the comparator puts it before (becoming the head when that is the
      head), and otherwise in front of the head, which in a circular list is
      the tail. */
  function EnqueuePosition<T, D>(q: Queue<T, D>, item: Option<T>): (k: nat)
    ensures k <= |q.elements|
  {
    match q.compare
    case None => |q.elements|
    case Some(compare) =>
      match FirstWhere(q.elements, (existing: Option<T>) => compare(item, existing, q.data))
      case None => |q.elements|
      case Some(k) => k
  }

  /** Inserting an element at a position. */
  function InsertAt<T>(elements: seq<Element<T>>, k: nat, e: Element<T>): (r: seq<Element<T>>)
    requires k <= |elements|
    ensures |r| == |elements| + 1 && r[k] == e
    ensures forall j :: 0 <= j < k ==> r[j] == elements[j]
    ensures forall j :: k < j < |r| ==> r[j] == elements[j - 1]
    ensures multiset(r) == multiset(elements) + multiset{e}
  {
    assert elements == elements[..k] + elements[k..];
    elements[..k] + [e] + elements[k..]
  }

  /** enqueueItem: a new element holding the item, linked where
      EnqueuePosition says; the count goes up by one. Without a comparator
      the new item is the last. */
  function EnqueueItem<T, D>(q: Queue<T, D>, item: Option<T>): (r: (Queue<T, D>, Element<T>))
    requires Valid(q)
    ensures Valid(r.0) && r.1.item == item && r.1.id == q.nextId
    ensures r.0.size == q.size + 1
    ensures r.0.elements == InsertAt(q.elements, EnqueuePosition(q, item), r.1)
    ensures q.compare.None? ==> Items(r.0.elements) == Items(q.elements) + [item]
    ensures r.0.data == q.data && r.0.compare == q.compare && r.0.deallocates == q.deallocates
  {
    var e := Element(q.nextId, item);
    (q.(elements := InsertAt(q.elements, EnqueuePosition(q, item), e), size := q.size + 1, nextId := q.nextId + 1), e)
  }

  /** Keys in non-decreasing order from the head. */
  predicate SortedBy<T>(elements: seq<Element<T>>, key: Option<T> -> int)
  {
    forall i, j :: 0 <= i < j < |elements| ==> key(elements[i].item) <= key(elements[j].item)
  }

  /** With a comparator that puts a smaller key first, the items in front
      of the enqueue position have keys no greater than the new item's, and
      the item at the position has a greater key. */
  lemma PositionSplitsKeys<T, D>(q: Queue<T, D>, item: Option<T>, key: Option<T> -> int)
    requires q.compare.Some?
    requires forall a, b, d :: q.compare.value(a, b, d) == (key(a) < key(b))
    ensures var k := EnqueuePosition(q, item);
      && (forall j :: 0 <= j < k ==> key(q.elements[j].item) <= key(item))
      && (k < |q.elements| ==> key(item) < key(q.elements[k].item))
  {
    var test := (existing: Option<T>) => q.compare.value(item, existing, q.data);
    FirstWhereMeaning(q.elements, test);
    var k := EnqueuePosition(q, item);
    assert forall j :: 0 <= j < k ==> !test(q.elements[j].item);
    if k < |q.elements| {
      assert test(q.elements[k].item);
    }
  }

  /** Inserting between the smaller-or-equal keys and the greater ones keeps
      a sequence sorted. */
  lemma InsertKeepsSorted<T>(elements: seq<Element<T>>, k: nat, e: Element<T>, key: Option<T> -> int)
    requires k <= |elements| && SortedBy(elements, key)
    requires forall j :: 0 <= j < k ==> key(elements[j].item) <= key(e.item)
    requires k < |elements| ==> key(e.item) < key(elements[k].item)
    ensures SortedBy(InsertAt(elements, k, e), key)
    ensures forall j :: k <= j < |elements| ==> key(e.item) < key(elements[j].item)
  {
    var r := InsertAt(elements, k, e);
    forall i, j | 0 <= i < j < |r|
      ensures key(r[i].item) <= key(r[j].item)
    {
      if j == k {
        assert r[i] == elements[i];
      } else if i == k {
        assert r[j] == elements[j - 1];
        assert key(elements[k].item) <= key(elements[j - 1].item);
      } else if i < k {
        assert r[i] == elements[i];
      }
    }
  }

  /** With a comparator that puts a smaller key first, a queue sorted by key
      stays sorted, and the new item goes behind every item of equal key. */
  lemma EnqueueKeepsOrder<T, D>(q: Queue<T, D>, item: Option<T>, key: Option<T> -> int)
    requires Valid(q) && q.compare.Some?
    requires forall a, b, d :: q.compare.value(a, b, d) == (key(a) < key(b))
    requires SortedBy(q.elements, key)
    ensures SortedBy(EnqueueItem(q, item).0.elements, key)
    ensures var k := EnqueuePosition(q, item);
      && (forall j :: 0 <= j < k ==> key(q.elements[j].item) <= key(item))
      && (forall j :: k <= j < |q.elements| ==> key(item) < key(q.elements[j].item))
  {
    PositionSplitsKeys(q, item, key);
    var e := EnqueueItem(q, item).1;
    InsertKeepsSorted(q.elements, EnqueuePosition(q, item), e, key);
  }

  // ---------------------------------------------------------------------------
  // Removing
  // ---------------------------------------------------------------------------

  /** The position of the element with an identity. */
  function IndexOfId<T>(elements: seq<Element<T>>, id: nat): (r: Option<nat>)
    ensures r.Some? ==> r.value < |elements| && elements[r.value].id == id
    ensures r.None? ==> forall j :: 0 <= j < |elements| ==> elements[j].id != id
    decreases |elements|
  {
    if |elements| == 0 then None
    else if elements[0].id == id then Some(0)
    else match IndexOfId(elements[1..], id)
      case None => None
      case Some(k) => Some(k + 1)
  }

  /** Removing the element at a position. */
  function RemoveAt<T>(elements: seq<Element<T>>, k: nat): (r: seq<Element<T>>)
    requires k < |elements|
    ensures |r| == |elements| - 1
    ensures forall j :: 0 <= j < k ==> r[j] == elements[j]
    ensures forall j :: k <= j < |r| ==> r[j] == elements[j + 1]
    ensures multiset(r) + multiset{elements[k]} == multiset(elements)
  {
    assert elements == elements[..k] + [elements[k]] + elements[k + 1..];
    elements[..k] + elements[k + 1..]
  }

  /** deleteElement: the element is unlinked and the count goes down; the
      deallocator, if the queue has one, gets the item when it is not NULL,
      and that item is the second result. */
  function DeleteElement<T, D>(q: Queue<T, D>, id: nat): (r: (Queue<T, D>, Option<T>))
    requires Valid(q) && IndexOfId(q.elements, id).Some?
    ensures Valid(r.0) && r.0.size == q.size - 1
    ensures IndexOfId(r.0.elements, id).None?
    ensures var k := IndexOfId(q.elements, id).value;
      && r.0.elements == RemoveAt(q.elements, k)
      && r.1 == (if q.deallocates then q.elements[k].item else None)
    ensures r.0.data == q.data && r.0.compare == q.compare && r.0.deallocates == q.deallocates
  {
    var k := IndexOfId(q.elements, id).value;
    var freed := if q.deallocates then q.elements[k].item else None;
    (q.(elements := RemoveAt(q.elements, k), size := q.size - 1), freed)
  }

  /** dequeueItem: the head's item comes out, without the deallocator; an
      empty queue gives None (NULL) and stays as it is. */
  function DequeueItem<T, D>(q: Queue<T, D>): (r: (Queue<T, D>, Option<T>))
    requires Valid(q)
    ensures Valid(r.0)
    ensures q.elements == [] ==> r.1.None? && r.0 == q
    ensures q.elements != [] ==>
      r.1 == q.elements[0].item && r.0.elements == q.elements[1..] && r.0.size == q.size - 1
  {
    if |q.elements| == 0 then (q, None)
    else (q.(elements := q.elements[1..], size := q.size - 1), q.elements[0].item)
  }

  /** Without a comparator, enqueueing then dequeueing from a non-empty
      queue is dequeueing then enqueueing: the oldest item leaves first. */
  lemma EnqueueDequeueCommute<T, D>(q: Queue<T, D>, item: Option<T>)
    requires Valid(q) && q.compare.None? && |q.elements| > 0
    ensures var (after, x) := DequeueItem(EnqueueItem(q, item).0);
      var (before, y) := DequeueItem(q);
      x == y && Items(after.elements) == Items(EnqueueItem(before, item).0.elements)
  {
  }

  /** deleteItem: the first element holding exactly this item is unlinked,
      without the deallocator; the result says whether there was one. */
  function DeleteItem<T(==), D>(q: Queue<T, D>, item: Option<T>): (r: (Queue<T, D>, bool))
    requires Valid(q)
    ensures Valid(r.0)
    ensures r.1 <==> item in Items(q.elements)
    ensures !r.1 ==> r.0.elements == q.elements && r.0.size == q.size
    ensures r.1 ==> exists k :: (0 <= k < |q.elements| && q.elements[k].item == item
      && item !in Items(q.elements[..k]) && r.0.elements == RemoveAt(q.elements, k)
      && r.0.size == q.size - 1)
  {
    var test := (x: Option<T>) => x == item;
    FirstWhereMeaning(q.elements, test);
    match FirstWhere(q.elements, test)
    case None => (q, false)
    case Some(k) =>
      assert Items(q.elements[..k]) == Items(q.elements)[..k];
      (q.(elements := RemoveAt(q.elements, k), size := q.size - 1), true)
  }

  /** The items a deallocator receives for these elements: the non-NULL
      ones, in order. */
  function NonNullItems<T>(elements: seq<Element<T>>): (r: seq<T>)
    ensures |r| <= |elements|
  {
    if |elements| == 0 then []
    else (if elements[0].item.Some? then [elements[0].item.value] else []) + NonNullItems(elements[1..])
  }

  /** deleteElement on the head element: the elements after it are left,
      and the head's item is handed to the deallocator if there is one. */
  function DeleteHeadElement<T, D>(q: Queue<T, D>): (r: (Queue<T, D>, Option<T>))
    requires Valid(q) && |q.elements| > 0
    ensures Valid(r.0) && r.0.elements == q.elements[1..]
    ensures r.1 == (if q.deallocates then q.elements[0].item else None)
    ensures r.0.data == q.data && r.0.compare == q.compare && r.0.deallocates == q.deallocates
  {
    assert IndexOfId(q.elements, q.elements[0].id) == Some(0);
    DeleteElement(q, q.elements[0].id)
  }

  /** deleteElements: the head is deleted until the queue is empty; the
      second result is the items the deallocator received, in order. */
  function DeleteElements<T, D>(q: Queue<T, D>): (r: (Queue<T, D>, seq<T>))
    requires Valid(q)
    ensures Valid(r.0) && r.0.elements == [] && r.0.size == 0
    ensures r.1 == (if q.deallocates then NonNullItems(q.elements) else [])
    ensures r.0.data == q.data && r.0.compare == q.compare && r.0.deallocates == q.deallocates
    decreases |q.elements|
  {
    if |q.elements| == 0 then (q, [])
    else
      var (q', item) := DeleteHeadElement(q);
      var (r, later) := DeleteElements(q');
      (r, (if item.Some? then [item.value] else []) + later)
  }

  /** Unlinking an element keeps a queue valid once its count is lowered. */
  lemma RemoveKeepsValid<T, D>(q: Queue<T, D>, k: nat)
    requires Valid(q) && k < |q.elements|
    ensures Valid(q.(elements := RemoveAt(q.elements, k), size := q.size - 1))
    ensures forall j :: 0 <= j < |RemoveAt(q.elements, k)| ==> RemoveAt(q.elements, k)[j].id != q.elements[k].id
  {
    var r := RemoveAt(q.elements, k);
    forall i, j | 0 <= i < j < |r|
      ensures r[i].id != r[j].id
    {
      var i' := if i < k then i else i + 1;
      var j' := if j < k then j else j + 1;
      assert r[i] == q.elements[i'] && r[j] == q.elements[j'];
    }
  }

  /** Linking an element whose identity is handed out but not in use keeps a
      queue valid once its count is raised. */
  lemma InsertKeepsValid<T, D>(q: Queue<T, D>, k: nat, e: Element<T>)
    requires Valid(q) && k <= |q.elements| && e.id < q.nextId
    requires forall j :: 0 <= j < |q.elements| ==> q.elements[j].id != e.id
    ensures Valid(q.(elements := InsertAt(q.elements, k, e), size := q.size + 1))
  {
    var r := InsertAt(q.elements, k, e);
    forall i, j | 0 <= i < j < |r|
      ensures r[i].id != r[j].id
    {
      if i != k && j != k {
        var i' := if i < k then i else i - 1;
        var j' := if j < k then j else j - 1;
        assert r[i] == q.elements[i'] && r[j] == q.elements[j'];
      } else if i == k {
        assert r[j] == q.elements[j - 1];
      } else {
        assert r[i] == q.elements[i];
      }
    }
  }

  /** requeueElement: the element is unlinked and enqueued again, keeping
      its identity and item, so the count does not change. */
  function RequeueElement<T, D>(q: Queue<T, D>, id: nat): (r: Queue<T, D>)
    requires Valid(q) && IndexOfId(q.elements, id).Some?
    ensures Valid(r) && r.size == q.size
    ensures var k := IndexOfId(q.elements, id).value;
      var rest := q.(elements := RemoveAt(q.elements, k));
      r.elements == InsertAt(rest.elements, EnqueuePosition(rest, q.elements[k].item), q.elements[k])
    ensures multiset(r.elements) == multiset(q.elements)
  {
    var k := IndexOfId(q.elements, id).value;
    var e := q.elements[k];
    RemoveKeepsValid(q, k);
    var rest := q.(elements := RemoveAt(q.elements, k), size := q.size - 1);
    InsertKeepsValid(rest, EnqueuePosition(rest, e.item), e);
    rest.(elements := InsertAt(rest.elements, EnqueuePosition(rest, e.item), e), size := q.size)
  }

  /** setQueueData: the data is replaced and the previous data returned. */
  function SetQueueData<T, D>(q: Queue<T, D>, data: Option<D>): (r: (Queue<T, D>, Option<D>))
    ensures r.0.data == data && r.1 == q.data
    ensures r.0.elements == q.elements && r.0.size == q.size && r.0.nextId == q.nextId
  {
    (q.(data := data), q.data)
  }
}

/** `hostToAbstract`: turning a graph of host objects into a value tree. */
module HostGraph {
  import opened Common
  import opened Utf16
  import opened JsonValue
  import opened JsonNumbers
  import opened JsonEncoder
  import opened JsonTheorems
  import opened EncodedBytes

  type Address = nat

  /** `Unsupported` stands for undefined, functions, symbols and big integers. */
  datatype HostValue =
    | HostNull
    | HostBool(b: bool)
    | HostString(s: JsString)
    | HostNumber(f: F64)
    | Unsupported
    | Reference(address: Address)

  datatype HostObject = HostArray(elements: seq<HostValue>) | HostRecord(properties: seq<(JsString, HostValue)>)

  /** The objects reachable by identity; the traversal never changes them. */
  type Heap = map<Address, HostObject>

  function Children(o: HostObject): (r: seq<HostValue>)
    ensures o.HostArray? ==> r == o.elements
    ensures o.HostRecord? ==> |r| == |o.properties| && forall i | 0 <= i < |r| :: r[i] == o.properties[i].1
  {
    match o
    case HostArray(elements) => elements
    case HostRecord(properties) => seq(|properties|, i requires 0 <= i < |properties| => properties[i].1)
  }

  predicate Resolves(heap: Heap, v: HostValue) { v.Reference? ==> v.address in heap }

  predicate Closed(heap: Heap) {
    forall a, v | a in heap && v in Children(heap[a]) :: Resolves(heap, v)
  }

  /** `t` is the tree that `v` unfolds to; a shared object appears once for each way to reach it. */
  predicate Unfolds(heap: Heap, v: HostValue, t: Value)
    decreases t
  {
    match v
    case HostNull => t == Null
    case HostBool(b) => t == Bool(b)
    case HostString(s) => t == Str(s)
    case HostNumber(f) => t == Number(f)
    case Unsupported => false
    case Reference(a) =>
      && a in heap
      && match (heap[a], t)
         case (HostArray(es), Arr(items)) =>
           |items| == |es| && forall i | 0 <= i < |es| :: Unfolds(heap, es[i], items[i])
         case (HostRecord(ps), Obj(entries)) =>
           && |entries| == |ps|
           && forall i | 0 <= i < |ps| :: entries[i].key == ps[i].0 && Unfolds(heap, ps[i].1, entries[i].value)
         case _ => false
  }

  /** Each object of a path holds a reference to the next. */
  predicate IsPath(heap: Heap, path: seq<Address>) {
    && (forall i | 0 <= i < |path| :: path[i] in heap)
    && (forall i | 0 < i < |path| :: Reference(path[i]) in Children(heap[path[i - 1]]))
  }

  predicate PathFrom(heap: Heap, v: HostValue, path: seq<Address>) {
    path != [] && v == Reference(path[0]) && IsPath(heap, path)
  }

  predicate Repeats(path: seq<Address>) {
    exists i, j | 0 <= i < j < |path| :: path[i] == path[j]
  }

  ghost predicate CycleReachable(heap: Heap, v: HostValue) {
    exists path :: PathFrom(heap, v, path) && Repeats(path)
  }

  predicate HoldsUnsupported(heap: Heap, path: seq<Address>) {
    path != [] && path[|path| - 1] in heap && Unsupported in Children(heap[path[|path| - 1]])
  }

  ghost predicate UnsupportedReachable(heap: Heap, v: HostValue) {
    v == Unsupported || exists path :: PathFrom(heap, v, path) && HoldsUnsupported(heap, path)
  }

  /** A value unfolds to at most one tree. */
  lemma {:induction false} UnfoldingUnique(heap: Heap, v: HostValue, t: Value, u: Value)
    requires Unfolds(heap, v, t) && Unfolds(heap, v, u)
    ensures t == u
    decreases t
  {
    if v.Reference? {
      match heap[v.address]
      case HostArray(es) =>
        forall i | 0 <= i < |es| ensures t.items[i] == u.items[i] {
          UnfoldingUnique(heap, es[i], t.items[i], u.items[i]);
        }
      case HostRecord(ps) =>
        forall i | 0 <= i < |ps| ensures t.entries[i] == u.entries[i] {
          UnfoldingUnique(heap, ps[i].1, t.entries[i].value, u.entries[i].value);
        }
    }
  }

  /** What a child of an unfolded object unfolds to is a proper part of the tree. */
  lemma ChildUnfolds(heap: Heap, a: Address, t: Value, v: HostValue) returns (u: Value)
    requires Unfolds(heap, Reference(a), t) && v in Children(heap[a])
    ensures Unfolds(heap, v, u) && u < t
  {
    var i :| 0 <= i < |Children(heap[a])| && Children(heap[a])[i] == v;
    u := if t.Arr? then t.items[i] else t.entries[i].value;
  }

  lemma {:induction false} PathUnfolds(heap: Heap, path: seq<Address>, t: Value, k: nat) returns (u: Value)
    requires IsPath(heap, path) && k < |path| && Unfolds(heap, Reference(path[0]), t)
    ensures Unfolds(heap, Reference(path[k]), u) && (if k == 0 then u == t else u < t)
    decreases k
  {
    if k == 0 {
      u := t;
    } else {
      var above := PathUnfolds(heap, path, t, k - 1);
      u := ChildUnfolds(heap, path[k - 1], above, Reference(path[k]));
    }
  }

  /** A value with an unfolding reaches no cycle: an object met again would have
      to contain its own tree. */
  lemma UnfoldingExcludesCycles(heap: Heap, v: HostValue, t: Value)
    requires Unfolds(heap, v, t)
    ensures !CycleReachable(heap, v)
  {
    forall path | PathFrom(heap, v, path) ensures !Repeats(path) {
      if i, j :| 0 <= i < j < |path| && path[i] == path[j] {
        var u := PathUnfolds(heap, path, t, i);
        var tail := path[i..];
        forall k | 0 < k < |tail| ensures Reference(tail[k]) in Children(heap[tail[k - 1]]) {
          assert Reference(path[i + k]) in Children(heap[path[i + k - 1]]);
        }
        var w := PathUnfolds(heap, tail, u, j - i);
        UnfoldingUnique(heap, Reference(path[i]), u, w);
        assert false;
      }
    }
  }

  lemma UnfoldingExcludesUnsupported(heap: Heap, v: HostValue, t: Value)
    requires Unfolds(heap, v, t)
    ensures !UnsupportedReachable(heap, v)
  {
    forall path | PathFrom(heap, v, path) ensures !HoldsUnsupported(heap, path) {
      if HoldsUnsupported(heap, path) {
        var u := PathUnfolds(heap, path, t, |path| - 1);
        var w := ChildUnfolds(heap, path[|path| - 1], u, Unsupported);
        assert false;
      }
    }
  }

  /** What a child reaches, its parent reaches. */
  lemma CycleFromChild(heap: Heap, a: Address, v: HostValue)
    requires a in heap && v in Children(heap[a]) && CycleReachable(heap, v)
    ensures CycleReachable(heap, Reference(a))
  {
    var path :| PathFrom(heap, v, path) && Repeats(path);
    var i, j :| 0 <= i < j < |path| && path[i] == path[j];
    var longer := [a] + path;
    assert longer[i + 1] == longer[j + 1];
    assert PathFrom(heap, Reference(a), longer);
  }

  lemma UnsupportedFromChild(heap: Heap, a: Address, v: HostValue)
    requires a in heap && v in Children(heap[a]) && UnsupportedReachable(heap, v)
    ensures UnsupportedReachable(heap, Reference(a))
  {
    if v == Unsupported {
      assert PathFrom(heap, Reference(a), [a]) && HoldsUnsupported(heap, [a]);
    } else {
      var path :| PathFrom(heap, v, path) && HoldsUnsupported(heap, path);
      var longer := [a] + path;
      assert PathFrom(heap, Reference(a), longer) && HoldsUnsupported(heap, longer);
    }
  }

  // Faults and the order in which they are met.

  /** A route of child positions that leads from `v` over objects not yet on the
      way to an unsupported value, or to an object already on the way. */
  predicate FaultAt(heap: Heap, v: HostValue, way: set<Address>, route: seq<int>, e: Category)
    decreases |route|
  {
    match v
    case Unsupported => route == [] && e == UnsupportedHostValue
    case Reference(a) =>
      if a in way then route == [] && e == CyclicHostValue
      else
        && a in heap && route != [] && 0 <= route[0] < |Children(heap[a])|
        && FaultAt(heap, Children(heap[a])[route[0]], way + {a}, route[1..], e)
    case _ => false
  }

  ghost predicate NoFault(heap: Heap, v: HostValue, way: set<Address>) {
    forall route, e :: !FaultAt(heap, v, way, route, e)
  }

  lemma FaultInChild(heap: Heap, a: Address, way: set<Address>, route: seq<int>, e: Category)
    requires a in heap && a !in way && FaultAt(heap, Reference(a), way, route, e)
    ensures route != [] && 0 <= route[0] < |Children(heap[a])|
    ensures FaultAt(heap, Children(heap[a])[route[0]], way + {a}, route[1..], e)
  {
  }

  /** Every other fault lies on a lexicographically greater route. */
  ghost predicate LeastFault(heap: Heap, v: HostValue, way: set<Address>, route: seq<int>, e: Category) {
    && FaultAt(heap, v, way, route, e)
    && forall r, x :: FaultAt(heap, v, way, r, x) ==> (r == route && x == e) || LexLess(route, r)
  }

  /** The fault that a traversal from left to right, children before later
      siblings, meets first. */
  ghost predicate FirstFault(heap: Heap, v: HostValue, way: set<Address>, e: Category) {
    exists route :: LeastFault(heap, v, way, route, e)
  }

  /** At most one fault is the first. */
  lemma FirstFaultUnique(heap: Heap, v: HostValue, way: set<Address>, e: Category, x: Category)
    requires FirstFault(heap, v, way, e) && FirstFault(heap, v, way, x)
    ensures e == x
  {
    var r :| LeastFault(heap, v, way, r, e);
    var q :| LeastFault(heap, v, way, q, x);
    LexTrichotomy(r, q);
  }

  /** An object whose children before `k` have no fault takes over the first fault of child `k`. */
  lemma FirstFaultOfChild(heap: Heap, a: Address, way: set<Address>, k: nat, e: Category)
    requires a in heap && a !in way && k < |Children(heap[a])|
    requires forall i | 0 <= i < k :: NoFault(heap, Children(heap[a])[i], way + {a})
    requires FirstFault(heap, Children(heap[a])[k], way + {a}, e)
    ensures FirstFault(heap, Reference(a), way, e)
  {
    hide Children;
    var tail :| LeastFault(heap, Children(heap[a])[k], way + {a}, tail, e);
    var route := [k as int] + tail;
    assert route[1..] == tail;
    forall r, x | FaultAt(heap, Reference(a), way, r, x) ensures (r == route && x == e) || LexLess(route, r) {
      FaultInChild(heap, a, way, r, x);
      assert r[0] >= k;
      assert r == [r[0]] + r[1..];
    }
    assert LeastFault(heap, Reference(a), way, route, e);
  }

  lemma NoFaultInObject(heap: Heap, a: Address, way: set<Address>)
    requires a in heap && a !in way
    requires forall i | 0 <= i < |Children(heap[a])| :: NoFault(heap, Children(heap[a])[i], way + {a})
    ensures NoFault(heap, Reference(a), way)
  {
    forall route, e | FaultAt(heap, Reference(a), way, route, e) ensures false {
      FaultInChild(heap, a, way, route, e);
    }
  }

  // Faults and reachability.

  /** The objects on the way form a path that ends just above `v`. */
  ghost predicate OnWay(heap: Heap, v: HostValue, way: set<Address>, stack: seq<Address>) {
    && IsPath(heap, stack)
    && (forall a :: a in way <==> a in stack)
    && (stack != [] ==> v in Children(heap[stack[|stack| - 1]]))
  }

  /** Meeting an object of the current path again closes a cycle. */
  lemma MetAgain(heap: Heap, stack: seq<Address>, a: Address)
    requires IsPath(heap, stack) && a in stack && a in heap && Reference(a) in Children(heap[stack[|stack| - 1]])
    ensures CycleReachable(heap, Reference(a))
  {
    var k :| 0 <= k < |stack| && stack[k] == a;
    var path := stack[k..] + [a];
    assert path[0] == path[|path| - 1];
    forall i | 0 < i < |path| ensures Reference(path[i]) in Children(heap[path[i - 1]]) {
      if i < |path| - 1 { assert path[i] == stack[k + i] && path[i - 1] == stack[k + i - 1]; }
    }
    assert PathFrom(heap, Reference(a), path);
  }

  lemma {:induction false} FaultIsReachable(heap: Heap, v: HostValue, way: set<Address>, stack: seq<Address>,
                                            route: seq<int>, e: Category)
    requires Closed(heap) && Resolves(heap, v) && OnWay(heap, v, way, stack) && FaultAt(heap, v, way, route, e)
    ensures e == CyclicHostValue ==> CycleReachable(heap, v)
    ensures e != CyclicHostValue ==> e == UnsupportedHostValue && UnsupportedReachable(heap, v)
    decreases |route|
  {
    if v.Reference? {
      var a := v.address;
      if a in way {
        MetAgain(heap, stack, a);
      } else {
        var child := Children(heap[a])[route[0]];
        Deeper(heap, v, way, stack, child);
        FaultIsReachable(heap, child, way + {a}, stack + [a], route[1..], e);
        if e == CyclicHostValue { CycleFromChild(heap, a, child); } else { UnsupportedFromChild(heap, a, child); }
      }
    }
  }

  lemma Deeper(heap: Heap, v: HostValue, way: set<Address>, stack: seq<Address>, child: HostValue)
    requires OnWay(heap, v, way, stack) && v.Reference? && v.address in heap && child in Children(heap[v.address])
    ensures OnWay(heap, child, way + {v.address}, stack + [v.address])
  {
    hide Children;
  }

  /** Some object of the path is on the way already or met twice. */
  predicate ReturnsTo(path: seq<Address>, way: set<Address>) {
    Repeats(path) || exists i | 0 <= i < |path| :: path[i] in way
  }

  lemma {:induction false} CycleHasFault(heap: Heap, path: seq<Address>, way: set<Address>)
    requires path != [] && IsPath(heap, path) && ReturnsTo(path, way)
    ensures exists route :: FaultAt(heap, Reference(path[0]), way, route, CyclicHostValue)
    decreases |path|
  {
    var a := path[0];
    if a in way {
      assert FaultAt(heap, Reference(a), way, [], CyclicHostValue);
    } else {
      var rest := path[1..];
      RestReturns(path, way);
      RestIsPath(heap, path);
      CycleHasFault(heap, rest, way + {a});
      var tail :| FaultAt(heap, Reference(rest[0]), way + {a}, tail, CyclicHostValue);
      FaultThroughChild(heap, a, way, Reference(rest[0]), tail, CyclicHostValue);
    }
  }

  lemma RestReturns(path: seq<Address>, way: set<Address>)
    requires path != [] && path[0] !in way && ReturnsTo(path, way)
    ensures path[1..] != [] && ReturnsTo(path[1..], way + {path[0]})
  {
    var rest := path[1..];
    if i, j :| 0 <= i < j < |path| && path[i] == path[j] {
      assert rest[j - 1] == path[j];
      if i > 0 { assert rest[i - 1] == rest[j - 1]; }
    } else {
      var i :| 0 <= i < |path| && path[i] in way;
      assert rest[i - 1] in way + {path[0]};
    }
  }

  lemma RestIsPath(heap: Heap, path: seq<Address>)
    requires |path| > 1 && IsPath(heap, path)
    ensures IsPath(heap, path[1..]) && Reference(path[1]) in Children(heap[path[0]])
  {
    var rest := path[1..];
    forall i | 0 < i < |rest| ensures Reference(rest[i]) in Children(heap[rest[i - 1]]) {
      assert rest[i] == path[i + 1] && rest[i - 1] == path[i];
    }
  }

  lemma FaultThroughChild(heap: Heap, a: Address, way: set<Address>, child: HostValue, tail: seq<int>, e: Category)
    requires a in heap && a !in way && child in Children(heap[a]) && FaultAt(heap, child, way + {a}, tail, e)
    ensures exists route :: FaultAt(heap, Reference(a), way, route, e)
  {
    var i :| 0 <= i < |Children(heap[a])| && Children(heap[a])[i] == child;
    var route := [i] + tail;
    assert route[1..] == tail;
    assert FaultAt(heap, Reference(a), way, route, e);
  }

  /** A route that avoids the way: from the last visit of its first object on. */
  lemma {:induction false} UnsupportedHasFault(heap: Heap, path: seq<Address>, way: set<Address>)
    requires path != [] && IsPath(heap, path) && HoldsUnsupported(heap, path)
    requires forall i | 0 <= i < |path| :: path[i] !in way
    ensures exists route :: FaultAt(heap, Reference(path[0]), way, route, UnsupportedHostValue)
    decreases |path|
  {
    var a := path[0];
    if k :| 0 < k < |path| && path[k] == a {
      var rest := path[k..];
      SuffixIsPath(heap, path, k);
      UnsupportedHasFault(heap, rest, way);
    } else if |path| == 1 {
      assert FaultAt(heap, Unsupported, way + {a}, [], UnsupportedHostValue);
      FaultThroughChild(heap, a, way, Unsupported, [], UnsupportedHostValue);
    } else {
      var rest := path[1..];
      SuffixIsPath(heap, path, 1);
      RestIsPath(heap, path);
      forall i | 0 <= i < |rest| ensures rest[i] !in way + {a} { assert rest[i] == path[i + 1]; }
      UnsupportedHasFault(heap, rest, way + {a});
      var tail :| FaultAt(heap, Reference(rest[0]), way + {a}, tail, UnsupportedHostValue);
      FaultThroughChild(heap, a, way, Reference(rest[0]), tail, UnsupportedHostValue);
    }
  }

  lemma SuffixIsPath(heap: Heap, path: seq<Address>, k: nat)
    requires k < |path| && IsPath(heap, path)
    ensures IsPath(heap, path[k..]) && (HoldsUnsupported(heap, path) ==> HoldsUnsupported(heap, path[k..]))
  {
    var rest := path[k..];
    forall i | 0 < i < |rest| ensures Reference(rest[i]) in Children(heap[rest[i - 1]]) {
      assert rest[i] == path[k + i] && rest[i - 1] == path[k + i - 1];
    }
  }

  ghost predicate HasFault(heap: Heap, v: HostValue, e: Category) {
    exists route :: FaultAt(heap, v, {}, route, e)
  }

  lemma CycleGivesFault(heap: Heap, v: HostValue)
    requires CycleReachable(heap, v)
    ensures HasFault(heap, v, CyclicHostValue)
  {
    var path :| PathFrom(heap, v, path) && Repeats(path);
    CycleHasFault(heap, path, {});
  }

  lemma UnsupportedGivesFault(heap: Heap, v: HostValue)
    requires UnsupportedReachable(heap, v)
    ensures HasFault(heap, v, UnsupportedHostValue)
  {
    if v == Unsupported {
      assert FaultAt(heap, v, {}, [], UnsupportedHostValue);
    } else {
      var path :| PathFrom(heap, v, path) && HoldsUnsupported(heap, path);
      UnsupportedHasFault(heap, path, {});
    }
  }

  lemma FaultFromTop(heap: Heap, v: HostValue, route: seq<int>, e: Category)
    requires Closed(heap) && Resolves(heap, v) && FaultAt(heap, v, {}, route, e)
    ensures e == CyclicHostValue ==> CycleReachable(heap, v)
    ensures e != CyclicHostValue ==> e == UnsupportedHostValue && UnsupportedReachable(heap, v)
  {
    hide FaultAt, CycleReachable, UnsupportedReachable;
    assert OnWay(heap, v, {}, []);
    FaultIsReachable(heap, v, {}, [], route, e);
  }

  /** A route to a repeated object exists exactly when a cycle is reachable, and
      one to an unsupported value exactly when such a value is. */
  lemma FaultsAreReachability(heap: Heap, v: HostValue)
    requires Closed(heap) && Resolves(heap, v)
    ensures CycleReachable(heap, v) <==> HasFault(heap, v, CyclicHostValue)
    ensures UnsupportedReachable(heap, v) <==> HasFault(heap, v, UnsupportedHostValue)
  {
    hide FaultAt, CycleReachable, UnsupportedReachable;
    if CycleReachable(heap, v) { CycleGivesFault(heap, v); }
    if UnsupportedReachable(heap, v) { UnsupportedGivesFault(heap, v); }
    if route :| FaultAt(heap, v, {}, route, CyclicHostValue) { FaultFromTop(heap, v, route, CyclicHostValue); }
    if route :| FaultAt(heap, v, {}, route, UnsupportedHostValue) {
      FaultFromTop(heap, v, route, UnsupportedHostValue);
    }
  }

  /** The set of objects being traversed, shared by all nested calls. */
  class ActiveSet {
    var members: set<Address>

    constructor ()
      ensures members == {}
    {
      members := {};
    }

    predicate Has(a: Address) reads this { a in members }

    method Add(a: Address)
      modifies this
      ensures members == old(members) + {a}
    {
      members := members + {a};
    }

    method Delete(a: Address)
      modifies this
      ensures members == old(members) - {a}
    {
      members := members - {a};
    }
  }

  /** What a traversal reports: the unfolding where nothing is at fault, and
      otherwise the fault met first. */
  ghost predicate Reports(heap: Heap, v: HostValue, way: set<Address>, r: Result<Value, Category>) {
    match r
    case Ok(t) => Unfolds(heap, v, t) && NoFault(heap, v, way)
    case Err(e) => FirstFault(heap, v, way, e)
  }

  /** The traversal with its active set, restored on every exit. */
  method HostToAbstract(heap: Heap, v: HostValue, active: ActiveSet) returns (r: Result<Value, Category>)
    requires Closed(heap) && Resolves(heap, v)
    modifies active
    ensures active.members == old(active.members)
    ensures Reports(heap, v, old(active.members), r)
    decreases heap.Keys - active.members, 0
  {
    hide LexLess;
    match v
    case HostNull => return Ok(Null);
    case HostBool(b) => return Ok(Bool(b));
    case HostString(s) => return Ok(Str(s));
    case HostNumber(f) => return Ok(Number(f));
    case Unsupported =>
      assert LeastFault(heap, v, active.members, [], UnsupportedHostValue);
      return Err(UnsupportedHostValue);
    case Reference(a) =>
      if active.Has(a) {
        assert LeastFault(heap, v, active.members, [], CyclicHostValue);
        return Err(CyclicHostValue);
      }
      ghost var way := active.members;
      active.Add(a);
      match heap[a] {
        case HostArray(elements) =>
          r := ElementsToAbstract(heap, a, elements, active, way);
        case HostRecord(properties) =>
          r := PropertiesToAbstract(heap, a, properties, active, way);
      }
      active.Delete(a);
  }

  /** The loop over the elements of array `a`, which has just been entered. */
  method ElementsToAbstract(heap: Heap, a: Address, elements: seq<HostValue>, active: ActiveSet,
                            ghost way: set<Address>)
    returns (r: Result<Value, Category>)
    requires Closed(heap) && a in heap && a !in way && active.members == way + {a} && heap[a] == HostArray(elements)
    modifies active
    ensures active.members == old(active.members)
    ensures Reports(heap, Reference(a), way, r)
    decreases heap.Keys - active.members, 1
  {
    hide LexLess, FaultAt;
    var result: seq<Value> := [];
    for index := 0 to |elements|
      invariant active.members == old(active.members)
      invariant |result| == index && forall i | 0 <= i < index :: Unfolds(heap, elements[i], result[i])
      invariant forall i | 0 <= i < index :: NoFault(heap, elements[i], way + {a})
    {
      assert elements[index] in Children(heap[a]);
      var item := HostToAbstract(heap, elements[index], active);
      if item.Err? {
        FirstFaultOfChild(heap, a, way, index, item.error);
        return Err(item.error);
      }
      result := result + [item.value];
    }
    NoFaultInObject(heap, a, way);
    return Ok(Arr(result));
  }

  /** The loop over the properties of object `a`, which has just been entered. */
  method PropertiesToAbstract(heap: Heap, a: Address, properties: seq<(JsString, HostValue)>, active: ActiveSet,
                              ghost way: set<Address>)
    returns (r: Result<Value, Category>)
    requires Closed(heap) && a in heap && a !in way && active.members == way + {a} && heap[a] == HostRecord(properties)
    modifies active
    ensures active.members == old(active.members)
    ensures Reports(heap, Reference(a), way, r)
    decreases heap.Keys - active.members, 1
  {
    hide LexLess, FaultAt;
    var entries: seq<Entry> := [];
    for index := 0 to |properties|
      invariant active.members == old(active.members)
      invariant |entries| == index
      invariant forall i | 0 <= i < index ::
                  entries[i].key == properties[i].0 && Unfolds(heap, properties[i].1, entries[i].value)
      invariant forall i | 0 <= i < index :: NoFault(heap, properties[i].1, way + {a})
    {
      assert properties[index].1 == Children(heap[a])[index];
      var item := HostToAbstract(heap, properties[index].1, active);
      if item.Err? {
        FirstFaultOfChild(heap, a, way, index, item.error);
        return Err(item.error);
      }
      entries := entries + [Entry(properties[index].0, item.value)];
    }
    NoFaultInObject(heap, a, way);
    return Ok(Obj(entries));
  }

  // Trees are never refused as cyclic.

  lemma {:induction false} TreesAreNotCyclic(f: NumberFormat, v: Value)
    ensures Serialize(EncoderV0, f, v) != Err(CyclicHostValue)
    decreases v, 2
  {
    match v
    case Arr(items) => ItemsAreNotCyclic(f, items);
    case Obj(entries) => ObjectsAreNotCyclic(f, v);
    case _ =>
  }

  lemma {:induction false} ObjectsAreNotCyclic(f: NumberFormat, v: Value)
    requires v.Obj?
    ensures Serialize(EncoderV0, f, v) != Err(CyclicHostValue)
    decreases v, 1
  {
    hide Sort, KeyError, SerializeEntries, Serialize;
    var sorted := Sort(v.entries);
    SameElements(sorted, v.entries);
    KeysAreNotCyclic(v.entries, {});
    EntriesAreNotCyclic(f, v, sorted);
    SerializeObject(EncoderV0, f, v, sorted);
  }

  lemma {:induction false} ItemsAreNotCyclic(f: NumberFormat, items: seq<Value>)
    ensures SerializeItems(EncoderV0, f, items) != Err(CyclicHostValue)
    decreases items, 0
  {
    if items != [] {
      hide Serialize;
      TreesAreNotCyclic(f, items[0]);
      ItemsAreNotCyclic(f, items[1..]);
    }
  }

  lemma {:induction false} KeysAreNotCyclic(entries: seq<Entry>, seen: set<JsString>)
    ensures KeyError(EncoderV0, entries, seen) != Some(CyclicHostValue)
  {
    if entries != [] { KeysAreNotCyclic(entries[1..], seen + {entries[0].key}); }
  }

  lemma {:induction false} EntriesAreNotCyclic(f: NumberFormat, owner: Value, entries: seq<Entry>)
    requires owner.Obj? && forall e | e in entries :: e in owner.entries
    ensures SerializeEntries(EncoderV0, f, owner, entries) != Err(CyclicHostValue)
    decreases owner, 0, |entries|
  {
    if entries != [] {
      hide Serialize;
      assert entries[0] in owner.entries;
      TreesAreNotCyclic(f, entries[0].value);
      EntriesAreNotCyclic(f, owner, entries[1..]);
    }
  }

  /** A route to a repeated object precedes every route to an unsupported value. */
  ghost predicate CycleMetFirst(heap: Heap, v: HostValue) {
    forall u :: FaultAt(heap, v, {}, u, UnsupportedHostValue) ==> CycleBefore(heap, v, u)
  }

  ghost predicate CycleBefore(heap: Heap, v: HostValue, u: seq<int>) {
    exists c :: FaultAt(heap, v, {}, c, CyclicHostValue) && LexLess(c, u)
  }

  /** `encodeJsonUtf8LfV0`: the encoding of the unfolding, if there is one, and
      otherwise the fault met first. It is refused as cyclic exactly when a cycle
      is reachable and met before anything unsupported. */
  method EncodeHost(f: NumberFormat, heap: Heap, v: HostValue) returns (r: Result<Bytes, Category>)
    requires Closed(heap) && Resolves(heap, v)
    ensures !CycleReachable(heap, v) && !UnsupportedReachable(heap, v)
       <==> exists t :: Unfolds(heap, v, t)
    ensures forall t :: Unfolds(heap, v, t) ==> r == EncodeBytes(f, t)
    ensures r == Err(CyclicHostValue) <==> FirstFault(heap, v, {}, CyclicHostValue)
    ensures r == Err(CyclicHostValue) <==> CycleReachable(heap, v) && CycleMetFirst(heap, v)
    ensures UnsupportedReachable(heap, v) && !CycleMetFirst(heap, v) ==> r == Err(UnsupportedHostValue)
  {
    var active := new ActiveSet();
    var tree := HostToAbstract(heap, v, active);
    FaultsAreReachability(heap, v);
    if tree.Err? {
      FaultExcludesUnfolding(heap, v, tree.error);
      FirstFaultDecides(heap, v, tree.error);
      return Err(tree.error);
    }
    forall t | Unfolds(heap, v, t) ensures t == tree.value { UnfoldingUnique(heap, v, t, tree.value); }
    assert Unfolds(heap, v, tree.value);
    UnfoldingExcludesCycles(heap, v, tree.value);
    UnfoldingExcludesUnsupported(heap, v, tree.value);
    TreesAreNotCyclic(f, tree.value);
    r := EncodeBytes(f, tree.value);
  }

  lemma FaultExcludesUnfolding(heap: Heap, v: HostValue, e: Category)
    requires Closed(heap) && Resolves(heap, v) && FirstFault(heap, v, {}, e)
    ensures CycleReachable(heap, v) || UnsupportedReachable(heap, v)
    ensures forall t :: !Unfolds(heap, v, t)
  {
    hide FaultAt, CycleReachable, UnsupportedReachable, Unfolds;
    var route :| LeastFault(heap, v, {}, route, e);
    FaultFromTop(heap, v, route, e);
    forall t ensures !Unfolds(heap, v, t) {
      if Unfolds(heap, v, t) {
        UnfoldingExcludesCycles(heap, v, t);
        UnfoldingExcludesUnsupported(heap, v, t);
      }
    }
  }

  /** The first fault, once there is one, is a cycle exactly when a cycle precedes everything unsupported. */
  lemma FirstFaultDecides(heap: Heap, v: HostValue, e: Category)
    requires Closed(heap) && Resolves(heap, v) && FirstFault(heap, v, {}, e)
    ensures e == CyclicHostValue <==> CycleReachable(heap, v) && CycleMetFirst(heap, v)
    ensures FirstFault(heap, v, {}, CyclicHostValue) <==> e == CyclicHostValue
    ensures e == CyclicHostValue || e == UnsupportedHostValue
  {
    hide FaultAt, LexLess, CycleReachable, UnsupportedReachable;
    var route :| LeastFault(heap, v, {}, route, e);
    FaultFromTop(heap, v, route, e);
    if FirstFault(heap, v, {}, CyclicHostValue) { FirstFaultUnique(heap, v, {}, e, CyclicHostValue); }
    if e == CyclicHostValue {
      forall u | FaultAt(heap, v, {}, u, UnsupportedHostValue) ensures CycleBefore(heap, v, u) { }
    } else if CycleMetFirst(heap, v) {
      assert CycleBefore(heap, v, route);
      var c :| FaultAt(heap, v, {}, c, CyclicHostValue) && LexLess(c, route);
      LexTrichotomy(c, route);
      assert false;
    }
  }

  // Reachability alone decides nothing: both heaps reach a cycle and an unsupported value.

  const CYCLE_FIRST: Heap := map[0 := HostArray([Reference(0), Unsupported])]

  const UNSUPPORTED_FIRST: Heap := map[0 := HostArray([Unsupported, Reference(0)])]

  lemma ReachabilityIsNotEnough()
    ensures Closed(CYCLE_FIRST) && Closed(UNSUPPORTED_FIRST)
    ensures CycleReachable(CYCLE_FIRST, Reference(0)) && UnsupportedReachable(CYCLE_FIRST, Reference(0))
    ensures CycleReachable(UNSUPPORTED_FIRST, Reference(0)) && UnsupportedReachable(UNSUPPORTED_FIRST, Reference(0))
    ensures FirstFault(CYCLE_FIRST, Reference(0), {}, CyclicHostValue)
    ensures FirstFault(UNSUPPORTED_FIRST, Reference(0), {}, UnsupportedHostValue)
  {
    hide CycleReachable, UnsupportedReachable, FirstFault, HasFault;
    var v := Reference(0);
    FaultsOfTwo(CYCLE_FIRST, Reference(0), Unsupported, CyclicHostValue, UnsupportedHostValue);
    FaultsOfTwo(UNSUPPORTED_FIRST, Unsupported, Reference(0), UnsupportedHostValue, CyclicHostValue);
    FaultsAreReachability(CYCLE_FIRST, v);
    FaultsAreReachability(UNSUPPORTED_FIRST, v);
  }

  lemma FaultsOfTwo(heap: Heap, first: HostValue, second: HostValue, e: Category, x: Category)
    requires heap == map[0 := HostArray([first, second])]
    requires FaultAt(heap, first, {0}, [], e) && FaultAt(heap, second, {0}, [], x)
    ensures FirstFault(heap, Reference(0), {}, e)
    ensures HasFault(heap, Reference(0), e) && HasFault(heap, Reference(0), x)
  {
    var way: set<Address> := {};
    assert Children(heap[0]) == [first, second] && way + {0} == {0};
    LeafFaultIsLeast(heap, first, {0}, e);
    FirstFaultOfChild(heap, 0, way, 0, e);
    FaultThroughChild(heap, 0, way, first, [], e);
    FaultThroughChild(heap, 0, way, second, [], x);
  }

  lemma LeafFaultIsLeast(heap: Heap, v: HostValue, way: set<Address>, e: Category)
    requires FaultAt(heap, v, way, [], e)
    ensures FirstFault(heap, v, way, e)
  {
    assert LeastFault(heap, v, way, [], e);
  }
}

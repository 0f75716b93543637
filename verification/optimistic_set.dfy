/** The sequential behaviour of `OptimisticSet`: a singly linked list of
    nodes kept in ascending key order between a `head` sentinel (key
    `Integer.MIN_VALUE`) and a `tail` sentinel (key `Integer.MAX_VALUE`),
    plus a counter of the nodes between them.

    The heap is represented by the chain of nodes reachable from `head`, in
    link order: `chain[i].next` is `chain[i+1]`, and the last node's `next`
    is null. No node is ever shared between two positions, so this sequence
    is exactly the observable state. Per-node locks are not modelled; the
    hand-over-hand step `nextNode(p)` is just `p := p.next`. */
module OptimisticSet {
  import opened JavaLang

  /** A list node: ordering key and payload (null for the sentinels). Its
      `next` link is implicit in its position in the chain. */
  datatype Node<T> = Node(key: int32, value: Option<T>)

  /** `new Node<>(v)`: the key of a value's node is its `hashCode()`, given
      here as the caller-supplied function `hash`. */
  function NewNode<T>(hash: T -> int32, v: T): Node<T>
  {
    Node(hash(v), Some(v))
  }

  /** `new Node<>(null, Integer.MIN_VALUE)` */
  function Head<T>(): Node<T>
  {
    Node(MIN_INT, None)
  }

  /** `new Node<>(null, Integer.MAX_VALUE)` */
  function Tail<T>(): Node<T>
  {
    Node(MAX_INT, None)
  }

  /** The nodes reachable from `head`, starting with `head` itself. `head` is
      a final field, so the chain is never empty. */
  type Chain<T> = c: seq<Node<T>> | |c| >= 1 witness [Node(MIN_INT, None)]

  /** An `OptimisticSet` object: its node chain and its `size` counter. */
  datatype SetState<T> = SetState(chain: Chain<T>, size: int32)

  /** The state after a mutating call and the boolean the call returned. */
  datatype Step<T> = Step(after: SetState<T>, result: bool)

  // ---------------------------------------------------------------------
  // The representation invariant and the abstract view

  /** Keys strictly ascend from the first node after `head` onwards. `head`
      itself is left out: a node keyed `Integer.MIN_VALUE` ties with it. */
  ghost predicate StrictlyAscending<T>(c: seq<Node<T>>)
  {
    forall i, j :: 1 <= i < j < |c| ==> c[i].key < c[j].key
  }

  /** The keys of the set's members: those of the nodes strictly between the
      first and the last node of the chain. */
  function Keys<T>(c: seq<Node<T>>): set<int32>
  {
    set i | 1 <= i < |c| - 1 :: c[i].key
  }

  /** The payloads of the nodes strictly between the first and the last node,
      in chain order. */
  function InteriorValues<T>(c: seq<Node<T>>): seq<Option<T>>
    requires |c| >= 2
  {
    seq(|c| - 2, i requires 0 <= i < |c| - 2 => c[i + 1].value)
  }

  /** Every node strictly between the first and the last carries a non-null
      value and is keyed by that value's hash. */
  ghost predicate KeyedByHash<T>(c: seq<Node<T>>, hash: T -> int32)
  {
    forall i :: 1 <= i < |c| - 1 ==> c[i].value.Some? && c[i].key == hash(c[i].value.value)
  }

  /** The invariant every quiescent set satisfies: `head` first, `tail` last,
      members carrying non-null values keyed by their hash, keys strictly
      ascending, and the counter equal to the number of members (as a Java
      `int`). */
  ghost predicate Valid<T>(s: SetState<T>, hash: T -> int32)
  {
    var c := s.chain;
    && |c| >= 2
    && c[0] == Head()
    && c[|c| - 1] == Tail()
    && KeyedByHash(c, hash)
    && StrictlyAscending(c)
    && s.size == Wrap32(|c| - 2)
  }

  // ---------------------------------------------------------------------
  // Operations

  /** The constructor: `size` 0 and `head.next` the `tail` sentinel. */
  function Empty<T>(): SetState<T>
  {
    SetState([Head(), Tail()], 0)
  }

  /** The walk of `findNode` from position `p` onwards: advance while the
      successor's key is below `k`. Following the null `next` of the last node
      throws. */
  function FindFrom<T>(c: Chain<T>, k: int32, p: nat): (r: Result<nat>)
    requires p < |c|
    requires forall j :: 1 <= j <= p ==> c[j].key < k
    ensures r.Ok? ==> p <= r.value && r.value + 1 < |c| && k <= c[r.value + 1].key
    ensures r.Ok? ==> forall j :: 1 <= j <= r.value ==> c[j].key < k
    ensures r.NullPointerException? ==> forall j :: 1 <= j < |c| ==> c[j].key < k
    decreases |c| - p
  {
    if p + 1 == |c| then NullPointerException
    else if c[p + 1].key < k then FindFrom(c, k, p + 1)
    else Ok(p)
  }

  /** `findNode(k)`: the position of the first node whose successor's key is
      at least `k`; every node after `head` up to it has a smaller key. If no
      node has a key of at least `k`, the walk falls off the end. */
  function FindNode<T>(c: Chain<T>, k: int32): (r: Result<nat>)
    ensures r.Ok? ==> r.value + 1 < |c| && k <= c[r.value + 1].key
    ensures r.Ok? ==> forall j :: 1 <= j <= r.value ==> c[j].key < k
    ensures r.NullPointerException? <==> forall j :: 1 <= j < |c| ==> c[j].key < k
  {
    FindFrom(c, k, 0)
  }

  /** `addNode(p, x)`: splice `x` in after position `p` unless `p.next`
      already has `x`'s key. */
  function AddNode<T>(c: Chain<T>, p: nat, x: Node<T>): (r: (Chain<T>, bool))
    requires p + 1 < |c|
  {
    if c[p + 1].key == x.key then (c, false)
    else (c[..p + 1] + [x] + c[p + 1..], true)
  }

  /** `removeNode(p, k)`: unlink `p.next` if it has key `k`. */
  function RemoveNode<T>(c: Chain<T>, p: nat, k: int32): (r: (Chain<T>, bool))
    requires p + 1 < |c|
  {
    if c[p + 1].key != k then (c, false)
    else (c[..p + 1] + c[p + 2..], true)
  }

  /** `add(v)`: locate the predecessor, splice in a fresh node, and count it
      if it went in. */
  function Add<T>(s: SetState<T>, hash: T -> int32, v: T): Result<Step<T>>
  {
    var x := NewNode(hash, v);
    match FindNode(s.chain, x.key)
    case NullPointerException => NullPointerException
    case Ok(p) =>
      var (c, done) := AddNode(s.chain, p, x);
      Ok(Step(SetState(c, if done then Wrap32(s.size + 1) else s.size), done))
  }

  /** `remove(v)` where `k` is `v.hashCode()`: locate the predecessor, unlink
      its successor if the keys match, and uncount it. */
  function Remove<T>(s: SetState<T>, k: int32): Result<Step<T>>
  {
    match FindNode(s.chain, k)
    case NullPointerException => NullPointerException
    case Ok(p) =>
      var (c, done) := RemoveNode(s.chain, p, k);
      Ok(Step(SetState(c, if done then Wrap32(s.size - 1) else s.size), done))
  }

  /** `contains(v)` where `k` is `v.hashCode()`: whether the predecessor's
      successor has key `k`. */
  function Contains<T>(s: SetState<T>, k: int32): Result<bool>
  {
    match FindNode(s.chain, k)
    case NullPointerException => NullPointerException
    case Ok(p) => Ok(s.chain[p + 1].key == k)
  }

  /** `size()` */
  function Size<T>(s: SetState<T>): int32
  {
    s.size
  }

  /** `iterator()`: walk from `head` collecting the value of `p.next` while
      `p.next.next` is not null, into a fresh list. The snapshot is every
      node strictly between `head` and the last node of the chain; on a chain
      of `head` alone the first test dereferences null. */
  method Iterator<T>(s: SetState<T>) returns (r: Result<seq<Option<T>>>)
    ensures r.NullPointerException? <==> |s.chain| < 2
    ensures r.Ok? ==> |r.value| == |s.chain| - 2
    ensures r.Ok? ==> forall i :: 0 <= i < |r.value| ==> r.value[i] == s.chain[i + 1].value
    ensures r.Ok? ==> r.value == InteriorValues(s.chain)
  {
    var c := s.chain;
    if |c| < 2 {
      return NullPointerException;
    }
    var a: seq<Option<T>> := [];
    var p := 0;
    while p + 2 < |c|
      invariant 0 <= p <= |c| - 2
      invariant |a| == p
      invariant forall i :: 0 <= i < p ==> a[i] == c[i + 1].value
    {
      a := a + [c[p + 1].value];
      p := p + 1;
    }
    return Ok(a);
  }
}

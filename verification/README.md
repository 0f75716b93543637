# OptimisticSet — sequential model in Dafny

`OptimisticSet<T>` is a Java set. It stores its elements as a singly linked
list of nodes in ascending order of key. A node's key is its value's
`hashCode()`. The list runs from a `head` sentinel with key
`Integer.MIN_VALUE` to a `tail` sentinel with key `Integer.MAX_VALUE`. Neither
sentinel belongs to the set. An `AtomicInteger` counts the nodes between the
two sentinels. Each operation first walks the list with `findNode(k)` to the
predecessor `p` of key `k`, then:

- `add` splices in a new node;
- `remove` unlinks `p.next`;
- `contains` compares `p.next.key` with `k`.

`iterator()` copies the values between the sentinels into a fresh list.

This project models the sequential behaviour of these operations and proves
what they promise.

## How the model is built

- `java_lang.dfy` (module `JavaLang`) holds the Java types the model needs:
  - `int32` is Java's `int`;
  - `Wrap32` is the two's-complement wrap-around of `AtomicInteger`;
  - `Option` is a reference that may be null;
  - `Result` is a normal return or a `NullPointerException`.
- `optimistic_set.dfy` (module `OptimisticSet`) models `OptimisticSet.java`
  and `Node.java`.
  - The heap is the chain of nodes reachable from `head`, as a `seq` in link
    order. The `next` of a node is the node after it. The last node's `next`
    is null.
  - The `size` counter is a separate field. So `size == |chain| - 2` (wrapped
    to `int`) is proved, not true by definition.
  - Each modelled Java member has a Dafny counterpart:

    | Java | Dafny |
    |---|---|
    | constructor | `Empty` |
    | `new Node<>(v)` | `NewNode` |
    | `findNode` | `FindNode` (walk in `FindFrom`) |
    | `addNode` | `AddNode` |
    | `removeNode` | `RemoveNode` |
    | `add` | `Add` |
    | `remove` | `Remove` |
    | `contains` | `Contains` |
    | `size` | `Size` |
    | `iterator` | the method `Iterator` |

  - `Valid` is the representation invariant: `head` comes first and `tail`
    last, member keys strictly ascend, each member's key is the hash of its
    value, and the counter matches the chain.
- `set_properties.dfy` (module `SetProperties`) holds what the operations
  promise on a valid set. It also defines call sequences (`Call`, `Apply`,
  `Run`).
- `sentinel_keys.dfy` (module `SentinelKeys`) covers keys equal to
  `Integer.MAX_VALUE` (see Findings).
  - It holds the guarded `ContainsFixed` and `RemoveFixed`.
  - It holds the corrected call sequence `RunFixed`, which keeps every set
    valid.

`hashCode()` is the parameter `hash: T -> int32`. `remove(Object v)` and
`contains(Object v)` use nothing of `v` but `v.hashCode()`, so `Remove` and
`Contains` take that key directly.

Three behaviours of the code are worth stating, since the class's name and
comments suggest otherwise:

- `add` also returns false for the key `Integer.MAX_VALUE`, because that key
  collides with `tail`. So a value with that hash can never be stored.
- The file contains no validate-and-retry step, despite its name. Its
  traversal is hand-over-hand locking only (OptimisticSet.java:109-142), so
  none is modelled.
- Keys are compared for equality only, so two unequal values with the same
  hash are treated as one element.

A value whose hash is `Integer.MIN_VALUE` is stored normally, right after
`head`. It ties with `head`'s key, so `Valid` requires strictly ascending keys
only from the first node after `head` onwards.

## Model

| member | source | states |
|---|---|---|
| JavaLang.Wrap32 | OptimisticSet.java:35 | an `int` counter holds the exact count when it fits in 32 bits, and is always congruent to it modulo 2^32 |
| JavaLang.WrapAdd | OptimisticSet.java:57 | incrementing or decrementing a wrapped counter gives the wrapped exact count, so the counter tracks the number of members modulo 2^32 |
| OptimisticSet.FindNode | OptimisticSet.java:112-118 | `findNode(k)` returns the first node whose successor's key is at least `k`, and every node after `head` up to it has a smaller key; it throws exactly when no node after `head` has a key of at least `k` |
| OptimisticSet.Iterator | OptimisticSet.java:145-155 | the snapshot is the values of all nodes strictly between `head` and the last node, in chain order (`InteriorValues`); it throws exactly when the chain is `head` alone |
| OptimisticSet.Empty | OptimisticSet.java:40-44 | the constructor's state; its behaviour is stated by `SetProperties.EmptyIsValid` |
| OptimisticSet.NewNode | Node.java:14-16 | a value's node, keyed by its hash; `SetProperties.AddInsertsFreshKey` states that this node is what `add` splices in |
| OptimisticSet.AddNode | OptimisticSet.java:92-98 | the splice step; stated by `SetProperties.AddRejectsPresentKey`, `SetProperties.InsertKeepsOrder`, `SetProperties.InsertAddsKey` and `SetProperties.InsertKeepsValid` |
| OptimisticSet.RemoveNode | OptimisticSet.java:102-107 | the unlink step; stated by `SetProperties.RemoveRejectsAbsentKey`, `SetProperties.UnlinkKeepsOrder`, `SetProperties.UnlinkDropsKey`, `SetProperties.UnlinkKeepsValid` and `SentinelKeys.RemoveTailKeyUnlinksTail` |
| OptimisticSet.Add | OptimisticSet.java:52-60 | `add(v)`; stated by `SetProperties.AddRejectsPresentKey`, `SetProperties.AddInsertsFreshKey`, `SetProperties.AddPreservesValid` and `SetProperties.AddThenContains` |
| OptimisticSet.Remove | OptimisticSet.java:67-75 | `remove(v)`; stated by `SetProperties.RemoveRejectsAbsentKey`, `SetProperties.RemoveUnlinksMember`, `SetProperties.RemoveThenContains` and `SentinelKeys.RemoveTailKeyUnlinksTail` |
| OptimisticSet.Contains | OptimisticSet.java:81-88 | `contains(v)`; stated by `SetProperties.ContainsIsMembership` and `SentinelKeys.ContainsTailKeyOnEmptySet` |
| OptimisticSet.Size | OptimisticSet.java:158-160 | `size()`; stated by `SetProperties.SizeCountsMembers` and, through `Valid`, by every preservation lemma |
| SetProperties.EmptyIsValid | OptimisticSet.java:40-44 | a new set satisfies the invariant, `size()` is 0, and it has no members and an empty snapshot |
| SetProperties.FindNodeBrackets | OptimisticSet.java:112-118 | on a valid set `findNode(k)` always returns a `p` with `k <= p.next.key`; for `k > Integer.MIN_VALUE` also `p.key < k`; and every node after `head` up to `p` has a key below `k` |
| SetProperties.FindNodeHitsMember | OptimisticSet.java:112-118 | on a valid set the found successor has key `k` iff `k` is a member's key or the `tail` key, and it is a member with key `k` iff `k` is a member's key |
| SetProperties.ContainsIsMembership | OptimisticSet.java:81-88 | `contains` returns exactly whether the key is a member's key, or is `Integer.MAX_VALUE`; below `Integer.MAX_VALUE` it is exactly membership |
| SetProperties.AddRejectsPresentKey | OptimisticSet.java:92-94 | `add(v)` whose hash is already present (even for an unequal value), or is the `tail` key, returns false and leaves chain and counter unchanged |
| SetProperties.InsertKeepsOrder | OptimisticSet.java:95-96 | splicing a node between neighbours that bracket its key keeps keys strictly ascending |
| SetProperties.InsertAddsKey | OptimisticSet.java:95-96 | splicing a node in adds exactly its key to the member keys |
| SetProperties.AddInsertsFreshKey | OptimisticSet.java:52-60 | `add(v)` with a fresh hash below `Integer.MAX_VALUE` returns true, inserts exactly one node for `v` between the nodes below and above its key, changes no other node, adds exactly its key, increments `size`, and keeps the invariant |
| SetProperties.InsertKeepsValid | OptimisticSet.java:95-96 | splicing in a node keyed by its value's hash in its ordered place and counting it keeps sentinels, ordering and counter consistent |
| SetProperties.AddPreservesValid | OptimisticSet.java:52-60 | every `add` on a valid set returns normally and leaves it valid |
| SetProperties.RemoveRejectsAbsentKey | OptimisticSet.java:102-104 | `remove` of a key no member has (other than `Integer.MAX_VALUE`) returns false and changes nothing |
| SetProperties.UnlinkKeepsOrder | OptimisticSet.java:105 | unlinking a member keeps keys strictly ascending |
| SetProperties.UnlinkDropsKey | OptimisticSet.java:105 | on a strictly ascending chain, unlinking a member removes exactly its key from the member keys |
| SetProperties.RemoveUnlinksMember | OptimisticSet.java:67-75 | `remove` of a member's key returns true, unlinks exactly that member and nothing else, drops its key, decrements `size`, and keeps the invariant |
| SetProperties.UnlinkKeepsValid | OptimisticSet.java:102-107 | unlinking a member and uncounting it keeps sentinels, ordering and counter consistent |
| SetProperties.RemovePreservesValid | OptimisticSet.java:67-75 | every `remove` of a key other than `Integer.MAX_VALUE` on a valid set returns normally and leaves it valid |
| SetProperties.AddThenContains | OptimisticSet.java:52-60 | after `add(v)`, `contains(v)` is true and a second `add(v)` returns false without change; the first `add` returned true iff the key was fresh and not the `tail` key |
| SetProperties.RemoveThenContains | OptimisticSet.java:67-75 | after `remove(k)` for `k < Integer.MAX_VALUE`, `contains(k)` is false; `remove` returned true iff `k` was a member's key |
| SetProperties.SnapshotIsOrderedMembers | OptimisticSet.java:145-155 | on a valid set the snapshot has one non-null value per member, each keyed by its hash, in strictly ascending key order, whose keys are exactly the member keys (never a sentinel) |
| SetProperties.SizeCountsMembers | OptimisticSet.java:158-160 | on a valid set `size()` equals the number of distinct member keys and the length of the snapshot, while that number fits in an `int` |
| SetProperties.ApplyPreservesValid | OptimisticSet.java:52-88 | any single `add`, `contains`, or `remove` of a key other than `Integer.MAX_VALUE` keeps a valid set valid and does not throw |
| SetProperties.RunPreservesValid | OptimisticSet.java:52-88 | any sequence of such calls keeps a valid set valid and never throws |
| SentinelKeys.ContainsTailKeyOnEmptySet | OptimisticSet.java:85 | on a new set, `contains` of the key `Integer.MAX_VALUE` returns true although the set has no members |
| SentinelKeys.RemoveTailKeyUnlinksTail | OptimisticSet.java:104-105 | on any valid set, `remove` of the key `Integer.MAX_VALUE` returns true, unlinks `tail`, decrements `size`, and leaves an invalid set |
| SentinelKeys.RemoveTailKeyFromEmptySet | OptimisticSet.java:102-107 | on a new set, that `remove` leaves `size()` at -1 and `head.next` null, after which every `add` throws `NullPointerException` |
| SentinelKeys.ContainsFixed | OptimisticSet.java:81-88 | `contains` with the added guard `q.next != null`; stated by `SentinelKeys.ContainsFixedIsMembership` |
| SentinelKeys.RemoveFixed | OptimisticSet.java:102-107 | `remove` whose `removeNode` also fails when `q.next == null`; stated by `SentinelKeys.RemoveFixedIsMembership` and `SentinelKeys.RunFixedPreservesValid` |
| SentinelKeys.ContainsFixedIsMembership | OptimisticSet.java:81-88 | `contains` guarded by `q.next != null` is exactly membership, for every key |
| SentinelKeys.RemoveFixedIsMembership | OptimisticSet.java:102-107 | `remove` guarded by `q.next != null` returns true iff the key is a member's key; it then behaves as `remove`, otherwise changes nothing, and keeps the invariant for every key |
| SentinelKeys.RunFixedPreservesValid | OptimisticSet.java:52-88 | with the guarded `remove`, every sequence of calls keeps a valid set valid and never throws |

## Left out

- Locking: the node lock field, `Node.lock`/`unlock`, `lockPair`,
  `unlockPair` and the lock steps of `nextNode` are not modelled. They are
  concurrency control with no sequential content. The traversal is plain
  `p := p.next`. It follows that the locks left held when `findNode` throws
  are not modelled either.
- `AtomicInteger` atomicity is not modelled. `size` is a plain 32-bit
  counter, with its wrap-around modelled by `Wrap32`.
- A null argument is not modelled. `add(null)`, `remove(null)` and
  `contains(null)` throw from `hashCode()`, but the value type has no null.
- The real `hashCode()` is not modelled. It is the parameter `hash`.
- `Main.java` is not modelled. It is a thread-spawning stress driver with
  sleeps, joins and console output.
- Behaviour inherited from `AbstractSet` (`toString`, `equals`, ...) is not
  modelled. The `Iterator` object is not modelled either: the snapshot is a
  `seq`.
- No optimistic validate-and-retry engine is modelled, because the source
  has none.
- SetProperties.RemovePreservesValid: excludes the key `Integer.MAX_VALUE`.
  The code as written breaks the invariant on that key (see Findings).
- SetProperties.RunPreservesValid: excludes removing the key
  `Integer.MAX_VALUE`, for the same reason.
- SetProperties.SizeCountsMembers: holds only while the member count is at
  most `Integer.MAX_VALUE`. Past that the counter wraps, and `Valid` states
  the wrapped relation.

## Findings

| source | as written | input that shows it | evidently intended | confidence | as-written member | corrected member |
|---|---|---|---|---|---|---|
| OptimisticSet.java:85 | `has = q.key == k` also matches the `tail` sentinel | `contains(Integer.MAX_VALUE)` on a new `OptimisticSet<Integer>` returns true | false: no element with that key can ever be added, since `add` returns false for it | not executed | SentinelKeys.ContainsTailKeyOnEmptySet | SentinelKeys.ContainsFixed |
| OptimisticSet.java:104-105 | `removeNode` unlinks `p.next` when its key matches, even if it is `tail` | `remove(Integer.MAX_VALUE)` on a new `OptimisticSet<Integer>` returns true, `size()` becomes -1, and the next `add` throws `NullPointerException` | return false and change nothing: sentinels are never removed | not executed | SentinelKeys.RemoveTailKeyUnlinksTail | SentinelKeys.RemoveFixed |

The corrected operations guard the successor with `q.next != null`.
`SentinelKeys.RunFixed` composes `RemoveFixed` with the unchanged `add` and
`contains`, and `SentinelKeys.RunFixedPreservesValid` proves that every call
sequence on it keeps a valid set valid.

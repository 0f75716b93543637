/** What `OptimisticSet`'s operations promise on a set that satisfies its
    representation invariant: `findNode` brackets the key, `add`, `remove` and
    `contains` report membership by key exactly, the invariant (ordering,
    sentinels, counter) is preserved, and the iterator's snapshot is the
    members in ascending key order. */
module SetProperties {
  import opened JavaLang
  import opened OptimisticSet

  /** `x` sits at position `i` of `c'`, which is otherwise `c`, between the
      nodes with smaller keys and one with a larger key. */
  ghost predicate InsertedAt<T>(c: seq<Node<T>>, c': seq<Node<T>>, i: int, x: Node<T>)
  {
    && 1 <= i < |c|
    && c' == c[..i] + [x] + c[i..]
    && (forall j :: 1 <= j < i ==> c[j].key < x.key)
    && x.key < c[i].key
  }

  /** `c'` is `c` with its member at position `i`, keyed `k`, unlinked. */
  ghost predicate RemovedAt<T>(c: seq<Node<T>>, c': seq<Node<T>>, i: int, k: int32)
  {
    && 1 <= i < |c| - 1
    && c[i].key == k
    && c' == c[..i] + c[i + 1..]
  }

  // ---------------------------------------------------------------------
  // Constructor

  /** A new set is valid, has size 0, no members, and an empty snapshot. */
  lemma EmptyIsValid<T>(hash: T -> int32)
    ensures Valid(Empty(), hash)
    ensures Size(Empty<T>()) == 0
    ensures Keys(Empty<T>().chain) == {}
    ensures InteriorValues(Empty<T>().chain) == []
  {
  }

  // ---------------------------------------------------------------------
  // findNode

  /** On a valid set `findNode(k)` never falls off the chain (the `tail` key is
      the largest `int`), stops at a predecessor `p` with `p.next.key >= k`,
      and for `k` above `Integer.MIN_VALUE` also `p.key < k`. */
  lemma FindNodeBrackets<T>(s: SetState<T>, hash: T -> int32, k: int32)
    requires Valid(s, hash)
    ensures FindNode(s.chain, k).Ok?
    ensures var p := FindNode(s.chain, k).value;
      && p + 1 < |s.chain|
      && k <= s.chain[p + 1].key
      && (MIN_INT < k ==> s.chain[p].key < k)
      && (forall j :: 1 <= j <= p ==> s.chain[j].key < k)
  {
    var c := s.chain;
    assert c[|c| - 1].key == MAX_INT;
    assert !(forall j :: 1 <= j < |c| ==> c[j].key < k);
  }

  /** On a valid set the successor `findNode(k)` stops before carries key `k`
      exactly when `k` is a member's key or the `tail` key; it is a member
      exactly when `k` is a member's key. */
  lemma FindNodeHitsMember<T>(s: SetState<T>, hash: T -> int32, k: int32)
    requires Valid(s, hash)
    ensures FindNode(s.chain, k).Ok?
    ensures var p := FindNode(s.chain, k).value;
      && (s.chain[p + 1].key == k <==> k in Keys(s.chain) || k == MAX_INT)
      && (p + 1 < |s.chain| - 1 && s.chain[p + 1].key == k <==> k in Keys(s.chain))
  {
    FindNodeBrackets(s, hash, k);
    var c := s.chain;
    var p := FindNode(c, k).value;
    if k in Keys(c) {
      var i :| 1 <= i < |c| - 1 && c[i].key == k;
      assert p < i;
      assert i <= p + 1;
    }
    assert p + 1 < |c| - 1 ==> c[p + 1].key in Keys(c);
  }

  // ---------------------------------------------------------------------
  // contains

  /** `contains(v)` is membership of `v.hashCode()` among the keys, except that
      the `tail` key `Integer.MAX_VALUE` is always reported present. */
  lemma ContainsIsMembership<T>(s: SetState<T>, hash: T -> int32, k: int32)
    requires Valid(s, hash)
    ensures Contains(s, k) == Ok(k in Keys(s.chain) || k == MAX_INT)
    ensures k < MAX_INT ==> Contains(s, k) == Ok(k in Keys(s.chain))
  {
    FindNodeHitsMember(s, hash, k);
  }

  // ---------------------------------------------------------------------
  // add

  /** `add(v)` of a value whose hash is already a member's key (whether or not
      the values are equal), or is the `tail` key, returns false and changes
      neither the chain nor the counter. */
  lemma AddRejectsPresentKey<T>(s: SetState<T>, hash: T -> int32, v: T)
    requires Valid(s, hash)
    requires hash(v) in Keys(s.chain) || hash(v) == MAX_INT
    ensures Add(s, hash, v) == Ok(Step(s, false))
  {
    FindNodeHitsMember(s, hash, hash(v));
  }

  /** Splicing in a node whose key lies strictly between its neighbours keeps
      the chain strictly ascending. */
  lemma InsertKeepsOrder<T>(c: seq<Node<T>>, i: int, x: Node<T>)
    requires 1 <= i < |c|
    requires StrictlyAscending(c)
    requires forall j :: 1 <= j < i ==> c[j].key < x.key
    requires x.key < c[i].key
    ensures StrictlyAscending(c[..i] + [x] + c[i..])
  {
    var c' := c[..i] + [x] + c[i..];
    forall a, b | 1 <= a < b < |c'|
      ensures c'[a].key < c'[b].key
    {
      if b < i {
        assert c'[a] == c[a] && c'[b] == c[b];
      } else if b == i {
        assert c'[a] == c[a];
      } else if a < i {
        assert c'[a] == c[a] && c'[b] == c[b - 1];
        assert c[a].key < c[i].key <= c[b - 1].key;
      } else if a == i {
        assert c'[b] == c[b - 1];
        assert c[i].key <= c[b - 1].key;
      } else {
        assert c'[a] == c[a - 1] && c'[b] == c[b - 1];
      }
    }
  }

  /** Splicing in a node adds exactly its key to the member keys. */
  lemma InsertAddsKey<T>(c: seq<Node<T>>, i: int, x: Node<T>)
    requires 1 <= i < |c|
    ensures Keys(c[..i] + [x] + c[i..]) == Keys(c) + {x.key}
  {
    var c' := c[..i] + [x] + c[i..];
    forall key | key in Keys(c')
      ensures key in Keys(c) + {x.key}
    {
      var j :| 1 <= j < |c'| - 1 && c'[j].key == key;
      if j < i {
        assert c'[j] == c[j];
      } else if j > i {
        assert c'[j] == c[j - 1];
      }
    }
    forall key | key in Keys(c) + {x.key}
      ensures key in Keys(c')
    {
      if key == x.key {
        assert c'[i].key == key;
      } else {
        var j :| 1 <= j < |c| - 1 && c[j].key == key;
        if j < i {
          assert c'[j] == c[j];
        } else {
          assert c'[j + 1] == c[j];
        }
      }
    }
  }

  /** `add(v)` of a value whose hash is a fresh key below `Integer.MAX_VALUE`
      returns true, splices exactly one node for `v` into its ordered place and
      changes nothing else, adds its key to the members, increments the
      counter, and keeps the set valid. */
  lemma AddInsertsFreshKey<T>(s: SetState<T>, hash: T -> int32, v: T)
    requires Valid(s, hash)
    requires hash(v) !in Keys(s.chain) && hash(v) != MAX_INT
    ensures Add(s, hash, v).Ok? && Add(s, hash, v).value.result
    ensures var s' := Add(s, hash, v).value.after;
      && (exists i :: InsertedAt(s.chain, s'.chain, i, NewNode(hash, v)))
      && Keys(s'.chain) == Keys(s.chain) + {hash(v)}
      && s'.size == Wrap32(s.size + 1)
      && Valid(s', hash)
  {
    var k := hash(v);
    FindNodeBrackets(s, hash, k);
    FindNodeHitsMember(s, hash, k);
    var p := FindNode(s.chain, k).value;
    AddSplices(s, hash, v, p);
    var s' := SetState(s.chain[..p + 1] + [NewNode(hash, v)] + s.chain[p + 1..], Wrap32(s.size + 1));
    assert Add(s, hash, v).value.after == s';
    FreshInsertAt(s, hash, v, p);
  }

  /** The node `add` splices in after the predecessor `p` of a fresh key
      brackets its key, adds exactly that key, and keeps the set valid. */
  lemma FreshInsertAt<T>(s: SetState<T>, hash: T -> int32, v: T, p: nat)
    requires Valid(s, hash)
    requires p + 1 < |s.chain|
    requires forall j :: 1 <= j <= p ==> s.chain[j].key < hash(v)
    requires hash(v) < s.chain[p + 1].key
    ensures var c' := s.chain[..p + 1] + [NewNode(hash, v)] + s.chain[p + 1..];
      && InsertedAt(s.chain, c', p + 1, NewNode(hash, v))
      && Keys(c') == Keys(s.chain) + {hash(v)}
      && Valid(SetState(c', Wrap32(s.size + 1)), hash)
  {
    var x := NewNode(hash, v);
    InsertAddsKey(s.chain, p + 1, x);
    InsertKeepsValid(s, hash, p + 1, x);
  }

  /** When `findNode` stops before a node with a different key, `add` splices
      the new node in right after the predecessor and counts it. */
  lemma AddSplices<T>(s: SetState<T>, hash: T -> int32, v: T, p: nat)
    requires FindNode(s.chain, hash(v)) == Ok(p)
    requires s.chain[p + 1].key != hash(v)
    ensures Add(s, hash, v)
         == Ok(Step(SetState(s.chain[..p + 1] + [NewNode(hash, v)] + s.chain[p + 1..], Wrap32(s.size + 1)), true))
  {
  }

  /** Splicing a node for a value, keyed by its hash, into its ordered place
      and counting it keeps the set valid. */
  lemma InsertKeepsValid<T>(s: SetState<T>, hash: T -> int32, i: int, x: Node<T>)
    requires Valid(s, hash)
    requires 1 <= i < |s.chain|
    requires x.value.Some? && x.key == hash(x.value.value)
    requires forall j :: 1 <= j < i ==> s.chain[j].key < x.key
    requires x.key < s.chain[i].key
    ensures Valid(SetState(s.chain[..i] + [x] + s.chain[i..], Wrap32(s.size + 1)), hash)
  {
    var c := s.chain;
    var c' := c[..i] + [x] + c[i..];
    InsertKeepsOrder(c, i, x);
    InsertKeepsKeyedByHash(c, hash, i, x);
    WrapAdd(|c| - 2, 1);
    assert c'[0] == c[0];
    assert c'[|c'| - 1] == c[|c| - 1];
  }

  lemma InsertKeepsKeyedByHash<T>(c: seq<Node<T>>, hash: T -> int32, i: int, x: Node<T>)
    requires 1 <= i < |c|
    requires KeyedByHash(c, hash)
    requires x.value.Some? && x.key == hash(x.value.value)
    ensures KeyedByHash(c[..i] + [x] + c[i..], hash)
  {
    var c' := c[..i] + [x] + c[i..];
    forall j | 1 <= j < |c'| - 1
      ensures c'[j].value.Some? && c'[j].key == hash(c'[j].value.value)
    {
      if j < i {
        assert c'[j] == c[j];
      } else if j > i {
        assert c'[j] == c[j - 1];
      }
    }
  }

  /** Every `add` on a valid set returns normally and leaves it valid. */
  lemma AddPreservesValid<T>(s: SetState<T>, hash: T -> int32, v: T)
    requires Valid(s, hash)
    ensures Add(s, hash, v).Ok? && Valid(Add(s, hash, v).value.after, hash)
  {
    if hash(v) in Keys(s.chain) || hash(v) == MAX_INT {
      AddRejectsPresentKey(s, hash, v);
    } else {
      AddInsertsFreshKey(s, hash, v);
    }
  }

  // ---------------------------------------------------------------------
  // remove

  /** `remove(v)` of a key no member has (and that is not the `tail` key)
      returns false and changes nothing. */
  lemma RemoveRejectsAbsentKey<T>(s: SetState<T>, hash: T -> int32, k: int32)
    requires Valid(s, hash)
    requires k !in Keys(s.chain) && k != MAX_INT
    ensures Remove(s, k) == Ok(Step(s, false))
  {
    FindNodeHitsMember(s, hash, k);
  }

  /** Unlinking a member keeps the chain strictly ascending. */
  lemma UnlinkKeepsOrder<T>(c: seq<Node<T>>, i: int)
    requires 1 <= i < |c| - 1
    requires StrictlyAscending(c)
    ensures StrictlyAscending(c[..i] + c[i + 1..])
  {
    var c' := c[..i] + c[i + 1..];
    forall a, b | 1 <= a < b < |c'|
      ensures c'[a].key < c'[b].key
    {
      if a >= i {
        assert c'[a] == c[a + 1] && c'[b] == c[b + 1];
      } else if b >= i {
        assert c'[a] == c[a] && c'[b] == c[b + 1];
      } else {
        assert c'[a] == c[a] && c'[b] == c[b];
      }
    }
  }

  /** On a strictly ascending chain, unlinking a member removes exactly its
      key from the member keys (no other member shares it). */
  lemma UnlinkDropsKey<T>(c: seq<Node<T>>, i: int)
    requires 1 <= i < |c| - 1
    requires StrictlyAscending(c)
    ensures Keys(c[..i] + c[i + 1..]) == Keys(c) - {c[i].key}
  {
    var c' := c[..i] + c[i + 1..];
    forall key | key in Keys(c')
      ensures key in Keys(c) - {c[i].key}
    {
      var j :| 1 <= j < |c'| - 1 && c'[j].key == key;
      if j < i {
        assert c'[j] == c[j];
        assert c[j].key < c[i].key;
      } else {
        assert c'[j] == c[j + 1];
        assert c[i].key < c[j + 1].key;
      }
    }
    forall key | key in Keys(c) - {c[i].key}
      ensures key in Keys(c')
    {
      var j :| 1 <= j < |c| - 1 && c[j].key == key;
      if j < i {
        assert c'[j] == c[j];
      } else {
        assert j != i;
        assert c'[j - 1] == c[j];
      }
    }
  }

  /** `remove(v)` of a member's key returns true, unlinks exactly that member
      and changes nothing else, drops its key, decrements the counter, and
      keeps the set valid. */
  lemma RemoveUnlinksMember<T>(s: SetState<T>, hash: T -> int32, k: int32)
    requires Valid(s, hash)
    requires k in Keys(s.chain)
    ensures Remove(s, k).Ok? && Remove(s, k).value.result
    ensures var s' := Remove(s, k).value.after;
      && (exists i :: RemovedAt(s.chain, s'.chain, i, k))
      && Keys(s'.chain) == Keys(s.chain) - {k}
      && s'.size == Wrap32(s.size - 1)
      && Valid(s', hash)
  {
    var c := s.chain;
    FindNodeHitsMember(s, hash, k);
    var p := FindNode(c, k).value;
    var c' := c[..p + 1] + c[p + 2..];
    RemoveUnlinks(s, k, p);
    UnlinkDropsKey(c, p + 1);
    assert RemovedAt(c, c', p + 1, k);
    UnlinkKeepsValid(s, hash, p + 1);
  }

  /** When `findNode` stops before a node with key `k`, `remove` unlinks it
      and uncounts it. */
  lemma RemoveUnlinks<T>(s: SetState<T>, k: int32, p: nat)
    requires FindNode(s.chain, k) == Ok(p)
    requires s.chain[p + 1].key == k
    ensures Remove(s, k)
         == Ok(Step(SetState(s.chain[..p + 1] + s.chain[p + 2..], Wrap32(s.size - 1)), true))
  {
  }

  /** Unlinking a member and uncounting it keeps the set valid. */
  lemma UnlinkKeepsValid<T>(s: SetState<T>, hash: T -> int32, i: int)
    requires Valid(s, hash)
    requires 1 <= i < |s.chain| - 1
    ensures Valid(SetState(s.chain[..i] + s.chain[i + 1..], Wrap32(s.size - 1)), hash)
  {
    var c := s.chain;
    var c' := c[..i] + c[i + 1..];
    UnlinkKeepsOrder(c, i);
    UnlinkKeepsKeyedByHash(c, hash, i);
    WrapAdd(|c| - 2, -1);
    assert c'[0] == c[0];
    assert c'[|c'| - 1] == c[|c| - 1];
  }

  lemma UnlinkKeepsKeyedByHash<T>(c: seq<Node<T>>, hash: T -> int32, i: int)
    requires 1 <= i < |c| - 1
    requires KeyedByHash(c, hash)
    ensures KeyedByHash(c[..i] + c[i + 1..], hash)
  {
    var c' := c[..i] + c[i + 1..];
    forall j | 1 <= j < |c'| - 1
      ensures c'[j].value.Some? && c'[j].key == hash(c'[j].value.value)
    {
      if j < i {
        assert c'[j] == c[j];
      } else {
        assert c'[j] == c[j + 1];
      }
    }
  }

  /** Every `remove` of a key other than the `tail` key returns normally on a
      valid set and leaves it valid. */
  lemma RemovePreservesValid<T>(s: SetState<T>, hash: T -> int32, k: int32)
    requires Valid(s, hash)
    requires k != MAX_INT
    ensures Remove(s, k).Ok? && Valid(Remove(s, k).value.after, hash)
  {
    if k in Keys(s.chain) {
      RemoveUnlinksMember(s, hash, k);
    } else {
      RemoveRejectsAbsentKey(s, hash, k);
    }
  }

  // ---------------------------------------------------------------------
  // Round trips

  /** After `add(v)` on a valid set, `contains(v)` is true and a second
      `add(v)` returns false and changes nothing; `add(v)` returned true
      exactly when `v`'s key was not yet present. */
  lemma AddThenContains<T>(s: SetState<T>, hash: T -> int32, v: T)
    requires Valid(s, hash)
    ensures Add(s, hash, v).Ok?
    ensures var st := Add(s, hash, v).value;
      && (st.result <==> hash(v) !in Keys(s.chain) && hash(v) != MAX_INT)
      && Contains(st.after, hash(v)) == Ok(true)
      && Add(st.after, hash, v) == Ok(Step(st.after, false))
  {
    var k := hash(v);
    if k in Keys(s.chain) || k == MAX_INT {
      AddRejectsPresentKey(s, hash, v);
    } else {
      AddInsertsFreshKey(s, hash, v);
    }
    var s' := Add(s, hash, v).value.after;
    ContainsIsMembership(s', hash, k);
    AddRejectsPresentKey(s', hash, v);
  }

  /** After `remove(k)` on a valid set, for a key below `Integer.MAX_VALUE`,
      `contains(k)` is false; `remove(k)` returned true exactly when `k` was a
      member's key. */
  lemma RemoveThenContains<T>(s: SetState<T>, hash: T -> int32, k: int32)
    requires Valid(s, hash)
    requires k < MAX_INT
    ensures Remove(s, k).Ok?
    ensures var st := Remove(s, k).value;
      && (st.result <==> k in Keys(s.chain))
      && Contains(st.after, k) == Ok(false)
  {
    if k in Keys(s.chain) {
      RemoveUnlinksMember(s, hash, k);
    } else {
      RemoveRejectsAbsentKey(s, hash, k);
    }
    ContainsIsMembership(Remove(s, k).value.after, hash, k);
  }

  // ---------------------------------------------------------------------
  // iterator and size

  /** On a valid set the snapshot holds one non-null value per member, each
      keyed by its hash, in strictly ascending key order, and its keys are
      exactly the member keys: the sentinels never appear. */
  lemma SnapshotIsOrderedMembers<T>(s: SetState<T>, hash: T -> int32)
    requires Valid(s, hash)
    ensures var a := InteriorValues(s.chain);
      && |a| == |s.chain| - 2
      && (forall i :: 0 <= i < |a| ==> a[i].Some? && hash(a[i].value) == s.chain[i + 1].key)
      && (forall i, j :: 0 <= i < j < |a| ==> hash(a[i].value) < hash(a[j].value))
      && (set i | 0 <= i < |a| :: hash(a[i].value)) == Keys(s.chain)
  {
    var c := s.chain;
    var a := InteriorValues(c);
    forall i | 0 <= i < |a|
      ensures a[i].Some? && hash(a[i].value) == c[i + 1].key
    {
      assert a[i] == c[i + 1].value;
    }
    forall i, j | 0 <= i < j < |a|
      ensures hash(a[i].value) < hash(a[j].value)
    {
      assert c[i + 1].key < c[j + 1].key;
    }
    var hs := set i | 0 <= i < |a| :: hash(a[i].value);
    forall key | key in Keys(c)
      ensures key in hs
    {
      var j :| 1 <= j < |c| - 1 && c[j].key == key;
      assert hash(a[j - 1].value) == key;
    }
  }

  /** The number of distinct keys among the first `n` nodes after `head` of a
      strictly ascending chain is `n`. */
  lemma {:induction false} PrefixKeysCount<T>(c: seq<Node<T>>, n: nat)
    requires StrictlyAscending(c)
    requires n + 1 <= |c|
    ensures |set i | 1 <= i < n + 1 :: c[i].key| == n
  {
    if n > 0 {
      PrefixKeysCount(c, n - 1);
      var prev := set i | 1 <= i < n :: c[i].key;
      var next := set i | 1 <= i < n + 1 :: c[i].key;
      assert c[n].key !in prev by {
        forall i | 1 <= i < n
          ensures c[i].key != c[n].key
        {
        }
      }
      assert next == prev + {c[n].key};
    }
  }

  /** On a valid set `size()` is the number of distinct member keys (and so of
      snapshot values), as long as that number fits in an `int`. */
  lemma SizeCountsMembers<T>(s: SetState<T>, hash: T -> int32)
    requires Valid(s, hash)
    requires |s.chain| - 2 <= MAX_INT
    ensures Size(s) == |Keys(s.chain)|
    ensures Size(s) == |InteriorValues(s.chain)|
  {
    PrefixKeysCount(s.chain, |s.chain| - 2);
  }

  // ---------------------------------------------------------------------
  // Sequences of calls

  /** A call on the set: `add(v)`, `remove(o)` or `contains(o)`, the latter
      two by the argument's hash. */
  datatype Call<T> = AddCall(v: T) | RemoveCall(k: int32) | ContainsCall(k: int32)

  /** The state after one call (`contains` changes nothing). */
  function Apply<T>(s: SetState<T>, hash: T -> int32, call: Call<T>): Result<SetState<T>>
  {
    match call
    case AddCall(v) =>
      (match Add(s, hash, v)
       case NullPointerException => NullPointerException
       case Ok(st) => Ok(st.after))
    case RemoveCall(k) =>
      (match Remove(s, k)
       case NullPointerException => NullPointerException
       case Ok(st) => Ok(st.after))
    case ContainsCall(k) =>
      (match Contains(s, k)
       case NullPointerException => NullPointerException
       case Ok(_) => Ok(s))
  }

  /** The state after a sequence of calls, or the exception that stopped it. */
  function Run<T>(s: SetState<T>, hash: T -> int32, calls: seq<Call<T>>): Result<SetState<T>>
    decreases |calls|
  {
    if |calls| == 0 then Ok(s)
    else
      match Apply(s, hash, calls[0])
      case NullPointerException => NullPointerException
      case Ok(s') => Run(s', hash, calls[1..])
  }

  /** Any sequence of calls that never removes the `tail` key keeps a valid
      set valid and never throws: ordering, sentinels and the counter all
      survive every operation. */
  lemma {:induction false} RunPreservesValid<T>(s: SetState<T>, hash: T -> int32, calls: seq<Call<T>>)
    requires Valid(s, hash)
    requires forall i :: 0 <= i < |calls| ==> calls[i] != RemoveCall(MAX_INT)
    ensures Run(s, hash, calls).Ok? && Valid(Run(s, hash, calls).value, hash)
    decreases |calls|
  {
    if |calls| > 0 {
      ApplyPreservesValid(s, hash, calls[0]);
      var s' := Apply(s, hash, calls[0]).value;
      assert Run(s, hash, calls) == Run(s', hash, calls[1..]);
      assert forall i :: 0 <= i < |calls[1..]| ==> calls[1..][i] == calls[i + 1];
      RunPreservesValid(s', hash, calls[1..]);
    }
  }

  /** One call other than removing the `tail` key keeps a valid set valid. */
  lemma ApplyPreservesValid<T>(s: SetState<T>, hash: T -> int32, call: Call<T>)
    requires Valid(s, hash)
    requires call != RemoveCall(MAX_INT)
    ensures Apply(s, hash, call).Ok? && Valid(Apply(s, hash, call).value, hash)
  {
    match call
    case AddCall(v) => AddPreservesValid(s, hash, v);
    case RemoveCall(k) => RemovePreservesValid(s, hash, k);
    case ContainsCall(k) => FindNodeBrackets(s, hash, k);
  }
}

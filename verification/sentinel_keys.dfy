/** Keys equal to `Integer.MAX_VALUE`, the `tail` sentinel's key.

    Neither `contains` nor `remove` checks that the successor `findNode`
    returns is a member rather than `tail`, so a value hashing to
    `Integer.MAX_VALUE` is reported present in every set, and removing it
    unlinks `tail` itself. This module exhibits both on the code as written
    and proves that the guarded versions (the successor must also have a
    non-null `next`) report membership exactly and keep the set valid for
    every key. */
module SentinelKeys {
  import opened JavaLang
  import opened OptimisticSet
  import opened SetProperties

  // ---------------------------------------------------------------------
  // As written

  /** `contains` on a brand-new set reports the `tail` key present, although
      the set has no members and its snapshot is empty. */
  lemma ContainsTailKeyOnEmptySet<T>()
    ensures Contains(Empty<T>(), MAX_INT) == Ok(true)
    ensures Keys(Empty<T>().chain) == {} && InteriorValues(Empty<T>().chain) == []
  {
  }

  /** `remove` of the `tail` key from any valid set returns true, unlinks
      `tail`, and decrements the counter, leaving a set that is no longer
      valid. */
  lemma RemoveTailKeyUnlinksTail<T>(s: SetState<T>, hash: T -> int32)
    requires Valid(s, hash)
    ensures Remove(s, MAX_INT)
         == Ok(Step(SetState(s.chain[..|s.chain| - 1], Wrap32(s.size - 1)), true))
    ensures !Valid(Remove(s, MAX_INT).value.after, hash)
  {
    var c := s.chain;
    FindNodeHitsMember(s, hash, MAX_INT);
    var p := FindNode(c, MAX_INT).value;
    forall j | 1 <= j < |c| - 1
      ensures c[j].key != MAX_INT
    {
      assert c[j].key < c[|c| - 1].key;
    }
    assert p + 1 == |c| - 1;
    assert c[..p + 1] + c[p + 2..] == c[..|c| - 1];
    var c' := c[..|c| - 1];
    if |c'| >= 2 {
      assert c'[|c'| - 1] == c[|c| - 2];
      assert c[|c| - 2].key < c[|c| - 1].key;
    }
  }

  /** On a new set, removing the `tail` key succeeds, drives `size()` to -1,
      and every later `add` dereferences the null link that replaced `tail`
      (as does the iterator, whose contract throws on a chain of `head`
      alone). */
  lemma RemoveTailKeyFromEmptySet<T>(hash: T -> int32, v: T)
    ensures Remove(Empty<T>(), MAX_INT) == Ok(Step(SetState([Head()], -1), true))
    ensures Add(SetState([Head()], -1), hash, v) == NullPointerException
  {
    assert FindNode(Empty<T>().chain, MAX_INT) == Ok(0);
    assert Empty<T>().chain[..1] + Empty<T>().chain[2..] == [Head()];
  }

  // ---------------------------------------------------------------------
  // Corrected

  /** `contains` with the guard `q.key == k && q.next != null`: the successor
      must be a member, not `tail`. */
  function ContainsFixed<T>(s: SetState<T>, k: int32): Result<bool>
  {
    match FindNode(s.chain, k)
    case NullPointerException => NullPointerException
    case Ok(p) => Ok(s.chain[p + 1].key == k && p + 2 < |s.chain|)
  }

  /** `removeNode` with the guard `q.key != k || q.next == null` for failure:
      `tail` is never unlinked. */
  function RemoveNodeFixed<T>(c: Chain<T>, p: nat, k: int32): (r: (Chain<T>, bool))
    requires p + 1 < |c|
  {
    if c[p + 1].key != k || p + 2 == |c| then (c, false)
    else (c[..p + 1] + c[p + 2..], true)
  }

  /** `remove` using the guarded `removeNode`. */
  function RemoveFixed<T>(s: SetState<T>, k: int32): Result<Step<T>>
  {
    match FindNode(s.chain, k)
    case NullPointerException => NullPointerException
    case Ok(p) =>
      var (c, done) := RemoveNodeFixed(s.chain, p, k);
      Ok(Step(SetState(c, if done then Wrap32(s.size - 1) else s.size), done))
  }

  /** The guarded `contains` is exactly membership of the key, for every key. */
  lemma ContainsFixedIsMembership<T>(s: SetState<T>, hash: T -> int32, k: int32)
    requires Valid(s, hash)
    ensures ContainsFixed(s, k) == Ok(k in Keys(s.chain))
  {
    FindNodeHitsMember(s, hash, k);
  }

  /** The guarded `remove` returns true exactly when the key is a member's;
      then it unlinks that member, drops its key and decrements the counter,
      and otherwise it changes nothing. The set stays valid for every key. */
  lemma RemoveFixedIsMembership<T>(s: SetState<T>, hash: T -> int32, k: int32)
    requires Valid(s, hash)
    ensures RemoveFixed(s, k).Ok?
    ensures RemoveFixed(s, k).value.result <==> k in Keys(s.chain)
    ensures k !in Keys(s.chain) ==> RemoveFixed(s, k).value.after == s
    ensures k in Keys(s.chain) ==> RemoveFixed(s, k) == Remove(s, k)
    ensures Valid(RemoveFixed(s, k).value.after, hash)
  {
    FindNodeHitsMember(s, hash, k);
    if k in Keys(s.chain) {
      RemoveUnlinksMember(s, hash, k);
    }
  }

  /** One call of the corrected set: `remove` is guarded, `add` and
      `contains` are as written. */
  function ApplyFixed<T>(s: SetState<T>, hash: T -> int32, call: Call<T>): Result<SetState<T>>
  {
    match call
    case RemoveCall(k) =>
      (match RemoveFixed(s, k)
       case NullPointerException => NullPointerException
       case Ok(st) => Ok(st.after))
    case _ => Apply(s, hash, call)
  }

  /** A sequence of calls on the corrected set. */
  function RunFixed<T>(s: SetState<T>, hash: T -> int32, calls: seq<Call<T>>): Result<SetState<T>>
    decreases |calls|
  {
    if |calls| == 0 then Ok(s)
    else
      match ApplyFixed(s, hash, calls[0])
      case NullPointerException => NullPointerException
      case Ok(s') => RunFixed(s', hash, calls[1..])
  }

  /** With the guard, every sequence of calls whatsoever keeps a valid set
      valid and never throws. */
  lemma {:induction false} RunFixedPreservesValid<T>(s: SetState<T>, hash: T -> int32, calls: seq<Call<T>>)
    requires Valid(s, hash)
    ensures RunFixed(s, hash, calls).Ok? && Valid(RunFixed(s, hash, calls).value, hash)
    decreases |calls|
  {
    if |calls| > 0 {
      match calls[0] {
        case RemoveCall(k) => RemoveFixedIsMembership(s, hash, k);
        case _ => ApplyPreservesValid(s, hash, calls[0]);
      }
      var s' := ApplyFixed(s, hash, calls[0]).value;
      assert RunFixed(s, hash, calls) == RunFixed(s', hash, calls[1..]);
      RunFixedPreservesValid(s', hash, calls[1..]);
    }
  }
}

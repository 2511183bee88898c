/** Concurrent-session slots per client key, with a limit checked on acquire. */
module Sessions {
  import opened Bytes
  import opened KeyHex

  /** The count map holds exactly the keys with live slots, each at its number of slots. */
  ghost predicate Agrees(counts: map<KeyId, nat>, live: multiset<KeyId>) {
    && (forall k :: k in counts <==> k in live)
    && (forall k :: k in counts ==> counts[k] == live[k])
  }

  /** A limit of None or 0 means unlimited. */
  predicate AtLimit(held: nat, max: Option<nat>) {
    max.Some? && max.value > 0 && held >= max.value
  }

  class SessionCounts {
    var counts: map<KeyId, nat>
    ghost var live: multiset<KeyId>

    ghost predicate Valid()
      reads this
    {
      Agrees(counts, live)
    }

    constructor ()
      ensures Valid() && live == multiset{}
    {
      counts, live := map[], multiset{};
    }

    /** `acquire_session`: the entry is created before the limit is looked at, yet a
        refusal never leaves an empty entry behind. */
    method Acquire(key: KeyId, max: Option<nat>) returns (granted: bool)
      requires Valid() && |live| < U32_MAX
      modifies this
      ensures Valid()
      ensures granted <==> max == None || max.value == 0 || old(live)[key] < max.value
      ensures live == old(live) + (if granted then multiset{key} else multiset{})
      ensures !granted ==> counts == old(counts)
    {
      if key !in counts {
        counts := counts[key := 0];
      }
      if AtLimit(counts[key], max) {
        return false;
      }
      counts := counts[key := counts[key] + 1];
      live := live + multiset{key};
      return true;
    }

    /** `SessionSlot::drop`, run once per granted slot. */
    method Drop(key: KeyId)
      requires Valid() && key in live
      modifies this
      ensures Valid() && live == old(live) - multiset{key}
    {
      if key in counts {
        counts := counts[key := if counts[key] == 0 then 0 else counts[key] - 1];
        if counts[key] == 0 {
          counts := counts - {key};
        }
      }
      live := live - multiset{key};
    }
  }

  datatype SlotOp = AcquireSlot(key: KeyId, max: Option<nat>) | DropSlot(key: KeyId)

  /** The slots alive after a sequence of operations. */
  function LiveAfter(ops: seq<SlotOp>): (live: multiset<KeyId>) {
    if ops == [] then multiset{}
    else
      var before := LiveAfter(ops[..|ops| - 1]);
      match ops[|ops| - 1]
      case AcquireSlot(key, max) => if AtLimit(before[key], max) then before else before + multiset{key}
      case DropSlot(key) => before - multiset{key}
  }

  /** Every drop is of a slot alive at that point, and fewer than 2^32 are alive at once. */
  ghost predicate Runnable(ops: seq<SlotOp>) {
    forall i :: 0 <= i < |ops| ==>
      && |LiveAfter(ops[..i])| < U32_MAX
      && (ops[i].DropSlot? ==> ops[i].key in LiveAfter(ops[..i]))
  }

  ghost predicate Limited(ops: seq<SlotOp>, key: KeyId, m: nat) {
    forall i :: 0 <= i < |ops| && ops[i].AcquireSlot? && ops[i].key == key ==> ops[i].max == Some(m)
  }

  /** Any interleaving of acquires and drops on one registry: at the end, and so after every
      prefix, the map agrees with the live slots. */
  method RunSlots(s: SessionCounts, ops: seq<SlotOp>)
    requires s.Valid() && s.live == multiset{} && Runnable(ops)
    modifies s
    ensures s.Valid() && s.live == LiveAfter(ops)
  {
    for i := 0 to |ops|
      invariant s.Valid() && s.live == LiveAfter(ops[..i])
    {
      assert ops[..i + 1][..i] == ops[..i];
      match ops[i]
      case AcquireSlot(key, max) =>
        var granted := s.Acquire(key, max);
      case DropSlot(key) =>
        s.Drop(key);
    }
    assert ops[..|ops|] == ops;
  }

  /** With a fixed positive limit m, a key never has more than m live sessions. */
  lemma {:induction false} NeverOverLimit(ops: seq<SlotOp>, key: KeyId, m: nat)
    requires Limited(ops, key, m) && m > 0
    ensures LiveAfter(ops)[key] <= m
  {
    if ops != [] {
      NeverOverLimit(ops[..|ops| - 1], key, m);
    }
  }
}

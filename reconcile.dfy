/** The bookkeeping side of a keyed data join: a registry maps each key to the
    handle of the element rendered for it. Joining a new item list removes the
    entries of keys that left (exit), keeps the entries of keys that stayed, and
    creates one element per key that arrived (enter). */
module Reconcile {

  /** An opaque reference to a rendered element. */
  type Handle = nat

  /** The keys of an item list, as a set. */
  function KeySet<K>(keys: seq<K>): set<K> {
    set k | k in keys
  }

  /** Distinct keys are bound to distinct elements. */
  ghost predicate Injective<K>(registry: map<K, Handle>) {
    forall a, b :: a in registry && b in registry && a != b ==> registry[a] != registry[b]
  }

  /** Every bound handle was allocated before `next`. */
  ghost predicate Below<K>(registry: map<K, Handle>, next: Handle) {
    forall k :: k in registry ==> registry[k] < next
  }

  /** Joins `registry` against the item keys `keys`. New elements take the handles
      `next`, `next + 1`, ... in the order their keys first occur; `next'` is the
      first handle still unused afterwards. */
  method KeyedJoin<K>(registry: map<K, Handle>, keys: seq<K>, next: Handle)
    returns (joined: map<K, Handle>, next': Handle)
    ensures joined.Keys == KeySet(keys)
    ensures forall k :: k in joined && k in registry ==> joined[k] == registry[k]
    ensures forall k :: k in joined && k !in registry ==> next <= joined[k] < next'
    ensures next <= next'
    ensures Injective(registry) && Below(registry, next) ==> Injective(joined) && Below(joined, next')
    ensures registry.Keys == KeySet(keys) ==> joined == registry && next' == next
  {
    var kept := Exit(registry, KeySet(keys));
    joined, next' := Enter(kept, keys, next);
  }

  /** The exit half of a join: drop the entry of every key that is no longer live;
      the entries of live keys keep their elements. */
  method Exit<K>(registry: map<K, Handle>, live: set<K>) returns (kept: map<K, Handle>)
    ensures kept.Keys == registry.Keys * live
    ensures forall k :: k in kept ==> kept[k] == registry[k]
  {
    kept := registry;
    var stale := registry.Keys - live;
    while stale != {}
      invariant stale <= registry.Keys - live
      invariant kept.Keys == (registry.Keys * live) + stale
      invariant forall k :: k in kept ==> kept[k] == registry[k]
      decreases stale
    {
      var k :| k in stale;
      kept := kept - {k};
      stale := stale - {k};
    }
  }

  /** Binding a new key to the first unused handle keeps the registry injective
      and below the advanced counter. */
  lemma BindFresh<K>(registry: map<K, Handle>, k: K, next: Handle)
    requires Injective(registry) && Below(registry, next)
    ensures Injective(registry[k := next]) && Below(registry[k := next], next + 1)
  {
  }

  /** The enter half of a join: bind a fresh element to every key of `keys` that
      `kept` does not hold yet, in order of first occurrence; the entries of `kept`
      stay as they are. */
  method Enter<K>(kept: map<K, Handle>, keys: seq<K>, next: Handle)
    returns (joined: map<K, Handle>, next': Handle)
    ensures joined.Keys == kept.Keys + KeySet(keys)
    ensures forall k :: k in kept ==> joined[k] == kept[k]
    ensures forall k :: k in joined && k !in kept ==> next <= joined[k] < next'
    ensures next <= next'
    ensures Injective(kept) && Below(kept, next) ==> Injective(joined) && Below(joined, next')
    ensures KeySet(keys) <= kept.Keys ==> next' == next
  {
    joined, next' := kept, next;
    var i := 0;
    while i < |keys|
      invariant 0 <= i <= |keys|
      invariant next <= next'
      invariant joined.Keys == kept.Keys + KeySet(keys[..i])
      invariant forall k :: k in kept ==> joined[k] == kept[k]
      invariant forall k :: k in joined && k !in kept ==> next <= joined[k] < next'
      invariant Injective(kept) && Below(kept, next) ==> Injective(joined) && Below(joined, next')
      invariant KeySet(keys[..i]) <= kept.Keys ==> next' == next
    {
      assert keys[..i + 1] == keys[..i] + [keys[i]];
      if keys[i] !in joined {
        if Injective(kept) && Below(kept, next) {
          BindFresh(joined, keys[i], next');
        }
        joined := joined[keys[i] := next'];
        next' := next' + 1;
      }
      i := i + 1;
    }
    assert keys[..|keys|] == keys;
  }
}

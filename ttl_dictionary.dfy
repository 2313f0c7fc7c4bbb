/** `TTLDictionary`: a dictionary whose entries carry a deadline, kept together
    with a heap-ordered index of `(expiry_time, key)` pairs that reads sweep
    before answering. Each public method is one atomic step (the source runs it
    under one lock); the current time is the explicit parameter `now`. */
module TTL {
  import opened Entries
  import opened Heapq
  import opened ExpiryIndex

  datatype Option<T> = None | Some(value: T)

  /** A result, or the `KeyError` the source raises. */
  datatype Result<T> = Ok(value: T) | KeyError

  /** The deadline `__setitem__` computes from an optional TTL: without one the
      entry never expires; with TTL `t` it has expired exactly from `now + t` on. */
  function DeadlineFor(ttl: Option<int>, now: int): (d: Deadline)
    ensures ttl.None? ==> d == Never
    ensures ttl.Some? ==> forall m :: Expired(d, m) <==> now + ttl.value <= m
  {
    match ttl
    case None => Never
    case Some(t) => Finite(now + t)
  }

  /** Deleting the keys `gone` from a Python dict's insertion order: every
      occurrence of them goes and the other keys keep their multiplicity. */
  function Without(order: seq<Key>, gone: set<Key>): (r: seq<Key>)
    ensures forall k :: multiset(r)[k] == if k in gone then 0 else multiset(order)[k]
  {
    assert order != [] ==> order == [order[0]] + order[1..];
    if order == [] then []
    else if order[0] in gone then Without(order[1..], gone)
    else [order[0]] + Without(order[1..], gone)
  }

  /** Deleting no keys changes nothing. */
  lemma {:induction false} WithoutNothing(order: seq<Key>)
    ensures Without(order, {}) == order
  {
    if order != [] {
      WithoutNothing(order[1..]);
      assert order == [order[0]] + order[1..];
    }
  }

  /** Deleting two sets of keys one after the other is deleting their union. */
  lemma {:induction false} WithoutTwice(order: seq<Key>, a: set<Key>, b: set<Key>)
    ensures Without(Without(order, a), b) == Without(order, a + b)
  {
    if order != [] {
      var w := Without(order[1..], a);
      WithoutTwice(order[1..], a, b);
      if order[0] !in a {
        assert ([order[0]] + w)[0] == order[0] && ([order[0]] + w)[1..] == w;
      }
    }
  }

  /** `order` lists every key of `keys` exactly once and nothing else. */
  ghost predicate ListsOnce(order: seq<Key>, keys: set<Key>) {
    forall k :: multiset(order)[k] == if k in keys then 1 else 0
  }

  /** A list holding each key of a set once is as long as the set. */
  lemma {:induction false} ListsOnceSize(order: seq<Key>, keys: set<Key>)
    requires ListsOnce(order, keys)
    ensures |order| == |keys|
    decreases |order|
  {
    if order == [] {
      assert forall k :: k in keys ==> multiset(order)[k] == 1;
      assert keys == {};
    } else {
      var k0 := order[0];
      assert order == [k0] + order[1..];
      assert k0 in multiset(order);
      var keys' := keys - {k0};
      assert ListsOnce(order[1..], keys') by {
        forall k
          ensures multiset(order[1..])[k] == if k in keys' then 1 else 0
        {
          assert multiset(order)[k] == multiset(order[1..])[k] + (if k == k0 then 1 else 0);
        }
      }
      ListsOnceSize(order[1..], keys');
      assert |keys'| == |keys| - 1;
    }
  }

  /** A list holding each key of a set once has no repeats, holds exactly the
      set, and is as long as the set. */
  lemma OrderShape(order: seq<Key>, keys: set<Key>)
    requires ListsOnce(order, keys)
    ensures forall i, j :: 0 <= i < j < |order| ==> order[i] != order[j]
    ensures forall k :: k in order <==> k in keys
    ensures |order| == |keys|
  {
    forall i, j | 0 <= i < j < |order|
      ensures order[i] != order[j]
    {
      RepeatCountsTwice(order, i, j);
    }
    forall k
      ensures k in order <==> k in keys
    {
      assert k in order <==> k in multiset(order);
    }
    ListsOnceSize(order, keys);
  }

  /** Removing the keys `gone` and then `key` is removing `gone` and `key`. */
  lemma MinusMore<V>(m: map<Key, V>, gone: set<Key>, key: Key)
    ensures (m - gone) - {key} == m - (gone + {key})
  {
  }

  lemma KeysMinus<V>(m: map<Key, V>, key: Key)
    ensures (m - {key}).Keys == m.Keys - {key}
  {
  }

  /** Deleting a key from a list that holds each key of a set once leaves a
      list holding each key of the smaller set once. */
  lemma ListsOnceDrop(order: seq<Key>, keys: set<Key>, key: Key)
    requires ListsOnce(order, keys)
    ensures ListsOnce(Without(order, {key}), keys - {key})
  {
  }

  /** The dict `d`, its insertion order `o`, the index `h` and the deadlines `dl`
      agree: the deadlines cover exactly the dict's keys, the order lists each
      key once, and the index holds exactly one pair per key, carrying its
      current deadline. */
  ghost predicate Consistent<V>(d: map<Key, V>, o: seq<Key>, h: seq<Entry>, dl: map<Key, Deadline>) {
    && dl.Keys == d.Keys
    && ListsOnce(o, d.Keys)
    && IndexMatches(h, dl)
  }

  /** Storing `key` with deadline `e` the way `__setitem__` does (purge its old
      pair if it is present, push the new one, append a new key to the order)
      keeps the four parts consistent. */
  lemma StoreKeepsConsistent<V>(d: map<Key, V>, o: seq<Key>, h: seq<Entry>, dl: map<Key, Deadline>,
                                key: Key, value: V, e: Deadline)
    requires Consistent(d, o, h, dl)
    ensures Consistent(d[key := value], if key in d then o else o + [key],
                       HeapPush(if key in d then Purge(h, key) else h, Entry(e, key)), dl[key := e])
  {
    var o' := if key in d then o else o + [key];
    assert ListsOnce(o', d[key := value].Keys);
    SetMatches(h, dl, key, e);
  }

  /** The state of the sweep loop started from `d0`, `o0`, `h0`, `dl0`: the
      pairs popped so far are `popped`, their keys are gone from the dict, the
      order list and the deadlines, the index still matches, and the pairs the
      sweep will pop from `h` complete `popped`. */
  ghost predicate Sweeping<V>(d0: map<Key, V>, o0: seq<Key>, h0: seq<Entry>, dl0: map<Key, Deadline>, now: int,
                              d: map<Key, V>, o: seq<Key>, h: seq<Entry>, dl: map<Key, Deadline>, popped: seq<Entry>)
  {
    && Consistent(d, o, h, dl)
    && SweepPopped(h0, now) == popped + SweepPopped(h, now)
    && SweepRest(h0, now) == SweepRest(h, now)
    && d == d0 - KeySet(popped)
    && o == Without(o0, KeySet(popped))
    && dl == dl0 - KeySet(popped)
  }

  /** One turn of the sweep loop: the popped key is still in the dict, and
      deleting it keeps the loop's state. */
  lemma SweepingStep<V>(d0: map<Key, V>, o0: seq<Key>, h0: seq<Entry>, dl0: map<Key, Deadline>, now: int,
                        d: map<Key, V>, o: seq<Key>, h: seq<Entry>, dl: map<Key, Deadline>, popped: seq<Entry>)
    requires Sweeping(d0, o0, h0, dl0, now, d, o, h, dl, popped)
    requires h != [] && Expired(h[0].deadline, now)
    ensures h[0].key in d
    ensures Sweeping(d0, o0, h0, dl0, now, d - {h[0].key}, Without(o, {h[0].key}), HeapPop(h).1, dl - {h[0].key}, popped + [h[0]])
  {
    var k := h[0].key;
    var gone := KeySet(popped);
    PopMatches(h, dl);
    SweepPrefixStep(popped, h, now);
    SweepRestStep(h, now);
    MinusMore(d0, gone, k);
    MinusMore(dl0, gone, k);
    WithoutTwice(o0, gone, {k});
    KeysMinus(d, k);
    KeysMinus(dl, k);
    ListsOnceDrop(o, d.Keys, k);
    KeySetSnoc(popped, h[0]);
  }

  /** The sweep loop starts in its own state, having popped nothing. */
  lemma SweepingStart<V>(d: map<Key, V>, o: seq<Key>, h: seq<Entry>, dl: map<Key, Deadline>, now: int)
    requires Consistent(d, o, h, dl)
    ensures Sweeping(d, o, h, dl, now, d, o, h, dl, [])
  {
    assert KeySet([]) == {};
    assert d - {} == d && dl - {} == dl;
    WithoutNothing(o);
  }

  /** When the loop stops, it has popped exactly what the sweep pops and left
      exactly what the sweep leaves. */
  lemma SweepingDone<V>(d0: map<Key, V>, o0: seq<Key>, h0: seq<Entry>, dl0: map<Key, Deadline>, now: int,
                        d: map<Key, V>, o: seq<Key>, h: seq<Entry>, dl: map<Key, Deadline>, popped: seq<Entry>)
    requires Sweeping(d0, o0, h0, dl0, now, d, o, h, dl, popped)
    requires h == [] || !Expired(h[0].deadline, now)
    ensures popped == SweepPopped(h0, now) && h == SweepRest(h0, now)
  {
    assert SweepPopped(h, now) == [] && SweepRest(h, now) == h;
    assert popped + [] == popped;
  }

  /** A second sweep at the same time finds nothing to pop: it leaves the index,
      the dict, its order and the deadlines as the first sweep left them. */
  lemma SweepAgainChangesNothing<V>(d: map<Key, V>, o: seq<Key>, h: seq<Entry>, dl: map<Key, Deadline>, now: int)
    ensures var h1 := SweepRest(h, now);
      var gone := KeySet(SweepPopped(h1, now));
      && SweepRest(h1, now) == h1
      && d - gone == d && Without(o, gone) == o && dl - gone == dl
  {
    SweepIdempotent(h, now);
    assert KeySet([]) == {};
    assert d - {} == d && dl - {} == dl;
    WithoutNothing(o);
  }

  class TTLDictionary<V> {
    /** `self.data`. */
    var data: map<Key, V>
    /** The insertion order Python keeps for the keys of `self.data`; `keys`,
        `values` and `items` list entries in this order. */
    var order: seq<Key>
    /** `self.expiry_times`, the list `heapq` works on. */
    var expiryTimes: seq<Entry>
    /** The deadline each present key was last written with. */
    ghost var deadline: map<Key, Deadline>

    /** The index holds exactly one pair per present key, carrying the deadline
        of its latest write, and the order lists each present key once. Heap
        order is deliberately not part of it: the purge does not keep it. */
    ghost predicate Valid()
      reads this
    {
      Consistent(data, order, expiryTimes, deadline)
    }

    /** The state a sweep at time `now` leaves, starting from the given one:
        the popped pairs are gone from the index and their keys from the dict. */
    ghost predicate SweptFrom(d0: map<Key, V>, o0: seq<Key>, h0: seq<Entry>, dl0: map<Key, Deadline>, now: int)
      reads this
    {
      var gone := KeySet(SweepPopped(h0, now));
      && expiryTimes == SweepRest(h0, now)
      && data == d0 - gone
      && order == Without(o0, gone)
      && deadline == dl0 - gone
    }

    /** An empty dictionary with an empty index (the reaper thread is not modelled). */
    constructor ()
      ensures Valid()
      ensures data == map[] && order == [] && expiryTimes == [] && deadline == map[]
    {
      data := map[];
      order := [];
      expiryTimes := [];
      deadline := map[];
    }

    /** `_clean_expired_unsafe`: pop pairs while the front pair has expired and
        delete each popped key, ignoring a key that is already gone. Only keys
        whose latest deadline has passed are removed; when the index was in heap
        order, every such key is. */
    method CleanExpired(now: int)
      requires Valid()
      modifies this
      ensures Valid()
      ensures SweptFrom(old(data), old(order), old(expiryTimes), old(deadline), now)
      ensures expiryTimes == [] || !Expired(expiryTimes[0].deadline, now)
      ensures forall k :: k in old(data) && k !in data ==> Expired(old(deadline)[k], now)
      ensures IsHeap(old(expiryTimes)) ==> IsHeap(expiryTimes)
      ensures IsHeap(old(expiryTimes)) ==> forall k :: k in data ==> !Expired(deadline[k], now)
    {
      // The loop works on local copies, written back at the end; the source
      // holds the lock throughout, so no other method sees the steps between.
      var h, d, o := expiryTimes, data, order;
      ghost var dl := deadline;
      ghost var popped: seq<Entry> := [];
      SweepingStart(d, o, h, dl, now);
      while h != [] && Expired(h[0].deadline, now)
        invariant Sweeping(old(data), old(order), old(expiryTimes), old(deadline), now, d, o, h, dl, popped)
        decreases |h|
      {
        SweepingStep(old(data), old(order), old(expiryTimes), old(deadline), now, d, o, h, dl, popped);
        var next := HeapPop(h);
        var item := next.0;
        h := next.1;
        var key := item.key;
        if key in d {
          d := d - {key};
          o := Without(o, {key});
          dl := dl - {key};
        }
        popped := popped + [item];
      }
      SweepingDone(old(data), old(order), old(expiryTimes), old(deadline), now, d, o, h, dl, popped);
      expiryTimes, data, order, deadline := h, d, o, dl;
      SweepMatches(old(expiryTimes), old(deadline), now);
      if IsHeap(old(expiryTimes)) {
        SweepKeepsHeap(old(expiryTimes), now);
        SweepExactOnHeap(old(expiryTimes), old(deadline), now);
      }
    }

    /** `__setitem__`: the key maps to `value`; its old pairs are purged when it
        was present and one pair with the new deadline is pushed, so it ends
        with exactly that pair; every other key keeps its value and its pair. */
    method Set(key: Key, value: V, ttl: Option<int>, now: int)
      requires Valid()
      modifies this
      ensures Valid()
      ensures data == old(data)[key := value]
      ensures deadline == old(deadline)[key := DeadlineFor(ttl, now)]
      ensures order == if key in old(data) then old(order) else old(order) + [key]
      ensures expiryTimes == HeapPush(if key in old(data) then Purge(old(expiryTimes), key) else old(expiryTimes),
                                      Entry(DeadlineFor(ttl, now), key))
      ensures key !in old(data) && IsHeap(old(expiryTimes)) ==> IsHeap(expiryTimes)
    {
      var expiry := DeadlineFor(ttl, now);
      if key in data {
        expiryTimes := Purge(expiryTimes, key);
      }
      if key !in data {
        // storing a new key appends it to the dict's order
        order := order + [key];
      }
      data := data[key := value];
      expiryTimes := HeapPush(expiryTimes, Entry(expiry, key));
      deadline := deadline[key := expiry];
      StoreKeepsConsistent(old(data), old(order), old(expiryTimes), old(deadline), key, value, expiry);
      if key !in old(data) && IsHeap(old(expiryTimes)) {
        HeapPushKeepsHeap(old(expiryTimes), Entry(expiry, key));
      }
    }

    /** `__getitem__`: sweep, then look the key up. A key whose latest deadline
        has not passed is always found; on an index in heap order, a key whose
        deadline has passed never is. */
    method Get(key: Key, now: int) returns (r: Result<V>)
      requires Valid()
      modifies this
      ensures Valid()
      ensures SweptFrom(old(data), old(order), old(expiryTimes), old(deadline), now)
      ensures r == if key in data then Ok(data[key]) else KeyError
      ensures key in old(data) && !Expired(old(deadline)[key], now) ==> r == Ok(old(data)[key])
      ensures IsHeap(old(expiryTimes)) ==> (r.Ok? <==> key in old(data) && !Expired(old(deadline)[key], now))
    {
      CleanExpired(now);
      if key in data {
        r := Ok(data[key]);
      } else {
        r := KeyError;
      }
    }

    /** `get(key, default)`: sweep, then return the key's value or `default`;
        it never raises. */
    method GetOrDefault(key: Key, default: V, now: int) returns (v: V)
      requires Valid()
      modifies this
      ensures Valid()
      ensures SweptFrom(old(data), old(order), old(expiryTimes), old(deadline), now)
      ensures v == if key in data then data[key] else default
      ensures key in old(data) && !Expired(old(deadline)[key], now) ==> v == old(data)[key]
    {
      CleanExpired(now);
      v := if key in data then data[key] else default;
    }

    /** `__delitem__`: a missing key raises `KeyError` and changes nothing;
        otherwise the key leaves the dict and every one of its pairs leaves the
        index, and nothing else changes. */
    method Delete(key: Key) returns (r: Result<()>)
      requires Valid()
      modifies this
      ensures Valid()
      ensures r == if key in old(data) then Ok(()) else KeyError
      ensures key !in old(data) ==>
        data == old(data) && order == old(order) && expiryTimes == old(expiryTimes) && deadline == old(deadline)
      ensures key in old(data) ==>
        && data == old(data) - {key}
        && order == Without(old(order), {key})
        && expiryTimes == Purge(old(expiryTimes), key)
        && deadline == old(deadline) - {key}
    {
      if key !in data {
        return KeyError;
      }
      data := data - {key};
      order := Without(order, {key});
      expiryTimes := Purge(expiryTimes, key);
      deadline := deadline - {key};
      PurgeMatches(old(expiryTimes), old(deadline), key);
      r := Ok(());
    }

    /** `__contains__`: no sweep; a key is present exactly when the index holds a
        pair for it. */
    method Contains(key: Key) returns (b: bool)
      requires Valid()
      ensures b <==> key in data
      ensures b <==> key in KeySet(expiryTimes)
    {
      IndexShape(expiryTimes, deadline);
      b := key in data;
    }

    /** `__len__`: no sweep; the number of entries, which is also the number of
        pairs in the index. */
    method Len() returns (n: nat)
      requires Valid()
      ensures n == |data|
      ensures n == |expiryTimes| && n == |order|
    {
      IndexShape(expiryTimes, deadline);
      OrderShape(order, data.Keys);
      n := |data|;
    }

    /** `keys()`: no sweep; a snapshot listing every present key once, in
        insertion order. */
    method Keys() returns (ks: seq<Key>)
      requires Valid()
      ensures ks == order
      ensures |ks| == |data|
      ensures forall k :: k in ks <==> k in data
      ensures forall i, j :: 0 <= i < j < |ks| ==> ks[i] != ks[j]
    {
      OrderShape(order, data.Keys);
      ks := order;
    }

    /** `values()`: no sweep; a snapshot of the values in insertion order, one
        per entry. */
    method Values() returns (vs: seq<V>)
      requires Valid()
      ensures |vs| == |data| == |order|
      ensures forall i :: 0 <= i < |vs| ==> order[i] in data && vs[i] == data[order[i]]
      ensures forall k :: k in data ==> data[k] in vs
    {
      OrderShape(order, data.Keys);
      var o, d := order, data;
      vs := seq(|o|, i requires 0 <= i < |o| && o[i] in d => d[o[i]]);
    }

    /** `items()`: no sweep; a snapshot of the `(key, value)` pairs in insertion
        order, one per entry. */
    method Items() returns (items: seq<(Key, V)>)
      requires Valid()
      ensures |items| == |data| == |order|
      ensures forall i :: 0 <= i < |items| ==> items[i].0 == order[i] && items[i].0 in data && items[i].1 == data[items[i].0]
      ensures forall k :: k in data ==> (k, data[k]) in items
    {
      OrderShape(order, data.Keys);
      var o, d := order, data;
      items := seq(|o|, i requires 0 <= i < |o| && o[i] in d => (o[i], d[o[i]]));
    }
  }
}

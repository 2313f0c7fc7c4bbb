/** The expiry index `expiry_times` and the two things the dictionary does to it
    besides `heappush`: purging every pair of one key, and sweeping expired pairs
    off its front. */
module ExpiryIndex {
  import opened Entries
  import opened Heapq

  /** The list comprehension `[(t, k) for t, k in expiry_times if k != key]`:
      no pair of `key` is left and every other pair keeps its multiplicity; heap
      order is not restored. */
  function Purge(h: seq<Entry>, key: Key): (r: seq<Entry>)
    ensures forall e :: multiset(r)[e] == if e.key == key then 0 else multiset(h)[e]
    ensures forall i :: 0 <= i < |r| ==> r[i].key != key
  {
    if h == [] then []
    else
      assert h == [h[0]] + h[1..];
      (if h[0].key == key then [] else [h[0]]) + Purge(h[1..], key)
  }

  /** The keys of a list of pairs. */
  function KeySet(s: seq<Entry>): set<Key> {
    set e | e in s :: e.key
  }

  /** The pairs the loop of `_clean_expired_unsafe` pops, in popping order:
      while the list is non-empty and its front pair has `expiry_time <= now`,
      `heappop` it. */
  function SweepPopped(h: seq<Entry>, now: int): (r: seq<Entry>)
    ensures forall e :: e in r ==> Expired(e.deadline, now)
    decreases |h|
  {
    if h != [] && Expired(h[0].deadline, now) then [h[0]] + SweepPopped(HeapPop(h).1, now) else []
  }

  /** What that loop leaves of the list: it stops only at an empty list or at
      an unexpired front pair. */
  function SweepRest(h: seq<Entry>, now: int): (r: seq<Entry>)
    ensures r == [] || !Expired(r[0].deadline, now)
    decreases |h|
  {
    if h != [] && Expired(h[0].deadline, now) then SweepRest(HeapPop(h).1, now) else h
  }

  /** The sweep loses no pair and invents none: the popped pairs and the rest
      make up the list it started from. */
  lemma {:induction false} SweepPermutes(h: seq<Entry>, now: int)
    ensures multiset(SweepPopped(h, now)) + multiset(SweepRest(h, now)) == multiset(h)
    decreases |h|
  {
    if h != [] && Expired(h[0].deadline, now) {
      SweepPermutes(HeapPop(h).1, now);
    }
  }

  /** The index holds exactly one pair per key of `dl`, carrying that key's
      current deadline, and nothing else. */
  ghost predicate IndexMatches(h: seq<Entry>, dl: map<Key, Deadline>) {
    forall e :: Count(h, e) == if e.key in dl && dl[e.key] == e.deadline then 1 else 0
  }

  /** How often `e` occurs in `h`. The invariant quantifies over this term
      rather than over `multiset(h)[e]`, so that it is instantiated only where
      a count is asked for, not at every multiset lookup in a proof. */
  ghost function Count(h: seq<Entry>, e: Entry): nat {
    multiset(h)[e]
  }

  /** The same invariant read position by position: every pair belongs to a key
      of `dl` and carries its deadline, no key has two pairs, every key has its
      pair, and so the index is exactly as long as `dl`. */
  lemma IndexShape(h: seq<Entry>, dl: map<Key, Deadline>)
    requires IndexMatches(h, dl)
    ensures forall i :: 0 <= i < |h| ==> h[i].key in dl && dl[h[i].key] == h[i].deadline
    ensures forall i, j :: 0 <= i < j < |h| ==> h[i].key != h[j].key
    ensures forall k :: k in dl ==> Entry(dl[k], k) in h
    ensures KeySet(h) == dl.Keys
    ensures |h| == |dl|
  {
    forall i | 0 <= i < |h|
      ensures h[i].key in dl && dl[h[i].key] == h[i].deadline
    {
      assert h[i] in multiset(h);
    }
    forall i, j | 0 <= i < j < |h|
      ensures h[i].key != h[j].key
    {
      RepeatCountsTwice(h, i, j);
    }
    forall k | k in dl
      ensures Entry(dl[k], k) in h
    {
      assert multiset(h)[Entry(dl[k], k)] == 1;
    }
    IndexSize(h, dl);
  }

  /** An element found at two positions occurs at least twice. */
  lemma RepeatCountsTwice<T>(h: seq<T>, i: nat, j: nat)
    requires i < j < |h|
    ensures h[i] == h[j] ==> multiset(h)[h[i]] >= 2
  {
    assert h == h[..j] + h[j..];
    assert h[..j][i] == h[i] && h[j..][0] == h[j];
  }

  lemma {:induction false} IndexSize(h: seq<Entry>, dl: map<Key, Deadline>)
    requires IndexMatches(h, dl)
    ensures |h| == |dl|
    decreases |h|
  {
    if h == [] {
      assert forall k :: k in dl ==> multiset(h)[Entry(dl[k], k)] == 1;
      assert dl.Keys == {};
    } else {
      var e := h[0];
      assert h == [e] + h[1..];
      assert e in multiset(h);
      var dl' := dl - {e.key};
      assert IndexMatches(h[1..], dl') by {
        forall x
          ensures multiset(h[1..])[x] == if x.key in dl' && dl'[x.key] == x.deadline then 1 else 0
        {
          assert multiset(h)[x] == multiset(h[1..])[x] + (if x == e then 1 else 0);
        }
      }
      IndexSize(h[1..], dl');
      assert |dl'| == |dl| - 1;
    }
  }

  /** Purging a key's pairs from a matching index leaves an index matching the
      map without that key (the purge in `__delitem__` and in an overwrite). */
  lemma PurgeMatches(h: seq<Entry>, dl: map<Key, Deadline>, key: Key)
    requires IndexMatches(h, dl)
    ensures IndexMatches(Purge(h, key), dl - {key})
  {
  }

  /** Pushing the pair of a key that has none yields an index matching the map
      extended with that key's deadline. */
  lemma PushMatches(h: seq<Entry>, dl: map<Key, Deadline>, e: Entry)
    requires IndexMatches(h, dl) && e.key !in dl
    ensures IndexMatches(HeapPush(h, e), dl[e.key := e.deadline])
  {
  }

  /** What `__setitem__` does to the index: purge the key's pairs when the key is
      present, then push the new pair. Afterwards the key has exactly one pair,
      with the new deadline, and every other key keeps its pair. */
  lemma SetMatches(h: seq<Entry>, dl: map<Key, Deadline>, key: Key, d: Deadline)
    requires IndexMatches(h, dl)
    ensures IndexMatches(HeapPush(if key in dl then Purge(h, key) else h, Entry(d, key)), dl[key := d])
  {
    if key in dl {
      PurgeMatches(h, dl, key);
      assert dl[key := d] == (dl - {key})[key := d];
      PushMatches(Purge(h, key), dl - {key}, Entry(d, key));
    } else {
      PushMatches(h, dl, Entry(d, key));
    }
  }

  /** `heappop` on a matching index returns the one pair of a present key,
      carrying that key's deadline, and leaves an index matching the map
      without that key. */
  lemma PopMatches(h: seq<Entry>, dl: map<Key, Deadline>)
    requires h != [] && IndexMatches(h, dl)
    ensures h[0].key in dl && dl[h[0].key] == h[0].deadline
    ensures IndexMatches(HeapPop(h).1, dl - {h[0].key})
  {
    assert h[0] in multiset(h);
  }

  /** What a sweep does to a matching index: every popped key was present and
      its current deadline had passed, and what is left matches the map without
      the popped keys. */
  lemma {:induction false} SweepMatches(h: seq<Entry>, dl: map<Key, Deadline>, now: int)
    requires IndexMatches(h, dl)
    ensures KeySet(SweepPopped(h, now)) <= dl.Keys
    ensures forall k :: k in KeySet(SweepPopped(h, now)) ==> Expired(dl[k], now)
    ensures IndexMatches(SweepRest(h, now), dl - KeySet(SweepPopped(h, now)))
    decreases |h|, 1
  {
    if h != [] && Expired(h[0].deadline, now) {
      SweepMatchesPop(h, dl, now);
    } else {
      assert dl - KeySet([]) == dl;
    }
  }

  /** `SweepMatches` when the loop pops at least once. */
  lemma {:induction false} SweepMatchesPop(h: seq<Entry>, dl: map<Key, Deadline>, now: int)
    requires IndexMatches(h, dl) && h != [] && Expired(h[0].deadline, now)
    ensures KeySet(SweepPopped(h, now)) <= dl.Keys
    ensures forall k :: k in KeySet(SweepPopped(h, now)) ==> Expired(dl[k], now)
    ensures IndexMatches(SweepRest(h, now), dl - KeySet(SweepPopped(h, now)))
    decreases |h|, 0
  {
    var next := HeapPop(h).1;
    var k := h[0].key;
    var popped := SweepPopped(next, now);
    PopMatches(h, dl);
    SweepMatches(next, dl - {k}, now);
    KeySetCons(h[0], popped);
    MapMinusTwice(dl, k, KeySet(popped));
    assert KeySet(SweepPopped(h, now)) == {k} + KeySet(popped);
    assert dl - KeySet(SweepPopped(h, now)) == (dl - {k}) - KeySet(popped);
    forall k' | k' in KeySet(SweepPopped(h, now))
      ensures Expired(dl[k'], now)
    {
      if k' != k {
        assert (dl - {k})[k'] == dl[k'];
      }
    }
  }

  lemma SweepRestStep(h: seq<Entry>, now: int)
    requires h != [] && Expired(h[0].deadline, now)
    ensures SweepRest(h, now) == SweepRest(HeapPop(h).1, now)
  {
  }

  /** One more pop of the sweep, seen from the pairs popped so far. */
  lemma SweepPrefixStep(popped: seq<Entry>, h: seq<Entry>, now: int)
    requires h != [] && Expired(h[0].deadline, now)
    ensures popped + SweepPopped(h, now) == (popped + [h[0]]) + SweepPopped(HeapPop(h).1, now)
  {
    var s := SweepPopped(HeapPop(h).1, now);
    assert popped + ([h[0]] + s) == (popped + [h[0]]) + s;
  }

  lemma KeySetCons(e: Entry, s: seq<Entry>)
    ensures KeySet([e] + s) == {e.key} + KeySet(s)
  {
  }

  lemma KeySetSnoc(s: seq<Entry>, e: Entry)
    ensures KeySet(s + [e]) == KeySet(s) + {e.key}
  {
  }

  lemma MapMinusTwice(dl: map<Key, Deadline>, k: Key, gone: set<Key>)
    ensures (dl - {k}) - gone == dl - ({k} + gone)
  {
  }

  /** Sweeping twice at the same time pops nothing the second time and leaves
      the list as the first sweep left it. */
  lemma SweepIdempotent(h: seq<Entry>, now: int)
    ensures SweepPopped(SweepRest(h, now), now) == []
    ensures SweepRest(SweepRest(h, now), now) == SweepRest(h, now)
  {
  }

  /** A sweep keeps a heap a heap. */
  lemma {:induction false} SweepKeepsHeap(h: seq<Entry>, now: int)
    requires IsHeap(h)
    ensures IsHeap(SweepRest(h, now))
    decreases |h|
  {
    if h != [] && Expired(h[0].deadline, now) {
      HeapPopKeepsHeap(h);
      SweepKeepsHeap(HeapPop(h).1, now);
    }
  }

  /** On an index in heap order the sweep leaves no expired pair behind. */
  lemma SweepCompleteOnHeap(h: seq<Entry>, now: int)
    requires IsHeap(h)
    ensures forall e :: e in SweepRest(h, now) ==> !Expired(e.deadline, now)
  {
    var rest := SweepRest(h, now);
    SweepKeepsHeap(h, now);
    forall i | 0 <= i < |rest|
      ensures !Expired(rest[i].deadline, now)
    {
      HeapFrontIsLeast(rest, i);
      LeKeepsUnexpired(rest[0], rest[i], now);
    }
  }

  /** On a matching index in heap order the sweep removes exactly the keys whose
      current deadline has passed. */
  lemma SweepExactOnHeap(h: seq<Entry>, dl: map<Key, Deadline>, now: int)
    requires IsHeap(h) && IndexMatches(h, dl)
    ensures KeySet(SweepPopped(h, now)) == set k | k in dl && Expired(dl[k], now)
  {
    SweepMatches(h, dl, now);
    SweepCompleteOnHeap(h, now);
    LeftKeysUnexpired(SweepRest(h, now), dl, KeySet(SweepPopped(h, now)), now);
  }

  /** When no pair left in an index matching `dl - gone` has expired, no key of
      `dl` outside `gone` has. */
  lemma LeftKeysUnexpired(left: seq<Entry>, dl: map<Key, Deadline>, gone: set<Key>, now: int)
    requires IndexMatches(left, dl - gone)
    requires forall e :: e in left ==> !Expired(e.deadline, now)
    ensures forall k :: k in dl && k !in gone ==> !Expired(dl[k], now)
  {
    IndexShape(left, dl - gone);
    forall k | k in dl && k !in gone
      ensures !Expired(dl[k], now)
    {
      assert (dl - gone)[k] == dl[k];
      assert Entry(dl[k], k) in left;
    }
  }

  /** Pushing pairs with deadlines 1, 5 and 2 leaves them in that order, which
      is heap order. */
  lemma PushedThree()
    ensures HeapPush(HeapPush(HeapPush([], Entry(Finite(1), "a")), Entry(Finite(5), "b")), Entry(Finite(2), "c"))
      == [Entry(Finite(1), "a"), Entry(Finite(5), "b"), Entry(Finite(2), "c")]
    ensures IsHeap([Entry(Finite(1), "a"), Entry(Finite(5), "b"), Entry(Finite(2), "c")])
  {
    var a, b, c := Entry(Finite(1), "a"), Entry(Finite(5), "b"), Entry(Finite(2), "c");
    assert HeapPush([], a) == [a];
    assert HeapPush([a], b) == [a, b] by {
      assert !Less(b, a);
    }
    assert HeapPush([a, b], c) == [a, b, c] by {
      assert !Less(c, a);
    }
    assert ParentLe([a, b, c], 1) && ParentLe([a, b, c], 2);
  }

  /** Purging a key that has no pair changes nothing. */
  lemma {:induction false} PurgeAbsent(h: seq<Entry>, key: Key)
    requires forall i :: 0 <= i < |h| ==> h[i].key != key
    ensures Purge(h, key) == h
  {
    if h != [] {
      PurgeAbsent(h[1..], key);
      assert h == [h[0]] + h[1..];
    }
  }

  /** Purging the front key of that heap leaves the pairs with deadlines 5 and 2,
      in that order, which is not heap order. */
  lemma PurgedFront()
    ensures Purge([Entry(Finite(1), "a"), Entry(Finite(5), "b"), Entry(Finite(2), "c")], "a")
      == [Entry(Finite(5), "b"), Entry(Finite(2), "c")]
    ensures !IsHeap([Entry(Finite(5), "b"), Entry(Finite(2), "c")])
  {
    var a, b, c := Entry(Finite(1), "a"), Entry(Finite(5), "b"), Entry(Finite(2), "c");
    PurgeAbsent([b, c], "a");
    assert [a, b, c][1..] == [b, c];
    assert !ParentLe([b, c], 1);
  }

  /** The purge does not restore heap order. Three pairs pushed in deadline
      order form a heap; purging the front key leaves the pair with deadline 5
      in front of the pair with deadline 2, so a sweep at time 3 stops at once
      and the pair with deadline 2 stays although it has expired. */
  lemma PurgeBreaksHeapOrder()
    ensures var h := HeapPush(HeapPush(HeapPush([], Entry(Finite(1), "a")), Entry(Finite(5), "b")), Entry(Finite(2), "c"));
      && IsHeap(h)
      && !IsHeap(Purge(h, "a"))
      && SweepPopped(Purge(h, "a"), 3) == []
      && SweepRest(Purge(h, "a"), 3) == [Entry(Finite(5), "b"), Entry(Finite(2), "c")]
      && Expired(Entry(Finite(2), "c").deadline, 3)
  {
    var b, c := Entry(Finite(5), "b"), Entry(Finite(2), "c");
    PushedThree();
    PurgedFront();
    assert !Expired(b.deadline, 3);
    assert SweepPopped([b, c], 3) == [] && SweepRest([b, c], 3) == [b, c];
  }
}

# TTLDictionary in Dafny

A model of `TTLDictionary`, a Python dictionary whose entries expire. Each
entry is stored in `data`, and a `heapq` list `expiry_times` holds one
`(expiry_time, key)` pair per entry. Reads through `d[key]` and `get` first
sweep expired pairs off the front of that list. Each sweep deletes the keys it
pops from `data`.

The model has four modules:

- `Entries` (entries.dfy): keys, the deadlines `Finite(t)` and `Never` (Python's
  `float("inf")`), and Python's `<` on `(expiry_time, key)` tuples, with the
  order laws `heapq` relies on.
- `Heapq` (heapq.dfy): `heappush` and `heappop` as CPython performs them
  (`_siftdown`, `_siftup`). It also proves that both keep heap order and that a
  heap's front pair is its least.
- `ExpiryIndex` (expiry_index.dfy): the list comprehension that purges one
  key's pairs, and the sweep loop as two functions: `SweepPopped` (the pairs
  popped, in order) and `SweepRest` (the list left over). Also the invariant
  `IndexMatches` that ties the list to the keys' current deadlines.
- `TTL` (ttl_dictionary.dfy): the class `TTLDictionary<V>`.
  - Its fields are `data` (a `map`), `order` (the dict's insertion order,
    which `keys()`, `values()` and `items()` follow) and `expiryTimes` (the
    heap list).
  - A ghost field `deadline` records each key's latest deadline.
  - Each method is one atomic step, as under the source's lock. The current
    time is the parameter `now`.

The class invariant `Valid` holds the three parts of `Consistent`:

- `data` and `deadline` have the same keys;
- `order` lists each key once;
- `expiryTimes` holds exactly one pair per key, carrying its latest deadline.

Heap order is not part of the invariant. The purge in `__setitem__` and
`__delitem__` filters the list without restoring heap order, so the sweep may
stop before an expired pair.

- `PurgeBreaksHeapOrder` exhibits this on concrete pairs: pairs with deadlines
  1, 5 and 2 are pushed, the first key is purged, and a sweep at time 3 leaves
  the expired pair with deadline 2.
- What a sweep always guarantees: it removes only keys whose latest deadline
  has passed.
- When the list was in heap order, the sweep removes all such keys
  (`SweepExactOnHeap`).

Under the invariant, every key popped by the sweep is still in `data`
(`SweepingStep`). So the `except KeyError: pass` branch of
`_clean_expired_unsafe` is never taken in the sequential model.

The code accepts any TTL, negative ones included (`time.time() + ttl_seconds`
with no check), and its docstring puts no bound on the TTL. `DeadlineFor` takes
any integer TTL.

## Model

| member | source | states |
|---|---|---|
| Entries.Expired | ttl_dictionary.py:54 | the loop test `expiry_time <= now` holds exactly when `now` is not below the deadline in the deadline order, so the infinite deadline never passes it |
| Entries.KeyLess | ttl_dictionary.py:87 | Python's `<` on `str` keys, which breaks ties between equal deadlines: a proper prefix is smaller, and no key is smaller than an equal key |
| Entries.Less | ttl_dictionary.py:55 | Python's `<` on `(expiry_time, key)` tuples, which `heapq` applies: a pair is never smaller than an equal pair |
| Entries.LessIrreflexive | ttl_dictionary.py:87 | no `(expiry_time, key)` pair is smaller than itself under Python's tuple `<` |
| Entries.LessTransitive | ttl_dictionary.py:87 | the tuple `<` that `heapq` uses is transitive, comparing keys only on equal deadlines |
| Entries.LessTotal | ttl_dictionary.py:87 | any two distinct pairs are ordered one way or the other |
| Entries.LeKeepsUnexpired | ttl_dictionary.py:54 | a pair no smaller than an unexpired pair has not expired either |
| Heapq.SiftDown | ttl_dictionary.py:87 | CPython's `_siftdown`, run by `heappush`: the list keeps its length and its pairs (as a multiset) |
| Heapq.SiftUp | ttl_dictionary.py:55 | CPython's `_siftup`, run by `heappop`: the list keeps its length and its pairs (as a multiset) |
| Heapq.HeapPush | ttl_dictionary.py:87 | `heappush` makes the list one longer, and the list gains exactly the new pair (as a multiset) |
| Heapq.HeapPop | ttl_dictionary.py:55 | `heappop` returns the front pair `heap[0]`, and the list loses exactly that pair |
| Heapq.SiftDownHeap | ttl_dictionary.py:87 | `_siftdown` turns a heap broken only above the moved item into a heap |
| Heapq.SiftUpHeap | ttl_dictionary.py:55 | `_siftup` turns a heap with a hole at the moved item into a heap |
| Heapq.HeapPushKeepsHeap | ttl_dictionary.py:87 | `heappush` on a heap yields a heap |
| Heapq.HeapPopKeepsHeap | ttl_dictionary.py:55 | `heappop` on a heap leaves a heap |
| Heapq.HeapFrontIsLeast | ttl_dictionary.py:54 | in a heap, the front pair the sweep inspects is no larger than any other pair |
| ExpiryIndex.Purge | ttl_dictionary.py:82-84 | the filter leaves no pair of the key, and every other pair keeps its multiplicity |
| ExpiryIndex.PurgeAbsent | ttl_dictionary.py:82-84 | purging a key that has no pair leaves the list unchanged |
| ExpiryIndex.SweepPopped | ttl_dictionary.py:54-55 | every pair the sweep pops has `expiry_time <= now` |
| ExpiryIndex.SweepRest | ttl_dictionary.py:54 | the sweep stops only at an empty list or at a front pair that has not expired |
| ExpiryIndex.SweepPermutes | ttl_dictionary.py:54-55 | the popped pairs plus the rest are exactly the original list (as multisets) |
| ExpiryIndex.IndexShape | ttl_dictionary.py:81-87 | under the index invariant: every pair carries its key's latest deadline, no key has two pairs, every key has its pair, and the list is as long as the dict |
| ExpiryIndex.PurgeMatches | ttl_dictionary.py:124-126 | purging a key from a matching index gives an index matching the deadlines without that key |
| ExpiryIndex.PushMatches | ttl_dictionary.py:87 | pushing the pair of a new key gives an index matching the deadlines extended with that key |
| ExpiryIndex.SetMatches | ttl_dictionary.py:81-87 | purge-if-present then push leaves the key exactly one pair with its new deadline, and every other key keeps its pair |
| ExpiryIndex.PopMatches | ttl_dictionary.py:55-57 | the popped front pair belongs to a present key and carries its latest deadline; the rest matches the deadlines without that key |
| ExpiryIndex.SweepMatches | ttl_dictionary.py:54-57 | every key the sweep pops is present with a passed deadline, and what is left matches the deadlines without the popped keys |
| ExpiryIndex.SweepIdempotent | ttl_dictionary.py:54 | a second sweep at the same `now` pops nothing and leaves the list unchanged |
| ExpiryIndex.SweepKeepsHeap | ttl_dictionary.py:54-55 | a sweep of a heap leaves a heap |
| ExpiryIndex.SweepCompleteOnHeap | ttl_dictionary.py:54 | on a heap, no pair left after the sweep has expired |
| ExpiryIndex.SweepExactOnHeap | ttl_dictionary.py:54-57 | on a matching heap, the popped keys are exactly the keys whose latest deadline is `<= now` |
| ExpiryIndex.PushedThree | ttl_dictionary.py:87 | pushing pairs with deadlines 1, 5, 2 gives the list in that order, which is a heap |
| ExpiryIndex.PurgedFront | ttl_dictionary.py:82-84 | purging the front key of that heap leaves deadlines 5 then 2, which is not a heap |
| ExpiryIndex.PurgeBreaksHeapOrder | ttl_dictionary.py:82-84 | after that purge, a sweep at time 3 pops nothing and leaves the pair with deadline 2, which has expired |
| TTL.DeadlineFor | ttl_dictionary.py:70-78 | no TTL gives `Never`; TTL `t` gives a deadline that has passed at time `m` exactly when `now + t <= m` |
| TTL.Without | ttl_dictionary.py:121 | deleting keys from the dict's order removes every occurrence of them and keeps every other key's multiplicity |
| TTL.WithoutNothing | ttl_dictionary.py:57 | deleting no keys leaves the order unchanged |
| TTL.WithoutTwice | ttl_dictionary.py:57 | deleting two key sets one after the other is the same as deleting their union |
| TTL.ListsOnceSize | ttl_dictionary.py:148-149 | an order that lists each key once is as long as the key set |
| TTL.OrderShape | ttl_dictionary.py:165-166 | an order that lists each key once has no repeats, holds exactly the keys, and is as long as the dict |
| TTL.ListsOnceDrop | ttl_dictionary.py:121 | deleting one key from such an order lists each remaining key once |
| TTL.StoreKeepsConsistent | ttl_dictionary.py:81-87 | storing a key the way `__setitem__` does keeps dict, order, index and deadlines consistent |
| TTL.SweepingStart | ttl_dictionary.py:54 | a consistent state is a valid starting state of the sweep loop |
| TTL.SweepingStep | ttl_dictionary.py:55-57 | each popped key is still in the dict, so the `KeyError` branch is never taken; deleting it keeps the loop state |
| TTL.SweepingDone | ttl_dictionary.py:54 | when the loop stops, it has popped exactly what the sweep pops and left exactly what the sweep leaves |
| TTL.SweepAgainChangesNothing | ttl_dictionary.py:54-59 | a second sweep at the same time changes neither the index, the dict, its order nor the deadlines |
| TTL.TTLDictionary.constructor | ttl_dictionary.py:31-32 | a new dictionary is empty, with an empty index, and satisfies the invariant |
| TTL.TTLDictionary.CleanExpired | ttl_dictionary.py:48-59 | keeps the invariant. The new state is the sweep's result. The front pair left has not expired. Only keys with passed deadlines are removed. From a heap: the list stays a heap and no remaining key has expired |
| TTL.TTLDictionary.Set | ttl_dictionary.py:61-87 | the key maps to the value with its new deadline, and other keys are unchanged. A new key is appended to the order. The index is purge-if-present then push. It keeps the invariant, and a heap stays a heap when the key is new |
| TTL.TTLDictionary.Get | ttl_dictionary.py:102-107 | sweeps first, then returns the value or `KeyError`. An unexpired key is always found. From a heap, the value is found exactly when the key is present and unexpired |
| TTL.TTLDictionary.GetOrDefault | ttl_dictionary.py:199-201 | sweeps first, then returns the value or the default, never an error; an unexpired key yields its value |
| TTL.TTLDictionary.Delete | ttl_dictionary.py:119-126 | a missing key gives `KeyError` and changes nothing. A present key leaves the dict, its order, the deadlines, and every index pair it had. Nothing else changes |
| TTL.TTLDictionary.Contains | ttl_dictionary.py:138-139 | no sweep; true exactly when the key is in the dict, equivalently when the index has a pair for it |
| TTL.TTLDictionary.Len | ttl_dictionary.py:148-149 | no sweep; the dict's size, equal to the index length and the order length |
| TTL.TTLDictionary.Keys | ttl_dictionary.py:165-166 | no sweep; the keys in insertion order, each present key exactly once |
| TTL.TTLDictionary.Values | ttl_dictionary.py:175-176 | no sweep; one value per entry in insertion order, and every stored value appears |
| TTL.TTLDictionary.Items | ttl_dictionary.py:185-186 | no sweep; one `(key, value)` pair per entry in insertion order, and every entry appears |

## Left out

- Threads, the reentrant lock and the `with self.lock` sections are left out. Each public method is one atomic step.
- The reaper thread `_collect_expired` and its start in `__init__` are left out, and so is `__del__`. They are thread lifecycle, not sequential logic.
- `time.time()` is replaced by the integer parameter `now`, and deadlines are integers. `float("inf")` is the `Never` deadline. Floating-point rounding is not modelled.
- The `isinstance(value_and_ttl, tuple)` dispatch is modelled as an `Option<int>` TTL: a bare value is `None`, and so is `(value, None)`.
- Keys are strings and compare lexicographically, as Python `str` values do. Other key types and their orderings are not modelled. This hides an error path: Python cannot order some pairs of keys (`1` and `"x"`, say). Two entries with equal deadlines, such as any two set without a TTL, make `heapq` compare their keys. With such keys `heappush` at ttl_dictionary.py:87 raises `TypeError`, after `self.data[key] = value` at :86 has already run and the pair has been appended. A `heappop` in the sweep can raise in the same way. The model has no such failure.
- TTL.TTLDictionary.GetOrDefault: the default is a required argument of the value type `V`. Python's `get(key)` without a default returns `None`, which the model does not express.
- TTL.TTLDictionary.CleanExpired runs its loop on local copies of the fields and writes them back once, instead of updating the fields pair by pair. Under the source's lock, no caller can see the difference.
- The daemon's periodic sweep is not modelled as a separate operation. It is a call of `CleanExpired`.
- ttl_dictionary_ut.py and __main__.py are not part of this model.

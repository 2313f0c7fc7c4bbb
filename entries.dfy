/** Keys, deadlines and the `(expiry_time, key)` pairs kept in the expiry index,
    with the order Python uses when `heapq` compares two such pairs. */
module Entries {

  /** Dictionary keys. Python compares two `str` keys lexicographically by code point;
      that comparison only matters when two pairs carry the same deadline. */
  type Key = string

  /** An absolute expiry time. `Never` stands for `float("inf")`, the deadline stored
      when no TTL is given; it is greater than every finite time and equal to itself. */
  datatype Deadline = Finite(t: int) | Never

  /** `<` on deadlines. */
  predicate DeadlineLess(a: Deadline, b: Deadline) {
    match (a, b)
    case (Finite(x), Finite(y)) => x < y
    case (Finite(_), Never) => true
    case (Never, _) => false
  }

  /** The sweep's test `expiry_time <= now`; an infinite deadline never passes it.
      In the deadline order it is "`now` is not below the deadline". */
  predicate Expired(d: Deadline, now: int): (r: bool)
    ensures r <==> !DeadlineLess(Finite(now), d)
  {
    d.Finite? && d.t <= now
  }

  /** Python's `<` on two strings: lexicographic, a proper prefix being smaller. */
  predicate KeyLess(a: Key, b: Key): (r: bool)
    ensures |a| < |b| && a == b[..|a|] ==> r
    ensures r ==> a != b
    decreases |a|
  {
    if |a| == 0 then |b| > 0
    else if |b| == 0 then false
    else if a[0] != b[0] then a[0] < b[0]
    else KeyLess(a[1..], b[1..])
  }

  /** One `(expiry_time, key)` pair of the expiry index. */
  datatype Entry = Entry(deadline: Deadline, key: Key)

  /** Python's `<` on the tuple `(expiry_time, key)`: the first components decide
      unless they are equal, and then the keys decide. */
  predicate Less(a: Entry, b: Entry): (r: bool)
    ensures r ==> a != b
  {
    if a.deadline != b.deadline then DeadlineLess(a.deadline, b.deadline)
    else KeyLess(a.key, b.key)
  }

  /** `a <= b`, which for this total order is `not b < a`. */
  predicate Le(a: Entry, b: Entry) {
    !Less(b, a)
  }

  lemma {:induction false} KeyLessIrreflexive(a: Key)
    ensures !KeyLess(a, a)
    decreases |a|
  {
    if |a| > 0 {
      KeyLessIrreflexive(a[1..]);
    }
  }

  lemma {:induction false} KeyLessTransitive(a: Key, b: Key, c: Key)
    requires KeyLess(a, b) && KeyLess(b, c)
    ensures KeyLess(a, c)
    decreases |a|
  {
    if |a| > 0 && a[0] == b[0] && b[0] == c[0] {
      KeyLessTransitive(a[1..], b[1..], c[1..]);
    }
  }

  lemma {:induction false} KeyLessTotal(a: Key, b: Key)
    requires a != b
    ensures KeyLess(a, b) || KeyLess(b, a)
    decreases |a|
  {
    if |a| > 0 && |b| > 0 && a[0] == b[0] {
      assert a == [a[0]] + a[1..] && b == [b[0]] + b[1..];
      KeyLessTotal(a[1..], b[1..]);
    }
  }

  /** Pair comparison is irreflexive: no pair is smaller than itself. */
  lemma LessIrreflexive(a: Entry)
    ensures !Less(a, a)
  {
    KeyLessIrreflexive(a.key);
  }

  /** Pair comparison is transitive. */
  lemma LessTransitive(a: Entry, b: Entry, c: Entry)
    requires Less(a, b) && Less(b, c)
    ensures Less(a, c)
  {
    if a.deadline == b.deadline && b.deadline == c.deadline {
      KeyLessTransitive(a.key, b.key, c.key);
    }
  }

  /** Any two distinct pairs are comparable, so `heapq` always has an answer. */
  lemma LessTotal(a: Entry, b: Entry)
    requires a != b
    ensures Less(a, b) || Less(b, a)
  {
    if a.deadline == b.deadline {
      KeyLessTotal(a.key, b.key);
    }
  }

  lemma LessAsymmetric(a: Entry, b: Entry)
    requires Less(a, b)
    ensures !Less(b, a)
  {
    if Less(b, a) {
      LessTransitive(a, b, a);
      LessIrreflexive(a);
    }
  }

  /** `<=` on pairs is transitive. */
  lemma LeTransitive(a: Entry, b: Entry, c: Entry)
    requires Le(a, b) && Le(b, c)
    ensures Le(a, c)
  {
    if Less(c, a) {
      if a != b && b != c {
        LessTotal(a, b);
        LessTotal(b, c);
        LessTransitive(a, b, c);
        LessAsymmetric(a, c);
      }
    }
  }

  /** Whatever follows an unexpired pair in this order is unexpired too. */
  lemma LeKeepsUnexpired(a: Entry, b: Entry, now: int)
    requires Le(a, b) && !Expired(a.deadline, now)
    ensures !Expired(b.deadline, now)
  {
  }
}

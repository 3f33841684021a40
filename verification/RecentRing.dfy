/**
 * The 512-slot ring shared by the event history and the level history: the
 * fields `first` and `count` and the slots, with the oldest entry given up
 * when a new one finds the ring full.
 */
module RecentRing {
  const CAPACITY := 512

  datatype Ring<T> = Ring(first: nat, count: nat, slots: seq<T>) {
    ghost predicate Valid() {
      first < CAPACITY && count <= CAPACITY && |slots| == CAPACITY
    }

    /** Entry `i` counted from the oldest. */
    function At(i: nat): T
      requires Valid() && i < count
    {
      slots[(first + i) % CAPACITY]
    }

    function Window(): (w: seq<T>)
      requires Valid()
      ensures |w| == count
    {
      seq(count, i requires 0 <= i < count => At(i))
    }

    function Push(x: T): Ring<T>
      requires Valid()
    {
      var r := if count == CAPACITY then Ring((first + 1) % CAPACITY, count - 1, slots) else this;
      Ring(r.first, r.count + 1, r.slots[(r.first + r.count) % CAPACITY := x])
    }

    lemma PushWindow(x: T)
      requires Valid()
      ensures Push(x).Valid()
      ensures Push(x).Window() == Recent(Window() + [x])
    {
      var a, b := Push(x).Window(), Recent(Window() + [x]);
      forall i | 0 <= i < |a| ensures a[i] == b[i] {
        PushAt(x, i);
      }
    }

    /** A push, once a full ring has given up its oldest entry. */
    lemma PushIs(x: T, first': nat, count': nat)
      requires Valid()
      requires if count == CAPACITY then first' == (first + 1) % CAPACITY && count' == count - 1
               else first' == first && count' == count
      ensures Push(x) == Ring(first', count' + 1, slots[(first' + count') % CAPACITY := x])
    {
    }

    lemma PushAt(x: T, i: nat)
      requires Valid() && Push(x).Valid() && i < Push(x).count
      ensures count < CAPACITY ==> Push(x).At(i) == if i < count then At(i) else x
      ensures count == CAPACITY ==> Push(x).At(i) == if i + 1 < count then At(i + 1) else x
    {
      hide Push;
      if count < CAPACITY {
        PushIs(x, first, count);
        if i < count { OtherSlot(first, i, count); }
      } else {
        var f := (first + 1) % CAPACITY;
        PushIs(x, f, count - 1);
        NextSlot(first, i);
        NextSlot(first, count - 1);
        if i + 1 < count { OtherSlot(f, i, count - 1); }
      }
    }
  }

  /** Entries less than a lap apart lie in different slots. */
  lemma OtherSlot(first: nat, i: nat, j: nat)
    requires first < CAPACITY && i < j <= CAPACITY && j - i < CAPACITY
    ensures (first + i) % CAPACITY != (first + j) % CAPACITY
  {
  }

  lemma NextSlot(first: nat, i: nat)
    requires first < CAPACITY && i < CAPACITY
    ensures ((first + 1) % CAPACITY + i) % CAPACITY == (first + (i + 1)) % CAPACITY
  {
  }

  /** The last at most 512 entries. */
  function Recent<T>(s: seq<T>): (r: seq<T>)
    ensures |r| <= CAPACITY
  {
    if |s| <= CAPACITY then s else s[|s| - CAPACITY..]
  }

  /** They are as many as there are, 512 at most, and counted from the end the same. */
  lemma RecentAreTheLast512<T>(s: seq<T>)
    ensures |Recent(s)| == if |s| < 512 then |s| else 512
    ensures forall i :: 0 <= i < |s| && |s| - 512 <= i ==> s[i] == Recent(s)[i - (|s| - |Recent(s)|)]
  {
  }

  /** Forgetting early or late makes no difference. */
  lemma RecentOfRecent<T>(s: seq<T>, x: T)
    ensures Recent(Recent(s) + [x]) == Recent(s + [x])
  {
  }
}

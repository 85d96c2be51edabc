/**
 * `cache::Queue<Item>`: a bounded FIFO of recently seen items.
 *
 * The Rust struct keeps a `VecDeque` (`queue`, oldest item at the front) and a
 * `HashSet` (`lookup`) that is meant to hold the same items, so that membership is
 * answered without scanning the deque. The bound is the deque's allocation
 * capacity, which only `reserve` (and the allocator) decide.
 *
 * The first half of the module states the behaviour on values (`QueueState` and
 * the functions `Pushed`, `Cleared`, `Optimized`, ...); the lemmas about them are
 * the properties of the cache. The class `Queue` at the end is the mutable object
 * the program uses; each of its methods is proved to move its fields exactly as
 * the corresponding function says.
 */
module Cache {
  import opened Prelude

  /** The set of items that occur in a sequence. */
  function Elements<T(==)>(s: seq<T>): set<T>
  {
    set x | x in s
  }

  /** No item occurs twice. */
  predicate Distinct<T(==)>(s: seq<T>)
  {
    forall i, j :: 0 <= i < j < |s| ==> s[i] != s[j]
  }

  /** The last `n` items of `s` (all of `s` when it is shorter). */
  function Window<T(==)>(s: seq<T>, n: nat): (w: seq<T>)
    ensures |w| == if |s| <= n then |s| else n
    ensures forall k :: 0 <= k < |w| ==> w[k] == s[|s| - |w| + k]
  {
    if |s| <= n then s else s[|s| - n..]
  }

  /** The fields of a `Queue` as a value: the deque, the lookup set, and the deque's capacity. */
  datatype QueueState<Item(==)> = QueueState(queue: seq<Item>, lookup: set<Item>, cap: nat)
  {
    /** A `VecDeque` never holds more items than its capacity. */
    predicate Bounded()
    {
      |queue| <= cap
    }

    /** The lookup set holds exactly the items of the deque. */
    predicate Mirrored()
    {
      lookup == Elements(queue)
    }

    /** The state every fresh push keeps: the set mirrors the deque and no item is queued twice. */
    predicate Consistent()
    {
      Mirrored() && Distinct(queue)
    }

    /** `len`: the length of the deque. */
    function Len(): nat
    {
      |queue|
    }

    /** `contains`: consults the lookup set only, never the deque. */
    predicate Contains(item: Item)
    {
      item in lookup
    }
  }

  /** `Queue::new()`: both fields empty; the capacity is whatever the allocator gave. */
  function Empty<Item(==,!new)>(cap: nat): (s: QueueState<Item>)
    ensures s.Bounded() && s.Consistent() && s.cap == cap
    ensures s.Len() == 0
    ensures forall x :: !s.Contains(x)
  {
    QueueState([], {}, cap)
  }

  /**
   * `push`: when the deque is full, the front (oldest) item is popped, removed from
   * the set and returned; then the new item is appended and added to the set. There
   * is no duplicate check. A zero-capacity deque would make `pop_front().unwrap()`
   * panic, hence `cap > 0`.
   */
  function Pushed<Item(==)>(s: QueueState<Item>, item: Item): (r: (QueueState<Item>, Option<Item>))
    requires s.Bounded() && s.cap > 0
    ensures r.0.Bounded() && r.0.cap == s.cap
    ensures r.0.Contains(item)
    ensures s.Len() < s.cap ==>
              r.1 == None && r.0.queue == s.queue + [item] && r.0.Len() == s.Len() + 1
    ensures s.Len() == s.cap ==>
              r.1 == Some(s.queue[0]) && r.0.queue == s.queue[1..] + [item] && r.0.Len() == s.Len()
  {
    if |s.queue| == s.cap then
      var last := s.queue[0];
      (QueueState(s.queue[1..] + [item], s.lookup - {last} + {item}, s.cap), Some(last))
    else
      (QueueState(s.queue + [item], s.lookup + {item}, s.cap), None)
  }

  /** `clear`: empties both fields; the allocation, hence the capacity, is kept. */
  function Cleared<Item(==,!new)>(s: QueueState<Item>): (r: QueueState<Item>)
    ensures r.Bounded() && r.Consistent() && r.cap == s.cap
    ensures r.Len() == 0
    ensures forall x :: !r.Contains(x)
  {
    QueueState([], {}, s.cap)
  }

  /** `optimize`: rebuilds the set from the deque and leaves the deque alone. */
  function Optimized<Item(==,!new)>(s: QueueState<Item>): (r: QueueState<Item>)
    ensures r.queue == s.queue && r.cap == s.cap
    ensures r.Mirrored()
    ensures forall x :: r.Contains(x) <==> x in s.queue
  {
    s.(lookup := Elements(s.queue))
  }

  /** What `serde` writes for a `Queue`: the deque only, since `lookup` is `#[serde(skip)]`. */
  function Persisted<Item(==)>(s: QueueState<Item>): seq<Item>
  {
    s.queue
  }

  /**
   * What `serde` reads back: the saved deque, with some capacity at least its length,
   * and an empty (default) lookup set.
   */
  function Restored<Item(==,!new)>(saved: seq<Item>, cap: nat): (r: QueueState<Item>)
    requires |saved| <= cap
    ensures r.Bounded() && r.queue == saved && r.cap == cap
    ensures forall x :: !r.Contains(x)
  {
    QueueState(saved, {}, cap)
  }

  /** A run of `push` calls, one per item, in order. */
  function PushedAll<Item(==)>(s: QueueState<Item>, items: seq<Item>): (r: QueueState<Item>)
    requires s.Bounded() && s.cap > 0
    ensures r.Bounded() && r.cap == s.cap
    decreases |items|
  {
    if items == [] then s else PushedAll(Pushed(s, items[0]).0, items[1..])
  }

  /**
   * A push of an item that is not yet contained keeps the set equal to the deque's
   * items and the deque free of repeats; the evicted item, if any, is then no longer
   * contained.
   */
  lemma PushKeepsConsistent<Item>(s: QueueState<Item>, item: Item)
    requires s.Bounded() && s.cap > 0 && s.Consistent() && !s.Contains(item)
    ensures Pushed(s, item).0.Consistent()
    ensures Pushed(s, item).1.Some? ==> !Pushed(s, item).0.Contains(Pushed(s, item).1.value)
  {
  }

  /**
   * Without the caller's freshness guarantee the set drifts from the deque: pushing
   * an item that is already queued and later evicting one of its copies drops it
   * from the set while the other copy is still in the deque.
   */
  lemma DuplicatePushLosesItem()
    ensures var s0 := QueueState([1], {1}, 2);
            var s1 := Pushed(s0, 1).0;
            var s2 := Pushed(s1, 2).0;
            s0.Consistent() && s2.queue == [1, 2] && 1 in s2.queue && !s2.Contains(1)
  {
  }

  /** Concatenating after taking a window and then taking the window again is the same as one window. */
  lemma WindowOfWindow<T>(x: seq<T>, y: seq<T>, n: nat)
    ensures Window(Window(x, n) + y, n) == Window(x + y, n)
  {
  }

  /**
   * Whatever the items, a run of pushes leaves in the deque exactly the `cap` most
   * recent items of everything queued so far: eviction is strictly first in, first out.
   */
  lemma {:induction false} PushedAllKeepsNewest<Item>(s: QueueState<Item>, items: seq<Item>)
    requires s.Bounded() && s.cap > 0
    ensures PushedAll(s, items).queue == Window(s.queue + items, s.cap)
    decreases |items|
  {
    if items == [] {
      assert s.queue + items == s.queue;
    } else {
      var s1 := Pushed(s, items[0]).0;
      var x := s.queue + [items[0]];
      assert PushedAll(s, items) == PushedAll(s1, items[1..]);
      assert s1.queue == Window(x, s.cap) by {
        if |s.queue| == s.cap {
          assert x[|x| - s.cap..] == s.queue[1..] + [items[0]];
        }
      }
      PushedAllKeepsNewest(s1, items[1..]);
      WindowOfWindow(x, items[1..], s.cap);
      assert x + items[1..] == s.queue + items;
    }
  }

  /**
   * A run of pushes of distinct items none of which is contained beforehand keeps the
   * queue consistent, so that `contains` answers exactly membership in the deque.
   */
  lemma {:induction false} PushedAllKeepsConsistent<Item>(s: QueueState<Item>, items: seq<Item>)
    requires s.Bounded() && s.cap > 0 && s.Consistent()
    requires Distinct(items) && Elements(items) !! s.lookup
    ensures PushedAll(s, items).Consistent()
    decreases |items|
  {
    if items != [] {
      PushKeepsConsistent(s, items[0]);
      var s1 := Pushed(s, items[0]).0;
      var rest := items[1..];
      assert Elements(rest) !! s1.lookup by {
        forall x | x in rest ensures x !in s1.lookup {
          var k :| 0 <= k < |rest| && rest[k] == x;
          assert items[k + 1] == x && items[0] != x;
          assert x in Elements(items);
        }
      }
      assert Distinct(rest) by {
        forall i, j | 0 <= i < j < |rest| ensures rest[i] != rest[j] {
          assert rest[i] == items[i + 1] && rest[j] == items[j + 1];
        }
      }
      PushedAllKeepsConsistent(s1, rest);
    }
  }

  /**
   * Starting from an empty queue with capacity `cap` and pushing distinct items, the
   * length is min(cap, number of items pushed) and an item is contained exactly when
   * it is among the `cap` most recent ones.
   */
  lemma FreshPushesFromEmpty<Item(!new)>(cap: nat, items: seq<Item>)
    requires cap > 0 && Distinct(items)
    ensures var r := PushedAll(Empty(cap), items);
            && r.Len() == (if |items| <= cap then |items| else cap)
            && (forall x :: r.Contains(x) <==> x in Window(items, cap))
  {
    var e: QueueState<Item> := Empty(cap);
    PushedAllKeepsNewest(e, items);
    assert e.queue + items == items;
    PushedAllKeepsConsistent(e, items);
  }

  /** The first-in-first-out example: capacity 2, push 1, 2, 3; item 1 is gone, 2 and 3 remain. */
  lemma FifoExample()
    ensures var r := PushedAll(Empty(2), [1, 2, 3]);
            !r.Contains(1) && r.Contains(2) && r.Contains(3) && r.queue == [2, 3]
  {
  }

  /** Rebuilding the set twice gives the same state as rebuilding it once. */
  lemma OptimizeIdempotent<Item(!new)>(s: QueueState<Item>)
    ensures Optimized(Optimized(s)) == Optimized(s)
  {
  }

  /**
   * Saving and loading back a consistent queue, then rebuilding its set, answers
   * every `contains` question as before the save, whatever capacity the loaded
   * deque gets.
   */
  lemma RestoreThenOptimize<Item(!new)>(s: QueueState<Item>, cap: nat)
    requires s.Consistent() && s.Len() <= cap
    ensures var r := Optimized(Restored(Persisted(s), cap));
            r.Consistent() && r.queue == s.queue && forall x :: r.Contains(x) <==> s.Contains(x)
  {
  }

  /** The mutable cache object. */
  class Queue<Item(==,!new)> {
    var queue: seq<Item>
    var lookup: set<Item>
    /** The deque's allocation capacity; chosen by the allocator, at least what `reserve` asked for. */
    var cap: nat

    ghost predicate Valid()
      reads this
    {
      |queue| <= cap
    }

    /** The fields as a value. */
    function State(): (s: QueueState<Item>)
      reads this
      ensures s.queue == queue && s.lookup == lookup && s.cap == cap
    {
      QueueState(queue, lookup, cap)
    }

    /** `Queue::new()`: empty fields, and whatever capacity the allocator gives an empty deque. */
    constructor ()
      ensures Valid() && State() == Empty(cap)
    {
      queue := [];
      lookup := {};
      var initial: nat :| true;
      cap := initial;
    }

    /** `Queue::with_capacity(n)`: `new()` followed by `reserve(n)`. */
    constructor WithCapacity(capacity: nat)
      ensures Valid() && State() == Empty(cap) && cap >= capacity
    {
      queue := [];
      lookup := {};
      var initial: nat :| true;
      cap := initial;
      new;
      Reserve(capacity);
    }

    /**
     * The object `serde` builds from a saved deque: the deque as saved, some capacity
     * at least its length, and the skipped `lookup` field at its default, empty.
     */
    constructor FromSaved(saved: seq<Item>)
      ensures Valid() && |saved| <= cap && State() == Restored(saved, cap)
    {
      queue := saved;
      lookup := {};
      var initial: nat :| initial >= |saved|;
      cap := initial;
    }

    /**
     * `reserve(n)`: the deque's capacity becomes at least `len + n`; it never shrinks
     * and stays as it is when already large enough. Reserving room in the set changes
     * nothing observable.
     */
    method Reserve(additional: nat)
      requires Valid()
      modifies this
      ensures Valid() && queue == old(queue) && lookup == old(lookup)
      ensures cap >= |queue| + additional && cap >= old(cap)
      ensures old(cap) >= |queue| + additional ==> cap == old(cap)
    {
      if cap < |queue| + additional {
        var grown: nat :| grown >= |queue| + additional;
        cap := grown;
      }
    }

    /** `len` */
    function Len(): (n: nat)
      reads this
      requires Valid()
      ensures n == State().Len() && n <= cap
    {
      |queue|
    }

    /** `contains`: asks the set only; this is membership in the deque when the set mirrors it. */
    function Contains(item: Item): (b: bool)
      reads this
      ensures b == State().Contains(item)
      ensures State().Mirrored() ==> (b <==> item in queue)
    {
      item in lookup
    }

    /** `push` */
    method Push(item: Item) returns (dropped: Option<Item>)
      requires Valid() && cap > 0
      modifies this
      ensures Valid() && (State(), dropped) == Pushed(old(State()), item)
      ensures old(State().Consistent()) && item !in old(lookup) ==> State().Consistent()
    {
      ghost var before := State();
      dropped := None;
      if |queue| == cap {
        var last := queue[0];
        queue := queue[1..];
        lookup := lookup - {last};
        dropped := Some(last);
      }
      queue := queue + [item];
      lookup := lookup + {item};
      if before.Consistent() && item !in before.lookup {
        PushKeepsConsistent(before, item);
      }
    }

    /** `clear` */
    method Clear()
      requires Valid()
      modifies this
      ensures Valid() && State() == Cleared(old(State()))
    {
      queue := [];
      lookup := {};
    }

    /** `optimize`: empties the set, then inserts every item of the deque, front to back. */
    method Optimize()
      requires Valid()
      modifies this
      ensures Valid() && State() == Optimized(old(State()))
    {
      lookup := {};
      var i := 0;
      while i < |queue|
        invariant queue == old(queue) && cap == old(cap)
        invariant 0 <= i <= |queue|
        invariant lookup == Elements(queue[..i])
      {
        assert queue[..i + 1] == queue[..i] + [queue[i]];
        lookup := lookup + {queue[i]};
        i := i + 1;
      }
      assert queue[..i] == queue;
    }
  }
}

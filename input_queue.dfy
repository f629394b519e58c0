/** The bounded key queue filled by the window's key callback and drained by the game tick.
    The deque is a sequence whose index 0 is its front: keys are pushed at the front and
    fetched from the back, so the back holds the oldest key. */
module Input {

  /** MAX_ELEMENTS_IN_QUEUE; the callback keeps at most one fewer key than this. */
  const MaxElementsInQueue: int := 20

  /** GLFW_KEY_UNKNOWN, returned by `fetch` when no key is pending. */
  const KeyUnknown: int := -1

  /** The deque after key_callback(key): key 0 is ignored; otherwise, when the deque already
      holds MAX_ELEMENTS_IN_QUEUE - 1 keys or more, the back (oldest) is dropped, and the key
      is pushed at the front. */
  function Pushed(queue: seq<int>, key: int): (r: seq<int>)
    ensures key == 0 ==> r == queue
    ensures key != 0 ==> |r| >= 1 && r[0] == key
    ensures key != 0 && |queue| < MaxElementsInQueue - 1 ==> r[1..] == queue
    ensures key != 0 && |queue| >= MaxElementsInQueue - 1 ==> r[1..] == queue[..|queue| - 1]
    ensures |queue| <= MaxElementsInQueue - 1 ==> |r| <= MaxElementsInQueue - 1
  {
    if key == 0 then queue
    else
      var kept := if |queue| >= MaxElementsInQueue - 1 then queue[..|queue| - 1] else queue;
      [key] + kept
  }

  /** What `fetch` returns and the deque it leaves: GLFW_KEY_UNKNOWN and the empty deque when
      nothing is pending, otherwise the back (oldest) key and the deque without it. */
  function Fetched(queue: seq<int>): (r: (int, seq<int>))
    ensures queue == [] ==> r == (KeyUnknown, [])
    ensures queue != [] ==> r.0 == queue[|queue| - 1] && r.1 + [r.0] == queue
  {
    if queue == [] then (KeyUnknown, [])
    else (queue[|queue| - 1], queue[..|queue| - 1])
  }

  /** The keys that repeated `fetch` calls return until the deque is empty. */
  function Drained(queue: seq<int>): (keys: seq<int>)
    ensures |keys| == |queue|
    decreases |queue|
  {
    if queue == [] then [] else [Fetched(queue).0] + Drained(Fetched(queue).1)
  }

  /** The deque after one key_callback per key of `keys`, in order. */
  function PushedAll(queue: seq<int>, keys: seq<int>): seq<int>
    decreases |keys|
  {
    if keys == [] then queue else PushedAll(Pushed(queue, keys[0]), keys[1..])
  }

  /** A key pushed at the front is fetched after everything already queued. */
  lemma {:induction false} DrainedPushFront(key: int, queue: seq<int>)
    ensures Drained([key] + queue) == Drained(queue) + [key]
    decreases |queue|
  {
    var s := [key] + queue;
    if queue == [] {
      assert Fetched(s) == (key, []);
    } else {
      var last := queue[|queue| - 1];
      var rest := queue[..|queue| - 1];
      assert s[|s| - 1] == last;
      assert s[..|s| - 1] == [key] + rest;
      assert Fetched(s) == (last, [key] + rest);
      assert Fetched(queue) == (last, rest);
      calc {
        Drained(s);
        [last] + Drained([key] + rest);
        { DrainedPushFront(key, rest); }
        [last] + (Drained(rest) + [key]);
        ([last] + Drained(rest)) + [key];
        Drained(queue) + [key];
      }
    }
  }

  /** FIFO: while the queue does not overflow, keys are fetched in the order they arrived,
      after the keys already pending; key 0 never reaches the queue. */
  lemma {:induction false} FetchOrderIsArrivalOrder(queue: seq<int>, keys: seq<int>)
    requires forall i :: 0 <= i < |keys| ==> keys[i] != 0
    requires |queue| + |keys| <= MaxElementsInQueue - 1
    ensures Drained(PushedAll(queue, keys)) == Drained(queue) + keys
    decreases |keys|
  {
    if keys != [] {
      var key := keys[0];
      var later := keys[1..];
      calc {
        Drained(PushedAll(queue, keys));
        { assert Pushed(queue, key) == [key] + queue; }
        Drained(PushedAll([key] + queue, later));
        { assert forall i :: 0 <= i < |later| ==> later[i] == keys[i + 1];
          FetchOrderIsArrivalOrder([key] + queue, later); }
        Drained([key] + queue) + later;
        { DrainedPushFront(key, queue); }
        (Drained(queue) + [key]) + later;
        Drained(queue) + ([key] + later);
        { assert keys == [key] + later; }
        Drained(queue) + keys;
      }
    }
  }

  /** On overflow the oldest pending key is lost and the new key is kept as the newest. */
  lemma OverflowDropsOldest(queue: seq<int>, key: int)
    requires key != 0 && |queue| >= MaxElementsInQueue - 1
    ensures Drained(Pushed(queue, key)) == Drained(queue)[1..] + [key]
  {
    var rest := queue[..|queue| - 1];
    assert Pushed(queue, key) == [key] + rest;
    DrainedPushFront(key, rest);
    assert Fetched(queue) == (queue[|queue| - 1], rest);
    assert Drained(queue) == [queue[|queue| - 1]] + Drained(rest);
  }

  /** The input queue object: the deque that the key callback and `fetch` update in place. */
  class InputQueue {
    var queue: seq<int>

    ghost predicate Valid()
      reads this
    {
      |queue| <= MaxElementsInQueue - 1
    }

    /** The callback registration with the window is not modelled; the deque starts empty. */
    constructor ()
      ensures Valid() && queue == []
    {
      queue := [];
    }

    /** key_callback: the scancode, action and modifiers are not inspected, so every
        non-zero key event is queued. */
    method KeyCallback(key: int, scancode: int, action: int, mods: int)
      modifies this
      ensures queue == Pushed(old(queue), key)
      ensures old(Valid()) ==> Valid()
    {
      if key == 0 {
        return;
      }
      if |queue| >= MaxElementsInQueue - 1 {
        queue := queue[..|queue| - 1];
      }
      queue := [key] + queue;
    }

    method Fetch() returns (key: int)
      modifies this
      ensures (key, queue) == Fetched(old(queue))
      ensures old(Valid()) ==> Valid()
    {
      if queue == [] {
        return KeyUnknown;
      } else {
        var back := queue[|queue| - 1];
        queue := queue[..|queue| - 1];
        return back;
      }
    }
  }
}

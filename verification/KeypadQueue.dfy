/** The keypad driver's key queues (KeypadTextIn.c, Keypad.c): rings of 256 slots against
    bounded sequences, and what pressing, waiting and notifying do to them. */
module KeypadQueue {
  import opened Basics
  import opened TextInput

  const MAX_COUNT: nat := 256

  /** What a ring keeps of a sequence: its last 255 entries. */
  function Latest(q: seq<KeyData>): (l: seq<KeyData>) {
    if |q| < MAX_COUNT then q else q[|q| - (MAX_COUNT - 1)..]
  }

  /** Nothing is dropped while there is room, and then the oldest. */
  lemma {:induction false} LatestIs(q: seq<KeyData>)
    ensures |q| <= 255 ==> Latest(q) == q
    ensures |q| > 255 ==> |Latest(q)| == 255 && exists old_ :: q == old_ + Latest(q)
  {
    if |q| > 255 { assert q == q[..|q| - 255] + Latest(q); }
  }

  /** Pushing `keys` one after the other. */
  function PushAll(q: seq<KeyData>, keys: seq<KeyData>): (l: seq<KeyData>) {
    if |keys| == 0 then q else Latest(PushAll(q, keys[..|keys| - 1]) + [keys[|keys| - 1]])
  }

  lemma {:induction false} LatestOfLatest(q: seq<KeyData>, key: KeyData)
    ensures Latest(Latest(q) + [key]) == Latest(q + [key])
  {
    if |q| >= MAX_COUNT {
      var cut := |q| - (MAX_COUNT - 1);
      assert Latest(q) + [key] == (q + [key])[cut..];
      assert (q + [key])[cut..][1..] == (q + [key])[cut + 1..];
    }
  }

  /** MAIN: however many keys arrive, the ring holds the last 255 of everything queued. */
  lemma {:induction false} PushAllKeepsLatest(q: seq<KeyData>, keys: seq<KeyData>)
    requires |q| < MAX_COUNT
    ensures PushAll(q, keys) == Latest(q + keys)
  {
    if |keys| == 0 {
      assert q + keys == q;
    } else {
      var front := keys[..|keys| - 1];
      PushAllKeepsLatest(q, front);
      LatestOfLatest(q + front, keys[|keys| - 1]);
      assert q + keys == (q + front) + [keys[|keys| - 1]];
    }
  }

  lemma {:induction false} PushAllAppend(q: seq<KeyData>, keys: seq<KeyData>, more: seq<KeyData>)
    ensures PushAll(PushAll(q, keys), more) == PushAll(q, keys + more)
  {
    if |more| == 0 {
      assert keys + more == keys;
    } else {
      PushAllAppend(q, keys, more[..|more| - 1]);
      assert (keys + more)[..|keys + more| - 1] == keys + more[..|more| - 1];
    }
  }

  /** The slots from `head` up to `tail`, around the end of the buffer. */
  function Slots(b: seq<KeyData>, head: nat, tail: nat): (q: seq<KeyData>)
    requires |b| == MAX_COUNT && head < MAX_COUNT && tail < MAX_COUNT
    ensures |q| < MAX_COUNT
  {
    if head <= tail then b[head..tail] else b[head..] + b[..tail]
  }

  function NextSlot(i: nat): (j: nat)
    requires i < MAX_COUNT
    ensures j < MAX_COUNT
  {
    (i + 1) % MAX_COUNT
  }

  lemma {:induction false} SlotsPop(b: seq<KeyData>, head: nat, tail: nat)
    requires |b| == MAX_COUNT && head < MAX_COUNT && tail < MAX_COUNT && head != tail
    ensures Slots(b, head, tail) == [b[head]] + Slots(b, NextSlot(head), tail)
  {
    if head == MAX_COUNT - 1 {
      assert NextSlot(head) == 0;
    } else {
      assert NextSlot(head) == head + 1;
    }
  }

  lemma {:induction false} SlotsPush(b: seq<KeyData>, head: nat, tail: nat, key: KeyData)
    requires |b| == MAX_COUNT && head < MAX_COUNT && tail < MAX_COUNT && NextSlot(tail) != head
    ensures Slots(b[tail := key], head, NextSlot(tail)) == Slots(b, head, tail) + [key]
  {
    if tail == MAX_COUNT - 1 {
      assert NextSlot(tail) == 0;
    } else {
      assert NextSlot(tail) == tail + 1;
    }
  }

  lemma {:induction false} SlotsFull(b: seq<KeyData>, head: nat, tail: nat)
    requires |b| == MAX_COUNT && head < MAX_COUNT && tail < MAX_COUNT
    ensures |Slots(b, head, tail)| == MAX_COUNT - 1 <==> NextSlot(tail) == head
    ensures Slots(b, head, tail) == [] <==> head == tail
  {
    if tail == MAX_COUNT - 1 {
      assert NextSlot(tail) == 0;
    } else {
      assert NextSlot(tail) == tail + 1;
    }
  }

  /** Making room in a full ring and adding a key keeps the last 255. */
  lemma {:induction false} MakeRoom(was: seq<KeyData>, kept: seq<KeyData>, key: KeyData)
    requires |was| < MAX_COUNT
    requires kept == if |was| == MAX_COUNT - 1 then was[1..] else was
    ensures Latest(was + [key]) == kept + [key]
  {
    if |was| == MAX_COUNT - 1 {
      assert (was + [key])[1..] == was[1..] + [key];
    }
  }

  class KeyQueue {
    const buffer: array<KeyData>
    var head: nat
    var tail: nat

    ghost predicate Valid()
      reads this
    {
      buffer.Length == MAX_COUNT && head < MAX_COUNT && tail < MAX_COUNT
    }

    /** The queued keys, oldest first. */
    ghost function Contents(): (q: seq<KeyData>)
      requires Valid()
      reads this, buffer
      ensures |q| < MAX_COUNT
    {
      Slots(buffer[..], head, tail)
    }

    constructor ()
      ensures Valid() && fresh(buffer) && Contents() == []
    {
      buffer := new KeyData[MAX_COUNT](_ => KeyData(NO_KEY, NO_STATE));
      head, tail := 0, 0;
    }

    predicate IsEmpty()
      requires Valid()
      reads this, buffer
      ensures IsEmpty() <==> Contents() == []
    {
      SlotsFull(buffer[..], head, tail);
      head == tail
    }

    /** Removes the oldest key. */
    method Pop() returns (key: Option<KeyData>)
      requires Valid()
      modifies this`head
      ensures Valid()
      ensures key == (if old(Contents()) == [] then None else Some(old(Contents()[0])))
      ensures Contents() == if old(Contents()) == [] then [] else old(Contents()[1..])
    {
      hide Slots, NextSlot;
      SlotsFull(buffer[..], head, tail);
      if head == tail {
        return None;
      }
      SlotsPop(buffer[..], head, tail);
      key := Some(buffer[head]);
      head := NextSlot(head);
    }

    /** Adds a key; a full ring loses its oldest one first. */
    method Push(key: KeyData)
      requires Valid()
      modifies this, buffer
      ensures Valid() && Contents() == Latest(old(Contents()) + [key])
    {
      hide Slots, NextSlot, Latest;
      SlotsFull(buffer[..], head, tail);
      ghost var was := Contents();
      if NextSlot(tail) == head {
        var _ := Pop();
      }
      MakeRoom(was, Contents(), key);
      SlotsFull(buffer[..], head, tail);
      SlotsPush(buffer[..], head, tail, key);
      ghost var b := buffer[..];
      buffer[tail] := key;
      assert buffer[..] == b[tail := key];
      tail := NextSlot(tail);
    }

    /** The oldest key, left in the queue. */
    method Peek() returns (key: KeyData)
      requires Valid() && Contents() != []
      ensures key == Contents()[0]
    {
      SlotsFull(buffer[..], head, tail);
      SlotsPop(buffer[..], head, tail);
      key := buffer[head];
    }
  }

  /** A caller's wish to be called back for a key. */
  datatype Registration = Registration(keyData: KeyData, notify: nat)

  /** One call of a notification function. */
  datatype Call = Call(notify: nat, key: KeyData)

  /** The calls one queued key leads to, in registration order. */
  function CallsFor(list: seq<Registration>, key: KeyData): (calls: seq<Call>)
    ensures |calls| <= |list|
  {
    if |list| == 0 then []
    else
      CallsFor(list[..|list| - 1], key)
      + (if IsKeyRegistered(list[|list| - 1].keyData, key) then [Call(list[|list| - 1].notify, key)] else [])
  }

  /** A function is called with a key if and only if it is registered for a key that this one
      matches; and one list after the other gives one row of calls after the other. */
  lemma {:induction false} CalledIff(list: seq<Registration>, key: KeyData, c: Call)
    ensures c in CallsFor(list, key) <==>
      c.key == key && exists i :: 0 <= i < |list| && list[i].notify == c.notify && IsKeyRegistered(list[i].keyData, key)
  {
    if |list| > 0 {
      var k := |list| - 1;
      CalledIff(list[..k], key, c);
      assert forall i :: 0 <= i < k ==> list[..k][i] == list[i];
    }
  }

  lemma {:induction false} CallsInOrder(a: seq<Registration>, b: seq<Registration>, key: KeyData)
    ensures CallsFor(a + b, key) == CallsFor(a, key) + CallsFor(b, key)
    decreases |b|
  {
    if |b| == 0 {
      assert a + b == a;
    } else {
      var k := |b| - 1;
      CallsInOrder(a, b[..k], key);
      assert (a + b)[..|a + b| - 1] == a + b[..k];
    }
  }

  /** The calls of a whole queue. */
  function CallsForAll(list: seq<Registration>, keys: seq<KeyData>): (calls: seq<Call>) {
    if |keys| == 0 then [] else CallsFor(list, keys[0]) + CallsForAll(list, keys[1..])
  }

  function Copies<T>(x: T, n: nat): (s: seq<T>)
    ensures |s| == n && forall i :: 0 <= i < n ==> s[i] == x
  {
    seq(n, _ => x)
  }

  /** How often `c` occurs. */
  function Times(c: Call, calls: seq<Call>): (n: nat) {
    multiset(calls)[c]
  }

  lemma {:induction false} CopiesMultiply(list: seq<Registration>, key: KeyData, n: nat, c: Call)
    ensures Times(c, CallsForAll(list, Copies(key, n))) == n * Times(c, CallsFor(list, key))
    ensures |CallsForAll(list, Copies(key, n))| == n * |CallsFor(list, key)|
    decreases n
  {
    if n > 0 {
      CopiesMultiply(list, key, n - 1, c);
      assert Copies(key, n)[1..] == Copies(key, n - 1);
      assert CallsForAll(list, Copies(key, n)) == CallsFor(list, key) + CallsForAll(list, Copies(key, n - 1));
      assert n * Times(c, CallsFor(list, key))
        == (n - 1) * Times(c, CallsFor(list, key)) + Times(c, CallsFor(list, key));
      assert n * |CallsFor(list, key)| == (n - 1) * |CallsFor(list, key)| + |CallsFor(list, key)|;
    }
  }

  /** MAIN: a pressed key is queued for notification once per matching registration, and the
      handler serves every queued copy to every matching registration. So a function
      registered once is called as often as there are matching registrations (at most 255
      times): every matching registration is served exactly once if and only if the
      pressed key matches at most one of them. */
  lemma {:induction false} NotifiedOnceIffSingleMatch(list: seq<Registration>, key: KeyData)
    ensures var m := |CallsFor(list, key)|;
            var calls := CallsForAll(list, PushAll([], Copies(key, m)));
            && (forall c :: Times(c, calls)
                            == (if m < MAX_COUNT then m else MAX_COUNT - 1) * Times(c, CallsFor(list, key)))
            && (EachOnce(calls, CallsFor(list, key)) <==> m <= 1)
  {
    var m := |CallsFor(list, key)|;
    QueuedCopies(key, m);
    var queued := if m < MAX_COUNT then m else MAX_COUNT - 1;
    var calls := CallsForAll(list, Copies(key, queued));
    hide PushAll, CallsForAll, Copies;
    forall c ensures Times(c, calls) == queued * Times(c, CallsFor(list, key)) {
      CopiesMultiply(list, key, queued, c);
    }
    if m > 1 {
      var c := CallsFor(list, key)[0];
      assert c in multiset(CallsFor(list, key));
      TwiceIsMore(queued, Times(c, CallsFor(list, key)));
      assert Times(c, calls) != Times(c, CallsFor(list, key));
    } else if m == 0 {
      assert CallsFor(list, key) == [];
    }
  }

  /** The same calls, each as often. */
  ghost predicate EachOnce(calls: seq<Call>, wanted: seq<Call>) {
    forall c :: Times(c, calls) == Times(c, wanted)
  }

  lemma {:induction false} QueuedCopies(key: KeyData, m: nat)
    ensures PushAll([], Copies(key, m)) == Copies(key, if m < MAX_COUNT then m else MAX_COUNT - 1)
  {
    PushAllKeepsLatest([], Copies(key, m));
    assert [] + Copies(key, m) == Copies(key, m);
  }

  /** Two functions registered for one key are called twice each. */
  lemma {:induction false} NotifiedTwiceExample()
    ensures var k := KeyData(Key(0, 97), NO_STATE);
            var list := [Registration(k, 1), Registration(k, 2)];
            && CallsFor(list, k) == [Call(1, k), Call(2, k)]
            && CallsForAll(list, PushAll([], Copies(k, 2))) == [Call(1, k), Call(2, k), Call(1, k), Call(2, k)]
  {
    var k := KeyData(Key(0, 97), NO_STATE);
    var list := [Registration(k, 1), Registration(k, 2)];
    assert list[..1] == [Registration(k, 1)] && list[..1][..0] == [];
    QueuedCopies(k, 2);
    assert Copies(k, 2) == [k, k] && [k, k][1..] == [k] && [k][1..] == [];
    assert CallsForAll(list, [k]) == CallsFor(list, k) + [];
  }

  lemma {:induction false} TwiceIsMore(n: nat, k: nat)
    requires n >= 2 && k >= 1
    ensures n * k > k
  {
    assert n * k == (n - 1) * k + k;
    assert (n - 1) * k >= 1 * k;
  }

  /** What the polled device hands over reaches the queue unless it is a partial key the
      driver was not asked to report. */
  function Reported(keys: seq<KeyData>, partialKeys: bool): (r: seq<KeyData>)
    ensures |r| <= |keys|
  {
    if |keys| == 0 then []
    else
      Reported(keys[..|keys| - 1], partialKeys)
      + (if IsPartial(keys[|keys| - 1]) && !partialKeys then [] else [keys[|keys| - 1]])
  }

  /** Which keys are reported: all of them on request, otherwise the full ones, in order. */
  lemma {:induction false} ReportedIs(keys: seq<KeyData>, partialKeys: bool)
    ensures Reported(keys, partialKeys) == if partialKeys then keys else Full(keys)
    decreases |keys|
  {
    if |keys| > 0 {
      var k := |keys| - 1;
      ReportedIs(keys[..k], partialKeys);
      assert keys == keys[..k] + [keys[k]];
      FullConcat(keys[..k], [keys[k]]);
    }
  }

  /** What the device's keys add to the notification queue. */
  function Notified(list: seq<Registration>, keys: seq<KeyData>, partialKeys: bool): (n: seq<KeyData>) {
    if |keys| == 0 then []
    else
      Notified(list, keys[..|keys| - 1], partialKeys)
      + Copies(keys[|keys| - 1], |CallsFor(list, keys[|keys| - 1])| * |Reported([keys[|keys| - 1]], partialKeys)|)
  }

  lemma {:induction false} NotifiedStep(was: seq<KeyData>, list: seq<Registration>, keys: seq<KeyData>,
                                        partialKeys: bool)
    requires |keys| > 0
    ensures var front, last := keys[..|keys| - 1], keys[|keys| - 1];
            PushAll(PushAll(was, Notified(list, front, partialKeys)), Notified(list, [last], partialKeys))
            == PushAll(was, Notified(list, keys, partialKeys))
  {
    var front, last := keys[..|keys| - 1], keys[|keys| - 1];
    assert [last][..0] == [];
    assert Notified(list, [last], partialKeys)
      == Copies(last, |CallsFor(list, last)| * |Reported([last], partialKeys)|);
    PushAllAppend(was, Notified(list, front, partialKeys), Notified(list, [last], partialKeys));
  }

  lemma {:induction false} OneKey(list: seq<Registration>, key: KeyData, partialKeys: bool)
    ensures Reported([key], partialKeys) == if IsPartial(key) && !partialKeys then [] else [key]
    ensures Notified(list, [key], partialKeys)
      == Copies(key, if IsPartial(key) && !partialKeys then 0 else |CallsFor(list, key)|)
  {
    assert [key][..0] == [];
  }

  lemma {:induction false} PushOne(q: seq<KeyData>, key: KeyData)
    ensures PushAll(q, []) == q && PushAll(q, [key]) == Latest(q + [key])
  {
    assert [key][..0] == [];
  }

  lemma {:induction false} PushCopy(q: seq<KeyData>, key: KeyData, n: nat)
    ensures PushAll(q, Copies(key, n + 1)) == Latest(PushAll(q, Copies(key, n)) + [key])
  {
    assert Copies(key, n + 1)[..n] == Copies(key, n);
  }

  lemma {:induction false} ReportedStep(was: seq<KeyData>, keys: seq<KeyData>, partialKeys: bool)
    requires |keys| > 0
    ensures var front, last := keys[..|keys| - 1], keys[|keys| - 1];
            PushAll(PushAll(was, Reported(front, partialKeys)), Reported([last], partialKeys))
              == PushAll(was, Reported(keys, partialKeys))
  {
    var front, last := keys[..|keys| - 1], keys[|keys| - 1];
    assert [last][..0] == [];
    PushAllAppend(was, Reported(front, partialKeys), Reported([last], partialKeys));
  }

  /** What both queues hold once `keys` have been taken. */
  ghost predicate Polled(was: seq<KeyData>, wasNotify: seq<KeyData>, list: seq<Registration>, keys: seq<KeyData>,
                         partialKeys: bool, q: seq<KeyData>, n: seq<KeyData>)
  {
    && q == PushAll(was, Reported(keys, partialKeys))
    && n == PushAll(wasNotify, Notified(list, keys, partialKeys))
  }

  lemma {:induction false} PolledStep(was: seq<KeyData>, wasNotify: seq<KeyData>, list: seq<Registration>,
                                      keys: seq<KeyData>, i: nat, partialKeys: bool,
                                      q: seq<KeyData>, n: seq<KeyData>)
    requires i < |keys| && Polled(was, wasNotify, list, keys[..i], partialKeys, q, n)
    ensures Polled(was, wasNotify, list, keys[..i + 1], partialKeys,
                  PushAll(q, Reported([keys[i]], partialKeys)), PushAll(n, Notified(list, [keys[i]], partialKeys)))
  {
    assert keys[..i + 1][..i] == keys[..i];
    ReportedStep(was, keys[..i + 1], partialKeys);
    NotifiedStep(wasNotify, list, keys[..i + 1], partialKeys);
  }

  lemma {:induction false} PolledStartEnd(was: seq<KeyData>, wasNotify: seq<KeyData>, list: seq<Registration>,
                                          keys: seq<KeyData>, partialKeys: bool)
    requires |was| < MAX_COUNT && |wasNotify| < MAX_COUNT
    ensures Polled(was, wasNotify, list, keys[..0], partialKeys, was, wasNotify)
    ensures forall q, n | Polled(was, wasNotify, list, keys[..|keys|], partialKeys, q, n) ::
              q == Latest(was + Reported(keys, partialKeys))
                && n == Latest(wasNotify + Notified(list, keys, partialKeys))
  {
    PushAllKeepsLatest(was, Reported(keys, partialKeys));
    PushAllKeepsLatest(wasNotify, Notified(list, keys, partialKeys));
    assert keys[..|keys|] == keys;
  }

  /** The keys the notification handler serves from queue `q`, when the device hands over
      `arrivals[i]` before it takes its `i`-th key. */
  function Served(q: seq<KeyData>, list: seq<Registration>, arrivals: seq<seq<KeyData>>,
                  partialKeys: bool): (served: seq<KeyData>)
    decreases |arrivals|, |q|
  {
    if |arrivals| > 0 then
      var now := Latest(q + Notified(list, arrivals[0], partialKeys));
      if now == [] then [] else [now[0]] + Served(now[1..], list, arrivals[1..], partialKeys)
    else if q == [] then []
    else [q[0]] + Served(q[1..], list, [], partialKeys)
  }

  /** When nothing arrives meanwhile, exactly the queue is served, in order. */
  lemma {:induction false} ServedAlone(q: seq<KeyData>, list: seq<Registration>, partialKeys: bool)
    ensures Served(q, list, [], partialKeys) == q
    decreases |q|
  {
    if q != [] { ServedAlone(q[1..], list, partialKeys); }
  }

  /** What all arrivals together add to the notification queue. */
  function AllNotified(list: seq<Registration>, arrivals: seq<seq<KeyData>>, partialKeys: bool): seq<KeyData> {
    if |arrivals| == 0 then []
    else Notified(list, arrivals[0], partialKeys) + AllNotified(list, arrivals[1..], partialKeys)
  }

  /** There is a key to take after every arrival. */
  ghost predicate NeverEmpty(q: seq<KeyData>, list: seq<Registration>, arrivals: seq<seq<KeyData>>, partialKeys: bool)
    decreases |arrivals|
  {
    |arrivals| > 0 ==>
      var now := q + Notified(list, arrivals[0], partialKeys);
      now != [] && NeverEmpty(now[1..], list, arrivals[1..], partialKeys)
  }

  /** MAIN: while the ring has room and does not run empty before the last arrival, the handler
      serves what was queued and then everything that arrives, in order, each once. */
  lemma {:induction false} ServedInOrder(q: seq<KeyData>, list: seq<Registration>, arrivals: seq<seq<KeyData>>,
                                         partialKeys: bool)
    requires NeverEmpty(q, list, arrivals, partialKeys)
    requires |q| + |AllNotified(list, arrivals, partialKeys)| < MAX_COUNT
    ensures Served(q, list, arrivals, partialKeys) == q + AllNotified(list, arrivals, partialKeys)
    decreases |arrivals|
  {
    hide Notified, Latest;
    if |arrivals| == 0 {
      ServedAlone(q, list, partialKeys);
    } else {
      var n, more := Notified(list, arrivals[0], partialKeys), AllNotified(list, arrivals[1..], partialKeys);
      ServedInOrder((q + n)[1..], list, arrivals[1..], partialKeys);
      LatestIs(q + n);
      FirstThenRest(q, n, more);
    }
  }

  lemma {:induction false} FirstThenRest(q: seq<KeyData>, n: seq<KeyData>, more: seq<KeyData>)
    requires q + n != []
    ensures [(q + n)[0]] + ((q + n)[1..] + more) == q + (n + more)
  {
    assert [(q + n)[0]] + (q + n)[1..] == q + n;
  }

  lemma {:induction false} ServedStep(was: seq<KeyData>, list: seq<Registration>, rest: seq<seq<KeyData>>,
                                      partialKeys: bool, now: seq<KeyData>)
    requires now == if |rest| > 0 then Latest(was + Notified(list, rest[0], partialKeys)) else was
    ensures now == [] ==> CallsForAll(list, Served(was, list, rest, partialKeys)) == []
    ensures now != [] ==>
      CallsForAll(list, Served(was, list, rest, partialKeys))
      == CallsFor(list, now[0])
        + CallsForAll(list, Served(now[1..], list, if |rest| > 0 then rest[1..] else [], partialKeys))
  {
    if now != [] {
      var more := Served(now[1..], list, if |rest| > 0 then rest[1..] else [], partialKeys);
      assert Served(was, list, rest, partialKeys) == [now[0]] + more;
      assert ([now[0]] + more)[1..] == more;
    }
  }

  datatype ReadStatus = DeviceError | NoKey | Success(key: KeyData)

  class KeypadConsole {
    const queue: KeyQueue
    const notifyQueue: KeyQueue
    var notifyList: seq<Registration>
    var keypadErr: bool
    var partialKeys: bool

    ghost predicate Valid()
      reads this, queue, notifyQueue
    {
      && queue.Valid() && notifyQueue.Valid()
      && queue != notifyQueue && queue.buffer != notifyQueue.buffer
    }

    constructor ()
      ensures Valid() && queue.Contents() == [] && notifyQueue.Contents() == [] && notifyList == []
    {
      queue := new KeyQueue();
      notifyQueue := new KeyQueue();
      notifyList, keypadErr, partialKeys := [], false, false;
    }

    /** Queues a key for notification, once per matching registration. */
    method QueueNotifies(key: KeyData)
      requires Valid()
      modifies notifyQueue, notifyQueue.buffer
      ensures Valid()
      ensures notifyQueue.Contents() == PushAll(old(notifyQueue.Contents()), Copies(key, |CallsFor(notifyList, key)|))
    {
      hide KeyQueue.Contents, PushAll, Latest;
      ghost var was, n: nat := notifyQueue.Contents(), 0;
      PushOne(was, key);
      for i := 0 to |notifyList|
        invariant Valid() && n == |CallsFor(notifyList[..i], key)|
        invariant notifyQueue.Contents() == PushAll(was, Copies(key, n))
      {
        assert notifyList[..i + 1][..i] == notifyList[..i];
        if IsKeyRegistered(notifyList[i].keyData, key) {
          PushCopy(was, key, n);
          notifyQueue.Push(key);
          n := n + 1;
        }
      }
      assert notifyList[..|notifyList|] == notifyList;
    }

    /** Takes one key from the device. */
    method KeyPressed(key: KeyData)
      requires Valid()
      modifies queue, queue.buffer, notifyQueue, notifyQueue.buffer
      ensures Valid()
      ensures queue.Contents() == PushAll(old(queue.Contents()), Reported([key], partialKeys))
      ensures notifyQueue.Contents() == PushAll(old(notifyQueue.Contents()), Notified(notifyList, [key], partialKeys))
    {
      hide PushAll, Latest, Reported, Notified;
      OneKey(notifyList, key, partialKeys);
      PushOne(queue.Contents(), key);
      PushOne(notifyQueue.Contents(), key);
      if key.key == NO_KEY {
        if !partialKeys {
          return;
        }
      }
      QueueNotifies(key);
      queue.Push(key);
    }

    /** Polls the device, which has `keys` to hand over. */
    method TimerHandler(keys: seq<KeyData>)
      requires Valid()
      modifies queue, queue.buffer, notifyQueue, notifyQueue.buffer
      ensures Valid()
      ensures queue.Contents() == if keypadErr then old(queue.Contents())
        else Latest(old(queue.Contents()) + Reported(keys, partialKeys))
      ensures notifyQueue.Contents()
              == if keypadErr then old(notifyQueue.Contents())
                 else Latest(old(notifyQueue.Contents()) + Notified(notifyList, keys, partialKeys))
    {
      if keypadErr {
        return;
      }
      ghost var was, wasNotify := queue.Contents(), notifyQueue.Contents();
      hide PushAll, Latest, Reported, Notified, Polled, KeyQueue.Contents;
      PolledStartEnd(was, wasNotify, notifyList, keys, partialKeys);
      for i := 0 to |keys|
        invariant Valid()
        invariant Polled(was, wasNotify, notifyList, keys[..i], partialKeys, queue.Contents(), notifyQueue.Contents())
      {
        PolledStep(was, wasNotify, notifyList, keys, i, partialKeys, queue.Contents(), notifyQueue.Contents());
        KeyPressed(keys[i]);
      }
    }

    /** Drops the partial keys in front; tells whether a full key is left. */
    method SkipPartials() returns (full: bool)
      requires Valid()
      modifies queue
      ensures Valid()
      ensures var pending := old(queue.Contents());
              queue.Contents() == pending[LeadingPartial(pending)..] && (full <==> LeadingPartial(pending) < |pending|)
    {
      hide KeyQueue.Contents;
      full := false;
      ghost var pending, dropped: nat := queue.Contents(), 0;
      while !queue.IsEmpty()
        invariant Valid() && !full && dropped <= |pending| && queue.Contents() == pending[dropped..]
        invariant LeadingPartial(pending) == dropped + LeadingPartial(pending[dropped..])
        decreases |pending| - dropped
      {
        var key := queue.Peek();
        if key.key == NO_KEY {
          assert pending[dropped..][1..] == pending[dropped + 1..];
          var _ := queue.Pop();
          dropped := dropped + 1;
          continue;
        }
        full := true;
        break;
      }
    }

    /** The notification function of the WaitForKey event. */
    method WaitForKey(keys: seq<KeyData>) returns (signalled: bool)
      requires Valid()
      modifies queue, queue.buffer, notifyQueue, notifyQueue.buffer
      ensures Valid()
      ensures var pending := Latest(old(queue.Contents()) + Reported(keys, partialKeys));
              if keypadErr then !signalled && queue.Contents() == old(queue.Contents())
              else queue.Contents() == pending[LeadingPartial(pending)..]
                   && (signalled <==> exists k :: k in pending && !IsPartial(k))
      ensures notifyQueue.Contents()
              == if keypadErr then old(notifyQueue.Contents())
                 else Latest(old(notifyQueue.Contents()) + Notified(notifyList, keys, partialKeys))
    {
      hide KeyQueue.Contents, Latest, Reported, Notified;
      TimerHandler(keys);
      if keypadErr {
        return false;
      }
      ghost var pending := queue.Contents();
      signalled := SkipPartials();
      if signalled {
        assert pending[LeadingPartial(pending)] in pending;
      }
    }

    /** Reads the next key, partial or not. */
    method ReadKeyStrokeWorker(keys: seq<KeyData>) returns (status: ReadStatus)
      requires Valid()
      modifies queue, queue.buffer, notifyQueue, notifyQueue.buffer
      ensures Valid()
      ensures var pending := Latest(old(queue.Contents()) + Reported(keys, partialKeys));
              if keypadErr then status == DeviceError && queue.Contents() == old(queue.Contents())
              else if pending == [] then status == NoKey && queue.Contents() == []
              else status == Success(pending[0]) && queue.Contents() == pending[1..]
      ensures notifyQueue.Contents()
              == if keypadErr then old(notifyQueue.Contents())
                 else Latest(old(notifyQueue.Contents()) + Notified(notifyList, keys, partialKeys))
    {
      TimerHandler(keys);
      if keypadErr {
        return DeviceError;
      }
      var key := queue.Pop();
      return match key case None => NoKey case Some(k) => Success(k);
    }

    /** Calls the functions registered for one key. */
    method Notify(key: KeyData) returns (calls: seq<Call>)
      ensures calls == CallsFor(notifyList, key)
    {
      calls := [];
      for i := 0 to |notifyList|
        invariant calls == CallsFor(notifyList[..i], key)
      {
        assert notifyList[..i + 1][..i] == notifyList[..i];
        if IsKeyRegistered(notifyList[i].keyData, key) {
          calls := calls + [Call(notifyList[i].notify, key)];
        }
      }
      assert notifyList[..|notifyList|] == notifyList;
    }

    /** Calls the registered functions for every key queued. `arrivals` is what the device
        hands over before the first, second, ... key is taken. */
    method ProcessNotifies(arrivals: seq<seq<KeyData>>) returns (calls: seq<Call>)
      requires Valid()
      modifies queue, queue.buffer, notifyQueue, notifyQueue.buffer
      ensures Valid() && notifyQueue.Contents() == []
      ensures calls == CallsForAll(notifyList,
                                   Served(old(notifyQueue.Contents()), notifyList, if keypadErr then []
                                          else arrivals, partialKeys))
    {
      hide KeyQueue.Contents, Latest, Notified, CallsFor, CallsForAll, Reported, Served;
      calls := [];
      var rest := if keypadErr then [] else arrivals;
      ghost var all := Served(notifyQueue.Contents(), notifyList, rest, partialKeys);
      while true
        invariant Valid() && (keypadErr ==> rest == [])
        invariant CallsForAll(notifyList, all)
                  == calls + CallsForAll(notifyList, Served(notifyQueue.Contents(), notifyList, rest, partialKeys))
        decreases |rest|, |notifyQueue.Contents()|
      {
        var more, left, served := ServeOne(rest);
        if !served {
          break;
        }
        rest := left;
        calls := calls + more;
      }
    }

    /** Polls the device, takes the next key and calls the functions registered for it. */
    method ServeOne(rest: seq<seq<KeyData>>) returns (more: seq<Call>, left: seq<seq<KeyData>>, served: bool)
      requires Valid() && (keypadErr ==> rest == [])
      modifies queue, queue.buffer, notifyQueue, notifyQueue.buffer
      ensures Valid() && left == if |rest| > 0 then rest[1..] else []
      ensures CallsForAll(notifyList, Served(old(notifyQueue.Contents()), notifyList, rest, partialKeys))
              == if served then
                   more + CallsForAll(notifyList, Served(notifyQueue.Contents(), notifyList, left, partialKeys))
                 else []
      ensures !served ==> notifyQueue.Contents() == []
      ensures served && rest == [] ==> |notifyQueue.Contents()| < |old(notifyQueue.Contents())|
    {
      hide KeyQueue.Contents, Latest, Notified, CallsFor, CallsForAll, Reported, Served;
      ghost var was := notifyQueue.Contents();
      left := [];
      if |rest| > 0 {
        TimerHandler(rest[0]);
        left := rest[1..];
      }
      ghost var now := notifyQueue.Contents();
      var key := notifyQueue.Pop();
      ServedStep(was, notifyList, rest, partialKeys, now);
      if key == None {
        return [], left, false;
      }
      more := Notify(key.value);
      served := true;
    }
  }
}

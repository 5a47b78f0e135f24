/** Keystrokes, and what the splitter promises about them as values: matching registered
    keys, and how one poll of all consoles turns into a batch of queued keys (section 12.2
    of the UEFI Specification 2.8). */
module TextInput {

  import opened Basics

  datatype Key = Key(scanCode: nat, unicodeChar: nat)
  datatype KeyState = KeyState(shift: bv32, toggle: bv8)
  datatype KeyData = KeyData(key: Key, state: KeyState)

  const SHIFT_STATE_VALID: bv32 := 0x8000_0000
  const TOGGLE_STATE_VALID: bv8 := 0x80
  const NO_KEY := Key(0, 0)
  const NO_STATE := KeyState(0, 0)

  /** A key with neither scan code nor character only carries a state change. */
  predicate IsPartial(k: KeyData) {
    k.key == NO_KEY
  }

  /** A pressed key matches a registered one; zero states in the registration match any. */
  predicate IsKeyRegistered(registered: KeyData, input: KeyData) {
    && registered.key == input.key
    && (registered.state.shift != 0 ==> registered.state.shift == input.state.shift)
    && (registered.state.toggle != 0 ==> registered.state.toggle == input.state.toggle)
  }

  /** Which keys match: those of the same key, whatever their states when the registration
      gives none, and otherwise those with exactly the states it gives. */
  lemma {:induction false} WhichKeysMatch(registered: KeyData, input: KeyData)
    ensures var shift, toggle := registered.state.shift, registered.state.toggle;
      && (shift == 0 && toggle == 0 ==> (IsKeyRegistered(registered, input) <==> input.key == registered.key))
      && (shift != 0 && toggle == 0 ==>
            (IsKeyRegistered(registered, input) <==> input.key == registered.key && input.state.shift == shift))
      && (shift == 0 && toggle != 0 ==>
            (IsKeyRegistered(registered, input) <==> input.key == registered.key && input.state.toggle == toggle))
      && (shift != 0 && toggle != 0 ==> (IsKeyRegistered(registered, input) <==> input == registered))
  {
  }

  /** One physical console's answer to a poll. */
  datatype Poll = Pressed(data: KeyData) | NotReady(data: KeyData) | Failed

  /** The states of all consoles that answered, joined. */
  function JoinedState(polls: seq<Poll>): KeyState {
    if |polls| == 0 then NO_STATE
    else
      var s := JoinedState(polls[..|polls| - 1]);
      match polls[|polls| - 1]
      case Failed => s
      case Pressed(d) => Join(s, d.state)
      case NotReady(d) => Join(s, d.state)
  }

  predicate Bit32(w: bv32, bit: bv32) {
    w & bit != 0
  }

  predicate Bit8(w: bv8, bit: bv8) {
    w & bit != 0
  }

  function Or32(a: bv32, b: bv32): bv32 {
    a | b
  }

  function Or8(a: bv8, b: bv8): bv8 {
    a | b
  }

  function Join(s: KeyState, t: KeyState): KeyState {
    KeyState(if Bit32(t.shift, SHIFT_STATE_VALID) then Or32(s.shift, t.shift) else s.shift,
             if Bit8(t.toggle, TOGGLE_STATE_VALID) then Or8(s.toggle, t.toggle) else s.toggle)
  }

  /** A console's answer brings a shift bit: it came with valid shift keys, and the bit is set. */
  predicate BringsShift(poll: Poll, bit: bv32) {
    !poll.Failed? && Bit32(poll.data.state.shift, SHIFT_STATE_VALID) && Bit32(poll.data.state.shift, bit)
  }

  predicate BringsToggle(poll: Poll, bit: bv8) {
    !poll.Failed? && Bit8(poll.data.state.toggle, TOGGLE_STATE_VALID) && Bit8(poll.data.state.toggle, bit)
  }

  predicate HasShift(s: KeyState, bit: bv32) {
    Bit32(s.shift, bit)
  }

  predicate HasToggle(s: KeyState, bit: bv8) {
    Bit8(s.toggle, bit)
  }

  lemma {:induction false} OrBits32(a: bv32, b: bv32, bit: bv32)
    ensures Bit32(Or32(a, b), bit) <==> Bit32(a, bit) || Bit32(b, bit)
  {
    assert (a | b) & bit == (a & bit) | (b & bit);
  }

  lemma {:induction false} OrBits8(a: bv8, b: bv8, bit: bv8)
    ensures Bit8(Or8(a, b), bit) <==> Bit8(a, bit) || Bit8(b, bit)
  {
    assert (a | b) & bit == (a & bit) | (b & bit);
  }

  lemma {:induction false} JoinShift(s: KeyState, poll: Poll, bit: bv32)
    requires !poll.Failed?
    ensures HasShift(Join(s, poll.data.state), bit) <==> HasShift(s, bit) || BringsShift(poll, bit)
  {
    hide Bit32, Or32, Bit8, Or8;
    OrBits32(s.shift, poll.data.state.shift, bit);
  }

  lemma {:induction false} JoinToggle(s: KeyState, poll: Poll, bit: bv8)
    requires !poll.Failed?
    ensures HasToggle(Join(s, poll.data.state), bit) <==> HasToggle(s, bit) || BringsToggle(poll, bit)
  {
    hide Bit32, Or32, Bit8, Or8;
    OrBits8(s.toggle, poll.data.state.toggle, bit);
  }

  lemma {:induction false} NoBits(shift: bv32, toggle: bv8)
    ensures !HasShift(NO_STATE, shift) && !HasToggle(NO_STATE, toggle)
    ensures forall poll: Poll :: poll.Failed? ==> !BringsShift(poll, shift) && !BringsToggle(poll, toggle)
  {
  }

  /** MAIN: a bit is set in the joined state if and only if some console's answer brings it. */
  lemma {:induction false} JoinedBits(polls: seq<Poll>, shift: bv32, toggle: bv8)
    ensures HasShift(JoinedState(polls), shift) <==>
      exists i :: 0 <= i < |polls| && BringsShift(polls[i], shift)
    ensures HasToggle(JoinedState(polls), toggle) <==>
      exists i :: 0 <= i < |polls| && BringsToggle(polls[i], toggle)
  {
    hide Join, HasShift, HasToggle, BringsShift, BringsToggle;
    NoBits(shift, toggle);
    if |polls| > 0 {
      var k := |polls| - 1;
      JoinedBits(polls[..k], shift, toggle);
      assert forall i :: 0 <= i < k ==> polls[..k][i] == polls[i];
      if !polls[k].Failed? {
        JoinShift(JoinedState(polls[..k]), polls[k], shift);
        JoinToggle(JoinedState(polls[..k]), polls[k], toggle);
      }
    }
  }

  /** The keys that were pressed, in console order; partial ones only on request. */
  function PressedKeys(polls: seq<Poll>, exported: bool): (keys: seq<KeyData>)
    ensures |keys| <= |polls|
  {
    if |polls| == 0 then []
    else
      PressedKeys(polls[..|polls| - 1], exported)
      + (match polls[|polls| - 1]
         case Pressed(d) => if exported || !IsPartial(d) then [d] else []
         case _ => [])
  }

  /** All keys of a batch carry the one joined state. */
  function WithState(keys: seq<KeyData>, state: KeyState): (keys': seq<KeyData>)
    ensures |keys'| == |keys|
  {
    seq(|keys|, i requires 0 <= i < |keys| => keys[i].(state := state))
  }

  function Batch(polls: seq<Poll>, exported: bool): seq<KeyData> {
    WithState(PressedKeys(polls, exported), JoinedState(polls))
  }

  // ---------------------------------------------------------------------------
  // Runs
  // ---------------------------------------------------------------------------

  /** What can happen to the key queue between two resets. */
  datatype Event = ReadEx(polls: seq<Poll>, exported: bool) | ReadPlain

  /** The keys an event adds: an extended read polls the consoles when the queue is empty. */
  function Added(queue: seq<KeyData>, e: Event): seq<KeyData> {
    if e.ReadEx? && |queue| == 0 then Batch(e.polls, e.exported) else []
  }

  /** How many keys at the head are partial. */
  function LeadingPartial(queue: seq<KeyData>): (n: nat)
    ensures n <= |queue| && (n < |queue| ==> !IsPartial(queue[n]))
    ensures forall i :: 0 <= i < n ==> IsPartial(queue[i])
  {
    if |queue| > 0 && IsPartial(queue[0]) then 1 + LeadingPartial(queue[1..]) else 0
  }

  /** How many keys an event takes off the head: one, for a plain read also the partial
      ones before it. */
  function Taken(queue: seq<KeyData>, e: Event): (n: nat)
    ensures n <= |queue + Added(queue, e)|
  {
    var q := queue + Added(queue, e);
    match e
    case ReadEx(_, _) => if |q| > 0 then 1 else 0
    case ReadPlain => if LeadingPartial(q) < |q| then LeadingPartial(q) + 1 else |q|
  }

  function Next(queue: seq<KeyData>, e: Event): seq<KeyData> {
    (queue + Added(queue, e))[Taken(queue, e)..]
  }

  function Run(queue: seq<KeyData>, events: seq<Event>): seq<KeyData>
    decreases events
  {
    if |events| == 0 then queue else Run(Next(queue, events[0]), events[1..])
  }

  function AllAdded(queue: seq<KeyData>, events: seq<Event>): seq<KeyData>
    decreases events
  {
    if |events| == 0 then []
    else Added(queue, events[0]) + AllAdded(Next(queue, events[0]), events[1..])
  }

  function AllTaken(queue: seq<KeyData>, events: seq<Event>): seq<KeyData>
    decreases events
  {
    if |events| == 0 then []
    else
      (queue + Added(queue, events[0]))[..Taken(queue, events[0])]
      + AllTaken(Next(queue, events[0]), events[1..])
  }

  /** The queued key a read gives its caller, if any: an extended read the oldest one, a plain
      read the oldest full one. */
  function Returned(queue: seq<KeyData>, e: Event): (keys: seq<KeyData>)
    ensures |keys| <= 1
  {
    var q := queue + Added(queue, e);
    match e
    case ReadEx(_, _) => if |q| > 0 then [q[0]] else []
    case ReadPlain => if LeadingPartial(q) < |q| then [q[LeadingPartial(q)]] else []
  }

  function FirstOf(keys: seq<KeyData>): Option<KeyData> {
    if |keys| > 0 then Some(keys[0]) else None
  }

  function AllReturned(queue: seq<KeyData>, events: seq<Event>): seq<KeyData>
    decreases events
  {
    if |events| == 0 then []
    else Returned(queue, events[0]) + AllReturned(Next(queue, events[0]), events[1..])
  }

  /** The keys that are not partial, in order. */
  function Full(keys: seq<KeyData>): seq<KeyData> {
    if |keys| == 0 then []
    else (if IsPartial(keys[0]) then [] else [keys[0]]) + Full(keys[1..])
  }

  /** MAIN: over every run without a reset, the full keys handed to callers and the full keys
      still queued are the full keys queued before and added since, in order: none is lost,
      doubled or overtaken. Without plain reads that holds of the partial keys too. */
  lemma {:induction false} NoKeyLost(queue: seq<KeyData>, events: seq<Event>)
    ensures Full(AllReturned(queue, events)) + Full(Run(queue, events)) == Full(queue + AllAdded(queue, events))
    ensures (forall e :: e in events ==> e.ReadEx?) ==>
      AllReturned(queue, events) + Run(queue, events) == queue + AllAdded(queue, events)
  {
    KeysLeaveInOrder(queue, events);
    ReturnedAreTaken(queue, events);
    FullConcat(AllTaken(queue, events), Run(queue, events));
  }

  /** The full keys taken off the queue are those handed out. */
  lemma {:induction false} ReturnedAreTaken(queue: seq<KeyData>, events: seq<Event>)
    ensures Full(AllReturned(queue, events)) == Full(AllTaken(queue, events))
    ensures (forall e :: e in events ==> e.ReadEx?) ==> AllReturned(queue, events) == AllTaken(queue, events)
    decreases events
  {
    if |events| > 0 {
      var e := events[0];
      var next, taken := Next(queue, e), (queue + Added(queue, e))[..Taken(queue, e)];
      ReturnedIsTaken(queue, e);
      ReturnedAreTaken(next, events[1..]);
      FullConcat(Returned(queue, e), AllReturned(next, events[1..]));
      FullConcat(taken, AllTaken(next, events[1..]));
    }
  }

  lemma {:induction false} ReturnedIsTaken(queue: seq<KeyData>, e: Event)
    ensures Full(Returned(queue, e)) == Full((queue + Added(queue, e))[..Taken(queue, e)])
    ensures e.ReadEx? ==> Returned(queue, e) == (queue + Added(queue, e))[..Taken(queue, e)]
  {
    var q := queue + Added(queue, e);
    if e.ReadPlain? {
      var n := LeadingPartial(q);
      PartialsOnly(q[..n]);
      if n < |q| {
        assert q[..n + 1] == q[..n] + [q[n]];
        FullConcat(q[..n], [q[n]]);
      }
    }
  }

  lemma {:induction false} FullConcat(a: seq<KeyData>, b: seq<KeyData>)
    ensures Full(a + b) == Full(a) + Full(b)
  {
    if |a| == 0 {
      assert a + b == b;
    } else {
      assert (a + b)[1..] == a[1..] + b;
      FullConcat(a[1..], b);
    }
  }

  lemma {:induction false} PartialsOnly(keys: seq<KeyData>)
    requires forall i :: 0 <= i < |keys| ==> IsPartial(keys[i])
    ensures Full(keys) == []
  {
    if |keys| > 0 { PartialsOnly(keys[1..]); }
  }

  /** The keys taken off and the keys still queued are the keys queued before and the keys
      added, in order. */
  lemma {:induction false} KeysLeaveInOrder(queue: seq<KeyData>, events: seq<Event>)
    ensures AllTaken(queue, events) + Run(queue, events) == queue + AllAdded(queue, events)
    decreases events
  {
    if |events| == 0 {
      assert AllTaken(queue, events) + Run(queue, events) == queue;
      assert queue + AllAdded(queue, events) == queue;
    } else {
      var e := events[0];
      var q, n := queue + Added(queue, e), Taken(queue, e);
      KeysLeaveInOrder(q[n..], events[1..]);
      Regroup(queue, Added(queue, e), n, AllTaken(q[n..], events[1..]), Run(q[n..], events[1..]),
              AllAdded(q[n..], events[1..]));
    }
  }

  lemma {:induction false} Regroup(queue: seq<KeyData>, added: seq<KeyData>, n: nat, taken: seq<KeyData>,
                                   left: seq<KeyData>, more: seq<KeyData>)
    requires n <= |queue + added| && taken + left == (queue + added)[n..] + more
    ensures (queue + added)[..n] + taken + left == queue + (added + more)
  {
    var q := queue + added;
    assert q[..n] + taken + left == q[..n] + (taken + left);
    assert q[..n] + (q[n..] + more) == q + more;
    assert queue + (added + more) == q + more;
  }

  /** The queue stays as short as one poll can make it. */
  lemma {:induction false} QueueStaysShort(queue: seq<KeyData>, events: seq<Event>, limit: nat)
    requires |queue| <= limit
    requires forall i :: 0 <= i < |events| && events[i].ReadEx? ==> |events[i].polls| <= limit
    ensures |Run(queue, events)| <= limit
    decreases events
  {
    if |events| > 0 { QueueStaysShort(Next(queue, events[0]), events[1..], limit); }
  }

  /** Every key of a batch was pressed on some console and carries the joined state. */
  lemma {:induction false} BatchKeys(polls: seq<Poll>, exported: bool, k: KeyData)
    ensures k in Batch(polls, exported) <==>
      k.state == JoinedState(polls)
      && exists i :: 0 <= i < |polls| && polls[i].Pressed? && polls[i].data.key == k.key
                     && (exported || !IsPartial(polls[i].data))
  {
    var keys, state := PressedKeys(polls, exported), JoinedState(polls);
    if k in Batch(polls, exported) {
      var i :| 0 <= i < |keys| && keys[i].(state := state) == k;
      PressedKeysMeaning(polls, exported, keys[i]);
    }
    if i :| 0 <= i < |polls| && polls[i].Pressed? && polls[i].data.key == k.key
            && (exported || !IsPartial(polls[i].data)) {
      PressedKeysMeaning(polls, exported, polls[i].data);
      var j :| 0 <= j < |keys| && keys[j] == polls[i].data;
      if k.state == state { assert Batch(polls, exported)[j] == k; }
    }
  }

  lemma {:induction false} PressedKeysMeaning(polls: seq<Poll>, exported: bool, d: KeyData)
    ensures d in PressedKeys(polls, exported) <==> Pressed(d) in polls && (exported || !IsPartial(d))
  {
    if |polls| > 0 {
      var k := |polls| - 1;
      PressedKeysMeaning(polls[..k], exported, d);
      assert polls == polls[..k] + [polls[k]];
    }
  }

  // ---------------------------------------------------------------------------
  // One key per console
  // ---------------------------------------------------------------------------

  /** The answer is a key that counts: a full one, or a partial one if those are wanted. */
  predicate Counts(poll: Poll, exported: bool) {
    poll.Pressed? && (exported || poll.data.key.scanCode != 0 || poll.data.key.unicodeChar != 0)
  }

  /** The keys are those of the consoles `at`, one each: exactly the consoles whose answer
      counts, in console order, every key with the joined state. */
  ghost predicate FromPolls(keys: seq<KeyData>, polls: seq<Poll>, exported: bool, at: seq<nat>) {
    && |at| == |keys|
    && (forall j, k :: 0 <= j < k < |at| ==> at[j] < at[k])
    && (forall j :: 0 <= j < |at| ==> at[j] < |polls|)
    && (forall i: nat :: i < |polls| ==> (i in at <==> Counts(polls[i], exported)))
    && (forall j :: 0 <= j < |at| && at[j] < |polls| && polls[at[j]].Pressed? ==>
          keys[j] == KeyData(polls[at[j]].data.key, JoinedState(polls)))
  }

  /** A read that finds the queue empty hands out the first of these keys and queues the others. */
  ghost predicate ReadFrom(key: Option<KeyData>, left: seq<KeyData>, polls: seq<Poll>, exported: bool, at: seq<nat>) {
    FromPolls((if key.Some? then [key.value] else []) + left, polls, exported, at)
  }

  /** MAIN: a batch has one key for each console whose answer counts, in console order. */
  lemma {:induction false} BatchFromPolls(polls: seq<Poll>, exported: bool) returns (at: seq<nat>)
    ensures FromPolls(Batch(polls, exported), polls, exported, at)
    ensures |at| == 0 <==> forall i :: 0 <= i < |polls| ==> !Counts(polls[i], exported)
  {
    at := PressedFrom(polls, exported);
    if i :| 0 <= i < |polls| && Counts(polls[i], exported) { assert (i as nat) in at; }
    if |at| > 0 { assert at[0] in at; }
  }

  lemma {:induction false} PressedFrom(polls: seq<Poll>, exported: bool) returns (at: seq<nat>)
    ensures Pressing(polls, exported, PressedKeys(polls, exported), at)
  {
    hide Counts, Pressing;
    if |polls| == 0 {
      at := [];
      PressingNone(exported);
    } else {
      var k: nat := |polls| - 1;
      var front := PressedFrom(polls[..k], exported);
      at := front + if Counts(polls[k], exported) then [k] else [];
      PressingNext(polls, exported, PressedKeys(polls[..k], exported), front);
    }
  }

  ghost predicate Pressing(polls: seq<Poll>, exported: bool, keys: seq<KeyData>, at: seq<nat>) {
    && |at| == |keys|
    && (forall j, k :: 0 <= j < k < |at| ==> at[j] < at[k])
    && (forall j :: 0 <= j < |at| ==>
          at[j] < |polls| && Counts(polls[at[j]], exported) && keys[j] == polls[at[j]].data)
    && (forall i: nat :: i < |polls| && Counts(polls[i], exported) ==> i in at)
  }

  lemma {:induction false} PressingNone(exported: bool)
    ensures PressedKeys([], exported) == [] && Pressing([], exported, [], [])
  {
  }

  lemma {:induction false} PressingNext(polls: seq<Poll>, exported: bool, keys: seq<KeyData>, front: seq<nat>)
    requires |polls| > 0 && keys == PressedKeys(polls[..|polls| - 1], exported)
    requires Pressing(polls[..|polls| - 1], exported, keys, front)
    ensures Pressing(polls, exported, PressedKeys(polls, exported),
                     front + if Counts(polls[|polls| - 1], exported) then [(|polls| - 1) as nat] else [])
  {
    var k: nat := |polls| - 1;
    LastPressed(polls, exported);
    hide Counts, PressedKeys;
    if Counts(polls[k], exported) {
      PressingOne(polls, exported, keys, front);
    } else {
      assert front + [] == front && keys + [] == keys;
      PressingMore(polls, exported, keys, front);
    }
  }

  lemma {:induction false} LastPressed(polls: seq<Poll>, exported: bool)
    requires |polls| > 0
    ensures var last := polls[|polls| - 1];
      PressedKeys(polls, exported)
      == PressedKeys(polls[..|polls| - 1], exported) + if Counts(last, exported) then [last.data] else []
    ensures Counts(polls[|polls| - 1], exported) ==> polls[|polls| - 1].Pressed?
  {
  }

  lemma {:induction false} PressingMore(polls: seq<Poll>, exported: bool, keys: seq<KeyData>, front: seq<nat>)
    requires |polls| > 0 && !Counts(polls[|polls| - 1], exported)
    requires Pressing(polls[..|polls| - 1], exported, keys, front)
    ensures Pressing(polls, exported, keys, front)
  {
    hide Counts;
    forall i: nat | i < |polls| && Counts(polls[i], exported)
      ensures i in front
    {
      assert polls[..|polls| - 1][i] == polls[i];
    }
  }

  lemma {:induction false} PressingOne(polls: seq<Poll>, exported: bool, keys: seq<KeyData>, front: seq<nat>)
    requires |polls| > 0 && Counts(polls[|polls| - 1], exported) && polls[|polls| - 1].Pressed?
    requires Pressing(polls[..|polls| - 1], exported, keys, front)
    ensures Pressing(polls, exported, keys + [polls[|polls| - 1].data], front + [(|polls| - 1) as nat])
  {
    hide Counts;
    var k: nat := |polls| - 1;
    var at := front + [k];
    assert at[|front|] == k;
    forall i: nat | i < |polls| && Counts(polls[i], exported)
      ensures i in at
    {
      if i < k {
        assert polls[..k][i] == polls[i];
        assert i in front;
      }
    }
  }

  // ---------------------------------------------------------------------------
  // Asking the plain consoles
  // ---------------------------------------------------------------------------

  function OrElse(a: Option<Key>, b: Option<Key>): Option<Key> {
    if a.Some? then a else b
  }

  /** The first full key of one console's answers. */
  function FullIn(keys: seq<Key>): (key: Option<Key>)
    ensures key.Some? ==> key.value in keys && key.value != NO_KEY
    ensures key == None ==> forall k :: k in keys ==> k == NO_KEY
  {
    if |keys| == 0 then None
    else if keys[0] != NO_KEY then Some(keys[0])
    else
      assert forall k :: k in keys ==> k == keys[0] || k in keys[1..];
      FullIn(keys[1..])
  }

  /** The first full key of all consoles, asked one after the other. */
  function FirstFull(answers: seq<seq<Key>>): (key: Option<Key>)
    ensures key.Some? ==> key.value != NO_KEY && exists i :: 0 <= i < |answers| && key.value in answers[i]
    ensures key == None ==> forall i :: 0 <= i < |answers| ==> forall k :: k in answers[i] ==> k == NO_KEY
  {
    if |answers| == 0 then None
    else
      var rest := FirstFull(answers[1..]);
      OrElse(FullIn(answers[0]), rest)
  }

  /** The answer at `j` of console `i` is the first full key: no console before it had one, nor
      this one before. */
  ghost predicate IsFirstFull(answers: seq<seq<Key>>, i: nat, j: nat) {
    && i < |answers| && j < |answers[i]| && answers[i][j] != NO_KEY
    && (forall b :: 0 <= b < j ==> answers[i][b] == NO_KEY)
    && (forall a, b :: 0 <= a < i && 0 <= b < |answers[a]| ==> answers[a][b] == NO_KEY)
  }

  lemma {:induction false} FullInIsFirst(keys: seq<Key>) returns (j: nat)
    ensures match FullIn(keys)
      case None => forall b :: 0 <= b < |keys| ==> keys[b] == NO_KEY
      case Some(k) => j < |keys| && keys[j] == k != NO_KEY && forall b :: 0 <= b < j ==> keys[b] == NO_KEY
  {
    j := 0;
    if |keys| > 0 && keys[0] == NO_KEY {
      var rest := FullInIsFirst(keys[1..]);
      j := rest + 1;
      assert forall b :: 1 <= b < |keys| ==> keys[b] == keys[1..][b - 1];
    }
  }

  /** MAIN: asking the consoles one after the other gives the first full key there is. */
  lemma {:induction false} FirstFullIsFirst(answers: seq<seq<Key>>) returns (i: nat, j: nat)
    ensures match FirstFull(answers)
      case None => forall a, b :: 0 <= a < |answers| && 0 <= b < |answers[a]| ==> answers[a][b] == NO_KEY
      case Some(k) => IsFirstFull(answers, i, j) && answers[i][j] == k
  {
    i, j := 0, 0;
    if |answers| > 0 {
      j := FullInIsFirst(answers[0]);
      if FullIn(answers[0]) == None {
        var i', j' := FirstFullIsFirst(answers[1..]);
        assert forall a :: 1 <= a < |answers| ==> answers[a] == answers[1..][a - 1];
        i, j := i' + 1, j';
      }
    }
  }
}

/** The input side of the console splitter (ConSplitter.c): key notifications fanned out to
    all physical consoles, and the shared key queue. */
module ConSplitterTextIn {
  import opened Basics
  import opened TextInput

  const ALLOC_UNIT: nat := 32

  datatype Status = Success | OutOfResources | InvalidParameter | NotFound | DeviceError

  /** A notification registered on a physical console. */
  datatype Registration = Registration(keyData: KeyData, fn: nat)

  /** What a console gives back for a registration: no two consoles give the same. */
  datatype Handle = Handle(owner: nat, number: nat)

  const NO_HANDLE := Handle(0, 0)

  type Registrations = map<Handle, Registration>

  function Plus(regs: Registrations, handle: Handle, r: Registration): Registrations {
    regs[handle := r]
  }

  /** A physical console, as far as notifications go: it may refuse a registration, which
      `refusals` counts, and gives every one it accepts a handle of its own. */
  class TextInEx {
    const serial: nat                     // which console this is
    var registrations: Registrations
    var nextHandle: nat
    ghost var refusals: nat

    ghost predicate Valid()
      reads this
    {
      forall h :: h in registrations ==> h.owner == serial && h.number < nextHandle
    }

    constructor (serial: nat)
      ensures Valid() && this.serial == serial && registrations == map[]
    {
      this.serial, registrations, nextHandle := serial, map[], 0;
    }

    method RegisterKeyNotify(keyData: KeyData, fn: nat) returns (status: Status, handle: Handle)
      requires Valid()
      modifies this
      ensures Valid()
      ensures status == Success ==>
        handle !in old(registrations) && registrations == Plus(old(registrations), handle, Registration(keyData, fn))
      ensures status != Success ==> status == DeviceError && registrations == old(registrations)
      ensures refusals == old(refusals) + if status == Success then 0 else 1
    {
      var accepted: bool := *;
      if !accepted {
        refusals := refusals + 1;
        return DeviceError, NO_HANDLE;
      }
      handle := Handle(serial, nextHandle);
      registrations := registrations[handle := Registration(keyData, fn)];
      nextHandle := nextHandle + 1;
      return Success, handle;
    }

    method UnregisterKeyNotify(handle: Handle)
      requires Valid()
      modifies this
      ensures Valid() && registrations == old(registrations) - {handle} && refusals == old(refusals)
    {
      registrations := registrations - {handle};
    }
  }

  /** A notification of the splitter: what is registered, and the handle each console gave
      for it. The handle list is as long as its allocation. */
  datatype Notify = Notify(id: nat, keyData: KeyData, fn: nat, handles: seq<Handle>)

  /** The registration sets when the first `n` consoles have been given one more. */
  ghost function WithRegistration(regs: seq<Registrations>, handles: seq<Handle>, r: Registration,
                                  n: nat): (regs': seq<Registrations>)
    requires n <= |regs| && n <= |handles|
    ensures |regs'| == |regs|
  {
    seq(|regs|, c requires 0 <= c < |regs| => if c < n then Plus(regs[c], handles[c], r) else regs[c])
  }

  ghost predicate FreshHandles(regs: seq<Registrations>, handles: seq<Handle>, n: nat) {
    n <= |regs| && n <= |handles| && forall c :: 0 <= c < n ==> handles[c] !in regs[c]
  }

  /** The registration sets when the first `n` consoles have lost one. */
  ghost function WithoutRegistration(regs: seq<Registrations>, handles: seq<Handle>,
                                     n: nat): (regs': seq<Registrations>)
    requires n <= |regs| && n <= |handles|
    ensures |regs'| == |regs|
  {
    seq(|regs|, c requires 0 <= c < |regs| => if c < n then regs[c] - {handles[c]} else regs[c])
  }

  /** Every listed notification has a registration of its own on every console, under the
      handle stored at that console's index. */
  ghost predicate Synced(notifies: seq<Notify>, regs: seq<Registrations>) {
    && (forall k, c :: 0 <= k < |notifies| && 0 <= c < |regs| ==>
          Registered(notifies[k], regs[c], c))
    && (forall k, m, c :: 0 <= k < m < |notifies| && 0 <= c < |regs| ==>
          HandleAt(notifies[k], c) != HandleAt(notifies[m], c))
  }

  ghost predicate Registered(n: Notify, regs: Registrations, c: nat) {
    && c < |n.handles| && n.handles[c] in regs
    && regs[n.handles[c]] == Registration(n.keyData, n.fn)
  }

  ghost function HandleAt(n: Notify, c: nat): Option<Handle> {
    if c < |n.handles| then Some(n.handles[c]) else None
  }

  ghost function RegistrationsOf(list: seq<TextInEx>): (regs: seq<Registrations>)
    reads list
    ensures |regs| == |list|
    ensures forall c :: 0 <= c < |list| ==> regs[c] == list[c].registrations
  {
    if |list| == 0 then [] else RegistrationsOf(list[..|list| - 1]) + [list[|list| - 1].registrations]
  }

  ghost function RefusalsOf(list: seq<TextInEx>): (refusals: seq<nat>)
    reads list
    ensures |refusals| == |list|
    ensures forall c :: 0 <= c < |list| ==> refusals[c] == list[c].refusals
  {
    if |list| == 0 then [] else RefusalsOf(list[..|list| - 1]) + [list[|list| - 1].refusals]
  }

  /** The list without its entry `i`. */
  function Without<T>(list: seq<T>, i: nat): seq<T>
    requires i < |list|
  {
    list[..i] + list[i + 1..]
  }

  /** A list of consoles: each one in order, and none listed twice. */
  ghost predicate Attached(list: seq<TextInEx>)
    reads list
  {
    && (forall c :: 0 <= c < |list| ==> list[c].Valid())
    && (forall c, d :: 0 <= c < d < |list| ==> list[c].serial != list[d].serial)
  }

  /** Notification `k` is gone from the list, and its registrations from every console. */
  ghost predicate Removed(a: seq<Notify>, b: seq<Notify>, regs: seq<Registrations>, regs': seq<Registrations>, k: nat,
                          id: nat)
    requires k < |a|
  {
    && a[k].id == id && b == a[..k] + a[k + 1..]
    && |regs| <= |a[k].handles| && regs' == WithoutRegistration(regs, a[k].handles, |regs|)
  }

  /** The same notifications, with the handles of the first `n` consoles unchanged. */
  ghost predicate SameNotifies(a: seq<Notify>, b: seq<Notify>, n: nat) {
    && |a| == |b|
    && forall k :: 0 <= k < |a| ==> SameNotify(a[k], b[k], n)
  }

  ghost predicate SameNotify(a: Notify, b: Notify, n: nat) {
    && a.id == b.id && a.keyData == b.keyData && a.fn == b.fn
    && n <= |a.handles| && n <= |b.handles| && a.handles[..n] == b.handles[..n]
  }

  lemma {:induction false} SameRefl(a: seq<Notify>, n: nat)
    requires forall k :: 0 <= k < |a| ==> n <= |a[k].handles|
    ensures SameNotifies(a, a, n)
  {
  }

  lemma {:induction false} SameWeaken(a: seq<Notify>, b: seq<Notify>, n: nat, m: nat)
    requires SameNotifies(a, b, n) && m <= n
    ensures SameNotifies(a, b, m)
  {
    forall k | 0 <= k < |a|
      ensures SameNotify(a[k], b[k], m)
    {
      assert SameNotify(a[k], b[k], n);
      assert a[k].handles[..m] == a[k].handles[..n][..m] && b[k].handles[..m] == b[k].handles[..n][..m];
    }
  }

  lemma {:induction false} SameTrans(a: seq<Notify>, b: seq<Notify>, c: seq<Notify>, n: nat)
    requires SameNotifies(a, b, n) && SameNotifies(b, c, n)
    ensures SameNotifies(a, c, n)
  {
    forall k | 0 <= k < |a|
      ensures SameNotify(a[k], c[k], n)
    {
      assert SameNotify(a[k], b[k], n) && SameNotify(b[k], c[k], n);
    }
  }

  lemma {:induction false} SameUpdate(a: seq<Notify>, b: seq<Notify>, b': seq<Notify>, c: nat, j: nat, handle: Handle)
    requires SameNotifies(a, b, c) && j < |b| && c < |b[j].handles|
    requires b' == b[j := b[j].(handles := b[j].handles[c := handle])]
    ensures SameNotifies(a, b', c)
  {
    forall k | 0 <= k < |a|
      ensures SameNotify(a[k], b'[k], c)
    {
      assert SameNotify(a[k], b[k], c);
      if k == j { assert b'[j].handles[..c] == b[j].handles[..c]; }
    }
  }

  lemma {:induction false} SyncedSame(a: seq<Notify>, b: seq<Notify>, regs: seq<Registrations>)
    requires Synced(a, regs) && SameNotifies(a, b, |regs|)
    ensures Synced(b, regs)
  {
    forall k, c | 0 <= k < |b| && 0 <= c < |regs|
      ensures Registered(b[k], regs[c], c) && HandleAt(b[k], c) == HandleAt(a[k], c)
    {
      assert SameNotify(a[k], b[k], |regs|) && Registered(a[k], regs[c], c);
      assert a[k].handles[..|regs|][c] == b[k].handles[..|regs|][c];
    }
    forall k, m, c | 0 <= k < m < |b| && 0 <= c < |regs|
      ensures HandleAt(b[k], c) != HandleAt(b[m], c)
    {
      assert HandleAt(a[k], c) != HandleAt(a[m], c);
      assert HandleAt(b[k], c) == HandleAt(a[k], c) && HandleAt(b[m], c) == HandleAt(a[m], c);
    }
  }

  /** A console's registrations when it has been given the first `j` notifications. */
  ghost function Gained(regs: Registrations, notifies: seq<Notify>, c: nat, j: nat): Registrations
    requires j <= |notifies| && forall k :: 0 <= k < j ==> c < |notifies[k].handles|
  {
    if j == 0 then regs
    else Plus(Gained(regs, notifies, c, j - 1), notifies[j - 1].handles[c],
              Registration(notifies[j - 1].keyData, notifies[j - 1].fn))
  }

  /** Each handle was new when it was given. */
  ghost predicate GainsFresh(regs: Registrations, notifies: seq<Notify>, c: nat, j: nat) {
    && j <= |notifies| && (forall k :: 0 <= k < j ==> c < |notifies[k].handles|)
    && (j > 0 ==> GainsFresh(regs, notifies, c, j - 1)
                  && notifies[j - 1].handles[c] !in Gained(regs, notifies, c, j - 1))
  }

  lemma {:induction false} GainedStable(regs: Registrations, a: seq<Notify>, b: seq<Notify>, c: nat, j: nat)
    requires GainsFresh(regs, a, c, j) && j <= |b| && a[..j] == b[..j]
    ensures GainsFresh(regs, b, c, j) && Gained(regs, a, c, j) == Gained(regs, b, c, j)
  {
    assert forall k :: 0 <= k < j ==> a[..j][k] == b[..j][k];
    if j > 0 {
      assert a[..j - 1] == a[..j][..j - 1] && b[..j - 1] == b[..j][..j - 1];
      GainedStable(regs, a, b, c, j - 1);
    }
  }

  lemma {:induction false} GainedNone(regs: Registrations, notifies: seq<Notify>, c: nat)
    ensures GainsFresh(regs, notifies, c, 0) && Gained(regs, notifies, c, 0) == regs
  {
  }

  /** Storing the next handle. */
  lemma {:induction false} GainedNext(regs: Registrations, a: seq<Notify>, b: seq<Notify>, c: nat, j: nat,
                                      handle: Handle)
    requires GainsFresh(regs, a, c, j) && j < |a| && c < |a[j].handles| && handle !in Gained(regs, a, c, j)
    requires b == a[j := a[j].(handles := a[j].handles[c := handle])]
    ensures GainsFresh(regs, b, c, j + 1)
    ensures Gained(regs, b, c, j + 1) == Plus(Gained(regs, a, c, j), handle, Registration(a[j].keyData, a[j].fn))
  {
    GainedStable(regs, a, b, c, j);
  }

  lemma {:induction false} GainedHas(regs: Registrations, notifies: seq<Notify>, c: nat, j: nat, k: nat)
    requires GainsFresh(regs, notifies, c, j) && k < j
    ensures c < |notifies[k].handles| && notifies[k].handles[c] in Gained(regs, notifies, c, j)
    ensures Gained(regs, notifies, c, j)[notifies[k].handles[c]] == Registration(notifies[k].keyData, notifies[k].fn)
    ensures k < j - 1 ==> notifies[k].handles[c] != notifies[j - 1].handles[c]
  {
    if k < j - 1 { GainedHas(regs, notifies, c, j - 1, k); }
  }

  lemma {:induction false} GainedDistinct(regs: Registrations, notifies: seq<Notify>, c: nat, j: nat, k: nat, m: nat)
    requires GainsFresh(regs, notifies, c, j) && k < m < j
    ensures HandleAt(notifies[k], c) != HandleAt(notifies[m], c)
  {
    if m == j - 1 { GainedHas(regs, notifies, c, j, k); } else { GainedDistinct(regs, notifies, c, j - 1, k, m); }
  }

  lemma {:induction false} SyncedWithDevice(notifies: seq<Notify>, regs: seq<Registrations>, added: Registrations)
    requires Synced(notifies, regs) && GainsFresh(added, notifies, |regs|, |notifies|)
    ensures Synced(notifies, regs + [Gained(added, notifies, |regs|, |notifies|)])
  {
    var n := |notifies|;
    var all := regs + [Gained(added, notifies, |regs|, n)];
    forall k, c | 0 <= k < n && 0 <= c < |all|
      ensures Registered(notifies[k], all[c], c)
    {
      if c < |regs| { assert Registered(notifies[k], regs[c], c); } else { GainedHas(added, notifies, c, n, k); }
    }
    forall k, m, c | 0 <= k < m < n && 0 <= c < |all|
      ensures HandleAt(notifies[k], c) != HandleAt(notifies[m], c)
    {
      if c == |regs| { GainedDistinct(added, notifies, c, n, k, m); }
    }
  }

  lemma {:induction false} SyncedWithout(notifies: seq<Notify>, regs: seq<Registrations>, k: nat)
    requires Synced(notifies, regs) && k < |notifies| && |regs| <= |notifies[k].handles|
    ensures Synced(notifies[..k] + notifies[k + 1..], WithoutRegistration(regs, notifies[k].handles, |regs|))
  {
    var rest, regs' := notifies[..k] + notifies[k + 1..], WithoutRegistration(regs, notifies[k].handles, |regs|);
    forall j, c | 0 <= j < |rest| && 0 <= c < |regs'|
      ensures Registered(rest[j], regs'[c], c)
    {
      var i := if j < k then j else j + 1;
      assert rest[j] == notifies[i] && Registered(notifies[i], regs[c], c);
      assert HandleAt(notifies[i], c) != HandleAt(notifies[k], c);
    }
    forall j, m, c | 0 <= j < m < |rest| && 0 <= c < |regs'|
      ensures HandleAt(rest[j], c) != HandleAt(rest[m], c)
    {
      var i, l := if j < k then j else j + 1, if m < k then m else m + 1;
      assert HandleAt(notifies[i], c) != HandleAt(notifies[l], c);
    }
  }

  lemma {:induction false} PlusMinus(regs: Registrations, handle: Handle, r: Registration)
    requires handle !in regs
    ensures Plus(regs, handle, r) - {handle} == regs
  {
  }

  lemma {:induction false} SyncedWithNew(notifies: seq<Notify>, regs: seq<Registrations>, n: Notify)
    requires Synced(notifies, regs) && FreshHandles(regs, n.handles, |regs|)
    ensures Synced(notifies + [n], WithRegistration(regs, n.handles, Registration(n.keyData, n.fn), |regs|))
  {
  }

  /** No handle is live on another console than the one that gave it. */
  ghost predicate HandlesApart(notifies: seq<Notify>, regs: seq<Registrations>) {
    forall k, c, d :: 0 <= k < |notifies| && 0 <= c < |regs| && 0 <= d < |regs| && c != d
                      && c < |notifies[k].handles| ==>
      notifies[k].handles[c] !in regs[d]
  }

  lemma {:induction false} SyncedAfterDelete(notifies: seq<Notify>, regs: seq<Registrations>, i: nat)
    requires Synced(notifies, regs) && HandlesApart(notifies, regs) && i < |regs|
    ensures Synced(notifies, Without(regs, i)) <==> |notifies| == 0 || i == |regs| - 1
  {
    var rest := Without(regs, i);
    if |notifies| > 0 && i < |regs| - 1 {
      assert Registered(notifies[0], regs[i], i);
      assert rest[i] == regs[i + 1];
      assert !Registered(notifies[0], rest[i], i);
    } else if i == |regs| - 1 {
      forall k, c | 0 <= k < |notifies| && 0 <= c < |rest|
        ensures Registered(notifies[k], rest[c], c)
      {
        assert Registered(notifies[k], regs[c], c);
      }
    }
  }

  lemma {:induction false} WithoutConsole(list: seq<TextInEx>, i: nat)
    requires Attached(list) && i < |list|
    ensures Attached(Without(list, i))
    ensures RegistrationsOf(Without(list, i)) == Without(RegistrationsOf(list), i)
  {
    var rest := Without(list, i);
    forall c, d | 0 <= c < d < |rest|
      ensures rest[c].serial != rest[d].serial
    {
      assert rest[c] == list[if c < i then c else c + 1] && rest[d] == list[if d < i then d else d + 1];
    }
    assert RegistrationsOf(rest) == Without(RegistrationsOf(list), i);
  }

  /** MAIN: taking a console off the list leaves the handle lists as they are, so the listed
      notifications stay registered under the handles stored for the remaining consoles if
      and only if none is listed or the console was the last one. */
  lemma {:induction false} DeleteKeepsSyncedIff(list: seq<TextInEx>, notifies: seq<Notify>, i: nat)
    requires Attached(list) && i < |list|
    requires Synced(notifies, RegistrationsOf(list))
    ensures Synced(notifies, RegistrationsOf(Without(list, i))) <==> |notifies| == 0 || i == |list| - 1
  {
    var regs := RegistrationsOf(list);
    forall k, c, d | 0 <= k < |notifies| && 0 <= c < |regs| && 0 <= d < |regs| && c != d
                     && c < |notifies[k].handles|
      ensures notifies[k].handles[c] !in regs[d]
    {
      assert Registered(notifies[k], regs[c], c);
      assert list[c].Valid() && list[d].Valid();
    }
    SyncedAfterDelete(notifies, regs, i);
    WithoutConsole(list, i);
  }

  /** The virtual keyboard: the consoles behind it, the notifications registered through it and
      the key queue they share. */
  class TextInSplitter {
    var exList: seq<TextInEx>             // the consoles attached now
    var exListCount: nat                  // TextInExListCount
    var exListSize: nat                   // allocated entries of TextInExList
    var notifyList: seq<Notify>
    var nextId: nat
    var keyQueue: seq<KeyData>            // as long as its allocation
    var currentNumberOfKeys: nat
    var virtualKeyStateExported: bool
    ghost var failedAllocations: nat

    ghost function AllRegistrations(): (regs: seq<Registrations>)
      reads this, exList
      ensures |regs| == |exList|
    {
      RegistrationsOf(exList)
    }

    /** How many registrations each console has refused so far. */
    ghost function AllRefusals(): (refusals: seq<nat>)
      reads this, exList
      ensures |refusals| == |exList|
    {
      RefusalsOf(exList)
    }

    /** No buffer is ever smaller than its use, and the device count bounds them all. */
    ghost predicate Sized()
      reads this
    {
      && |exList| <= exListCount <= exListSize
      && currentNumberOfKeys <= exListCount <= |keyQueue|
      && (forall k :: 0 <= k < |notifyList| ==> exListCount <= |notifyList[k].handles|)
    }

    ghost predicate Valid()
      reads this, exList
    {
      && Sized()
      && Attached(exList)
      && (forall k :: 0 <= k < |notifyList| ==> notifyList[k].id < nextId)
      && (forall k, m :: 0 <= k < m < |notifyList| ==> notifyList[k].id != notifyList[m].id)
    }

    /** Every listed notification is registered on every attached console. */
    ghost predicate InSync()
      reads this, exList
    {
      Synced(notifyList, AllRegistrations())
    }

    ghost predicate IsNew(d: TextInEx)
      reads this
    {
      forall c :: 0 <= c < |exList| ==> exList[c].serial != d.serial
    }

    constructor ()
      ensures Valid() && InSync()
      ensures exList == [] && notifyList == [] && Queue() == []
    {
      exList, exListCount, exListSize := [], ALLOC_UNIT, ALLOC_UNIT;
      notifyList, nextId := [], 0;
      keyQueue := seq(ALLOC_UNIT, _ => KeyData(NO_KEY, NO_STATE));
      currentNumberOfKeys := 0;
      virtualKeyStateExported := false;
    }

    // -------------------------------------------------------------------------
    // Key notifications
    // -------------------------------------------------------------------------

    /** Asks one console; only its registrations change. */
    method RegisterAt(c: nat, keyData: KeyData, fn: nat) returns (status: Status, handle: Handle)
      requires Valid() && c < |exList|
      modifies exList[c]
      ensures Valid()
      ensures status == Success ==>
        && handle !in old(AllRegistrations())[c]
        && AllRegistrations()
          == old(AllRegistrations())[c := Plus(old(AllRegistrations())[c], handle, Registration(keyData, fn))]
      ensures status != Success ==> status == DeviceError && AllRegistrations() == old(AllRegistrations())
      ensures AllRefusals() == old(AllRefusals())[c := old(AllRefusals())[c] + if status == Success then 0 else 1]
    {
      status, handle := exList[c].RegisterKeyNotify(keyData, fn);
    }

    method UnregisterAt(c: nat, handle: Handle)
      requires Valid() && c < |exList|
      modifies exList[c]
      ensures Valid()
      ensures AllRegistrations() == old(AllRegistrations())[c := old(AllRegistrations())[c] - {handle}]
      ensures AllRefusals() == old(AllRefusals())
    {
      exList[c].UnregisterKeyNotify(handle);
    }

    /** Takes the registrations made so far back, the last one first. */
    method Rollback(handles: seq<Handle>, n: nat, ghost regs0: seq<Registrations>, ghost r: Registration)
      requires Valid() && n <= |exList| == |regs0| && FreshHandles(regs0, handles, n)
      requires AllRegistrations() == WithRegistration(regs0, handles, r, n)
      modifies exList
      ensures Valid() && AllRegistrations() == regs0 && AllRefusals() == old(AllRefusals())
    {
      var index: nat := n;
      while index != 0
        invariant index <= n && Valid() && AllRefusals() == old(AllRefusals())
        invariant AllRegistrations() == WithRegistration(regs0, handles, r, index)
      {
        index := index - 1;
        UnregisterAt(index, handles[index]);
        PlusMinus(regs0[index], handles[index], r);
      }
      assert AllRegistrations() == regs0;
    }

    /** Registers on every console, or on none. */
    method RegisterOnAll(keyData: KeyData, fn: nat) returns (status: Status, handles: seq<Handle>)
      requires Valid()
      modifies exList
      ensures Valid()
      ensures status == Success ==>
        && |handles| == exListCount && FreshHandles(old(AllRegistrations()), handles, |exList|)
        && AllRegistrations()
           == WithRegistration(old(AllRegistrations()), handles, Registration(keyData, fn), |exList|)
      ensures status != Success ==> status == DeviceError && AllRegistrations() == old(AllRegistrations())
      ensures status == Success <==> AllRefusals() == old(AllRefusals())
    {
      ghost var regs0, r := AllRegistrations(), Registration(keyData, fn);
      handles := seq(exListCount, _ => NO_HANDLE);
      var index := 0;
      while index < |exList|
        invariant index <= |exList| && |handles| == exListCount && Valid() && AllRefusals() == old(AllRefusals())
        invariant FreshHandles(regs0, handles, index)
        invariant AllRegistrations() == WithRegistration(regs0, handles, r, index)
      {
        var handle;
        status, handle := RegisterAt(index, keyData, fn);
        if status != Success {
          Rollback(handles, index, regs0, r);
          return status, handles;
        }
        handles := handles[index := handle];
        index := index + 1;
      }
      return Success, handles;
    }

    /** The first listed notification that already covers this key and function. */
    method FindNotify(keyData: KeyData, fn: nat) returns (found: Option<nat>)
      ensures found == None <==> forall k :: 0 <= k < |notifyList| ==> !Matches(notifyList[k], keyData, fn)
      ensures found.Some? ==>
        found.value < |notifyList| && Matches(notifyList[found.value], keyData, fn)
        && forall k :: 0 <= k < found.value ==> !Matches(notifyList[k], keyData, fn)
    {
      var link := 0;
      while link < |notifyList|
        invariant link <= |notifyList|
        invariant forall k :: 0 <= k < link ==> !Matches(notifyList[k], keyData, fn)
      {
        if IsKeyRegistered(notifyList[link].keyData, keyData) && notifyList[link].fn == fn {
          return Some(link);
        }
        link := link + 1;
      }
      return None;
    }

    ghost predicate IsListed(keyData: KeyData, fn: nat)
      reads this
    {
      exists k :: 0 <= k < |notifyList| && Matches(notifyList[k], keyData, fn)
    }

    /** Registers a notification on all consoles or on none. `memory` tells whether its
        record could be allocated. */
    method RegisterKeyNotify(keyData: KeyData, fn: nat, memory: bool) returns (status: Status, id: nat)
      requires Valid()
      modifies this`notifyList, this`nextId, exList
      ensures Valid() && (old(InSync()) ==> InSync())
      ensures status == if old(IsListed(keyData, fn)) then Success
                        else if !memory then OutOfResources
                        else if AllRefusals() == old(AllRefusals()) then Success
                        else DeviceError
      ensures status == Success ==>
        exists k :: 0 <= k < |notifyList| && notifyList[k].id == id && Matches(notifyList[k], keyData, fn)
      ensures status != Success || old(IsListed(keyData, fn)) ==>
        notifyList == old(notifyList) && AllRegistrations() == old(AllRegistrations())
      ensures status == Success && !old(IsListed(keyData, fn)) ==>
        && |notifyList| == |old(notifyList)| + 1 && notifyList[..|old(notifyList)|] == old(notifyList)
        && var n := notifyList[|old(notifyList)|];
          && n.id == id && n.keyData == keyData && n.fn == fn
          && FreshHandles(old(AllRegistrations()), n.handles, |exList|)
          && AllRegistrations()
             == WithRegistration(old(AllRegistrations()), n.handles, Registration(keyData, fn), |exList|)
    {
      hide InSync, WithRegistration, FreshHandles, RegistrationsOf;
      var found := FindNotify(keyData, fn);
      if found.Some? {
        return Success, notifyList[found.value].id;
      }
      if !memory {
        return OutOfResources, 0;
      }
      status, id := RegisterNew(keyData, fn);
      if status == Success {
        assert Matches(notifyList[|old(notifyList)|], keyData, fn);
      }
    }

    /** The part of RegisterKeyNotify for a notification not listed yet. */
    method RegisterNew(keyData: KeyData, fn: nat) returns (status: Status, id: nat)
      requires Valid()
      modifies this`notifyList, this`nextId, exList
      ensures Valid() && (old(InSync()) ==> InSync())
      ensures status == if AllRefusals() == old(AllRefusals()) then Success else DeviceError
      ensures status != Success ==> notifyList == old(notifyList) && AllRegistrations() == old(AllRegistrations())
      ensures status == Success ==>
        && |notifyList| == |old(notifyList)| + 1 && notifyList[..|old(notifyList)|] == old(notifyList)
        && var n := notifyList[|old(notifyList)|];
          && n.id == id && n.keyData == keyData && n.fn == fn
          && FreshHandles(old(AllRegistrations()), n.handles, |exList|)
          && AllRegistrations()
             == WithRegistration(old(AllRegistrations()), n.handles, Registration(keyData, fn), |exList|)
    {
      hide Synced, WithRegistration, FreshHandles, RegistrationsOf;
      ghost var notifies, regs := notifyList, AllRegistrations();
      var handles;
      status, handles := RegisterOnAll(keyData, fn);
      if status != Success {
        return status, 0;
      }
      var notify := Notify(nextId, keyData, fn, handles);
      if Synced(notifies, regs) { SyncedWithNew(notifies, regs, notify); }
      notifyList := notifyList + [notify];
      nextId := nextId + 1;
      return Success, notify.id;
    }

    static predicate Matches(n: Notify, keyData: KeyData, fn: nat) {
      IsKeyRegistered(n.keyData, keyData) && n.fn == fn
    }

    /** Takes a notification off all consoles and off the list. */
    method UnregisterKeyNotify(id: nat) returns (status: Status)
      requires Valid()
      modifies this`notifyList, exList
      ensures Valid() && (old(InSync()) ==> InSync())
      ensures status == if exists k :: 0 <= k < |old(notifyList)| && old(notifyList)[k].id == id then Success
        else InvalidParameter
      ensures status != Success ==> notifyList == old(notifyList) && AllRegistrations() == old(AllRegistrations())
      ensures status == Success ==>
        exists k :: 0 <= k < |old(notifyList)|
                    && Removed(old(notifyList), notifyList, old(AllRegistrations()), AllRegistrations(), k, id)
    {
      hide Synced, RegistrationsOf, WithoutRegistration;
      ghost var notifies, regs := notifyList, AllRegistrations();
      var link := 0;
      while link < |notifyList|
        invariant link <= |notifyList|
        invariant forall k :: 0 <= k < link ==> notifyList[k].id != id
      {
        if notifyList[link].id == id {
          RemoveFromAll(notifyList[link].handles);
          if Synced(notifies, regs) { SyncedWithout(notifies, regs, link); }
          notifyList := notifyList[..link] + notifyList[link + 1..];
          assert Removed(notifies, notifyList, regs, AllRegistrations(), link, id);
          return Success;
        }
        link := link + 1;
      }
      return InvalidParameter;
    }

    method RemoveFromAll(handles: seq<Handle>)
      requires Valid() && |exList| <= |handles|
      modifies exList
      ensures Valid() && AllRegistrations() == WithoutRegistration(old(AllRegistrations()), handles, |exList|)
    {
      ghost var regs := AllRegistrations();
      var index := 0;
      while index < |exList|
        invariant index <= |exList| && Valid()
        invariant AllRegistrations() == WithoutRegistration(regs, handles, index)
      {
        UnregisterAt(index, handles[index]);
        index := index + 1;
      }
    }

    // -------------------------------------------------------------------------
    // Consoles come and go
    // -------------------------------------------------------------------------

    /** Memory may run out at any allocation. */
    method Allocate() returns (memory: bool)
      modifies this`failedAllocations
      ensures failedAllocations == old(failedAllocations) + if memory then 0 else 1
    {
      memory := *;
      if !memory {
        failedAllocations := failedAllocations + 1;
      }
    }

    /** Makes room for one more console in every list. Any allocation may fail; then some
        lists have grown and some have not, and the device count is what it was. */
    method GrowLists() returns (status: Status)
      requires Valid()
      modifies this`notifyList, this`keyQueue, this`exListSize, this`exListCount, this`failedAllocations
      ensures Valid() && Queue() == old(Queue())
      ensures SameNotifies(old(notifyList), notifyList, old(exListCount))
      ensures status == Success ==> exListCount == old(exListCount) + ALLOC_UNIT
      ensures status != Success ==> exListCount == old(exListCount)
      ensures status == if failedAllocations == old(failedAllocations) then Success else OutOfResources
      ensures failedAllocations >= old(failedAllocations)
    {
      status := GrowHandles();
      if status != Success {
        return;
      }
      var queueMemory := Allocate();
      if !queueMemory {
        return OutOfResources;
      }
      keyQueue := keyQueue[..exListCount] + seq(ALLOC_UNIT, _ => KeyData(NO_KEY, NO_STATE));
      var listMemory := Allocate();
      if !listMemory {
        return OutOfResources;
      }
      exListSize := exListCount + ALLOC_UNIT;
      exListCount := exListCount + ALLOC_UNIT;
    }

    /** Makes room in every handle list, or in the first ones only. */
    method GrowHandles() returns (status: Status)
      requires Valid()
      modifies this`notifyList, this`failedAllocations
      ensures Valid() && SameNotifies(old(notifyList), notifyList, exListCount)
      ensures status == if failedAllocations == old(failedAllocations) then Success else OutOfResources
      ensures failedAllocations >= old(failedAllocations)
      ensures status == Success ==> forall k :: 0 <= k < |notifyList| ==>
        exListCount + ALLOC_UNIT <= |notifyList[k].handles|
    {
      var link := 0;
      while link < |notifyList|
        invariant link <= |notifyList| && Valid() && failedAllocations == old(failedAllocations)
        invariant SameNotifies(old(notifyList), notifyList, exListCount)
        invariant forall k :: 0 <= k < link ==> exListCount + ALLOC_UNIT <= |notifyList[k].handles|
      {
        var memory := Allocate();
        if !memory {
          return OutOfResources;
        }
        var n := notifyList[link];
        notifyList := notifyList[link := n.(handles := n.handles[..exListCount] + seq(ALLOC_UNIT, _ => NO_HANDLE))];
        link := link + 1;
      }
      return Success;
    }

    /** Takes the first `count` listed notifications back from a new console, the last one
        first. */
    method UnregisterListed(d: TextInEx, count: nat, ghost regs0: Registrations)
      requires Valid() && d.Valid() && IsNew(d) && GainsFresh(regs0, notifyList, |exList|, count)
      requires d.registrations == Gained(regs0, notifyList, |exList|, count)
      modifies d
      ensures d.Valid() && d.registrations == regs0 && d.refusals == old(d.refusals)
    {
      var c, link: nat := |exList|, count;
      while link != 0
        invariant link <= |notifyList| && d.Valid() && d.refusals == old(d.refusals)
        invariant GainsFresh(regs0, notifyList, c, link)
        invariant d.registrations == Gained(regs0, notifyList, c, link)
      {
        link := link - 1;
        PlusMinus(Gained(regs0, notifyList, c, link), notifyList[link].handles[c],
                  Registration(notifyList[link].keyData, notifyList[link].fn));
        d.UnregisterKeyNotify(notifyList[link].handles[c]);
      }
    }

    /** Registers every listed notification on a new console, or none. */
    method RegisterListed(d: TextInEx) returns (status: Status)
      requires Valid() && |exList| < exListCount && d.Valid() && IsNew(d)
      modifies this`notifyList, d
      ensures Valid() && d.Valid()
      ensures SameNotifies(old(notifyList), notifyList, |exList|)
      ensures status == Success ==>
        && GainsFresh(old(d.registrations), notifyList, |exList|, |notifyList|)
        && d.registrations == Gained(old(d.registrations), notifyList, |exList|, |notifyList|)
      ensures status != Success ==> d.registrations == old(d.registrations)
      ensures status == if d.refusals == old(d.refusals) then Success else DeviceError
      ensures d.refusals >= old(d.refusals)
    {
      hide Gained, GainsFresh, SameNotifies;
      ghost var regs0 := d.registrations;
      var c := |exList|;
      var link: nat := 0;
      GainedNone(regs0, notifyList, c);
      SameRefl(notifyList, c);
      while link < |notifyList|
        invariant link <= |notifyList| && c == |exList| && Valid() && d.Valid() && d.refusals == old(d.refusals)
        invariant SameNotifies(old(notifyList), notifyList, c)
        invariant GainsFresh(regs0, notifyList, c, link)
        invariant d.registrations == Gained(regs0, notifyList, c, link)
      {
        var handle;
        status, handle := d.RegisterKeyNotify(notifyList[link].keyData, notifyList[link].fn);
        if status != Success {
          UnregisterListed(d, link, regs0);
          return status;
        }
        ghost var before := notifyList;
        var n := notifyList[link];
        notifyList := notifyList[link := n.(handles := n.handles[c := handle])];
        GainedNext(regs0, before, notifyList, c, link, handle);
        SameUpdate(old(notifyList), before, notifyList, c, link, handle);
        link := link + 1;
      }
      return Success;
    }

    /** Attaches a console with all listed notifications, or does not attach it. */
    method AddDevice(d: TextInEx) returns (status: Status)
      requires Valid() && d.Valid() && IsNew(d)
      modifies this`notifyList, this`keyQueue, this`exListSize, this`exListCount, this`failedAllocations, this`exList, d
      ensures Valid() && (old(InSync()) ==> InSync()) && Queue() == old(Queue())
      ensures SameNotifies(old(notifyList), notifyList, |old(exList)|)
      ensures status == Success ==> exList == old(exList) + [d]
      ensures status != Success ==> exList == old(exList) && d.registrations == old(d.registrations)
      ensures RegistrationsOf(old(exList)) == old(AllRegistrations())
      ensures status == if failedAllocations > old(failedAllocations) then OutOfResources
                        else if d.refusals > old(d.refusals) then DeviceError
                        else Success
      ensures failedAllocations >= old(failedAllocations) && d.refusals >= old(d.refusals)
      ensures old(|exList| < exListCount) ==> failedAllocations == old(failedAllocations)
    {
      hide Synced, SameNotifies;
      SameRefl(notifyList, |exList|);
      if |exList| >= exListCount {
        ghost var notifies := notifyList;
        status := GrowLists();
        SameWeaken(notifies, notifyList, old(exListCount), |exList|);
        if Synced(notifies, AllRegistrations()) { SyncedSame(notifies, notifyList, AllRegistrations()); }
        if status != Success {
          return status;
        }
      }
      ghost var grown := notifyList;
      status := AttachDevice(d);
      SameTrans(old(notifyList), grown, notifyList, |old(exList)|);
    }

    /** The part of AddDevice that needs no more room. */
    method AttachDevice(d: TextInEx) returns (status: Status)
      requires Valid() && d.Valid() && IsNew(d) && |exList| < exListCount
      modifies this`notifyList, this`exList, d
      ensures Valid() && (old(InSync()) ==> InSync()) && Queue() == old(Queue())
      ensures SameNotifies(old(notifyList), notifyList, |old(exList)|)
      ensures status == Success ==> exList == old(exList) + [d]
      ensures status != Success ==> exList == old(exList) && d.registrations == old(d.registrations)
      ensures RegistrationsOf(old(exList)) == old(AllRegistrations())
      ensures status == if d.refusals == old(d.refusals) then Success else DeviceError
      ensures d.refusals >= old(d.refusals)
    {
      hide Synced, SameNotifies, Gained, GainsFresh, RegistrationsOf;
      ghost var regs, gained := AllRegistrations(), d.registrations;
      status := RegisterListed(d);
      if Synced(old(notifyList), regs) { SyncedSame(old(notifyList), notifyList, regs); }
      if status != Success {
        return status;
      }
      if Synced(notifyList, regs) { SyncedWithDevice(notifyList, regs, gained); }
      AppendConsole(d);
    }

    /** Puts a console at the end of the list. */
    method AppendConsole(d: TextInEx)
      requires Valid() && d.Valid() && IsNew(d) && |exList| < exListCount
      modifies this`exList
      ensures Valid() && exList == old(exList) + [d] && Queue() == old(Queue())
      ensures AllRegistrations() == old(AllRegistrations()) + [d.registrations]
      ensures RegistrationsOf(old(exList)) == old(AllRegistrations())
    {
      exList := exList + [d];
      assert exList[..|exList| - 1] == old(exList);
    }

    /** Detaches a console. Its registrations, and the handle lists, stay as they are. */
    method DeleteDevice(d: TextInEx) returns (status: Status)
      requires Valid()
      modifies this`exList
      ensures Valid() && Queue() == old(Queue())
      ensures status == if d in old(exList) then Success else NotFound
      ensures status == NotFound ==> exList == old(exList)
      ensures notifyList == old(notifyList)
      ensures status == Success ==>
        exists i :: 0 <= i < |old(exList)| && old(exList)[i] == d
                    && exList == Without(old(exList), i)
                    && AllRegistrations() == Without(old(AllRegistrations()), i)
                    && (old(InSync()) ==> (InSync() <==> |notifyList| == 0 || i == |old(exList)| - 1))
    {
      hide Attached, InSync, RegistrationsOf;
      var index := 0;
      while index < |exList|
        invariant index <= |exList| && d !in exList[..index]
      {
        if exList[index] == d {
          RemoveAt(index);
          return Success;
        }
        index := index + 1;
      }
      return NotFound;
    }

    /** Takes one console off the list. */
    method RemoveAt(index: nat)
      requires Valid() && index < |exList|
      modifies this`exList
      ensures Valid() && exList == Without(old(exList), index)
      ensures AllRegistrations() == Without(old(AllRegistrations()), index)
      ensures old(InSync()) ==> (InSync() <==> |notifyList| == 0 || index == |old(exList)| - 1)
    {
      hide Synced, Attached, RegistrationsOf;
      if InSync() { DeleteKeepsSyncedIff(exList, notifyList, index); }
      WithoutConsole(exList, index);
      exList := exList[..index] + exList[index + 1..];
    }

    // -------------------------------------------------------------------------
    // The key queue
    // -------------------------------------------------------------------------

    ghost function Queue(): seq<KeyData>
      requires currentNumberOfKeys <= |keyQueue|
      reads this`currentNumberOfKeys, this`keyQueue
    {
      keyQueue[..currentNumberOfKeys]
    }

    method DequeueKey() returns (key: Option<KeyData>)
      requires Sized()
      modifies this`keyQueue, this`currentNumberOfKeys
      ensures Sized() && exListCount == old(exListCount)
      ensures |old(Queue())| == 0 ==> key == None && Queue() == []
      ensures |old(Queue())| > 0 ==> key == Some(old(Queue())[0]) && Queue() == old(Queue())[1..]
    {
      if currentNumberOfKeys == 0 {
        return None;
      }
      key := Some(keyQueue[0]);
      currentNumberOfKeys := currentNumberOfKeys - 1;
      keyQueue := keyQueue[1..currentNumberOfKeys + 1] + keyQueue[currentNumberOfKeys..];
    }

    /** Reads a key with its state. `polls` is what the consoles answer when they are asked,
        which happens when no key is queued; all keys of one poll get the joined state. */
    method ReadKeyStrokeEx(polls: seq<Poll>) returns (key: Option<KeyData>, state: KeyState)
      requires Sized() && |polls| == |exList|
      modifies this`keyQueue, this`currentNumberOfKeys
      ensures Sized()
      ensures var e := ReadEx(polls, virtualKeyStateExported);
        && key == FirstOf(Returned(old(Queue()), e))
        && Queue() == Next(old(Queue()), e)
      ensures |old(Queue())| > 0 ==> key == Some(old(Queue())[0]) && Queue() == old(Queue())[1..]
      ensures |old(Queue())| == 0 ==>
        && (key == None <==> forall i :: 0 <= i < |polls| ==> !Counts(polls[i], virtualKeyStateExported))
        && exists at :: ReadFrom(key, Queue(), polls, virtualKeyStateExported, at)
      ensures key == None ==> state == JoinedState(polls)
      ensures key.Some? ==> state == key.value.state
    {
      hide Batch, JoinedState, PressedKeys, ReadFrom, Counts;
      BatchIs(polls, virtualKeyStateExported);
      key := DequeueKey();
      if key.Some? {
        return key, key.value.state;
      }
      state := QueuePolled(polls);
      GiveState(state);
      ghost var batch := Queue();
      key := DequeueKey();
      ReadBatch(polls, virtualKeyStateExported, key, Queue(), batch);
      return key, if key.Some? then key.value.state else state;
    }

    static lemma {:induction false} BatchIs(polls: seq<Poll>, exported: bool)
      ensures Batch(polls, exported) == WithState(PressedKeys(polls, exported), JoinedState(polls))
    {
    }

    static lemma {:induction false} ReadBatch(polls: seq<Poll>, exported: bool, key: Option<KeyData>,
                                              left: seq<KeyData>, batch: seq<KeyData>)
      requires batch == Batch(polls, exported)
      requires if |batch| == 0 then key == None && left == [] else key == Some(batch[0]) && left == batch[1..]
      ensures key == None <==> forall i :: 0 <= i < |polls| ==> !Counts(polls[i], exported)
      ensures exists at :: ReadFrom(key, left, polls, exported, at)
    {
      var at := BatchFromPolls(polls, exported);
      assert (if key.Some? then [key.value] else []) + left == batch;
      assert ReadFrom(key, left, polls, exported, at);
    }

    /** Asks the consoles one after the other and queues the keys they have. */
    method QueuePolled(polls: seq<Poll>) returns (state: KeyState)
      requires Sized() && currentNumberOfKeys == 0 && |polls| == |exList|
      modifies this`keyQueue, this`currentNumberOfKeys
      ensures Sized() && state == JoinedState(polls) && Queue() == PressedKeys(polls, virtualKeyStateExported)
    {
      state := NO_STATE;
      var index := 0;
      while index < |exList|
        invariant index <= |exList| && |keyQueue| == old(|keyQueue|) && currentNumberOfKeys <= index
        invariant state == JoinedState(polls[..index])
        invariant Queue() == PressedKeys(polls[..index], virtualKeyStateExported)
      {
        assert polls[..index + 1][..index] == polls[..index];
        state := QueuePoll(polls[index], state);
        index := index + 1;
      }
      assert polls[..index] == polls;
    }

    /** A state counts only where its valid bit is set. */
    static method JoinState(state0: KeyState, t: KeyState) returns (state: KeyState)
      ensures state == Join(state0, t)
    {
      hide Bit32, Bit8, Or32, Or8;
      state := state0;
      if Bit32(t.shift, SHIFT_STATE_VALID) {
        state := state.(shift := Or32(state.shift, t.shift));
      }
      if Bit8(t.toggle, TOGGLE_STATE_VALID) {
        state := state.(toggle := Or8(state.toggle, t.toggle));
      }
    }

    /** Joins one console's state in and queues its key. */
    method QueuePoll(poll: Poll, state0: KeyState) returns (state: KeyState)
      requires currentNumberOfKeys < |keyQueue|
      modifies this`keyQueue, this`currentNumberOfKeys
      ensures |keyQueue| == old(|keyQueue|) && currentNumberOfKeys <= old(currentNumberOfKeys) + 1
      ensures currentNumberOfKeys <= |keyQueue|
      ensures state == if poll.Failed? then state0 else Join(state0, poll.data.state)
      ensures Queue() == old(Queue()) + if poll.Pressed? && (virtualKeyStateExported || !IsPartial(poll.data))
        then [poll.data] else []
    {
      hide Join;
      state := state0;
      if !poll.Failed? {
        state := JoinState(state, poll.data.state);
        if poll.Pressed? {
          if virtualKeyStateExported || !IsPartial(poll.data) {
            keyQueue := keyQueue[currentNumberOfKeys := poll.data];
            currentNumberOfKeys := currentNumberOfKeys + 1;
          }
        }
      }
    }

    /** Gives all queued keys one state. */
    method GiveState(state: KeyState)
      requires Sized()
      modifies this`keyQueue
      ensures Sized() && Queue() == WithState(old(Queue()), state)
    {
      var index := 0;
      while index < currentNumberOfKeys
        invariant index <= currentNumberOfKeys <= |keyQueue| == old(|keyQueue|)
        invariant forall i :: 0 <= i < index ==> keyQueue[i] == old(keyQueue)[i].(state := state)
        invariant forall i :: index <= i < currentNumberOfKeys ==> keyQueue[i] == old(keyQueue)[i]
      {
        keyQueue := keyQueue[index := keyQueue[index].(state := state)];
        index := index + 1;
      }
    }

    /** Takes the first queued key that is not partial, and the partial ones before it. */
    method ReadQueuedKey() returns (key: Option<KeyData>)
      requires Sized()
      modifies this`keyQueue, this`currentNumberOfKeys
      ensures Sized() && Queue() == Next(old(Queue()), ReadPlain)
      ensures key == FirstOf(Returned(old(Queue()), ReadPlain))
    {
      ghost var q, taken: nat := Queue(), 0;
      while true
        invariant Sized() && exListCount == old(exListCount)
        invariant taken <= |q| && Queue() == q[taken..]
        invariant LeadingPartial(q) == taken + LeadingPartial(q[taken..])
        decreases |q| - taken
      {
        key := DequeueKey();
        if key == None {
          break;
        }
        assert q[taken..][1..] == q[taken + 1..];
        if !IsPartial(key.value) {
          break;
        }
        taken := taken + 1;
      }
      assert q + [] == q;
    }

    /** Reads the next key: a queued one, or one of the plain consoles'. `answers[i]` is what
        console `i` gives when it is asked again and again, until it reports that it has
        nothing more. */
    method ReadKeyStroke(answers: seq<seq<Key>>) returns (key: Option<Key>)
      requires Sized()
      modifies this`keyQueue, this`currentNumberOfKeys
      ensures Sized() && Queue() == Next(old(Queue()), ReadPlain)
      ensures var queued := FirstOf(Returned(old(Queue()), ReadPlain));
        key == if queued.Some? then Some(queued.value.key) else FirstFull(answers)
      ensures |old(Queue())| == 0 ==>
        if key == None then forall i, j :: 0 <= i < |answers| && 0 <= j < |answers[i]| ==> answers[i][j] == NO_KEY
        else exists i: nat, j: nat :: IsFirstFull(answers, i, j) && answers[i][j] == key.value
    {
      var queued := ReadQueuedKey();
      if queued.Some? {
        return Some(queued.value.key);
      }
      ghost var i, j := FirstFullIsFirst(answers);
      key := AskConsoles(answers);
    }

    /** The part of a plain read that asks the consoles. */
    static method AskConsoles(answers: seq<seq<Key>>) returns (key: Option<Key>)
      ensures key == FirstFull(answers)
    {
      var index, asked: nat := 0, 0;
      while index < |answers|
        invariant index <= |answers| && (index < |answers| ==> asked <= |answers[index]|)
          && (index == |answers| ==> asked == 0)
        invariant FirstFull(answers)
                  == if index == |answers| then None
                     else OrElse(FullIn(answers[index][asked..]), FirstFull(answers[index + 1..]))
        decreases |answers| - index, if index < |answers| then |answers[index]| - asked else 0
      {
        if asked < |answers[index]| {
          assert answers[index][asked..][1..] == answers[index][asked + 1..];
          if answers[index][asked] != NO_KEY {
            return Some(answers[index][asked]);
          }
          asked := asked + 1;
        } else {
          NextConsole(answers, index);
          index, asked := index + 1, 0;
        }
      }
      return None;
    }

    static lemma {:induction false} NextConsole(answers: seq<seq<Key>>, index: nat)
      requires index < |answers|
      ensures answers[index][|answers[index]|..] == []
      ensures FirstFull(answers[index + 1..])
              == if index + 1 == |answers| then None
                 else OrElse(FullIn(answers[index + 1][0..]), FirstFull(answers[index + 2..]))
    {
      if index + 1 < |answers| {
        assert answers[index + 1..][1..] == answers[index + 2..];
        assert answers[index + 1][0..] == answers[index + 1];
      }
    }

    /** A reset of all consoles empties the queue when they all succeed. */
    method Reset(allReset: bool)
      requires Sized()
      modifies this`currentNumberOfKeys
      ensures Sized() && Queue() == if allReset then [] else old(Queue())
    {
      if allReset {
        currentNumberOfKeys := 0;
      }
    }
  }

  /** Two consoles and one notification: when the first console goes, the handle of the
      second one is looked for in the wrong place. */
  lemma {:induction false} DeleteLosesHandleExample()
    ensures var r := Registration(KeyData(Key(1, 0), NO_STATE), 7);
            var n := Notify(0, r.keyData, r.fn, [Handle(0, 0), Handle(1, 0)]);
            var a: Registrations := map[Handle(0, 0) := r];
            var b: Registrations := map[Handle(1, 0) := r];
            Synced([n], [a, b]) && !Synced([n], [b])
  {
    var r := Registration(KeyData(Key(1, 0), NO_STATE), 7);
    var n := Notify(0, r.keyData, r.fn, [Handle(0, 0), Handle(1, 0)]);
    var b: Registrations := map[Handle(1, 0) := r];
    assert !Registered(n, b, 0);
    assert [n][0] == n && [b][0] == b;
  }
}

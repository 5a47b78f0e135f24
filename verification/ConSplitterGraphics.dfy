/** The splitter's graphics output (ConSplitter.c, ConSplitterGraphics.c): one mode buffer
    for all attached displays. */
module ConSplitterGraphics {
  import opened GraphicsModes

  /** A physical display. */
  class Display {
    const modes: seq<Resolution>
    var mode: nat
    ghost var refusals: nat      // requests for a mode number it does not have
    ghost var faults: nat        // modes it has but failed to set

    ghost predicate Valid()
      reads this
    {
      mode < |modes|
    }

    function Current(): Resolution
      requires Valid()
      reads this
    {
      modes[mode]
    }

    constructor (modes: seq<Resolution>, mode: nat)
      requires mode < |modes|
      ensures Valid() && this.modes == modes && this.mode == mode && refusals == faults == 0
    {
      this.modes, this.mode, refusals, faults := modes, mode, 0, 0;
    }

    /** A mode the display has may still fail to be set. */
    method SetMode(n: nat) returns (ok: bool)
      requires Valid()
      modifies this
      ensures Valid()
      ensures ok ==> n < |modes| && mode == n
      ensures !ok ==> mode == old(mode)
      ensures refusals == old(refusals) + if n < |modes| then 0 else 1
      ensures faults == old(faults) + if n < |modes| && !ok then 1 else 0
    {
      if n >= |modes| {
        refusals := refusals + 1;
        return false;
      }
      ok := *;
      if ok {
        mode := n;
      } else {
        faults := faults + 1;
      }
    }

    /** The number of the first mode with the given resolution, or the number of modes. */
    method FindMode(r: Resolution) returns (n: nat)
      ensures n == IndexOf(modes, r)
    {
      n := 0;
      while n < |modes|
        invariant n <= |modes| && IndexOf(modes, r) == n + IndexOf(modes[n..], r)
      {
        if modes[n] == r {
          break;
        }
        assert modes[n..][1..] == modes[n + 1..];
        n := n + 1;
      }
    }
  }

  datatype Status = Success | Unsupported | DeviceError

  function Graphical(consoles: seq<Display?>): (d: set<Display>) {
    set d: Display | d in consoles
  }

  function Count(consoles: seq<Display?>): (n: nat) {
    if |consoles| == 0 then 0 else Count(consoles[..|consoles| - 1]) + if consoles[|consoles| - 1] != null then 1 else 0
  }

  lemma {:induction false} CountAppend(consoles: seq<Display?>, d: Display?)
    ensures Count(consoles + [d]) == Count(consoles) + if d != null then 1 else 0
  {
    assert (consoles + [d])[..|consoles|] == consoles;
  }

  lemma {:induction false} CountRemove(consoles: seq<Display?>, i: nat)
    requires i < |consoles|
    ensures Count(consoles[..i] + consoles[i + 1..]) == Count(consoles) - if consoles[i] != null then 1 else 0
    decreases |consoles|
  {
    var n := |consoles| - 1;
    if i == n {
      assert consoles[..i] + consoles[i + 1..] == consoles[..n];
    } else {
      var front, last := consoles[..n], consoles[n];
      CountRemove(front, i);
      assert consoles[..i] + consoles[i + 1..] == front[..i] + front[i + 1..] + [last] by {
        assert consoles[i + 1..] == front[i + 1..] + [last];
        assert consoles[..i] == front[..i];
      }
      CountAppend(front[..i] + front[i + 1..], last);
    }
  }

  lemma {:induction false} CountZero(consoles: seq<Display?>)
    ensures Count(consoles) == 0 <==> Graphical(consoles) == {}
  {
    if |consoles| > 0 {
      var front, last := consoles[..|consoles| - 1], consoles[|consoles| - 1];
      CountZero(front);
      assert consoles == front + [last];
      if last != null {
        assert last in Graphical(consoles);
      } else {
        assert Graphical(consoles) == Graphical(front);
      }
    }
  }

  class GraphicsSplitter {
    var consoles: seq<Display?>          // a console without graphics is null
    var numberOfGraphicsOutput: nat
    var modeBuffer: array<Resolution>
    var maxMode: nat
    var mode: nat
    var info: Resolution
    ghost var added: seq<seq<Resolution>>   // the mode lists that went into the buffer

    function Displays(): set<Display>
      reads this
    {
      Graphical(consoles)
    }

    ghost predicate Sound()
      reads this, Displays()
    {
      && maxMode <= modeBuffer.Length && modeBuffer.Length > 0
      && forall d :: d in Displays() ==> d.Valid()
    }

    ghost predicate Valid()
      reads this, Displays()
    {
      Sound() && numberOfGraphicsOutput == Count(consoles)
    }

    /** The modes on offer. */
    ghost function Modes(): seq<Resolution>
      requires maxMode <= modeBuffer.Length
      reads this`maxMode, this`modeBuffer, modeBuffer
    {
      modeBuffer[..maxMode]
    }

    constructor ()
      ensures Valid() && consoles == [] && numberOfGraphicsOutput == 0 && fresh(modeBuffer)
      ensures Modes() == [DEFAULT_MODE] && mode == 0 && info == DEFAULT_MODE
    {
      consoles, numberOfGraphicsOutput, maxMode, mode, added := [], 0, 1, 0, [];
      modeBuffer := new Resolution[1](_ => DEFAULT_MODE);
      info := DEFAULT_MODE;
      new;
      assert Displays() == {};
    }

    /** Sets one display to the resolution, by searching its modes. */
    static method SetDisplay(d: Display, r: Resolution) returns (ok: bool)
      requires d.Valid()
      modifies d
      ensures d.Valid() && (ok ==> d.Current() == r)
      ensures r in d.modes ==> d.refusals == old(d.refusals)
      ensures if r in d.modes then d.faults == old(d.faults) + (if ok then 0 else 1)
        else !ok && d.faults == old(d.faults)
    {
      var n := d.FindMode(r);
      ok := d.SetMode(n);
    }

    /** The search of SetMode over all consoles. */
    method SetAll(r: Resolution) returns (ok: bool, last: Display?)
      requires Sound()
      modifies Displays()
      ensures Sound()
      ensures last != null ==> last in Displays()
      ensures last == null ==> Displays() == {}
      ensures ok ==> forall d :: d in Displays() ==> d.Current() == r
      ensures forall d :: d in Displays() && r in d.modes ==> d.refusals == old(d.refusals)
      ensures forall d :: d in Displays() ==> d.faults >= old(d.faults)
      ensures ok || exists d :: d in Displays() && (r !in d.modes || d.faults > old(d.faults))
    {
      ok, last := true, null;
      for i := 0 to |consoles|
        invariant forall d :: d in Displays() ==> d.Valid()
        invariant last != null ==> last in Displays()
        invariant last == null ==> forall k :: 0 <= k < i ==> consoles[k] == null
        invariant ok ==> forall k :: 0 <= k < i && consoles[k] != null ==> consoles[k].Current() == r
        invariant forall d :: d in Displays() && r in d.modes ==> d.refusals == old(d.refusals)
        invariant forall d :: d in Displays() ==> d.faults >= old(d.faults)
        invariant ok || exists d :: d in Displays() && (r !in d.modes || d.faults > old(d.faults))
      {
        if consoles[i] != null {
          last := consoles[i];
          assert last in Displays();
          var done := SetDisplay(last, r);
          if !done {
            ok := false;
          }
        }
      }
    }

    /** Every mode on offer is one that every attached display has. */
    ghost predicate Supported(displays: set<Display>)
      requires maxMode <= modeBuffer.Length
      reads this`maxMode, this`modeBuffer, modeBuffer
    {
      forall d, r :: d in displays && r in Modes() ==> r in d.modes
    }

    /** All displays show the splitter's resolution. */
    ghost predicate Agree(displays: set<Display>)
      requires forall d :: d in displays ==> d.Valid()
      reads this, displays
    {
      forall d :: d in displays ==> d.Current() == info
    }

    /** MAIN: a mode number on offer is found on every display, so only a failing device can
        make this fail; on success all displays and the splitter are at one resolution. */
    method SetMode(n: nat) returns (status: Status)
      requires Valid()
      modifies this`mode, this`info, Displays()
      ensures Valid()
      ensures status == Unsupported <==> n >= maxMode
      ensures n >= maxMode ==> mode == old(mode) && info == old(info)
                               && forall d :: d in Displays() ==> d.mode == old(d.mode) && d.refusals == old(d.refusals)
      ensures n < maxMode ==> mode == n
      ensures status == Success ==> info == modeBuffer[n] && Agree(Displays())
      ensures old(Supported(Displays())) ==> forall d :: d in Displays() ==> d.refusals == old(d.refusals)
      ensures n < maxMode && status != Success ==>
        exists d :: d in Displays() && (modeBuffer[n] !in d.modes || d.faults > old(d.faults))
      ensures old(Supported(Displays())) && status == DeviceError ==>
        exists d :: d in Displays() && d.faults > old(d.faults)
      ensures forall d :: d in Displays() ==> d.faults >= old(d.faults)
    {
      if n >= maxMode {
        return Unsupported;
      }
      var r := modeBuffer[n];
      assert r in Modes();
      var ok, last := SetAll(r);
      mode := n;
      if numberOfGraphicsOutput == 1 && last != null {
        info := last.Current();
      } else {
        info := r;
      }
      status := if ok then Success else DeviceError;
    }

    /** Compares the mode buffer with a new display and keeps the common part. An empty
        buffer is given one unspecified entry, which stands for what the driver reads and
        writes behind it. */
    method Intersect(d: Display)
      requires Sound()
      modifies this`modeBuffer, this`maxMode
      ensures fresh(modeBuffer) && modeBuffer.Length > 0 && maxMode <= modeBuffer.Length
      ensures Modes() == Common(old(Modes()), d.modes)
    {
      var matched := new Resolution[if maxMode == 0 then 1 else maxMode];
      ghost var before := Modes();
      var n: nat := 0;
      for i := 0 to maxMode
        invariant modeBuffer == old(modeBuffer) && maxMode == old(maxMode) && n <= i && matched.Length >= maxMode
        invariant modeBuffer[..maxMode] == before && matched[..n] == Common(before[..i], d.modes)
      {
        assert before[..i + 1][..i] == before[..i];
        var r := modeBuffer[i];
        assert r == before[i];
        var at := d.FindMode(r);
        if at < |d.modes| {
          var known := false;
          var k := 0;
          while k < n && !known
            invariant k <= n && (known <==> r in matched[..k])
          {
            known := matched[k] == r;
            k := k + 1;
          }
          if !known {
            matched[n] := r;
            n := n + 1;
          }
        }
      }
      assert before[..maxMode] == before;
      modeBuffer := matched;
      maxMode := n;
    }

    /** The index to switch to when a display at `current` joins. */
    method Choose(current: Resolution) returns (index: nat)
      requires maxMode <= modeBuffer.Length
      ensures index == Preferred(Modes(), current)
    {
      index := 0;
      var i: nat := 0;
      while i < maxMode
        invariant i <= maxMode && current !in modeBuffer[..i]
      {
        if modeBuffer[i] == current {
          IndexFound(Modes(), current, i);
          return i;
        }
        i := i + 1;
      }
      i := 0;
      while i < maxMode
        invariant i <= maxMode && DEFAULT_MODE !in modeBuffer[..i]
      {
        if modeBuffer[i] == DEFAULT_MODE {
          IndexFound(Modes(), DEFAULT_MODE, i);
          return i;
        }
        i := i + 1;
      }
    }

    lemma {:induction false} IndexFound(b: seq<Resolution>, r: Resolution, i: nat)
      requires i < |b| && b[i] == r && r !in b[..i]
      ensures IndexOf(b, r) == i
    {
      if i > 0 {
        assert b[..i][0] == b[0];
        assert b[1..][..i - 1] == b[..i][1..];
        IndexFound(b[1..], r, i - 1);
      }
    }

    /** Takes the first display's modes as they are. */
    method TakeFirst(d: Display)
      requires Sound() && d.Valid()
      modifies this`modeBuffer, this`maxMode, this`mode, this`info
      ensures fresh(modeBuffer) && maxMode == modeBuffer.Length && Modes() == d.modes
      ensures mode == d.mode && info == d.Current()
    {
      maxMode, mode, info := |d.modes|, d.mode, d.Current();
      modeBuffer := new Resolution[|d.modes|](i requires 0 <= i < |d.modes| => d.modes[i]);
      assert modeBuffer[..] == d.modes;
    }

    /** Brings the displays to the chosen mode: only the new one when the others are there
        already, else all of them. */
    method Force(d: Display, index: nat) returns (status: Status, ghost fellBack: bool)
      requires Valid() && d in Displays() && index < modeBuffer.Length
      modifies this`mode, this`info, modeBuffer, Displays()
      ensures Valid()
      ensures !fellBack ==> modeBuffer[..] == old(modeBuffer[..])
      ensures fellBack ==> modeBuffer[..] == old(modeBuffer[..])[0 := DEFAULT_MODE]
      ensures status == Success && (forall e :: e in Displays() && e != d ==> old(e.Current()) == old(info)) ==>
        Agree(Displays())
      ensures status == Success ==> mode == if fellBack then 0 else index
      ensures status == Success && !fellBack ==> info == modeBuffer[index]
      ensures status == Success && fellBack ==> maxMode > 0 && info == DEFAULT_MODE && forall e :: e in Displays() ==>
        DEFAULT_MODE in e.modes
      ensures old(Supported(Displays())) && index < maxMode && !fellBack ==> forall e :: e in Displays() ==>
        e.refusals == old(e.refusals)
      ensures old(Supported(Displays())) && index < maxMode && (fellBack || status != Success) ==>
                exists e :: e in Displays() && e.faults > old(e.faults)
    {
      fellBack := false;
      var r := modeBuffer[index];
      assert index < maxMode ==> Modes()[index] == r && r in Modes();
      if r == info {
        mode := index;
        status := Success;
        if r != d.Current() {
          var ok := SetDisplay(d, r);
          status := if ok then Success else DeviceError;
        }
      } else {
        status, fellBack := ForceAll(index);
      }
    }

    /** Sets the chosen mode on all displays; if that fails, turns the first mode into 800 by
        600 and tries that. */
    method ForceAll(index: nat) returns (status: Status, ghost fellBack: bool)
      requires Valid() && index < modeBuffer.Length
      modifies this`mode, this`info, modeBuffer, Displays()
      ensures Valid()
      ensures !fellBack ==> modeBuffer[..] == old(modeBuffer[..]) && status == Success && info == modeBuffer[index]
      ensures status == Success ==> mode == if fellBack then 0 else index
      ensures fellBack ==> modeBuffer[..] == old(modeBuffer[..])[0 := DEFAULT_MODE]
      ensures status == Success ==> Agree(Displays())
      ensures status == Success && fellBack ==> maxMode > 0 && info == DEFAULT_MODE && forall e :: e in Displays() ==>
        DEFAULT_MODE in e.modes
      ensures old(Supported(Displays())) && index < maxMode && !fellBack ==> forall e :: e in Displays() ==>
        e.refusals == old(e.refusals)
      ensures old(Supported(Displays())) && index < maxMode && fellBack ==>
        exists e :: e in Displays() && e.faults > old(e.faults)
    {
      mode := 0xFFFF;
      fellBack := false;
      status := SetMode(index);
      if status != Success {
        fellBack := true;
        modeBuffer[0] := DEFAULT_MODE;
        status := SetMode(0);
        if status == Success {
          forall e | e in Displays() ensures DEFAULT_MODE in e.modes { assert e.Current() == DEFAULT_MODE; }
        }
      }
    }

    /** The modes on offer are what all displays added since the buffer was started offer. */
    ghost predicate Tracked()
      requires maxMode <= modeBuffer.Length
      reads this`maxMode, this`modeBuffer, this`added, modeBuffer
    {
      |added| > 0 && Modes() == Buffer(added)
    }

    /** What a display joining leaves of the modes on offer. */
    ghost function ModesWith(d: Display): seq<Resolution>
      requires maxMode <= modeBuffer.Length
      reads this`maxMode, this`modeBuffer, this`numberOfGraphicsOutput, modeBuffer
    {
      if numberOfGraphicsOutput == 0 then d.modes else Common(Modes(), d.modes)
    }

    /** MAIN: a console joins. When no display fails and some resolution is shared, the modes
        on offer are the common ones (each once, from the second display on), every attached
        display has every one of them, and all displays end at one resolution: the new
        display's own if it is shared, else 800 by 600 if that is, else the first. A failing
        display may cost the first mode, but success still means all of that. */
    method AddDevice(d: Display) returns (status: Status, ghost fellBack: bool)
      requires Valid() && d.Valid()
      modifies this, modeBuffer, Displays(), d
      ensures Valid() && consoles == old(consoles) + [d]
      ensures added == if old(numberOfGraphicsOutput) == 0 then [d.modes] else old(added) + [d.modes]
      ensures !fellBack && (old(numberOfGraphicsOutput) == 0 || old(Tracked())) ==> Tracked()
      ensures maxMode == |old(ModesWith(d))|
      ensures !fellBack ==> Modes() == old(ModesWith(d))
      ensures fellBack && maxMode > 0 ==> Modes() == old(ModesWith(d))[0 := DEFAULT_MODE]
      ensures status == Success && !fellBack && maxMode > 0 ==>
                mode == Preferred(Modes(), old(d.Current())) && info == Modes()[mode]
      ensures status == Success && fellBack ==> mode == 0 && info == DEFAULT_MODE
      ensures status == Success && old(Agree(Displays())) ==> Agree(Displays())
      ensures status == Success && old(Supported(Displays()) || Displays() == {}) ==> Supported(Displays())
      ensures old(Supported(Displays()) || Displays() == {}) && maxMode > 0
              && (forall e :: e in Displays() ==> e.faults == old(e.faults)) ==>
                status == Success && !fellBack && forall e :: e in Displays() ==> e.refusals == old(e.refusals)
    {
      hide Common, Preferred, Count, Buffer;
      Merge(d);
      status, fellBack := Settle(d);
    }

    /** A console without graphics joins: the displays and the modes on offer stay as they
        are. */
    method AddTextConsole()
      requires Valid()
      modifies this`consoles
      ensures Valid() && consoles == old(consoles) + [null]
      ensures Displays() == old(Displays()) && Modes() == old(Modes())
      ensures old(Tracked()) ==> Tracked()
      ensures old(Supported(Displays())) ==> Supported(Displays())
      ensures old(Agree(Displays())) ==> Agree(Displays())
    {
      CountAppend(consoles, null);
      consoles := consoles + [null];
    }

    /** Chooses the mode to share and brings the displays to it. */
    method Settle(d: Display) returns (status: Status, ghost fellBack: bool)
      requires Sound() && numberOfGraphicsOutput + 1 == Count(consoles) && d in Displays()
      modifies this`numberOfGraphicsOutput, this`mode, this`info, modeBuffer, Displays()
      ensures Valid()
      ensures !fellBack ==> Modes() == old(Modes())
      ensures fellBack && maxMode > 0 ==> Modes() == old(Modes())[0 := DEFAULT_MODE]
      ensures status == Success && !fellBack && maxMode > 0 ==>
                mode == Preferred(Modes(), old(d.Current())) && info == Modes()[mode]
      ensures status == Success && fellBack ==> mode == 0 && info == DEFAULT_MODE
      ensures status == Success && (forall e :: e in Displays() && e != d ==> old(e.Current()) == old(info)) ==>
        Agree(Displays())
      ensures status == Success && old(Supported(Displays())) ==> Supported(Displays())
      ensures old(Supported(Displays())) && maxMode > 0
              && (forall e :: e in Displays() ==> e.faults == old(e.faults)) ==>
                status == Success && !fellBack && forall e :: e in Displays() ==> e.refusals == old(e.refusals)
    {
      hide Common, Preferred, Count, Buffer;
      ghost var offered := Modes();
      PreferredInRange(offered, d.Current());
      var index := Choose(d.Current());
      numberOfGraphicsOutput := numberOfGraphicsOutput + 1;
      status, fellBack := Force(d, index);
      if fellBack && maxMode > 0 {
        assert Modes() == offered[0 := DEFAULT_MODE];
        assert forall r :: r in Modes() ==> r in offered || r == DEFAULT_MODE;
      }
    }

    /** The new display's part in the mode buffer. */
    method Merge(d: Display)
      requires Valid() && d.Valid()
      modifies this`consoles, this`modeBuffer, this`maxMode, this`mode, this`info, this`added
      ensures added == if numberOfGraphicsOutput == 0 then [d.modes] else old(added) + [d.modes]
      ensures Sound() && consoles == old(consoles) + [d] && Displays() == old(Displays()) + {d}
      ensures numberOfGraphicsOutput + 1 == Count(consoles) && fresh(modeBuffer)
      ensures Modes() == old(ModesWith(d))
      ensures numberOfGraphicsOutput == 0 || old(Tracked()) ==> Tracked()
      ensures numberOfGraphicsOutput == 0 ==> old(Displays()) == {}
      ensures numberOfGraphicsOutput > 0 ==> info == old(info)
      ensures old(Supported(Displays()) || Displays() == {}) ==> Supported(Displays())
    {
      hide Common, Count, Buffer;
      CountZero(consoles);
      CountAppend(consoles, d);
      consoles := consoles + [d];
      assert Displays() == old(Displays()) + {d};
      if numberOfGraphicsOutput == 0 {
        TakeFirst(d);
        BufferStarts(d.modes);
        added := [d.modes];
      } else {
        Intersect(d);
        if |added| > 0 { BufferGrows(added, d.modes); }
        added := added + [d.modes];
      }
      if old(Supported(Displays()) || Displays() == {}) {
        SupportedWith(old(Displays()), old(Modes()), d, Modes(), numberOfGraphicsOutput == 0);
      }
    }

    lemma {:induction false} PreferredInRange(b: seq<Resolution>, current: Resolution)
      ensures |b| > 0 ==> Preferred(b, current) < |b|
      ensures |b| == 0 ==> Preferred(b, current) == 0
    {
    }

    lemma {:induction false} SupportedWith(displays: set<Display>, before: seq<Resolution>, d: Display,
                                           after: seq<Resolution>, first: bool)
      requires first ==> displays == {}
      requires displays == {} || forall e, r :: e in displays && r in before ==> r in e.modes
      requires after == if first then d.modes else Common(before, d.modes)
      ensures forall e, r :: e in displays + {d} && r in after ==> r in e.modes
    {
      if !first {
        forall e, r | e in displays + {d} && r in after ensures r in e.modes { CommonMeaning(before, d.modes, r); }
      }
    }

    /** A console leaves; the modes on offer stay as they are. */
    method DeleteDevice(i: nat)
      requires Valid() && i < |consoles|
      modifies this`consoles, this`numberOfGraphicsOutput
      ensures Valid() && consoles == old(consoles[..i] + consoles[i + 1..])
      ensures Displays() <= old(Displays()) && Modes() == old(Modes())
      ensures old(Tracked()) ==> Tracked()
      ensures old(Supported(Displays())) ==> Supported(Displays())
      ensures old(Agree(Displays())) ==> Agree(Displays())
    {
      CountRemove(consoles, i);
      if consoles[i] != null {
        numberOfGraphicsOutput := numberOfGraphicsOutput - 1;
      }
      consoles := consoles[..i] + consoles[i + 1..];
    }
  }
}

// The registry of hardware sessions (device_models/common/hw_session.c:116-203): four slots, found by
// name. The header promises that acquiring a backend again gives the same handle
// (device_models/common/hw_session.h:10-15, 26-27); names are kept cut to 31 characters but compared
// over 32, so the promise holds exactly for names of at most 31 characters.
module HwRegistry {
  import opened Options

  const HW_SESSION_MAX_BACKENDS: nat := 4
  const HW_SESSION_NAME_MAX: nat := 32

  /** A slot in use: the name it is found by, the backend its probe was opened for, its refcount. */
  datatype Slot = Slot(name: string, probe: string, refcount: nat)

  /** One call: the backend, and whether the probe and the thread come up if they are asked for. */
  datatype Call = Call(backend: string, connects: bool, starts: bool)

  /** A C string: no character of it is NUL. */
  predicate CString(s: string) {
    forall k | 0 <= k < |s| :: s[k] != '\0'
  }

  /** strncpy into a zeroed buffer, bounded by HW_SESSION_NAME_MAX - 1. */
  function Kept(backend: string): (s: string)
    ensures |s| <= HW_SESSION_NAME_MAX - 1 && s <= backend
    ensures s == backend <==> |backend| <= HW_SESSION_NAME_MAX - 1
    ensures |backend| > 31 ==> |s| == 31
  {
    if |backend| <= HW_SESSION_NAME_MAX - 1 then backend else backend[..HW_SESSION_NAME_MAX - 1]
  }

  function CharAt(s: string, i: nat): char {
    if i < |s| then s[i] else '\0'
  }

  /** strncmp(a, b, HW_SESSION_NAME_MAX) == 0 for C strings: they agree as far as 32 characters, the end
      of a string counting as NUL. */
  predicate SameName(a: string, b: string) {
    forall i: nat | i < HW_SESSION_NAME_MAX :: CharAt(a, i) == CharAt(b, i)
  }

  /** A kept name compares equal to a backend exactly if it is that backend. */
  lemma KeptNameMatches(kept: string, backend: string)
    requires CString(kept) && CString(backend) && |kept| < HW_SESSION_NAME_MAX
    ensures SameName(kept, backend) <==> kept == backend
  {
    if SameName(kept, backend) {
      assert CharAt(kept, |kept|) == CharAt(backend, |kept|);
      assert |backend| < |kept| ==> CharAt(kept, |backend|) == CharAt(backend, |backend|);
      assert |kept| == |backend|;
      forall i | 0 <= i < |kept| ensures kept[i] == backend[i] {
        assert CharAt(kept, i) == CharAt(backend, i);
      }
    }
  }

  /** The first slot found by a name. */
  function Find(slots: seq<Slot>, backend: string): (i: nat)
    ensures i <= |slots|
    ensures i < |slots| ==> SameName(slots[i].name, backend)
    ensures forall k | 0 <= k < i :: !SameName(slots[k].name, backend)
  {
    FindFrom(slots, backend, 0)
  }

  function FindFrom(slots: seq<Slot>, backend: string, from: nat): (i: nat)
    requires from <= |slots|
    ensures from <= i <= |slots|
    ensures i < |slots| ==> SameName(slots[i].name, backend)
    ensures forall k | from <= k < i :: !SameName(slots[k].name, backend)
    decreases |slots| - from
  {
    if from == |slots| || SameName(slots[from].name, backend) then from else FindFrom(slots, backend, from + 1)
  }

  /** Slots are taken from the front and never given back except within the call that took them, so the
      slots in use are a list. */
  function Acquire(slots: seq<Slot>, call: Call): (r: (seq<Slot>, Option<nat>)) {
    if call.backend == "" then (slots, None)
    else
      var i := Find(slots, call.backend);
      if i < |slots| then (slots[i := slots[i].(refcount := slots[i].refcount + 1)], Some(i))
      else if |slots| >= HW_SESSION_MAX_BACKENDS || !call.connects || !call.starts then (slots, None)
      else (slots + [Slot(Kept(call.backend), call.backend, 1)], Some(i))
  }

  /** The slots after some calls, and what each call was given. */
  function Run(calls: seq<Call>): (r: (seq<Slot>, seq<Option<nat>>))
    ensures |r.1| == |calls|
  {
    if calls == [] then ([], [])
    else
      var (slots, handles) := Run(calls[..|calls| - 1]);
      var (slots', h) := Acquire(slots, calls[|calls| - 1]);
      (slots', handles + [h])
  }

  function Slots(calls: seq<Call>): seq<Slot> {
    Run(calls).0
  }

  function Handles(calls: seq<Call>): seq<Option<nat>> {
    Run(calls).1
  }

  predicate CStrings(calls: seq<Call>) {
    forall c | c in calls :: CString(c.backend)
  }

  /** How many calls were answered with a handle. */
  function Granted(handles: seq<Option<nat>>, h: nat): nat {
    if handles == [] then 0
    else Granted(handles[..|handles| - 1], h) + if handles[|handles| - 1] == Some(h) then 1 else 0
  }

  /** A handle leads to the slot opened for the name or, for a name that fits, to the one it is found by. */
  predicate HandleFits(slots: seq<Slot>, backend: string, h: nat) {
    && h < |slots|
    && if |backend| < HW_SESSION_NAME_MAX then slots[h].name == backend && Find(slots, backend) == h
       else slots[h].probe == backend
  }

  ghost predicate SlotsOk(slots: seq<Slot>) {
    && |slots| <= HW_SESSION_MAX_BACKENDS
    && (forall i | 0 <= i < |slots| :: SlotOk(slots, i))
  }

  predicate SlotOk(slots: seq<Slot>, i: nat)
    requires i < |slots|
  {
    && slots[i].name == Kept(slots[i].probe) && CString(slots[i].probe)
    && (|slots[i].probe| < HW_SESSION_NAME_MAX ==> Find(slots, slots[i].probe) == i)
  }

  ghost predicate HandlesOk(slots: seq<Slot>, calls: seq<Call>, handles: seq<Option<nat>>)
    requires |handles| == |calls|
  {
    forall k | 0 <= k < |calls| && handles[k].Some? :: HandleFits(slots, calls[k].backend, handles[k].value)
  }

  ghost predicate CountsOk(slots: seq<Slot>, handles: seq<Option<nat>>) {
    && (forall i | 0 <= i < |slots| :: slots[i].refcount == Granted(handles, i))
    && (forall i | i >= |slots| :: Granted(handles, i) == 0)
  }

  ghost predicate RunInv(calls: seq<Call>) {
    && SlotsOk(Slots(calls)) && HandlesOk(Slots(calls), calls, Handles(calls))
    && CountsOk(Slots(calls), Handles(calls))
  }

  /** The names and probes of `more` begin with those of `slots`. */
  predicate Extends(slots: seq<Slot>, more: seq<Slot>) {
    |slots| <= |more| &&
    forall i | 0 <= i < |slots| :: more[i].name == slots[i].name && more[i].probe == slots[i].probe
  }

  lemma FindIsStable(slots: seq<Slot>, more: seq<Slot>, backend: string)
    requires Extends(slots, more)
    ensures Find(slots, backend) < |slots| ==> Find(more, backend) == Find(slots, backend)
    ensures Find(slots, backend) == |slots| ==> Find(more, backend) >= |slots|
  {
    hide Find, SameName;
    assert forall k | 0 <= k < |slots| :: more[k].name == slots[k].name;
  }

  lemma FoundByItsName(slots: seq<Slot>, backend: string)
    requires SlotsOk(slots) && CString(backend) && Find(slots, backend) < |slots|
    ensures slots[Find(slots, backend)].name == backend && |backend| < HW_SESSION_NAME_MAX
  {
    hide Find, SameName;
    var i := Find(slots, backend);
    assert SlotOk(slots, i);
    KeptNameMatches(slots[i].name, backend);
  }

  /** A new slot for a name that fits is found by that name. */
  lemma NewSlotIsFound(slots: seq<Slot>, slot: Slot)
    requires CString(slot.probe) && slot.name == Kept(slot.probe) && |slot.probe| < HW_SESSION_NAME_MAX
    requires Find(slots, slot.probe) == |slots|
    ensures Find(slots + [slot], slot.probe) == |slots|
  {
    hide SameName, Find;
    KeptNameMatches(slot.name, slot.probe);
    FindIsStable(slots, slots + [slot], slot.probe);
    assert (slots + [slot])[|slots|] == slot;
  }

  lemma AcquireKeepsSlots(slots: seq<Slot>, call: Call)
    requires SlotsOk(slots) && CString(call.backend)
    ensures SlotsOk(Acquire(slots, call).0) && Extends(slots, Acquire(slots, call).0)
    ensures Acquire(slots, call).1.Some? ==>
              HandleFits(Acquire(slots, call).0, call.backend, Acquire(slots, call).1.value)
  {
    hide Find, SameName, CString;
    var (more, h) := Acquire(slots, call);
    assert Extends(slots, more);
    if Find(slots, call.backend) < |slots| {
      FoundByItsName(slots, call.backend);
    } else if h.Some? && |call.backend| < HW_SESSION_NAME_MAX {
      NewSlotIsFound(slots, Slot(Kept(call.backend), call.backend, 1));
    }
    FindIsStable(slots, more, call.backend);
    forall i | 0 <= i < |more| ensures SlotOk(more, i) {
      if i < |slots| {
        assert SlotOk(slots, i);
        FindIsStable(slots, more, slots[i].probe);
      }
    }
  }

  lemma HandlesStayFit(slots: seq<Slot>, more: seq<Slot>, calls: seq<Call>, handles: seq<Option<nat>>)
    requires |handles| == |calls| && HandlesOk(slots, calls, handles) && Extends(slots, more)
    ensures HandlesOk(more, calls, handles)
  {
    hide Find;
    forall k | 0 <= k < |calls| && handles[k].Some? ensures HandleFits(more, calls[k].backend, handles[k].value) {
      FindIsStable(slots, more, calls[k].backend);
    }
  }

  lemma GrantedGrows(handles: seq<Option<nat>>, h: Option<nat>, i: nat)
    ensures Granted(handles + [h], i) == Granted(handles, i) + if h == Some(i) then 1 else 0
  {
    assert (handles + [h])[..|handles|] == handles;
  }

  lemma AcquireKeepsCounts(slots: seq<Slot>, call: Call, handles: seq<Option<nat>>)
    requires CountsOk(slots, handles)
    ensures CountsOk(Acquire(slots, call).0, handles + [Acquire(slots, call).1])
  {
    hide Find, Granted;
    forall i: nat {
      GrantedGrows(handles, Acquire(slots, call).1, i);
    }
  }

  lemma {:induction false} RunKeepsInv(calls: seq<Call>)
    requires CStrings(calls)
    ensures RunInv(calls)
  {
    if calls == [] {
      assert Slots([]) == [] && Handles([]) == [];
    } else {
      var init, last := calls[..|calls| - 1], calls[|calls| - 1];
      assert last in calls && forall c | c in init :: c in calls;
      RunKeepsInv(init);
      AcquireKeepsSlots(Slots(init), last);
      AcquireKeepsCounts(Slots(init), last, Handles(init));
      hide Acquire, SlotsOk, CountsOk, HandleFits;
      HandlesStayFit(Slots(init), Slots(calls), init, Handles(init));
      assert Handles(calls) == Handles(init) + [Acquire(Slots(init), last).1];
    }
  }

  lemma {:induction false} HandlesArePrefix(calls: seq<Call>, k: nat)
    requires k <= |calls|
    ensures Handles(calls[..k]) == Handles(calls)[..k]
  {
    hide Acquire;
    if k == |calls| {
      assert calls[..k] == calls;
    } else {
      HandlesArePrefix(calls[..|calls| - 1], k);
      assert calls[..|calls| - 1][..k] == calls[..k];
    }
  }

  /** A granted handle was a slot when it was given out; a name too long to be found gets a new one. */
  lemma LongNameGetsNewSlot(calls: seq<Call>, i: nat, j: nat)
    requires CStrings(calls) && i < j < |calls| && Handles(calls)[i].Some? && Handles(calls)[j].Some?
    requires |calls[j].backend| >= HW_SESSION_NAME_MAX
    ensures Handles(calls)[i].value < Handles(calls)[j].value
  {
    var upto := calls[..j + 1];
    assert upto[..j] == calls[..j];
    HandlesArePrefix(calls, j);
    HandlesArePrefix(calls, j + 1);
    assert Handles(upto)[j] == Handles(calls)[j] && Handles(calls[..j])[i] == Handles(calls)[i];
    RunKeepsInv(calls[..j]);
    assert calls[j] in calls;
    hide Find;
    if Find(Slots(calls[..j]), calls[j].backend) < |Slots(calls[..j])| {
      FoundByItsName(Slots(calls[..j]), calls[j].backend);
    }
    assert HandleFits(Slots(calls[..j]), calls[..j][i].backend, Handles(calls[..j])[i].value);
  }

  /** Every slot was opened by a call that got it. */
  ghost predicate Opened(slots: seq<Slot>, calls: seq<Call>, handles: seq<Option<nat>>)
    requires |handles| == |calls|
  {
    forall h | 0 <= h < |slots| :: OpenedBy(slots, calls, handles, h)
  }

  ghost predicate OpenedBy(slots: seq<Slot>, calls: seq<Call>, handles: seq<Option<nat>>, h: nat)
    requires |handles| == |calls| && h < |slots|
  {
    exists k | 0 <= k < |calls| :: handles[k] == Some(h) && calls[k].backend == slots[h].probe
  }

  lemma {:induction false} SlotsAreOpened(calls: seq<Call>)
    ensures Opened(Slots(calls), calls, Handles(calls))
  {
    hide Find;
    if calls != [] {
      var n := |calls| - 1;
      var init, before, after := calls[..n], Slots(calls[..n]), Slots(calls);
      SlotsAreOpened(init);
      assert Handles(calls) == Handles(init) + [Acquire(before, calls[n]).1];
      forall h: nat | h < |after| ensures OpenedBy(after, calls, Handles(calls), h) {
        if h < |before| {
          assert OpenedBy(before, init, Handles(init), h);
          var k :| 0 <= k < |init| && Handles(init)[k] == Some(h) && init[k].backend == before[h].probe;
          assert Handles(calls)[k] == Some(h) && calls[k].backend == after[h].probe;
        } else {
          assert Handles(calls)[n] == Some(h) && calls[n].backend == after[h].probe;
        }
      }
    }
  }

  /** A call before another, as the later one finds the registry. */
  lemma AtThatTime(calls: seq<Call>, j: nat)
    requires CStrings(calls) && j < |calls|
    ensures CStrings(calls[..j]) && RunInv(calls[..j])
    ensures Handles(calls[..j]) == Handles(calls)[..j]
    ensures Handles(calls)[j] == Acquire(Slots(calls[..j]), calls[j]).1
    ensures Opened(Slots(calls[..j]), calls[..j], Handles(calls)[..j])
    ensures |Slots(calls[..j])| <= HW_SESSION_MAX_BACKENDS
  {
    hide Acquire, RunInv, CountsOk, HandlesOk;
    assert forall c | c in calls[..j] :: c in calls;
    RunKeepsInv(calls[..j]);
    HandlesArePrefix(calls, j);
    HandlesArePrefix(calls, j + 1);
    SlotsAreOpened(calls[..j]);
    var upto := calls[..j + 1];
    assert upto[..j] == calls[..j] && upto[j] == calls[j];
    assert Handles(upto)[j] == Handles(calls)[j];
    assert |Slots(calls[..j])| <= HW_SESSION_MAX_BACKENDS by { assert RunInv(calls[..j]); InvIsBounded(calls[..j]); }
  }

  lemma InvIsBounded(calls: seq<Call>)
    requires RunInv(calls)
    ensures |Slots(calls)| <= HW_SESSION_MAX_BACKENDS
  {
  }

  /** A call before the j-th got a handle under a name that is kept as this one. */
  ghost predicate KeptBefore(calls: seq<Call>, j: nat, name: string)
    requires j <= |calls|
  {
    exists i | 0 <= i < j :: Handles(calls)[i].Some? && Kept(calls[i].backend) == name
  }

  /** The name of a slot given out is the kept name of the call that got it. */
  lemma HandleHasKeptName(slots: seq<Slot>, backend: string, h: nat)
    requires SlotsOk(slots) && HandleFits(slots, backend, h)
    ensures slots[h].name == Kept(backend)
  {
    hide Find;
    assert SlotOk(slots, h);
  }

  /** A name is found exactly if an earlier call was granted under a name that is kept as it. */
  lemma FoundIff(calls: seq<Call>, j: nat)
    requires CStrings(calls) && j < |calls|
    ensures Find(Slots(calls[..j]), calls[j].backend) < |Slots(calls[..j])| <==> KeptBefore(calls, j, calls[j].backend)
  {
    AtThatTime(calls, j);
    hide Find, Acquire, SameName;
    var slots, name, before := Slots(calls[..j]), calls[j].backend, calls[..j];
    assert calls[j] in calls;
    var h := Find(slots, name);
    if h < |slots| {
      FoundByItsName(slots, name);
      assert OpenedBy(slots, before, Handles(before), h);
      var k :| 0 <= k < j && Handles(before)[k] == Some(h) && before[k].backend == slots[h].probe;
      assert SlotOk(slots, h);
      assert Handles(calls)[k].Some? && Kept(calls[k].backend) == name;
    }
    if KeptBefore(calls, j, name) {
      var i :| 0 <= i < j && Handles(calls)[i].Some? && Kept(calls[i].backend) == name;
      assert HandleFits(slots, before[i].backend, Handles(before)[i].value);
      HandleHasKeptName(slots, before[i].backend, Handles(before)[i].value);
      KeptNameMatches(name, name);
    }
  }

  /** When a call is granted: the empty name never; a name kept by an earlier granted call always, whatever
      probe and thread would do; any other while the last slot was not given out and probe and thread come up. */
  lemma GrantedIff(calls: seq<Call>, j: nat)
    requires CStrings(calls) && j < |calls|
    ensures Handles(calls)[j].Some? <==>
            && calls[j].backend != ""
            && (KeptBefore(calls, j, calls[j].backend)
                || ((forall i | 0 <= i < j :: Handles(calls)[i] != Some(HW_SESSION_MAX_BACKENDS - 1))
                    && calls[j].connects && calls[j].starts))
  {
    AtThatTime(calls, j);
    FoundIff(calls, j);
    LastSlotIff(calls, j);
    hide Find, KeptBefore;
  }

  /** After a grant, the same name of at most 31 characters is granted again and gets the same handle, whatever
      probe and thread would do. */
  lemma FittingNameIsGrantedAgain(calls: seq<Call>, i: nat, j: nat)
    requires CStrings(calls) && i < j < |calls| && calls[i].backend == calls[j].backend
    requires Handles(calls)[i].Some? && |calls[i].backend| <= 31
    ensures Handles(calls)[j] == Handles(calls)[i]
  {
    GrantedIff(calls, i);
    GrantedIff(calls, j);
    assert KeptBefore(calls, j, calls[j].backend) by {
      assert Kept(calls[i].backend) == calls[j].backend;
    }
    SameHandleIffNameFits(calls, i, j);
  }

  lemma LastSlotIff(calls: seq<Call>, j: nat)
    requires CStrings(calls) && j < |calls|
    ensures |Slots(calls[..j])| >= HW_SESSION_MAX_BACKENDS <==>
            exists i | 0 <= i < j :: Handles(calls)[i] == Some(HW_SESSION_MAX_BACKENDS - 1)
  {
    AtThatTime(calls, j);
    hide Find, Acquire, SameName;
    var slots, before, last := Slots(calls[..j]), calls[..j], HW_SESSION_MAX_BACKENDS - 1;
    if |slots| >= HW_SESSION_MAX_BACKENDS {
      assert OpenedBy(slots, before, Handles(before), last);
      var k :| 0 <= k < j && Handles(before)[k] == Some(last) && before[k].backend == slots[last].probe;
      assert Handles(calls)[k] == Some(last);
    }
    if i :| 0 <= i < j && Handles(calls)[i] == Some(last) {
      assert HandleFits(slots, before[i].backend, Handles(before)[i].value);
    }
  }

  /** The header's promise, decided: in any run, a backend acquired again gets the handle it had exactly
      if its name has at most 31 characters. */
  lemma SameHandleIffNameFits(calls: seq<Call>, i: nat, j: nat)
    requires CStrings(calls) && i < j < |calls| && calls[i].backend == calls[j].backend
    requires Handles(calls)[i].Some? && Handles(calls)[j].Some?
    ensures Handles(calls)[i] == Handles(calls)[j] <==> |calls[i].backend| <= HW_SESSION_NAME_MAX - 1
  {
    RunKeepsInv(calls);
    hide Find;
    assert HandleFits(Slots(calls), calls[i].backend, Handles(calls)[i].value);
    assert HandleFits(Slots(calls), calls[j].backend, Handles(calls)[j].value);
    if |calls[i].backend| >= HW_SESSION_NAME_MAX {
      LongNameGetsNewSlot(calls, i, j);
    }
  }

  /** A backend whose name has 32 characters, acquired twice with everything working: two handles. */
  lemma LongNameIsGivenTwoHandles(name: string, calls: seq<Call>)
    requires name == seq(HW_SESSION_NAME_MAX, _ => 'x')
    requires calls == [Call(name, true, true), Call(name, true, true)]
    ensures Handles(calls) == [Some(0), Some(1)]
  {
    hide SameName;
    var first := Slot(Kept(name), name, 1);
    assert calls[..1] == [Call(name, true, true)] && calls[..1][..0] == [];
    assert Run([]) == ([], []);
    assert Find([], name) == 0;
    assert Run(calls[..1]) == ([first], [Some(0)]) by {
      assert [] + [first] == [first] && [] + [Some(0)] == [Some(0)];
    }
    KeptNameMatches(first.name, name);
    assert Find([first], name) == 1;
  }

  /** Two different backends share a handle exactly if the first name is too long, the second is what is kept
      of it, and no call before the first was granted under a name kept the same way. */
  lemma SharedHandleIff(calls: seq<Call>, i: nat, j: nat)
    requires CStrings(calls) && i < j < |calls| && calls[i].backend != calls[j].backend
    requires Handles(calls)[i].Some? && Handles(calls)[j].Some?
    ensures Handles(calls)[i] == Handles(calls)[j] <==>
            && |calls[i].backend| > 31 && calls[j].backend == calls[i].backend[..31]
            && !KeptBefore(calls, i, calls[j].backend)
  {
    RunKeepsInv(calls);
    hide Find, SameName, Acquire;
    var slots, a, b := Slots(calls), calls[i].backend, calls[j].backend;
    var g, h := Handles(calls)[i].value, Handles(calls)[j].value;
    assert HandleFits(slots, a, g) && HandleFits(slots, b, h);
    HandleHasKeptName(slots, a, g);
    HandleHasKeptName(slots, b, h);
    if |a| <= 31 || Kept(a) != b {
      if g == h && |b| > 31 {
        assert slots[h].probe == b;
        LongNameGetsNewSlot(calls, i, j);
      }
    } else {
      LongNameIsFirstIff(calls, i, b);
      assert Find(slots, b) == h;
    }
  }

  /** Any slot there was before a call was opened under a name kept as the slot's. */
  lemma SlotWasOpened(calls: seq<Call>, i: nat, f: nat)
    requires CStrings(calls) && i < |calls| && f < |Slots(calls[..i])|
    ensures f < |Slots(calls)| && KeptBefore(calls, i, Slots(calls)[f].name)
  {
    AtThatTime(calls, i);
    SlotsGrow(calls, i);
    hide Find, Acquire;
    var early, before := Slots(calls[..i]), calls[..i];
    assert OpenedBy(early, before, Handles(before), f);
    var k :| 0 <= k < i && Handles(before)[k] == Some(f) && before[k].backend == early[f].probe;
    assert SlotOk(early, f);
    assert Handles(calls)[k].Some? && Kept(calls[k].backend) == early[f].name;
  }

  /** And every name kept before a call has a slot by then. */
  lemma KeptNameHasSlot(calls: seq<Call>, i: nat, b: string) returns (f: nat)
    requires CStrings(calls) && i < |calls| && KeptBefore(calls, i, b)
    ensures f < |Slots(calls[..i])| <= |Slots(calls)| && Slots(calls)[f].name == b
  {
    AtThatTime(calls, i);
    SlotsGrow(calls, i);
    hide Find, Acquire;
    var early := Slots(calls[..i]);
    var k :| 0 <= k < i && Handles(calls)[k].Some? && Kept(calls[k].backend) == b;
    f := Handles(calls)[k].value;
    assert HandleFits(early, calls[..i][k].backend, Handles(calls[..i])[k].value);
    HandleHasKeptName(early, calls[k].backend, f);
  }

  /** The slot of a name too long to be found is the first found by what is kept of it exactly if no call
      before was granted under a name kept the same way. */
  lemma LongNameIsFirstIff(calls: seq<Call>, i: nat, b: string)
    requires CStrings(calls) && i < |calls| && Handles(calls)[i].Some?
    requires |calls[i].backend| > 31 && b == Kept(calls[i].backend)
    ensures Find(Slots(calls), b) == Handles(calls)[i].value <==> !KeptBefore(calls, i, b)
  {
    FreshSlot(calls, i);
    SlotHasKeptName(calls, i);
    NamesFound(calls, b);
    hide Find, SameName, Acquire, KeptBefore, Run, Kept;
    if KeptBefore(calls, i, b) {
      var f := KeptNameHasSlot(calls, i, b);
    } else {
      var f := Find(Slots(calls), b);
      if f < Handles(calls)[i].value {
        SlotWasOpened(calls, i, f);
        assert false;
      }
    }
  }

  lemma SlotHasKeptName(calls: seq<Call>, i: nat)
    requires CStrings(calls) && i < |calls| && Handles(calls)[i].Some?
    ensures Handles(calls)[i].value < |Slots(calls)|
    ensures Slots(calls)[Handles(calls)[i].value].name == Kept(calls[i].backend)
    ensures CString(Kept(calls[i].backend))
  {
    RunKeepsInv(calls);
    hide Find, Acquire;
    assert calls[i] in calls;
    assert HandleFits(Slots(calls), calls[i].backend, Handles(calls)[i].value);
    HandleHasKeptName(Slots(calls), calls[i].backend, Handles(calls)[i].value);
  }

  /** What is found for a name that fits is the first slot of exactly that name. */
  lemma NamesFound(calls: seq<Call>, b: string)
    requires CStrings(calls) && CString(b)
    ensures var slots, f := Slots(calls), Find(Slots(calls), b);
            && (f < |slots| ==> slots[f].name == b)
            && forall k | 0 <= k < |slots| && slots[k].name == b :: f <= k
  {
    RunKeepsInv(calls);
    hide SameName, Acquire;
    var slots := Slots(calls);
    forall k | 0 <= k < |slots| ensures SameName(slots[k].name, b) <==> slots[k].name == b {
      assert SlotOk(slots, k);
      KeptNameMatches(slots[k].name, b);
    }
  }

  lemma {:induction false} SlotsGrow(calls: seq<Call>, j: nat)
    requires j <= |calls|
    ensures Extends(Slots(calls[..j]), Slots(calls))
  {
    hide Find;
    if j < |calls| {
      SlotsGrow(calls[..|calls| - 1], j);
      assert calls[..|calls| - 1][..j] == calls[..j];
    } else {
      assert calls[..j] == calls;
    }
  }

  /** A call under a name too long to be found opens the next slot. */
  lemma FreshSlot(calls: seq<Call>, i: nat)
    requires CStrings(calls) && i < |calls| && Handles(calls)[i].Some? && |calls[i].backend| > 31
    ensures Handles(calls)[i].value == |Slots(calls[..i])|
  {
    AtThatTime(calls, i);
    hide Find;
    assert calls[i] in calls;
    if Find(Slots(calls[..i]), calls[i].backend) < |Slots(calls[..i])| {
      FoundByItsName(Slots(calls[..i]), calls[i].backend);
    }
  }

  /** A name of 32 characters and then its first 31: two backends, one handle. */
  lemma PrefixSharesTheHandle(calls: seq<Call>)
    requires calls == [Call(seq(32, _ => 'x'), true, true), Call(seq(31, _ => 'x'), true, true)]
    ensures Handles(calls) == [Some(0), Some(0)]
  {
    hide SameName;
    var long, short := calls[0].backend, calls[1].backend;
    var first := Slot(Kept(long), long, 1);
    assert long[..31] == short;
    assert calls[..1] == [calls[0]] && calls[..1][..0] == [];
    assert Run([]) == ([], []);
    assert Find([], long) == 0;
    assert Run(calls[..1]) == ([first], [Some(0)]) by {
      assert [] + [first] == [first] && [] + [Some(0)] == [Some(0)];
    }
    KeptNameMatches(first.name, short);
    assert Find([first], short) == 0;
  }

  /** Backends whose names fit never share a handle. */
  lemma DifferentNamesDifferentHandles(calls: seq<Call>, i: nat, j: nat)
    requires CStrings(calls) && i < |calls| && j < |calls| && calls[i].backend != calls[j].backend
    requires |calls[i].backend| < HW_SESSION_NAME_MAX && |calls[j].backend| < HW_SESSION_NAME_MAX
    requires Handles(calls)[i].Some? && Handles(calls)[j].Some?
    ensures Handles(calls)[i] != Handles(calls)[j]
  {
    RunKeepsInv(calls);
    hide Find;
    assert HandleFits(Slots(calls), calls[i].backend, Handles(calls)[i].value);
    assert HandleFits(Slots(calls), calls[j].backend, Handles(calls)[j].value);
  }

  /** A probe whose name fits is opened once, however often it is acquired, and its slot counts exactly
      the calls that were given it. */
  lemma ProbesAreOpenedOnce(calls: seq<Call>, i: nat, j: nat)
    requires CStrings(calls) && i < j < |Slots(calls)| && |Slots(calls)[i].probe| < HW_SESSION_NAME_MAX
    ensures Slots(calls)[i].probe != Slots(calls)[j].probe
    ensures Slots(calls)[i].refcount == Granted(Handles(calls), i)
  {
    RunKeepsInv(calls);
    hide Find;
    assert SlotOk(Slots(calls), i) && SlotOk(Slots(calls), j);
  }

  // ----- the table of slots -----

  datatype Entry = Entry(inUse: bool, slot: Slot)

  function SlotsOf(entries: seq<Entry>): (slots: seq<Slot>)
    ensures |slots| == |entries|
    ensures forall i | 0 <= i < |slots| :: slots[i] == entries[i].slot
  {
    seq(|entries|, i requires 0 <= i < |entries| => entries[i].slot)
  }

  class Registry {
    const sessions: array<Entry>
    ghost var used: nat

    ghost predicate Valid()
      reads this, sessions
    {
      && sessions.Length == HW_SESSION_MAX_BACKENDS && used <= sessions.Length
      && forall i | 0 <= i < sessions.Length :: sessions[i].inUse <==> i < used
    }

    ghost function Model(): seq<Slot>
      requires Valid()
      reads this, sessions
    {
      SlotsOf(sessions[..used])
    }

    constructor ()
      ensures Valid() && fresh(sessions) && Model() == []
    {
      sessions := new Entry[HW_SESSION_MAX_BACKENDS](_ => Entry(false, Slot("", "", 0)));
      used := 0;
    }

    /** registry_find_locked: the first slot in use whose name compares equal. */
    method FindLocked(backend: string) returns (found: Option<nat>)
      requires Valid()
      ensures found.Some? ==> found.value < used && found.value == Find(Model(), backend)
      ensures found.None? ==> Find(Model(), backend) == used
    {
      hide SameName, Find;
      ghost var slots := Model();
      for k := 0 to sessions.Length
        invariant forall m | 0 <= m < k && m < used :: !SameName(slots[m].name, backend)
      {
        if sessions[k].inUse && SameName(sessions[k].slot.name, backend) {
          return Some(k);
        }
      }
      found := None;
    }

    /** registry_alloc_locked: the first free slot. */
    method AllocLocked(backend: string) returns (i: nat)
      requires Valid()
      modifies this`used, sessions
      ensures i == old(used)
      ensures i < sessions.Length ==>
                Valid() && used == i + 1 && Model() == old(Model()) + [Slot(Kept(backend), "", 0)]
      ensures i == sessions.Length ==> Valid() && Model() == old(Model())
    {
      ghost var before := Model();
      for k := 0 to sessions.Length
        invariant Valid() && k <= used == old(used) && sessions[..] == old(sessions[..])
      {
        if !sessions[k].inUse {
          sessions[k] := Entry(true, Slot(Kept(backend), "", 0));
          used := used + 1;
          assert Model() == before + [Slot(Kept(backend), "", 0)];
          return k;
        }
      }
      i := sessions.Length;
    }

    /** hw_session_acquire */
    method AcquireSession(call: Call) returns (handle: Option<nat>)
      requires Valid()
      modifies this`used, sessions
      ensures Valid() && (Model(), handle) == Acquire(old(Model()), call)
    {
      hide Find, SameName;
      if call.backend == "" {
        return None;
      }
      ghost var before := Model();
      var found := FindLocked(call.backend);
      if found.Some? {
        var i := found.value;
        var slot := sessions[i].slot;
        sessions[i] := Entry(true, slot.(refcount := slot.refcount + 1));
        assert Model() == before[i := before[i].(refcount := before[i].refcount + 1)];
        return Some(i);
      }
      var i := AllocLocked(call.backend);
      if i == sessions.Length {
        return None;
      }
      if !call.connects || !call.starts {
        // the probe is closed again and the slot given back
        sessions[i] := Entry(false, Slot("", "", 0));
        used := used - 1;
        assert Model() == before;
        return None;
      }
      sessions[i] := Entry(true, Slot(Kept(call.backend), call.backend, 1));
      assert Model() == before + [Slot(Kept(call.backend), call.backend, 1)];
      return Some(i);
    }
  }
}

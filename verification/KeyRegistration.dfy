/** Registered key notifications of TegraKeyboardTextIn.c, as lists. */
module KeyRegistration {
  import opened Wrappers
  import opened KeyQueue

  type Function = nat

  /** An entry of the notification list; the handle is the entry's address. */
  datatype Notify = Notify(handle: nat, key: KeyData, fn: Function)

  datatype Call = Call(fn: Function, key: KeyData)

  /** A zero shift or toggle state of the registered key stands for any. */
  predicate IsKeyRegistered(registered: KeyData, input: KeyData)
  {
    && registered.scanCode == input.scanCode && registered.unicodeChar == input.unicodeChar
    && (registered.shiftState != 0 ==> registered.shiftState == input.shiftState)
    && (registered.toggleState != 0 ==> registered.toggleState == input.toggleState)
  }

  /** Exactly which registered keys an input matches. */
  lemma MatchingKeys(scanCode: UInt16, unicodeChar: UInt16, shift: UInt32, toggle: UInt8, input: KeyData)
    ensures IsKeyRegistered(KeyData(scanCode, unicodeChar, shift, toggle), input) <==>
            && input.scanCode == scanCode && input.unicodeChar == unicodeChar
            && shift in {0, input.shiftState} && toggle in {0, input.toggleState}
  {
  }

  predicate Matches(n: Notify, key: KeyData, fn: Function)
  {
    IsKeyRegistered(n.key, key) && n.fn == fn
  }

  /** The index of the first entry that matches, or the length of the list. */
  function FirstMatch(list: seq<Notify>, key: KeyData, fn: Function): (r: nat)
    ensures r <= |list|
    ensures r < |list| ==> Matches(list[r], key, fn)
    ensures forall i :: 0 <= i < r ==> !Matches(list[i], key, fn)
  {
    if list == [] || Matches(list[0], key, fn) then 0 else 1 + FirstMatch(list[1..], key, fn)
  }

  /** Handles are distinct addresses, and no entry matches what a later one registers. */
  ghost predicate WellFormed(list: seq<Notify>)
  {
    && (forall i :: 0 <= i < |list| ==> list[i].handle != 0)
    && (forall i, j :: 0 <= i < j < |list| ==> list[i].handle != list[j].handle)
    && (forall i, j :: 0 <= i < j < |list| ==> !Matches(list[i], list[j].key, list[j].fn))
  }

  // ---------- Registering and unregistering ----------

  datatype Registered = Registered(list: seq<Notify>, handle: Option<nat>)

  /** The list and the handle after registering; `address` is what the allocator returns. */
  function Register(list: seq<Notify>, key: KeyData, fn: Function, address: Option<nat>): Registered
  {
    var i := FirstMatch(list, key, fn);
    if i < |list| then Registered(list, Some(list[i].handle))
    else if address.None? then Registered(list, None)
    else Registered(list + [Notify(address.value, key, fn)], address)
  }

  ghost predicate IsFreshAddress(list: seq<Notify>, address: Option<nat>)
  {
    address.Some? ==> address.value != 0 && forall i :: 0 <= i < |list| ==> list[i].handle != address.value
  }

  lemma RegisterKeepsWellFormed(list: seq<Notify>, key: KeyData, fn: Function, address: Option<nat>)
    requires WellFormed(list) && IsFreshAddress(list, address)
    ensures WellFormed(Register(list, key, fn, address).list)
  {
  }

  lemma FirstMatchIs(list: seq<Notify>, key: KeyData, fn: Function, r: nat)
    requires r < |list| && Matches(list[r], key, fn)
    requires forall i :: 0 <= i < r ==> !Matches(list[i], key, fn)
    ensures FirstMatch(list, key, fn) == r
  {
  }

  /** Registering the same key and function again changes nothing and gives the same handle. */
  lemma RegisterIsIdempotent(list: seq<Notify>, key: KeyData, fn: Function, address: Option<nat>, address': Option<nat>)
    requires Register(list, key, fn, address).handle.Some?
    ensures var first := Register(list, key, fn, address); Register(first.list, key, fn, address') == first
  {
    var first := Register(list, key, fn, address);
    if FirstMatch(list, key, fn) == |list| {
      FirstMatchIs(first.list, key, fn, |list|);
    }
  }

  /** What no entry matches is appended, under the given address; a failing allocator changes nothing. */
  lemma RegisterAppends(list: seq<Notify>, key: KeyData, fn: Function, address: Option<nat>)
    requires forall i :: 0 <= i < |list| ==> !(IsKeyRegistered(list[i].key, key) && list[i].fn == fn)
    ensures Register(list, key, fn, address)
         == Registered(if address.Some? then list + [Notify(address.value, key, fn)] else list, address)
  {
  }

  /** Otherwise the list stays, and the handle is that of the first such entry. */
  lemma RegisterFinds(before: seq<Notify>, n: Notify, after: seq<Notify>, key: KeyData, fn: Function,
                      address: Option<nat>)
    requires forall m :: m in before ==> !(IsKeyRegistered(m.key, key) && m.fn == fn)
    requires IsKeyRegistered(n.key, key) && n.fn == fn
    ensures Register(before + [n] + after, key, fn, address) == Registered(before + [n] + after, Some(n.handle))
  {
    var list := before + [n] + after;
    assert forall i :: 0 <= i < |before| ==> list[i] == before[i] && before[i] in before;
    FirstMatchIs(list, key, fn, |before|);
  }

  /** The index of the entry with the handle, or the length of the list. */
  function Find(list: seq<Notify>, handle: nat): (r: nat)
    ensures r <= |list|
    ensures r < |list| ==> list[r].handle == handle
    ensures forall i :: 0 <= i < r ==> list[i].handle != handle
  {
    if list == [] || list[0].handle == handle then 0 else 1 + Find(list[1..], handle)
  }

  function Unregister(list: seq<Notify>, handle: nat): Option<seq<Notify>>
  {
    var i := Find(list, handle);
    if handle != 0 && i < |list| then Some(list[..i] + list[i + 1..]) else None
  }

  lemma UnregisterKeepsWellFormed(list: seq<Notify>, handle: nat)
    requires WellFormed(list) && Unregister(list, handle).Some?
    ensures WellFormed(Unregister(list, handle).value)
    ensures forall i :: 0 <= i < |Unregister(list, handle).value| ==> Unregister(list, handle).value[i].handle != handle
  {
  }

  lemma FindIs(list: seq<Notify>, handle: nat, r: nat)
    requires r < |list| && list[r].handle == handle && forall i :: 0 <= i < r ==> list[i].handle != handle
    ensures Find(list, handle) == r
  {
  }

  /** Exactly the entry with the handle goes, wherever it stands. */
  lemma UnregisterRemovesOne(before: seq<Notify>, n: Notify, after: seq<Notify>)
    requires n.handle != 0 && forall m :: m in before ==> m.handle != n.handle
    ensures Unregister(before + [n] + after, n.handle) == Some(before + after)
  {
    var list := before + [n] + after;
    assert forall i :: 0 <= i < |before| ==> list[i] == before[i] && before[i] in before;
    FindIs(list, n.handle, |before|);
    assert list[..|before|] == before && list[|before| + 1..] == after;
  }

  /** It fails exactly for the null handle and for handles that no entry has. */
  lemma UnregisterFailsIff(list: seq<Notify>, handle: nat)
    ensures Unregister(list, handle) == None <==> handle == 0 || forall n :: n in list ==> n.handle != handle
  {
    var i := Find(list, handle);
    if i < |list| {
      assert list[i] in list;
    }
  }

  /** Unregistering a handle that was newly assigned restores the list. */
  lemma UnregisterUndoesRegister(list: seq<Notify>, key: KeyData, fn: Function, address: nat)
    requires WellFormed(list) && IsFreshAddress(list, Some(address)) && FirstMatch(list, key, fn) == |list|
    ensures Unregister(Register(list, key, fn, Some(address)).list, address) == Some(list)
  {
    var longer := Register(list, key, fn, Some(address)).list;
    FindIs(longer, address, |list|);
    assert longer[..|list|] + longer[|list| + 1..] == list;
  }

  // ---------- Presses and callbacks ----------

  /** The callbacks for one key, in list order. */
  function Calls(list: seq<Notify>, key: KeyData): seq<Call>
  {
    if list == [] then []
    else (if IsKeyRegistered(list[0].key, key) then [Call(list[0].fn, key)] else []) + Calls(list[1..], key)
  }

  /** The callbacks for a queue of keys. */
  function CallsForAll(list: seq<Notify>, keys: seq<KeyData>): seq<Call>
  {
    if keys == [] then [] else Calls(list, keys[0]) + CallsForAll(list, keys[1..])
  }

  lemma {:induction false} CallsOfConcat(a: seq<Notify>, b: seq<Notify>, key: KeyData)
    ensures Calls(a + b, key) == Calls(a, key) + Calls(b, key)
  {
    if a == [] {
      assert a + b == b;
    } else {
      assert (a + b)[0] == a[0] && (a + b)[1..] == a[1..] + b;
      CallsOfConcat(a[1..], b, key);
    }
  }

  /**
   A pressed key calls the function of an entry, with the key itself, exactly when scan
   code and character are the same and each of the states is the same or registered
   as zero. The calls are those of the entries, in order.
   */
  lemma CallsOfEntry(before: seq<Notify>, n: Notify, after: seq<Notify>, key: KeyData)
    ensures var matches := && n.key.scanCode == key.scanCode && n.key.unicodeChar == key.unicodeChar
                           && (n.key.shiftState == 0 || n.key.shiftState == key.shiftState)
                           && (n.key.toggleState == 0 || n.key.toggleState == key.toggleState);
            Calls(before + [n] + after, key)
            == Calls(before, key) + (if matches then [Call(n.fn, key)] else []) + Calls(after, key)
  {
    CallsOfConcat(before + [n], after, key);
    CallsOfConcat(before, [n], key);
    assert Calls([n], key) == (if IsKeyRegistered(n.key, key) then [Call(n.fn, key)] else []) + Calls([], key);
  }

  lemma {:induction false} CallsForAllOfConcat(list: seq<Notify>, a: seq<KeyData>, b: seq<KeyData>)
    ensures CallsForAll(list, a + b) == CallsForAll(list, a) + CallsForAll(list, b)
  {
    if a == [] {
      assert a + b == b;
    } else {
      assert (a + b)[0] == a[0] && (a + b)[1..] == a[1..] + b;
      CallsForAllOfConcat(list, a[1..], b);
    }
  }

  function Copies(key: KeyData, n: nat): (r: seq<KeyData>)
    ensures |r| == n && forall i :: 0 <= i < n ==> r[i] == key
  {
    if n == 0 then [] else Copies(key, n - 1) + [key]
  }

  function Repeat(calls: seq<Call>, n: nat): seq<Call>
  {
    if n == 0 then [] else calls + Repeat(calls, n - 1)
  }

  lemma {:induction false} CallsForCopies(list: seq<Notify>, keys: seq<KeyData>, key: KeyData)
    requires forall i :: 0 <= i < |keys| ==> keys[i] == key
    ensures CallsForAll(list, keys) == Repeat(Calls(list, key), |keys|)
  {
    if keys == [] {
    } else {
      CallsForCopies(list, keys[1..], key);
    }
  }

  lemma {:induction false} RepeatMultiplies(calls: seq<Call>, n: nat, call: Call)
    ensures multiset(Repeat(calls, n))[call] == n * multiset(calls)[call]
  {
    if n == 0 {
    } else {
      RepeatMultiplies(calls, n - 1, call);
      assert n * multiset(calls)[call] == (n - 1) * multiset(calls)[call] + multiset(calls)[call];
    }
  }

  /** How often a key is queued for `m` matching entries. */
  function Rounds(m: nat): nat
  {
    if m < MAX_COUNT then m else MAX_COUNT - 1
  }

  /** The callbacks made after a press, when the notification queue was empty before. */
  function CallsAfterPress(list: seq<Notify>, key: KeyData): seq<Call>
  {
    CallsForAll(list, PushedAll([], Copies(key, |Calls(list, key)|)))
  }

  lemma CallsAfterPressRepeat(list: seq<Notify>, key: KeyData)
    ensures CallsAfterPress(list, key) == Repeat(Calls(list, key), Rounds(|Calls(list, key)|))
  {
    var copies := Copies(key, |Calls(list, key)|);
    PushedAllIsNewest([], copies);
    assert [] + copies == copies;
    CallsForCopies(list, PushedAll([], copies), key);
  }

  /**
   A key is queued once for each matching entry, and each queued key calls all of
   them: a press with `m` matches makes every one of its callbacks `m` times (255
   times when there are more).
   */
  lemma PressCallsEachMatch(list: seq<Notify>, key: KeyData, call: Call)
    ensures multiset(CallsAfterPress(list, key))[call]
            == Rounds(|Calls(list, key)|) * multiset(Calls(list, key))[call]
  {
    CallsAfterPressRepeat(list, key);
    RepeatMultiplies(Calls(list, key), Rounds(|Calls(list, key)|), call);
  }

  lemma {:induction false} RepeatLength(calls: seq<Call>, n: nat)
    ensures |Repeat(calls, n)| == n * |calls|
  {
    if n == 0 {
    } else {
      RepeatLength(calls, n - 1);
      assert n * |calls| == (n - 1) * |calls| + |calls|;
    }
  }

  /** Hence each matching callback is made exactly once just when one entry matches. */
  lemma PressCallsOnce(list: seq<Notify>, key: KeyData)
    requires Calls(list, key) != []
    ensures CallsAfterPress(list, key) == Calls(list, key) <==> |Calls(list, key)| == 1
  {
    var calls := Calls(list, key);
    var rounds := Rounds(|calls|);
    CallsAfterPressRepeat(list, key);
    RepeatLength(calls, rounds);
    if |calls| == 1 {
      assert Repeat(calls, 1) == calls + Repeat(calls, 0);
    } else {
      assert rounds * |calls| >= 2 * |calls|;
    }
  }
}

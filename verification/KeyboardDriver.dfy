/** The console input device of TegraKeyboardTextIn.c, TegraKeyboard.c and TegraKeyboardController.c. */
module KeyboardDriver {
  import opened Wrappers
  import opened KeyQueue
  import opened KeyRegistration
  import opened Bits

  datatype Status = Success | NotReady | DeviceError | InvalidParameter | OutOfResources

  /** The modifier and lock flags of the device. */
  datatype Indicator =
    | CapsLock | NumLock | ScrollLock
    | LeftCtrl | RightCtrl | LeftAlt | RightAlt | LeftShift | RightShift | LeftLogo | RightLogo
    | Menu | SysReq

  datatype InputKey = InputKey(scanCode: UInt16, unicodeChar: UInt16)

  const SCAN_NULL: UInt16 := 0
  const CHAR_NULL: UInt16 := 0

  /** A keystroke that only changes the shift or toggle state. */
  predicate IsPartial(key: KeyData)
  {
    key.scanCode == SCAN_NULL && key.unicodeChar == CHAR_NULL
  }

  // ---------- What is read ----------

  /** Bits 2 and 3 of the shift state: right and left control. */
  predicate IsControlPressed(shiftState: UInt32)
  {
    shiftState / 4 % 4 != 0
  }

  /** Control with a letter gives the control code of the letter, 1 to 26. */
  function Translated(key: KeyData): InputKey
  {
    var c := key.unicodeChar;
    var translated: UInt16 :=
      if !IsControlPressed(key.shiftState) then c
      else if 'a' as int <= c <= 'z' as int then c - 'a' as int + 1
      else if 'A' as int <= c <= 'Z' as int then c - 'A' as int + 1
      else c;
    InputKey(key.scanCode, translated)
  }

  /**
   What a read should make of a key: with a control key down, that is with bit 2 or 3 of
   the shift state set, a letter gives its control code, the low five bits of its
   ASCII code; every other character, and the scan code, stay.
   */
  ghost predicate IsTranslation(key: KeyData, read: InputKey)
  {
    var c := key.unicodeChar;
    var control := Shr(key.shiftState, 2) % 2 == 1 || Shr(key.shiftState, 3) % 2 == 1;
    && read.scanCode == key.scanCode
    && read.unicodeChar == if control && (65 <= c <= 90 || 97 <= c <= 122) then c % 32 else c
  }

  lemma TranslatedIsTranslation(key: KeyData)
    ensures IsTranslation(key, Translated(key))
  {
    var s := key.shiftState;
    assert Shr(s, 2) == Shr(s / 2, 1) == Shr(s / 2 / 2, 0) == s / 4;
    assert Shr(s, 3) == Shr(s / 2, 2) == Shr(s / 2 / 2, 1) == Shr(s / 2 / 2 / 2, 0) == s / 8;
  }

  /** Control with A to Z, in either case, gives 1 to 26 in order. */
  lemma ControlCodes(key: KeyData, i: nat)
    requires i < 26 && Shr(key.shiftState, 2) % 2 == 1
    ensures key.unicodeChar in {65 + i, 97 + i} ==> Translated(key) == InputKey(key.scanCode, 1 + i)
  {
    TranslatedIsTranslation(key);
  }

  /** The keys without the partial ones in front. */
  function WithoutLeadingPartials(keys: seq<KeyData>): (r: seq<KeyData>)
    ensures r == [] || !IsPartial(r[0])
  {
    if keys != [] && IsPartial(keys[0]) then WithoutLeadingPartials(keys[1..]) else keys
  }

  /** Skipping drops partial keys only, and nothing behind the first full key. */
  lemma {:induction false} SkippedAreLeadingPartials(keys: seq<KeyData>)
    ensures var n := |keys| - |WithoutLeadingPartials(keys)|;
            && 0 <= n && WithoutLeadingPartials(keys) == keys[n..]
            && forall i :: 0 <= i < n ==> IsPartial(keys[i])
    ensures WithoutLeadingPartials(keys) != [] <==> exists i :: 0 <= i < |keys| && !IsPartial(keys[i])
  {
    if keys == [] || !IsPartial(keys[0]) {
    } else {
      SkippedAreLeadingPartials(keys[1..]);
      assert forall i :: 1 <= i < |keys| ==> keys[i] == keys[1..][i - 1];
    }
  }

  /** Only keys with neither a scan code nor a character are skipped. */
  lemma SkipsOnlyEmptyKeys(key: KeyData, rest: seq<KeyData>)
    ensures WithoutLeadingPartials([key] + rest)
         == if key.scanCode == 0 && key.unicodeChar == 0 then WithoutLeadingPartials(rest) else [key] + rest
  {
    assert ([key] + rest)[1..] == rest;
  }

  /** The keys that the device's reports put into the queue. */
  function Accepted(polled: seq<KeyData>, partialSupported: bool): seq<KeyData>
  {
    if polled == [] then []
    else
      var last := polled[|polled| - 1];
      Accepted(polled[..|polled| - 1], partialSupported)
        + (if IsPartial(last) && !partialSupported then [] else [last])
  }

  function AfterPoll(keys: seq<KeyData>, polled: seq<KeyData>, partialSupported: bool): seq<KeyData>
  {
    PushedAll(keys, Accepted(polled, partialSupported))
  }

  lemma AfterPollOfOneMore(keys: seq<KeyData>, polled: seq<KeyData>, i: nat, partialSupported: bool)
    requires i < |polled|
    ensures var before := AfterPoll(keys, polled[..i], partialSupported);
            AfterPoll(keys, polled[..i + 1], partialSupported)
            == if IsPartial(polled[i]) && !partialSupported then before else Pushed(before, polled[i])
  {
    var longer := polled[..i + 1];
    assert longer[..|longer| - 1] == polled[..i] && longer[|longer| - 1] == polled[i];
    var a, b := Accepted(polled[..i], partialSupported), Accepted(longer, partialSupported);
    if IsPartial(polled[i]) && !partialSupported {
      assert b == a;
    } else {
      assert b == a + [polled[i]] && b[..|b| - 1] == a;
    }
  }

  /** How often a reported key is queued for notification. */
  function MatchCount(list: seq<Notify>, key: KeyData, partialSupported: bool): nat
  {
    if IsPartial(key) && !partialSupported then 0 else |Calls(list, key)|
  }

  /** The copies that the device's reports put into the notification queue. */
  function Notified(list: seq<Notify>, polled: seq<KeyData>, partialSupported: bool): seq<KeyData>
  {
    if polled == [] then []
    else
      var last := polled[|polled| - 1];
      Notified(list, polled[..|polled| - 1], partialSupported) + Copies(last, MatchCount(list, last, partialSupported))
  }

  lemma NotifiedOneMore(keys: seq<KeyData>, list: seq<Notify>, polled: seq<KeyData>, i: nat, partialSupported: bool)
    requires i < |polled|
    ensures var copies := Copies(polled[i], MatchCount(list, polled[i], partialSupported));
            var before := Notified(list, polled[..i], partialSupported);
            var after := Notified(list, polled[..i + 1], partialSupported);
            && PushedAll(keys, after) == PushedAll(PushedAll(keys, before), copies)
            && |after| == |before| + |copies|
  {
    var longer := polled[..i + 1];
    assert longer[..|longer| - 1] == polled[..i] && longer[|longer| - 1] == polled[i];
    PushedAllOfConcat(keys, Notified(list, polled[..i], partialSupported),
                      Copies(polled[i], MatchCount(list, polled[i], partialSupported)));
  }

  /** Both queues, and the number of signals, after the device has reported `polled`. */
  ghost predicate IsPolled(start: seq<KeyData>, startNotify: seq<KeyData>, list: seq<Notify>, polled: seq<KeyData>,
                           p: bool, keys: seq<KeyData>, notify: seq<KeyData>, signalled: int)
  {
    && keys == AfterPoll(start, polled, p)
    && notify == PushedAll(startNotify, Notified(list, polled, p))
    && signalled == |Notified(list, polled, p)|
  }

  lemma PolledNone(start: seq<KeyData>, startNotify: seq<KeyData>, list: seq<Notify>, p: bool)
    ensures IsPolled(start, startNotify, list, [], p, start, startNotify, 0)
  {
  }

  lemma PolledOneMore(start: seq<KeyData>, startNotify: seq<KeyData>, list: seq<Notify>, polled: seq<KeyData>, i: nat,
                      p: bool, keys: seq<KeyData>, notify: seq<KeyData>, signalled: int)
    requires i < |polled| && IsPolled(start, startNotify, list, polled[..i], p, keys, notify, signalled)
    ensures var matching := MatchCount(list, polled[i], p);
            IsPolled(start, startNotify, list, polled[..i + 1], p,
                     if IsPartial(polled[i]) && !p then keys else Pushed(keys, polled[i]),
                     PushedAll(notify, Copies(polled[i], matching)), signalled + matching)
  {
    NotifiedOneMore(startNotify, list, polled, i, p);
    AfterPollOfOneMore(start, polled, i, p);
  }

  /** What reading gives and leaves, when the device reports `polls[0]` at the first poll and so on, then nothing. */
  function ReadFrom(keys: seq<KeyData>, polls: seq<seq<KeyData>>, partialSupported: bool)
    : (Option<InputKey>, seq<KeyData>)
    decreases |polls|, |keys|
  {
    var now := if polls == [] then keys else AfterPoll(keys, polls[0], partialSupported);
    if now == [] then (None, [])
    else if IsPartial(now[0]) then ReadFrom(now[1..], if polls == [] then [] else polls[1..], partialSupported)
    else (Some(Translated(now[0])), now[1..])
  }

  /** How many of the device's reports reading takes in. */
  function PollsTaken(keys: seq<KeyData>, polls: seq<seq<KeyData>>, partialSupported: bool): (n: nat)
    ensures n <= |polls|
    decreases |polls|, |keys|
  {
    if polls == [] then 0
    else
      var now := AfterPoll(keys, polls[0], partialSupported);
      if now != [] && IsPartial(now[0]) then 1 + PollsTaken(now[1..], polls[1..], partialSupported) else 1
  }

  /** All keys of the first `n` reports. */
  function Reported(polls: seq<seq<KeyData>>, n: nat): seq<KeyData>
    requires n <= |polls|
  {
    if n == 0 then [] else Reported(polls, n - 1) + polls[n - 1]
  }

  lemma {:induction false} NotifiedOfConcat(list: seq<Notify>, a: seq<KeyData>, b: seq<KeyData>, partialSupported: bool)
    ensures Notified(list, a + b, partialSupported)
         == Notified(list, a, partialSupported) + Notified(list, b, partialSupported)
  {
    if b == [] {
      assert a + b == a;
    } else {
      assert (a + b)[..|a + b| - 1] == a + b[..|b| - 1];
      NotifiedOfConcat(list, a, b[..|b| - 1], partialSupported);
    }
  }

  lemma NotifiedNextPoll(keys: seq<KeyData>, list: seq<Notify>, polls: seq<seq<KeyData>>, n: nat,
                         partialSupported: bool)
    requires n < |polls|
    ensures PushedAll(keys, Notified(list, Reported(polls, n + 1), partialSupported))
         == PushedAll(PushedAll(keys, Notified(list, Reported(polls, n), partialSupported)),
                      Notified(list, polls[n], partialSupported))
  {
    NotifiedOfConcat(list, Reported(polls, n), polls[n], partialSupported);
    PushedAllOfConcat(keys, Notified(list, Reported(polls, n), partialSupported),
                      Notified(list, polls[n], partialSupported));
  }

  lemma ReadStep(keys: seq<KeyData>, polls: seq<seq<KeyData>>, i: nat, polled: seq<KeyData>, partialSupported: bool)
    requires i <= |polls| && polled == if i < |polls| then polls[i] else []
    ensures var now := AfterPoll(keys, polled, partialSupported);
            ReadFrom(keys, polls[i..], partialSupported)
            == if now == [] then (None, [])
               else if IsPartial(now[0]) then
                 ReadFrom(now[1..], polls[if i < |polls| then i + 1 else i..], partialSupported)
               else (Some(Translated(now[0])), now[1..])
    ensures var now := AfterPoll(keys, polled, partialSupported);
            PollsTaken(keys, polls[i..], partialSupported)
            == if i == |polls| then 0
               else if now != [] && IsPartial(now[0]) then 1 + PollsTaken(now[1..], polls[i + 1..], partialSupported)
               else 1
  {
    if i < |polls| {
      assert polls[i..][1..] == polls[i + 1..];
    }
  }

  /** The state of a read after `i` reports: what it will give, leave and have notified is decided by the start. */
  ghost predicate ReadingState(keys0: seq<KeyData>, notify0: seq<KeyData>, list: seq<Notify>, polls: seq<seq<KeyData>>,
                               p: bool, i: nat, keys: seq<KeyData>, notify: seq<KeyData>)
  {
    && i <= |polls| && ReadFrom(keys, polls[i..], p) == ReadFrom(keys0, polls, p)
    && i + PollsTaken(keys, polls[i..], p) == PollsTaken(keys0, polls, p)
    && notify == PushedAll(notify0, Notified(list, Reported(polls, i), p))
  }

  lemma ReadingStarts(keys: seq<KeyData>, notify: seq<KeyData>, list: seq<Notify>, polls: seq<seq<KeyData>>, p: bool)
    ensures ReadingState(keys, notify, list, polls, p, 0, keys, notify)
  {
    assert polls[0..] == polls;
  }

  /** All keys that a whole read puts into the notification queue. */
  function NotifiedByRead(keys: seq<KeyData>, list: seq<Notify>, polls: seq<seq<KeyData>>, p: bool): seq<KeyData>
  {
    Notified(list, Reported(polls, PollsTaken(keys, polls, p)), p)
  }

  lemma NotifyContinues(notify0: seq<KeyData>, list: seq<Notify>, polls: seq<seq<KeyData>>, p: bool,
                        i: nat, polled: seq<KeyData>, notify: seq<KeyData>)
    requires i <= |polls| && polled == if i < |polls| then polls[i] else []
    requires notify == PushedAll(notify0, Notified(list, Reported(polls, i), p))
    ensures PushedAll(notify, Notified(list, polled, p))
         == PushedAll(notify0, Notified(list, Reported(polls, if i < |polls| then i + 1 else i), p))
  {
    if i < |polls| {
      NotifiedNextPoll(notify0, list, polls, i, p);
    }
  }

  lemma ReadingContinues(keys0: seq<KeyData>, notify0: seq<KeyData>, list: seq<Notify>,
                         polls: seq<seq<KeyData>>, p: bool, i: nat, keys: seq<KeyData>, notify: seq<KeyData>,
                         polled: seq<KeyData>, notify': seq<KeyData>)
    requires ReadingState(keys0, notify0, list, polls, p, i, keys, notify)
    requires polled == (if i < |polls| then polls[i] else []) && notify' == PushedAll(notify, Notified(list, polled, p))
    ensures var now := AfterPoll(keys, polled, p);
            if now != [] && IsPartial(now[0])
            then ReadingState(keys0, notify0, list, polls, p, if i < |polls| then i + 1 else i, now[1..], notify')
            else ReadFrom(keys0, polls, p) == (if now == [] then (None, []) else (Some(Translated(now[0])), now[1..]))
                 && notify' == PushedAll(notify0, NotifiedByRead(keys0, list, polls, p))
  {
    ReadStep(keys, polls, i, polled, p);
    NotifyContinues(notify0, list, polls, p, i, polled, notify);
    var now, next := AfterPoll(keys, polled, p), if i < |polls| then i + 1 else i;
    if now == [] || !IsPartial(now[0]) {
      assert PollsTaken(keys0, polls, p) == next;
      assert NotifiedByRead(keys0, list, polls, p) == Notified(list, Reported(polls, next), p);
    }
  }

  /** A report takes in every key, or only those with a scan code or a character. */
  lemma AcceptedKey(before: seq<KeyData>, key: KeyData, partialSupported: bool)
    ensures Accepted(before + [key], partialSupported)
         == Accepted(before, partialSupported)
            + if partialSupported || key.scanCode != 0 || key.unicodeChar != 0 then [key] else []
  {
    assert (before + [key])[..|before|] == before;
  }

  /** With no new keys, reading gives the first full key. */
  lemma {:induction false} ReadWithoutNewKeys(keys: seq<KeyData>, partialSupported: bool)
    ensures var rest := WithoutLeadingPartials(keys);
            ReadFrom(keys, [], partialSupported)
            == if rest == [] then (None, []) else (Some(Translated(rest[0])), rest[1..])
  {
    if keys == [] || !IsPartial(keys[0]) {
    } else {
      ReadWithoutNewKeys(keys[1..], partialSupported);
    }
  }

  lemma {:induction false} AcceptedOfConcat(a: seq<KeyData>, b: seq<KeyData>, partialSupported: bool)
    ensures Accepted(a + b, partialSupported) == Accepted(a, partialSupported) + Accepted(b, partialSupported)
  {
    if b == [] {
      assert a + b == a;
    } else {
      assert (a + b)[..|a + b| - 1] == a + b[..|b| - 1];
      AcceptedOfConcat(a, b[..|b| - 1], partialSupported);
    }
  }

  lemma {:induction false} ReportedFirst(polls: seq<seq<KeyData>>, n: nat)
    requires n < |polls|
    ensures Reported(polls, n + 1) == polls[0] + Reported(polls[1..], n)
  {
    if n == 0 {
      assert Reported(polls, 1) == Reported(polls, 0) + polls[0];
    } else {
      ReportedFirst(polls, n - 1);
      var init, last := Reported(polls[1..], n - 1), polls[n];
      assert Reported(polls, n + 1) == (polls[0] + init) + last;
      assert Reported(polls[1..], n) == init + last;
      assert (polls[0] + init) + last == polls[0] + (init + last);
    }
  }

  /** The keys waiting at the start of a read, and those that the first `n` reports add. */
  function Arrived(keys: seq<KeyData>, polls: seq<seq<KeyData>>, n: nat, partialSupported: bool): seq<KeyData>
    requires n <= |polls|
  {
    keys + Accepted(Reported(polls, n), partialSupported)
  }

  lemma AcceptedFirst(polls: seq<seq<KeyData>>, n: nat, p: bool)
    requires n < |polls|
    ensures Accepted(Reported(polls, n + 1), p)
         == Accepted(Reported(polls, 1), p) + Accepted(Reported(polls[1..], n), p)
  {
    ReportedFirst(polls, n);
    assert Reported(polls, 1) == polls[0] by { ReportedFirst(polls, 0); }
    AcceptedOfConcat(polls[0], Reported(polls[1..], n), p);
  }

  lemma SplitAfterFirst(keys: seq<KeyData>, a: seq<KeyData>, b: seq<KeyData>)
    requires keys + a != []
    ensures keys + (a + b) == (keys + a)[..1] + ((keys + a)[1..] + b)
  {
    assert keys + (a + b) == (keys + a) + b;
  }

  /** After the first report and the first key, the rest of the read sees the rest of what arrives. */
  lemma ArrivedRest(keys: seq<KeyData>, polls: seq<seq<KeyData>>, n: nat, p: bool)
    requires n < |polls| && Arrived(keys, polls, 1, p) != []
    ensures Arrived(keys, polls, n + 1, p)
         == Arrived(keys, polls, 1, p)[..1] + Arrived(Arrived(keys, polls, 1, p)[1..], polls[1..], n, p)
  {
    AcceptedFirst(polls, n, p);
    SplitAfterFirst(keys, Accepted(Reported(polls, 1), p), Accepted(Reported(polls[1..], n), p));
  }

  /** The key queue never overflows during the read: one partial key leaves before each further report. */
  ghost predicate NoOverflow(keys: seq<KeyData>, polls: seq<seq<KeyData>>, p: bool)
  {
    |keys| < MAX_COUNT &&
    forall n :: 1 <= n <= PollsTaken(keys, polls, p) ==> |Arrived(keys, polls, n, p)| - (n - 1) < MAX_COUNT
  }

  lemma FirstPoll(keys: seq<KeyData>, polls: seq<seq<KeyData>>, p: bool)
    requires polls != [] && NoOverflow(keys, polls, p)
    ensures AfterPoll(keys, polls[0], p) == Arrived(keys, polls, 1, p)
  {
    assert PollsTaken(keys, polls, p) > 0;
    assert |Arrived(keys, polls, 1, p)| < MAX_COUNT;
    assert Reported(polls, 1) == Reported(polls, 0) + polls[0] == polls[0];
    PushedAllIsNewest(keys, Accepted(polls[0], p));
  }

  lemma NoOverflowInRest(keys: seq<KeyData>, polls: seq<seq<KeyData>>, p: bool)
    requires polls != [] && NoOverflow(keys, polls, p)
    requires var now := Arrived(keys, polls, 1, p); now != [] && IsPartial(now[0])
    ensures var now := Arrived(keys, polls, 1, p);
            && PollsTaken(keys, polls, p) == 1 + PollsTaken(now[1..], polls[1..], p)
            && NoOverflow(now[1..], polls[1..], p)
  {
    FirstPoll(keys, polls, p);
    var now := Arrived(keys, polls, 1, p);
    forall n | 1 <= n <= PollsTaken(now[1..], polls[1..], p)
      ensures |Arrived(now[1..], polls[1..], n, p)| - (n - 1) < MAX_COUNT
    {
      ArrivedRest(keys, polls, n, p);
      assert |Arrived(keys, polls, n + 1, p)| - n < MAX_COUNT;
    }
  }

  /**
   While the key queue does not overflow, a read during which keys arrive gives the
   first full key of those waiting and those arrived, and leaves all behind it.
   */
  lemma {:induction false} ReadGivesFirstFull(keys: seq<KeyData>, polls: seq<seq<KeyData>>, p: bool)
    requires NoOverflow(keys, polls, p)
    ensures var rest := WithoutLeadingPartials(Arrived(keys, polls, PollsTaken(keys, polls, p), p));
            ReadFrom(keys, polls, p) == if rest == [] then (None, []) else (Some(Translated(rest[0])), rest[1..])
    decreases |polls|
  {
    if polls == [] {
      assert Arrived(keys, polls, 0, p) == keys;
      ReadWithoutNewKeys(keys, p);
    } else {
      FirstPoll(keys, polls, p);
      var now := Arrived(keys, polls, 1, p);
      if now != [] && IsPartial(now[0]) {
        NoOverflowInRest(keys, polls, p);
        var n := PollsTaken(now[1..], polls[1..], p);
        ReadGivesFirstFull(now[1..], polls[1..], p);
        ArrivedRest(keys, polls, n, p);
        assert now[..1] == [now[0]];
        SkipsOnlyEmptyKeys(now[0], Arrived(now[1..], polls[1..], n, p));
      }
    }
  }

  /** The key read is the translation of a key that has a scan code or a character. */
  lemma {:induction false} ReadIsTranslation(keys: seq<KeyData>, polls: seq<seq<KeyData>>, p: bool)
    returns (key: KeyData)
    requires ReadFrom(keys, polls, p).0.Some?
    ensures (key.scanCode != 0 || key.unicodeChar != 0) && IsTranslation(key, ReadFrom(keys, polls, p).0.value)
    decreases |polls|, |keys|
  {
    var now := if polls == [] then keys else AfterPoll(keys, polls[0], p);
    if IsPartial(now[0]) {
      key := ReadIsTranslation(now[1..], if polls == [] then [] else polls[1..], p);
    } else {
      key := now[0];
      TranslatedIsTranslation(key);
    }
  }

  /** Of the keys there after `m` reports, the `m`-th one exists and is partial. */
  predicate NextIsPartial(keys: seq<KeyData>, polls: seq<seq<KeyData>>, m: nat, p: bool)
    requires 1 <= m <= |polls|
  {
    m <= |Arrived(keys, polls, m, p)| && IsPartial(Arrived(keys, polls, m, p)[m - 1])
  }

  lemma NextInRest(keys: seq<KeyData>, polls: seq<seq<KeyData>>, m: nat, p: bool)
    requires 2 <= m <= |polls| && Arrived(keys, polls, 1, p) != []
    ensures NextIsPartial(keys, polls, m, p)
       <==> NextIsPartial(Arrived(keys, polls, 1, p)[1..], polls[1..], m - 1, p)
  {
    ArrivedRest(keys, polls, m - 1, p);
  }

  lemma NoPollsLeft(keys: seq<KeyData>, polls: seq<seq<KeyData>>, p: bool)
    ensures PollsTaken(keys, polls, p) == 0 <==> polls == []
  {
  }

  lemma {:induction false} ReportTaken(keys: seq<KeyData>, polls: seq<seq<KeyData>>, m: nat, p: bool)
    requires NoOverflow(keys, polls, p) && 1 <= m <= PollsTaken(keys, polls, p)
    ensures m < PollsTaken(keys, polls, p) ==> NextIsPartial(keys, polls, m, p)
    ensures m == PollsTaken(keys, polls, p) < |polls| ==> !NextIsPartial(keys, polls, m, p)
    decreases m
  {
    FirstPoll(keys, polls, p);
    var now := Arrived(keys, polls, 1, p);
    if now != [] && IsPartial(now[0]) {
      NoOverflowInRest(keys, polls, p);
      if m == 1 {
        NoPollsLeft(now[1..], polls[1..], p);
      } else {
        ReportTaken(now[1..], polls[1..], m - 1, p);
        NextInRest(keys, polls, m, p);
      }
    }
  }

  /** It takes in a further report exactly as long as the next key is there and partial. */
  lemma ReportsTaken(keys: seq<KeyData>, polls: seq<seq<KeyData>>, p: bool)
    requires NoOverflow(keys, polls, p)
    ensures var n := PollsTaken(keys, polls, p);
            && (forall m :: 1 <= m < n ==> NextIsPartial(keys, polls, m, p))
            && (0 < n < |polls| ==> !NextIsPartial(keys, polls, n, p))
  {
    forall m | 1 <= m <= PollsTaken(keys, polls, p)
      ensures m < PollsTaken(keys, polls, p) ==> NextIsPartial(keys, polls, m, p)
      ensures m == PollsTaken(keys, polls, p) < |polls| ==> !NextIsPartial(keys, polls, m, p)
    {
      ReportTaken(keys, polls, m, p);
    }
  }

  /** Waiting signals exactly when a read would then succeed, and does not change what that read gives. */
  lemma WaitingPredictsReading(keys: seq<KeyData>, partialSupported: bool)
    ensures ReadFrom(WithoutLeadingPartials(keys), [], partialSupported) == ReadFrom(keys, [], partialSupported)
    ensures WithoutLeadingPartials(keys) != [] <==> ReadFrom(keys, [], partialSupported).0.Some?
  {
    ReadWithoutNewKeys(keys, partialSupported);
    ReadWithoutNewKeys(WithoutLeadingPartials(keys), partialSupported);
  }

  lemma OneMoreCopy(keys: seq<KeyData>, key: KeyData, n: nat)
    ensures PushedAll(keys, Copies(key, n + 1)) == Pushed(PushedAll(keys, Copies(key, n)), key)
  {
    assert Copies(key, n + 1)[..n] == Copies(key, n);
  }

  lemma CallsOfFirst(list: seq<Notify>, keys: seq<KeyData>, log: seq<Call>)
    requires keys != []
    ensures log + CallsForAll(list, keys) == (log + Calls(list, keys[0])) + CallsForAll(list, keys[1..])
  {
  }

  lemma CallsFrom(list: seq<Notify>, i: nat, key: KeyData, log: seq<Call>)
    requires i < |list|
    ensures var first := if IsKeyRegistered(list[i].key, key) then [Call(list[i].fn, key)] else [];
            log + Calls(list[i..], key) == (log + first) + Calls(list[i + 1..], key)
            && |Calls(list[i..], key)| == |first| + |Calls(list[i + 1..], key)|
  {
    assert list[i..][1..] == list[i + 1..];
  }

  // ---------- The device ----------

  class ConsoleInDev {
    const queue: EfiKeyQueue
    const notifyQueue: EfiKeyQueue
    var notifyList: seq<Notify>
    var isSupportPartialKey: bool
    /** The flags that are set. */
    var indicators: set<Indicator>
    var keyboardErr: bool
    var last: nat

    /** How often the notification process event has been signalled. */
    ghost var signals: nat
    /** How often the hardware has been reset. */
    ghost var deviceResets: nat
    /** The callbacks made so far. */
    ghost var log: seq<Call>

    ghost const Repr: set<object> := {this, queue, queue.buffer, notifyQueue, notifyQueue.buffer}

    ghost predicate QueuesValid()
      reads Repr
    {
      && queue != notifyQueue && queue.buffer != notifyQueue.buffer
      && queue.Valid() && notifyQueue.Valid()
    }

    ghost predicate Valid()
      reads Repr
    {
      QueuesValid() && KeyRegistration.WellFormed(notifyList)
    }

    ghost function Keys(): seq<KeyData>
      requires queue.Valid()
      reads queue, queue.buffer
    {
      queue.Contents()
    }

    ghost function NotifyKeys(): seq<KeyData>
      requires notifyQueue.Valid()
      reads notifyQueue, notifyQueue.buffer
    {
      notifyQueue.Contents()
    }

    /** The zeroed device of `KeyboardControllerDriverStart`, with an empty list and an all-ones counter. */
    constructor ()
      ensures Valid() && Keys() == [] && NotifyKeys() == [] && notifyList == [] && !keyboardErr
    {
      queue := new EfiKeyQueue();
      notifyQueue := new EfiKeyQueue();
      notifyList := [];
      isSupportPartialKey := false;
      indicators := {};
      keyboardErr := false;
      last := 0xFFFF_FFFF_FFFF_FFFF;
      signals := 0;
      deviceResets := 0;
      log := [];
    }

    /** `InitKeyboard`. */
    method InitKeyboard()
      requires Valid()
      modifies queue, notifyQueue, this`isSupportPartialKey, this`indicators, this`deviceResets
      ensures Valid() && Keys() == [] && NotifyKeys() == [] && !isSupportPartialKey && indicators == {}
      ensures deviceResets == old(deviceResets) + 1
    {
      deviceResets := deviceResets + 1;
      queue.Clear();
      notifyQueue.Clear();
      indicators := {};
      isSupportPartialKey := false;
    }

    /** `KeyboardEfiReset`. */
    method EfiReset() returns (status: Status)
      requires Valid()
      modifies queue, notifyQueue, this`isSupportPartialKey, this`indicators, this`deviceResets
      ensures Valid()
      ensures keyboardErr ==> status == DeviceError && unchanged(this, queue, notifyQueue)
      ensures !keyboardErr ==>
                && status == Success && Keys() == [] && NotifyKeys() == []
                && !isSupportPartialKey && indicators == {} && deviceResets == old(deviceResets) + 1
    {
      if keyboardErr {
        return DeviceError;
      }
      InitKeyboard();
      status := Success;
    }

    /** The walk over the list: one copy of the key, and one signal, for each matching entry. */
    method QueueForMatching(key: KeyData)
      requires QueuesValid()
      modifies notifyQueue, notifyQueue.buffer, this`signals
      ensures QueuesValid() && Keys() == old(Keys())
      ensures NotifyKeys() == PushedAll(old(NotifyKeys()), Copies(key, |Calls(notifyList, key)|))
      ensures signals == old(signals) + |Calls(notifyList, key)|
    {
      ghost var start := NotifyKeys();
      var i := 0;
      ghost var pushed, matching := 0, |Calls(notifyList, key)|;
      assert notifyList[i..] == notifyList;
      while i < |notifyList|
        invariant i <= |notifyList| && QueuesValid() && Keys() == old(Keys())
        invariant pushed + |Calls(notifyList[i..], key)| == matching
        invariant NotifyKeys() == PushedAll(start, Copies(key, pushed))
        invariant signals == old(signals) + pushed
      {
        CallsFrom(notifyList, i, key, []);
        if IsKeyRegistered(notifyList[i].key, key) {
          notifyQueue.PushTail(key);
          OneMoreCopy(start, key, pushed);
          signals := signals + 1;
          pushed := pushed + 1;
        }
        i := i + 1;
      }
      assert pushed == matching;
    }

    /**
     `KeyboardReturnApiPushEfikeyBufTail`: a reported key goes once into the
     notification queue for each matching entry, and once into the key queue.
     */
    method PushEfikeyBufTail(key: KeyData)
      requires QueuesValid()
      modifies queue, queue.buffer, notifyQueue, notifyQueue.buffer, this`signals
      ensures QueuesValid()
      ensures var matching := MatchCount(notifyList, key, isSupportPartialKey);
              && NotifyKeys() == PushedAll(old(NotifyKeys()), Copies(key, matching))
              && signals == old(signals) + matching
      ensures Keys() == if IsPartial(key) && !isSupportPartialKey then old(Keys()) else Pushed(old(Keys()), key)
    {
      if IsPartial(key) {
        if !isSupportPartialKey {
          return;
        }
      }
      QueueForMatching(key);
      queue.PushTail(key);
    }

    /** One more reported key. */
    method PushNext(polled: seq<KeyData>, i: nat, ghost start: seq<KeyData>, ghost startNotify: seq<KeyData>,
                    ghost startSignals: nat)
      requires QueuesValid() && i < |polled|
      requires IsPolled(start, startNotify, notifyList, polled[..i], isSupportPartialKey,
                        Keys(), NotifyKeys(), signals - startSignals)
      modifies queue, queue.buffer, notifyQueue, notifyQueue.buffer, this`signals
      ensures QueuesValid()
      ensures IsPolled(start, startNotify, notifyList, polled[..i + 1], isSupportPartialKey,
                       Keys(), NotifyKeys(), signals - startSignals)
    {
      PolledOneMore(start, startNotify, notifyList, polled, i, isSupportPartialKey,
                    Keys(), NotifyKeys(), signals - startSignals);
      PushEfikeyBufTail(polled[i]);
    }

    /** The device's `GetKeys`: it returns the reported keys one after the other. */
    method GetKeys(polled: seq<KeyData>)
      requires QueuesValid()
      modifies queue, queue.buffer, notifyQueue, notifyQueue.buffer, this`signals
      ensures QueuesValid()
      ensures IsPolled(old(Keys()), old(NotifyKeys()), notifyList, polled, isSupportPartialKey,
                       Keys(), NotifyKeys(), signals - old(signals))
    {
      ghost var start, startNotify := Keys(), NotifyKeys();
      var i := 0;
      PolledNone(start, startNotify, notifyList, isSupportPartialKey);
      assert polled[..0] == [];
      while i < |polled|
        invariant i <= |polled| && QueuesValid()
        invariant IsPolled(start, startNotify, notifyList, polled[..i], isSupportPartialKey,
                           Keys(), NotifyKeys(), signals - old(signals))
      {
        PushNext(polled, i, start, startNotify, old(signals));
        i := i + 1;
      }
      assert polled[..i] == polled;
    }

    /** `KeyboardTimerHandler`: one poll of the device, unless it has failed. */
    method TimerHandler(counter: nat, polled: seq<KeyData>)
      requires Valid()
      modifies queue, queue.buffer, notifyQueue, notifyQueue.buffer, this`signals, this`last
      ensures Valid()
      ensures Keys() == if keyboardErr then old(Keys()) else AfterPoll(old(Keys()), polled, isSupportPartialKey)
      ensures last == if keyboardErr then old(last) else counter
      ensures var notified := if keyboardErr then [] else Notified(notifyList, polled, isSupportPartialKey);
              NotifyKeys() == PushedAll(old(NotifyKeys()), notified) && signals == old(signals) + |notified|
    {
      if keyboardErr {
        return;
      }
      last := counter;
      GetKeys(polled);
    }

    /** `KeyboardReadKeyStrokeWorker`. */
    method ReadKeyStrokeWorker(counter: nat, polled: seq<KeyData>) returns (status: Status, key: Option<KeyData>)
      requires Valid()
      modifies queue, queue.buffer, notifyQueue, notifyQueue.buffer, this`signals, this`last
      ensures Valid()
      ensures NotifyKeys() == PushedAll(old(NotifyKeys()),
                                        if keyboardErr then [] else Notified(notifyList, polled, isSupportPartialKey))
      ensures last == if keyboardErr then old(last) else counter
      ensures keyboardErr ==> status == DeviceError && key == None && Keys() == old(Keys())
      ensures !keyboardErr ==>
                var now := AfterPoll(old(Keys()), polled, isSupportPartialKey);
                if now == [] then status == NotReady && key == None && Keys() == []
                else status == Success && key == Some(now[0]) && Keys() == now[1..]
    {
      TimerHandler(counter, polled);
      if keyboardErr {
        return DeviceError, None;
      }
      key := queue.PopHead();
      status := if key.Some? then Success else NotReady;
    }

    /**
     `KeyboardReadKeyStroke`: `polls` are the reports of the device at the successive
     polls, after which it reports nothing, and `clock` gives the performance counter at
     each of them.
     */
    method ReadKeyStroke(polls: seq<seq<KeyData>>, clock: nat -> nat) returns (status: Status, key: Option<InputKey>)
      requires Valid()
      modifies queue, queue.buffer, notifyQueue, notifyQueue.buffer, this`signals, this`last
      ensures Valid()
      ensures keyboardErr ==> status == DeviceError && key == None
                              && Keys() == old(Keys()) && NotifyKeys() == old(NotifyKeys()) && last == old(last)
      ensures !keyboardErr ==> exists n :: last == clock(n)
      ensures !keyboardErr ==>
                && (key, Keys()) == ReadFrom(old(Keys()), polls, isSupportPartialKey)
                && status == (if key.Some? then Success else NotReady)
                && (key.Some? ==> exists full: KeyData ::
                      (full.scanCode != 0 || full.unicodeChar != 0) && IsTranslation(full, key.value))
                && NotifyKeys() == PushedAll(old(NotifyKeys()),
                                             NotifiedByRead(old(Keys()), notifyList, polls, isSupportPartialKey))
    {
      ghost var keys0, notify0 := Keys(), NotifyKeys();
      ReadingStarts(keys0, notify0, notifyList, polls, isSupportPartialKey);
      var i, time: nat := 0, 0;
      while true
        invariant i <= |polls| && QueuesValid()
        invariant keyboardErr ==> Keys() == keys0 && NotifyKeys() == notify0 && last == old(last)
        invariant !keyboardErr ==>
                    ReadingState(keys0, notify0, notifyList, polls, isSupportPartialKey, i, Keys(), NotifyKeys())
        decreases |polls| - i, |Keys()|
      {
        var polled := if i < |polls| then polls[i] else [];
        ghost var keys, notify := Keys(), NotifyKeys();
        var data;
        status, data := ReadKeyStrokeWorker(clock(time), polled);
        time := time + 1;
        if !keyboardErr {
          ReadingContinues(keys0, notify0, notifyList, polls, isSupportPartialKey, i, keys, notify, polled,
                           NotifyKeys());
        }
        if status != Success {
          return status, None;
        }
        i := if i < |polls| then i + 1 else i;
        if IsPartial(data.value) {
          continue;
        }
        TranslatedIsTranslation(data.value);
        return Success, Some(Translated(data.value));
      }
    }

    /** `KeyboardWaitForKey`: signals the event exactly when a full key is waiting, and drops partial keys before it. */
    method WaitForKey(counter: nat, polled: seq<KeyData>) returns (signalled: bool)
      requires Valid()
      modifies queue, queue.buffer, notifyQueue, notifyQueue.buffer, this`signals, this`last
      ensures Valid()
      ensures NotifyKeys() == PushedAll(old(NotifyKeys()),
                                        if keyboardErr then [] else Notified(notifyList, polled, isSupportPartialKey))
      ensures keyboardErr ==> !signalled && Keys() == old(Keys())
      ensures !keyboardErr ==>
                var now := AfterPoll(old(Keys()), polled, isSupportPartialKey);
                && (signalled <==> exists i :: 0 <= i < |now| && !IsPartial(now[i]))
                && Keys() == WithoutLeadingPartials(now)
    {
      TimerHandler(counter, polled);
      signalled := false;
      if keyboardErr {
        return;
      }
      ghost var now, notifyNow := Keys(), NotifyKeys();
      SkippedAreLeadingPartials(now);
      while !queue.IsEmpty()
        invariant QueuesValid() && WithoutLeadingPartials(Keys()) == WithoutLeadingPartials(now)
        invariant NotifyKeys() == notifyNow
        decreases |Keys()|
      {
        var key := queue.Peek();
        if IsPartial(key) {
          var dropped := queue.PopHead();
          continue;
        }
        signalled := true;
        break;
      }
    }

    /** Waiting, and then reading with no new keys: the event promises the first full key, translated. */
    method WaitThenRead(counter: nat, polled: seq<KeyData>, clock: nat -> nat)
      returns (signalled: bool, key: Option<InputKey>)
      requires Valid()
      modifies queue, queue.buffer, notifyQueue, notifyQueue.buffer, this`signals, this`last
      ensures Valid()
      ensures signalled <==> key.Some?
      ensures keyboardErr ==> !signalled && Keys() == old(Keys())
      ensures !keyboardErr ==>
                var now := AfterPoll(old(Keys()), polled, isSupportPartialKey);
                if signalled then
                  exists i :: 0 <= i < |now| && !IsPartial(now[i]) && (forall j :: 0 <= j < i ==> IsPartial(now[j]))
                              && key.Some? && IsTranslation(now[i], key.value) && Keys() == now[i + 1..]
                else
                  Keys() == [] && forall i :: 0 <= i < |now| ==> IsPartial(now[i])
    {
      ghost var now := AfterPoll(Keys(), polled, isSupportPartialKey);
      signalled := WaitForKey(counter, polled);
      WaitingPredictsReading(now, isSupportPartialKey);
      ReadWithoutNewKeys(now, isSupportPartialKey);
      SkippedAreLeadingPartials(now);
      ghost var n := |now| - |WithoutLeadingPartials(now)|;
      var status;
      status, key := ReadKeyStroke([], clock);
      if !keyboardErr && signalled {
        TranslatedIsTranslation(now[n]);
        assert !IsPartial(now[n]) && IsTranslation(now[n], key.value) && Keys() == now[n + 1..];
      }
    }

    /**
     `KeyboardRegisterKeyNotify`; the options stand for pointers that may be null, and
     `wantsHandle` says that the one for the handle is not.
     */
    method RegisterKeyNotify(key: Option<KeyData>, fn: Option<Function>, wantsHandle: bool, address: Option<nat>)
      returns (status: Status, handle: Option<nat>)
      requires Valid() && IsFreshAddress(notifyList, address)
      modifies this`notifyList
      ensures Valid()
      ensures key.None? || fn.None? || !wantsHandle ==>
                status == InvalidParameter && handle == None && notifyList == old(notifyList)
      ensures key.Some? && fn.Some? && wantsHandle ==>
                && Registered(notifyList, handle) == Register(old(notifyList), key.value, fn.value, address)
                && status == if handle.Some? then Success else OutOfResources
    {
      if key.None? || !wantsHandle || fn.None? {
        return InvalidParameter, None;
      }
      RegisterKeepsWellFormed(notifyList, key.value, fn.value, address);
      var i := 0;
      while i < |notifyList|
        invariant i <= |notifyList| && forall j :: 0 <= j < i ==> !Matches(notifyList[j], key.value, fn.value)
      {
        if IsKeyRegistered(notifyList[i].key, key.value) {
          if notifyList[i].fn == fn.value {
            FirstMatchIs(notifyList, key.value, fn.value, i);
            return Success, Some(notifyList[i].handle);
          }
        }
        i := i + 1;
      }
      assert FirstMatch(notifyList, key.value, fn.value) == |notifyList|;
      if address.None? {
        return OutOfResources, None;
      }
      notifyList := notifyList + [Notify(address.value, key.value, fn.value)];
      return Success, address;
    }

    /** `KeyboardUnregisterKeyNotify`. */
    method UnregisterKeyNotify(handle: nat) returns (status: Status)
      requires Valid()
      modifies this`notifyList
      ensures Valid()
      ensures match Unregister(old(notifyList), handle)
              case Some(list) => status == Success && notifyList == list
              case None => status == InvalidParameter && notifyList == old(notifyList)
    {
      if handle == 0 {
        return InvalidParameter;
      }
      var i := 0;
      while i < |notifyList|
        invariant i <= |notifyList| && forall j :: 0 <= j < i ==> notifyList[j].handle != handle
      {
        if notifyList[i].handle == handle {
          FindIs(notifyList, handle, i);
          UnregisterKeepsWellFormed(notifyList, handle);
          notifyList := notifyList[..i] + notifyList[i + 1..];
          return Success;
        }
        i := i + 1;
      }
      assert Find(notifyList, handle) == |notifyList|;
      return InvalidParameter;
    }

    /** The callbacks for one key. */
    method InvokeMatching(key: KeyData)
      modifies this`log
      ensures log == old(log) + Calls(notifyList, key)
    {
      var i := 0;
      assert notifyList[i..] == notifyList;
      while i < |notifyList|
        invariant i <= |notifyList|
        invariant log + Calls(notifyList[i..], key) == old(log) + Calls(notifyList, key)
      {
        CallsFrom(notifyList, i, key, log);
        if IsKeyRegistered(notifyList[i].key, key) {
          log := log + [Call(notifyList[i].fn, key)];
        }
        i := i + 1;
      }
    }

    /** `KeyNotifyProcessHandler`: drains the notification queue and makes the callbacks for each key. */
    method KeyNotifyProcessHandler()
      requires Valid()
      modifies notifyQueue, this`log
      ensures Valid() && NotifyKeys() == [] && Keys() == old(Keys())
      ensures log == old(log) + CallsForAll(notifyList, old(NotifyKeys()))
    {
      ghost var all := log + CallsForAll(notifyList, NotifyKeys());
      while true
        invariant QueuesValid() && Keys() == old(Keys())
        invariant log + CallsForAll(notifyList, NotifyKeys()) == all
        decreases |NotifyKeys()|
      {
        ghost var waiting := NotifyKeys();
        var key := notifyQueue.PopHead();
        if key.None? {
          break;
        }
        CallsOfFirst(notifyList, waiting, log);
        InvokeMatching(key.value);
      }
    }

    /** A press and the event it signals, from an empty notification queue. */
    method PressAndProcess(key: KeyData)
      requires Valid() && NotifyKeys() == []
      modifies queue, queue.buffer, notifyQueue, notifyQueue.buffer, this`signals, this`log
      ensures Valid() && NotifyKeys() == []
      ensures log == if IsPartial(key) && !isSupportPartialKey then old(log)
                     else old(log) + CallsAfterPress(notifyList, key)
    {
      PushEfikeyBufTail(key);
      KeyNotifyProcessHandler();
    }
  }
}

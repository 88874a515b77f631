/** Which displays are on, which of them have been configured by a commit, and whether the composition
    manager is in safe mode: the part of its state that spans displays, as a transition system over the
    calls that change it.
 */
module DisplayStates {

  datatype PowerState = Off | On | Doze | DozeSuspend | Unknown

  datatype Displays = Displays(configured: set<int>, poweredOn: set<int>, safeMode: bool)

  /** A call. SetState carries the id passed by the caller and the id stored in the display context:
      powering off erases the two lists by different ones. */
  datatype Event =
    | Register(primary: bool)
    | Unregister(id: int)
    | SetState(state: PowerState, displayId: int, contextId: int)
    | PostCommit(id: int)

  const Initial := Displays({}, {}, false)

  function Apply(d: Displays, e: Event): Displays {
    match e
    case Register(primary) => if primary then d else d.(safeMode := true)
    case Unregister(id) => d.(configured := d.configured - {id}, poweredOn := d.poweredOn - {id})
    case SetState(Off, p, c) => d.(configured := d.configured - {p}, poweredOn := d.poweredOn - {c})
    case SetState(DozeSuspend, _, c) =>
      d.(configured := d.configured - {c}, poweredOn := d.poweredOn - {c})
    case SetState(Unknown, _, _) => d
    case SetState(_, _, c) =>
      d.(safeMode := d.safeMode || d.poweredOn != {}, poweredOn := d.poweredOn + {c})
    case PostCommit(id) =>
      var configured := d.configured + {id};
      d.(configured := configured, safeMode := d.safeMode && |configured| != |d.poweredOn|)
  }

  function Run(d: Displays, events: seq<Event>): Displays
    decreases |events|
  {
    if events == [] then d else Run(Apply(d, events[0]), events[1..])
  }

  /** Only displays that are on are configured; and with two or more displays on, safe mode is left
      only when all of them are configured. */
  predicate Inv(d: Displays) {
    && d.configured <= d.poweredOn
    && (!d.safeMode && |d.poweredOn| >= 2 ==> d.configured == d.poweredOn)
  }

  /** The calls that keep the invariant: commits come from displays that are on, and powering a display
      off under another id does not leave it configured, nor take a configured display off that list
      while safe mode is off and two displays are on. */
  predicate Legal(d: Displays, e: Event) {
    match e
    case PostCommit(id) => id in d.poweredOn
    case SetState(Off, p, c) =>
      p == c || (c !in d.configured && (d.safeMode || |d.poweredOn| < 2 || p !in d.configured))
    case _ => true
  }

  predicate LegalRun(d: Displays, events: seq<Event>)
    decreases |events|
  {
    events == [] || (Legal(d, events[0]) && LegalRun(Apply(d, events[0]), events[1..]))
  }

  /** The invariant holds after every call of the run. */
  predicate InvThroughout(d: Displays, events: seq<Event>)
    decreases |events|
  {
    Inv(d) && (events == [] || InvThroughout(Apply(d, events[0]), events[1..]))
  }

  lemma SubsetOfEqualSize<T>(a: set<T>, b: set<T>)
    requires a <= b
    ensures |a| <= |b|
    ensures |a| == |b| <==> a == b
  {
    assert |b - a| == |b| - |a| by { assert b == a + (b - a); }
    assert b - a == {} <==> a == b;
  }

  /** One call keeps the invariant if and only if it is legal. */
  lemma StepKeepsInvIff(d: Displays, e: Event)
    requires Inv(d)
    ensures Inv(Apply(d, e)) <==> Legal(d, e)
  {
    match e
    case Unregister(id) => RemoveKeepsInv(d, id);
    case SetState(Off, p, c) => PowerOffKeepsInvIff(d, p, c);
    case SetState(DozeSuspend, _, c) => RemoveKeepsInv(d, c);
    case PostCommit(id) =>
      if id in d.poweredOn {
        SubsetOfEqualSize(d.configured + {id}, d.poweredOn);
      } else {
        assert id in Apply(d, e).configured;
      }
    case _ =>
  }

  lemma PowerOffKeepsInvIff(d: Displays, p: int, c: int)
    requires Inv(d)
    ensures Inv(Apply(d, SetState(Off, p, c))) <==> Legal(d, SetState(Off, p, c))
  {
    var f := Apply(d, SetState(Off, p, c));
    SubsetOfEqualSize(d.poweredOn - {c}, d.poweredOn);
    if p == c {
      RemoveKeepsInv(d, c);
    } else if c in d.configured {
      assert c in f.configured && c !in f.poweredOn;
    } else if !d.safeMode && |d.poweredOn| >= 2 {
      assert d.poweredOn - {c} == d.poweredOn;
      assert p in d.configured ==> p in f.poweredOn && p !in f.configured;
    }
  }

  lemma RemoveKeepsInv(d: Displays, id: int)
    requires Inv(d)
    ensures Inv(d.(configured := d.configured - {id}, poweredOn := d.poweredOn - {id}))
  {
    SubsetOfEqualSize(d.poweredOn - {id}, d.poweredOn);
  }

  /** The invariant holds throughout a run if and only if the run is legal. Then the size comparison in
      PostCommit is set equality, and safe mode is off with two or more displays on only if all of them
      are configured. */
  lemma {:induction false} RunKeepsInvIff(d: Displays, events: seq<Event>)
    requires Inv(d)
    ensures InvThroughout(d, events) <==> LegalRun(d, events)
    ensures LegalRun(d, events) ==>
              var f := Run(d, events);
              Inv(f) && (|f.configured| == |f.poweredOn| <==> f.configured == f.poweredOn)
    decreases |events|
  {
    if events == [] {
      SubsetOfEqualSize(d.configured, d.poweredOn);
    } else {
      StepKeepsInvIff(d, events[0]);
      if Legal(d, events[0]) {
        RunKeepsInvIff(Apply(d, events[0]), events[1..]);
      } else {
        assert !InvThroughout(Apply(d, events[0]), events[1..]);
      }
    }
  }

  /** A commit leaves safe mode off exactly when it was off or the committing display was the last one
      on that had not been configured. */
  lemma CommitClearsSafeModeIff(d: Displays, id: int)
    requires Inv(d) && id in d.poweredOn
    ensures !Apply(d, PostCommit(id)).safeMode <==> !d.safeMode || d.poweredOn - {id} <= d.configured
  {
    SubsetOfEqualSize(d.configured + {id}, d.poweredOn);
    assert d.configured + {id} == d.poweredOn <==> d.poweredOn - {id} <= d.configured;
  }

  // ---------------------------------------------------------------------------------------------
  // The state told from the calls alone
  // ---------------------------------------------------------------------------------------------

  /** A call that switches the display on, or off the list of displays that are on. */
  predicate SwitchesOn(e: Event, id: int) {
    e.SetState? && (e.state == On || e.state == Doze) && e.contextId == id
  }

  predicate SwitchesOff(e: Event, id: int) {
    (e.Unregister? && e.id == id) || (e.SetState? && (e.state == Off || e.state == DozeSuspend) && e.contextId == id)
  }

  /** A call that takes the display off the list of configured ones: a power-off goes by the id passed. */
  predicate Unconfigures(e: Event, id: int) {
    || (e.Unregister? && e.id == id)
    || (e.SetState? && e.state == Off && e.displayId == id)
    || (e.SetState? && e.state == DozeSuspend && e.contextId == id)
  }

  /** Call `k` switched a display on that no later call has switched off. */
  predicate OnSince(events: seq<Event>, k: nat) {
    && k < |events| && events[k].SetState? && SwitchesOn(events[k], events[k].contextId)
    && forall j :: k < j < |events| ==> !SwitchesOff(events[j], events[k].contextId)
  }

  /** Call `k` is the commit of a display that no later call has taken off the list. */
  predicate ConfiguredSince(events: seq<Event>, k: nat) {
    && k < |events| && events[k].PostCommit?
    && forall j :: k < j < |events| ==> !Unconfigures(events[j], events[k].id)
  }

  function OnAfter(events: seq<Event>): set<int> {
    set k | 0 <= k < |events| && OnSince(events, k) :: events[k].contextId
  }

  function ConfiguredAfter(events: seq<Event>): set<int> {
    set k | 0 <= k < |events| && ConfiguredSince(events, k) :: events[k].id
  }

  /** Call `k` asks for safe mode: a display other than the primary one is registered, or one is switched
      on while another is on. */
  predicate Alarms(events: seq<Event>, k: nat)
    requires k < |events|
  {
    || (events[k].Register? && !events[k].primary)
    || (events[k].SetState? && (events[k].state == On || events[k].state == Doze) && OnAfter(events[..k]) != {})
  }

  /** Call `k` is a commit that leaves as many displays configured as are on. */
  predicate Completes(events: seq<Event>, k: nat)
    requires k < |events|
  {
    events[k].PostCommit? && |ConfiguredAfter(events[..k + 1])| == |OnAfter(events[..k + 1])|
  }

  ghost predicate AlarmedSince(events: seq<Event>, k: nat) {
    k < |events| && Alarms(events, k) && forall j :: k < j < |events| ==> !Completes(events, j)
  }

  ghost predicate Alarmed(events: seq<Event>) {
    exists k: nat :: AlarmedSince(events, k)
  }

  lemma {:induction false} RunNext(d: Displays, events: seq<Event>, e: Event)
    ensures Run(d, events + [e]) == Apply(Run(d, events), e)
    decreases |events|
  {
    if events == [] {
      assert (events + [e])[1..] == [];
    } else {
      assert (events + [e])[1..] == events[1..] + [e];
      RunNext(Apply(d, events[0]), events[1..], e);
    }
  }

  lemma OnAfterNext(events: seq<Event>, e: Event, id: int)
    ensures id in OnAfter(events + [e]) <==> SwitchesOn(e, id) || (id in OnAfter(events) && !SwitchesOff(e, id))
  {
    var next := events + [e];
    if SwitchesOn(e, id) {
      assert OnSince(next, |events|) && next[|events|].contextId == id;
    }
    if id in OnAfter(events) && !SwitchesOff(e, id) {
      var k :| 0 <= k < |events| && OnSince(events, k) && events[k].contextId == id;
      assert OnSince(next, k) && next[k].contextId == id;
    }
    if id in OnAfter(next) && !SwitchesOn(e, id) {
      var k :| 0 <= k < |next| && OnSince(next, k) && next[k].contextId == id;
      assert k < |events| && next[k] == events[k];
      assert forall j :: k < j < |events| ==> next[j] == events[j];
      assert OnSince(events, k) && next[|events|] == e;
    }
  }

  lemma ConfiguredAfterNext(events: seq<Event>, e: Event, id: int)
    ensures id in ConfiguredAfter(events + [e]) <==>
            e == PostCommit(id) || (id in ConfiguredAfter(events) && !Unconfigures(e, id))
  {
    var next := events + [e];
    if e == PostCommit(id) {
      assert ConfiguredSince(next, |events|) && next[|events|].id == id;
    }
    if id in ConfiguredAfter(events) && !Unconfigures(e, id) {
      var k :| 0 <= k < |events| && ConfiguredSince(events, k) && events[k].id == id;
      assert ConfiguredSince(next, k) && next[k].id == id;
    }
    if id in ConfiguredAfter(next) && e != PostCommit(id) {
      var k :| 0 <= k < |next| && ConfiguredSince(next, k) && next[k].id == id;
      assert k < |events| && next[k] == events[k];
      assert forall j :: k < j < |events| ==> next[j] == events[j];
      assert ConfiguredSince(events, k) && next[|events|] == e;
    }
  }

  lemma ListsNext(events: seq<Event>, e: Event, d: Displays)
    requires d.poweredOn == OnAfter(events) && d.configured == ConfiguredAfter(events)
    ensures Apply(d, e).poweredOn == OnAfter(events + [e])
    ensures Apply(d, e).configured == ConfiguredAfter(events + [e])
  {
    var f, on, configured := Apply(d, e), OnAfter(events + [e]), ConfiguredAfter(events + [e]);
    forall id
      ensures id in f.poweredOn <==> id in on
    {
      OnAfterNext(events, e, id);
    }
    forall id
      ensures id in f.configured <==> id in configured
    {
      ConfiguredAfterNext(events, e, id);
    }
  }

  /** After any run, the displays that are on and the configured ones are those that the calls name last. */
  lemma {:induction false} ListsByHistory(events: seq<Event>)
    ensures Run(Initial, events).poweredOn == OnAfter(events)
    ensures Run(Initial, events).configured == ConfiguredAfter(events)
    decreases |events|
  {
    if events != [] {
      var front, e := events[..|events| - 1], events[|events| - 1];
      assert events == front + [e];
      ListsByHistory(front);
      RunNext(Initial, front, e);
      ListsNext(front, e, Run(Initial, front));
    }
  }

  /** After any run, safe mode is on if and only if a call has asked for it and no commit since has found
      as many displays configured as are on. */
  lemma {:induction false} SafeModeByHistory(events: seq<Event>)
    ensures Run(Initial, events).safeMode <==> Alarmed(events)
    decreases |events|
  {
    if events != [] {
      var front, e := events[..|events| - 1], events[|events| - 1];
      assert events == front + [e];
      SafeModeByHistory(front);
      SafeModeNext(front, e);
      AlarmedNext(front, e);
    }
  }

  lemma SafeModeNext(events: seq<Event>, e: Event)
    ensures var d, next, n := Run(Initial, events), events + [e], |events|;
            Run(Initial, next).safeMode <==> Alarms(next, n) || (d.safeMode && !Completes(next, n))
  {
    RunNext(Initial, events, e);
    AlarmsNow(events, e);
    CompletesNow(events, e);
  }

  lemma AlarmsNow(events: seq<Event>, e: Event)
    ensures Alarms(events + [e], |events|)
            <==> (e.Register? && !e.primary)
                 || (e.SetState? && (e.state == On || e.state == Doze) && Run(Initial, events).poweredOn != {})
  {
    ListsByHistory(events);
    assert (events + [e])[..|events|] == events;
  }

  lemma CompletesNow(events: seq<Event>, e: Event)
    ensures var after := Apply(Run(Initial, events), e);
            Completes(events + [e], |events|) <==> e.PostCommit? && |after.configured| == |after.poweredOn|
  {
    var next := events + [e];
    RunNext(Initial, events, e);
    ListsByHistory(next);
    assert next[..|events| + 1] == next;
  }

  lemma AlarmedNext(events: seq<Event>, e: Event)
    ensures var next, n := events + [e], |events|;
            Alarmed(next) <==> Alarms(next, n) || (Alarmed(events) && !Completes(next, n))
  {
    var next, n := events + [e], |events|;
    forall k: nat | k < n
      ensures Alarms(next, k) <==> Alarms(events, k)
      ensures Completes(next, k) <==> Completes(events, k)
    {
      assert next[..k] == events[..k] && next[..k + 1] == events[..k + 1];
    }
    if Alarms(next, n) {
      assert AlarmedSince(next, n);
    }
    if Alarmed(events) && !Completes(next, n) {
      var k: nat :| AlarmedSince(events, k);
      assert AlarmedSince(next, k);
    }
    if Alarmed(next) && !Alarms(next, n) {
      var k: nat :| AlarmedSince(next, k);
      assert AlarmedSince(events, k) && !Completes(next, n);
    }
  }

  function Commits(ids: seq<int>): (es: seq<Event>)
    ensures |es| == |ids|
  {
    if ids == [] then [] else [PostCommit(ids[0])] + Commits(ids[1..])
  }

  function Members(ids: seq<int>): set<int> {
    if ids == [] then {} else {ids[0]} + Members(ids[1..])
  }

  /** A round of commits is legal and changes no power state. */
  lemma {:induction false} CommitRoundIsLegal(d: Displays, ids: seq<int>)
    requires Inv(d) && Members(ids) <= d.poweredOn
    ensures LegalRun(d, Commits(ids)) && Inv(Run(d, Commits(ids)))
    ensures Run(d, Commits(ids)).poweredOn == d.poweredOn
    decreases |ids|
  {
    if ids != [] {
      var m := Apply(d, PostCommit(ids[0]));
      StepKeepsInvIff(d, PostCommit(ids[0]));
      assert Commits(ids)[1..] == Commits(ids[1..]);
      CommitRoundIsLegal(m, ids[1..]);
    }
  }

  /** It configures exactly the displays that took part. */
  lemma {:induction false} CommitRoundConfigures(d: Displays, ids: seq<int>)
    ensures Run(d, Commits(ids)).configured == d.configured + Members(ids)
    decreases |ids|
  {
    if ids != [] {
      var m := Apply(d, PostCommit(ids[0]));
      assert Commits(ids)[1..] == Commits(ids[1..]);
      CommitRoundConfigures(m, ids[1..]);
      assert m.configured + Members(ids[1..]) == d.configured + ({ids[0]} + Members(ids[1..]));
    }
  }

  /** Once every display that is on has committed, safe mode is off: the last commit that completes the
      set turns it off and no commit turns it on. */
  lemma {:induction false} CompleteRoundIsNotSafe(d: Displays, ids: seq<int>)
    requires Inv(d) && Members(ids) <= d.poweredOn
    requires ids != [] && Run(d, Commits(ids)).configured == d.poweredOn
    ensures !Run(d, Commits(ids)).safeMode
    decreases |ids|
  {
    var e := PostCommit(ids[0]);
    StepKeepsInvIff(d, e);
    assert Commits(ids)[0] == e && Commits(ids)[1..] == Commits(ids[1..]);
    if |ids| > 1 {
      CompleteRoundIsNotSafe(Apply(d, e), ids[1..]);
    }
  }

  /** One commit from every display that is on, in any order and with any repetitions, always ends
      safe mode. */
  lemma FullCommitRoundEndsSafeMode(d: Displays, ids: seq<int>)
    requires Inv(d) && d.poweredOn != {} && Members(ids) == d.poweredOn
    ensures !Run(d, Commits(ids)).safeMode
    ensures Run(d, Commits(ids)).configured == Run(d, Commits(ids)).poweredOn == d.poweredOn
  {
    CommitRoundIsLegal(d, ids);
    CommitRoundConfigures(d, ids);
    CompleteRoundIsNotSafe(d, ids);
  }

  /** Outside legal runs the size comparison misleads: a commit from a display that is off ends safe mode
      while a display that is on has not been configured. */
  lemma CommitWhileOffMisleads()
    ensures var f := Run(Initial, [SetState(On, 1, 1), SetState(On, 2, 2), PostCommit(1), PostCommit(3)]);
            !f.safeMode && f.poweredOn == {1, 2} && 2 !in f.configured
  {
    var d2 := Displays({}, {1, 2}, true);
    var d3 := Displays({1}, {1, 2}, true);
    var d4 := Displays({1, 3}, {1, 2}, false);
    assert Apply(Apply(Initial, SetState(On, 1, 1)), SetState(On, 2, 2)) == d2;
    assert |{1}| == 1 && |{1, 2}| == 2 && |{1, 3}| == 2;
    assert Apply(d2, PostCommit(1)) == d3;
    assert Apply(d3, PostCommit(3)) == d4;
    Run4(Initial, SetState(On, 1, 1), SetState(On, 2, 2), PostCommit(1), PostCommit(3));
  }

  lemma Run4(d: Displays, a: Event, b: Event, c: Event, e: Event)
    ensures Run(d, [a, b, c, e]) == Apply(Apply(Apply(Apply(d, a), b), c), e)
  {
    assert [a, b, c, e][1..] == [b, c, e] && [b, c, e][1..] == [c, e];
    assert [c, e][1..] == [e] && [e][1..] == [];
    var m := Apply(Apply(d, a), b);
    assert Run(Apply(m, c), [e]) == Apply(Apply(m, c), e);
    assert Run(m, [c, e]) == Run(Apply(m, c), [e]);
    assert Run(Apply(d, a), [b, c, e]) == Run(m, [c, e]);
  }
}

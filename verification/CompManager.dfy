/** The composition manager: display registration and power, and the strategy retry loop. Strategy and
    resource manager are oracles: their answers are parameters.
 */
module CompManager {
  import opened DisplayStates

  const MAX_SDE_LAYERS: nat := 16
  const MAX_THERMAL_LEVEL: int := 3
  const SAFE_MODE_THRESHOLD: nat := 4
  const UINT32_MAX: nat := 0xFFFF_FFFF

  datatype Error = Ok | Undefined | Parameters | Failed(code: int)

  datatype DisplayType = BuiltIn | Hdmi | OtherType

  datatype Constraints = Constraints(safeMode: bool, maxLayers: nat)

  // ---------------------------------------------------------------------------------------------
  // The retry loop, as a function of the oracle answers
  // ---------------------------------------------------------------------------------------------

  /** One GetNextStrategy call: the Prepare call that made it, the constraints it was given, the app
      layer count of that frame, and how far it got. */
  datatype Attempt = Attempt(prepare: nat, constraints: Constraints, appLayers: nat,
                             gotStrategy: bool, gotResources: bool)

  /** Answers of GetNextStrategy and of the resource manager to the k-th attempt of one Prepare. */
  datatype Oracle = Oracle(strategy: nat -> Error, resources: nat -> Error, stop: Error)

  /** The attempts one Prepare makes with `remaining` strategies left, from its k-th on. */
  function Attempts(remaining: nat, prepare: nat, c: Constraints, appLayers: nat, o: Oracle, k: nat)
    : seq<Attempt>
  {
    if remaining == 0 then []
    else if o.strategy(k) != Ok then [Attempt(prepare, c, appLayers, false, false)]
    else if o.resources(k) == Ok then [Attempt(prepare, c, appLayers, true, true)]
    else
      var rest := Attempts(remaining - 1, prepare, c, appLayers, o, k + 1);
      [Attempt(prepare, c, appLayers, true, false)] + rest
  }

  lemma AttemptsUnfold(remaining: nat, prepare: nat, c: Constraints, appLayers: nat, o: Oracle, k: nat)
    requires remaining > 0
    ensures var a := Attempts(remaining, prepare, c, appLayers, o, k);
            && a != []
            && a[0] == Attempt(prepare, c, appLayers, o.strategy(k) == Ok,
                               o.strategy(k) == Ok && o.resources(k) == Ok)
            && a[1..] == if o.strategy(k) == Ok && o.resources(k) != Ok
                         then Attempts(remaining - 1, prepare, c, appLayers, o, k + 1) else []
  {
  }

  /** The log of the loop from its k-th attempt on. */
  ghost function Logged(log: seq<Attempt>, remaining: nat, prepare: nat, c: Constraints, appLayers: nat, o: Oracle, k: nat)
    : seq<Attempt>
    decreases remaining
  {
    if remaining == 0 then log
    else
      var got := o.strategy(k) == Ok && o.resources(k) == Ok;
      var next := log + [Attempt(prepare, c, appLayers, o.strategy(k) == Ok, got)];
      if got || o.strategy(k) != Ok then next else Logged(next, remaining - 1, prepare, c, appLayers, o, k + 1)
  }

  lemma LoggedUnfold(log: seq<Attempt>, remaining: nat, prepare: nat, c: Constraints, appLayers: nat, o: Oracle, k: nat)
    requires remaining > 0
    ensures var got := o.strategy(k) == Ok && o.resources(k) == Ok;
            var next := log + [Attempt(prepare, c, appLayers, o.strategy(k) == Ok, got)];
            Logged(log, remaining, prepare, c, appLayers, o, k)
            == if got || o.strategy(k) != Ok then next
               else Logged(next, remaining - 1, prepare, c, appLayers, o, k + 1)
  {
  }

  /** The loop logs exactly the attempts of the oracle's answers. */
  lemma {:induction false} LoggedIsAppended(log: seq<Attempt>, remaining: nat, prepare: nat, c: Constraints,
                                            appLayers: nat, o: Oracle, k: nat)
    ensures Logged(log, remaining, prepare, c, appLayers, o, k)
            == log + Attempts(remaining, prepare, c, appLayers, o, k)
    decreases remaining
  {
    if remaining > 0 && o.strategy(k) == Ok && o.resources(k) != Ok {
      var entry := Attempt(prepare, c, appLayers, true, false);
      LoggedIsAppended(log + [entry], remaining - 1, prepare, c, appLayers, o, k + 1);
      assert log + [entry] + Attempts(remaining - 1, prepare, c, appLayers, o, k + 1)
          == log + ([entry] + Attempts(remaining - 1, prepare, c, appLayers, o, k + 1));
    }
  }

  /** All attempts but the last obtained a strategy and no resources; the loop stops early only at an
      attempt that got resources or was refused a strategy. */
  lemma {:induction false} AttemptsShape(remaining: nat, prepare: nat, c: Constraints, appLayers: nat,
                                         o: Oracle, k: nat)
    ensures var a := Attempts(remaining, prepare, c, appLayers, o, k);
            && |a| <= remaining
            && (remaining > 0 ==> a != [])
            && (forall i :: 0 <= i < |a| ==>
                  && a[i].prepare == prepare && a[i].constraints == c && a[i].appLayers == appLayers
                  && (a[i].gotStrategy <==> o.strategy(k + i) == Ok)
                  && (a[i].gotResources <==> o.strategy(k + i) == Ok && o.resources(k + i) == Ok)
                  && (i < |a| - 1 ==> a[i].gotStrategy && !a[i].gotResources))
            && (|a| < remaining ==> a[|a| - 1].gotResources || !a[|a| - 1].gotStrategy)
  {
    if remaining > 0 && o.strategy(k) == Ok && o.resources(k) != Ok {
      AttemptsShape(remaining - 1, prepare, c, appLayers, o, k + 1);
      var a := Attempts(remaining, prepare, c, appLayers, o, k);
      var rest := Attempts(remaining - 1, prepare, c, appLayers, o, k + 1);
      forall i | 0 < i < |a|
        ensures a[i] == rest[i - 1] && k + i == k + 1 + (i - 1)
      {
      }
    }
  }

  /** Every attempt of the frame after the first runs in safe mode, unless it has exactly one app layer. */
  ghost predicate EveryRetryIsSafe(attempts: seq<Attempt>) {
    forall i :: 0 < i < |attempts| ==> attempts[i].constraints.safeMode || attempts[i].appLayers == 1
  }

  /** A first Prepare that cannot make a retry outside safe mode. */
  predicate FirstPrepareIsSafe(safe: bool, appLayers: nat, remaining: nat, o: Oracle) {
    safe || appLayers == 1 || remaining <= 1 || o.strategy(0) != Ok || o.resources(0) == Ok
  }

  /** Constraints are fixed once per Prepare, so a second attempt inside the first Prepare of a frame is
      not forced into safe mode. This is the only way out of it. */
  lemma RetriesOfFirstPrepareSafeIff(remaining: nat, prepare: nat, c: Constraints, appLayers: nat, o: Oracle)
    ensures EveryRetryIsSafe(Attempts(remaining, prepare, c, appLayers, o, 0))
            <==> FirstPrepareIsSafe(c.safeMode, appLayers, remaining, o)
  {
    var a := Attempts(remaining, prepare, c, appLayers, o, 0);
    AttemptsShape(remaining, prepare, c, appLayers, o, 0);
    if remaining > 1 && o.strategy(0) == Ok && o.resources(0) != Ok {
      AttemptsUnfold(remaining, prepare, c, appLayers, o, 0);
      AttemptsUnfold(remaining - 1, prepare, c, appLayers, o, 1);
      assert a[1] == a[1..][0];
    }
  }

  /** The attempts of one more Prepare. */
  lemma RetriesAfterPrepareSafeIff(before: seq<Attempt>, remaining: nat, prepare: nat, c: Constraints,
                                   appLayers: nat, o: Oracle)
    requires before != [] ==> c.safeMode || appLayers == 1
    ensures EveryRetryIsSafe(before + Attempts(remaining, prepare, c, appLayers, o, 0))
            <==> EveryRetryIsSafe(before)
                 && (before != [] || FirstPrepareIsSafe(c.safeMode, appLayers, remaining, o))
  {
    var a := Attempts(remaining, prepare, c, appLayers, o, 0);
    AttemptsShape(remaining, prepare, c, appLayers, o, 0);
    if before == [] {
      assert before + a == a;
      RetriesOfFirstPrepareSafeIff(remaining, prepare, c, appLayers, o);
    } else {
      assert forall i :: 0 < i < |before| ==> (before + a)[i] == before[i];
      assert forall i :: |before| <= i < |before + a| ==> (before + a)[i] == a[i - |before|];
    }
  }

  /** The constraints of a Prepare when `tried` strategies of the frame have been used up. */
  function RoundConstraints(standing: bool, limit: nat, tried: nat, layers: nat): Constraints {
    Constraints(AppLayerCount(layers) != 1 && (standing || tried > 0), limit)
  }

  /** The attempts of a frame: those of each Prepare, with the strategies that the ones before have left. */
  function FrameLog(count: nat, standing: bool, limit: nat, rounds: seq<(nat, Oracle)>): (log: seq<Attempt>)
    ensures |log| <= count
  {
    if rounds == [] then []
    else
      var n := |rounds| - 1;
      var before, layers, o := FrameLog(count, standing, limit, rounds[..n]), rounds[n].0, rounds[n].1;
      var c := RoundConstraints(standing, limit, |before|, layers);
      AttemptsShape(count - |before|, n, c, AppLayerCount(layers), o, 0);
      before + Attempts(count - |before|, n, c, AppLayerCount(layers), o, 0)
  }

  lemma FrameLogNext(count: nat, standing: bool, limit: nat, rounds: seq<(nat, Oracle)>, i: nat)
    requires i < |rounds|
    ensures var before, layers, o := FrameLog(count, standing, limit, rounds[..i]), rounds[i].0, rounds[i].1;
            FrameLog(count, standing, limit, rounds[..i + 1])
            == before + Attempts(count - |before|, i, RoundConstraints(standing, limit, |before|, layers),
                                 AppLayerCount(layers), o, 0)
  {
    assert rounds[..i + 1][..i] == rounds[..i];
  }

  /** Every retry of a frame runs in safe mode or has one app layer if and only if the first Prepare of the
      frame is safe: the ones after it add no retry outside safe mode. */
  lemma {:induction false} FrameRetriesSafeIff(count: nat, standing: bool, limit: nat, rounds: seq<(nat, Oracle)>)
    ensures EveryRetryIsSafe(FrameLog(count, standing, limit, rounds)) <==>
            rounds == [] || FirstPrepareIsSafe(standing, AppLayerCount(rounds[0].0), count, rounds[0].1)
    ensures FrameLog(count, standing, limit, rounds) == [] <==> rounds == [] || count == 0
  {
    if rounds != [] {
      var n := |rounds| - 1;
      var before, layers, o := FrameLog(count, standing, limit, rounds[..n]), rounds[n].0, rounds[n].1;
      var c := RoundConstraints(standing, limit, |before|, layers);
      FrameRetriesSafeIff(count, standing, limit, rounds[..n]);
      AttemptsShape(count - |before|, n, c, AppLayerCount(layers), o, 0);
      RetriesAfterPrepareSafeIff(before, count - |before|, n, c, AppLayerCount(layers), o);
    }
  }

  /** An attempt made by a later Prepare than the one that tried the first strategy runs in safe mode,
      unless the frame has exactly one app layer. */
  ghost predicate RetriesAreSafe(attempts: seq<Attempt>, prepares: nat) {
    forall i :: 0 <= i < |attempts| ==> RetryIsSafe(attempts[0].prepare, attempts[i], prepares)
  }

  predicate RetryIsSafe(first: nat, a: Attempt, prepares: nat) {
    a.prepare < prepares && (first < a.prepare ==> a.constraints.safeMode || a.appLayers == 1)
  }

  lemma PrepareKeepsRetriesSafe(before: seq<Attempt>, prepares: nat, remaining: nat, c: Constraints,
                                appLayers: nat, o: Oracle)
    requires RetriesAreSafe(before, prepares)
    requires before != [] ==> c.safeMode || appLayers == 1
    ensures RetriesAreSafe(before + Attempts(remaining, prepares, c, appLayers, o, 0), prepares + 1)
  {
    AttemptsShape(remaining, prepares, c, appLayers, o, 0);
  }

  /** Among the attempts from `start` on, only the last may have got resources. */
  ghost predicate NoneBeforeLast(attempts: seq<Attempt>, start: nat) {
    forall i :: start <= i < |attempts| - 1 ==> !attempts[i].gotResources
  }

  /** What one Prepare adds to the log of a frame. */
  lemma PrepareOutcome(before: seq<Attempt>, after: seq<Attempt>, remaining: nat, prepares: nat, c: Constraints,
                       appLayers: nat, o: Oracle)
    requires RetriesAreSafe(before, prepares) && (before != [] ==> c.safeMode || appLayers == 1)
    requires after == before + Attempts(remaining, prepares, c, appLayers, o, 0)
    ensures RetriesAreSafe(after, prepares + 1) && NoneBeforeLast(after, |before|)
    ensures after == [] <==> remaining == 0 && before == []
    ensures EveryRetryIsSafe(after) <==>
            EveryRetryIsSafe(before)
            && (before != [] || FirstPrepareIsSafe(c.safeMode, appLayers, remaining, o))
  {
    PrepareKeepsRetriesSafe(before, prepares, remaining, c, appLayers, o);
    AttemptsShape(remaining, prepares, c, appLayers, o, 0);
    RetriesAfterPrepareSafeIff(before, remaining, prepares, c, appLayers, o);
  }

  class DisplayContext {
    const id: int
    const kind: DisplayType
    const isPrimary: bool
    var maxStrategies: nat
    var remaining: nat
    var idleFallback: bool
    var thermalFallback: bool
    var constraints: Constraints
    ghost var attempts: seq<Attempt>  // since PrePrepare
    ghost var prepares: nat           // Prepare calls since PrePrepare
    ghost var starts: nat             // resource manager Start and Stop calls
    ghost var stops: nat

    constructor (id: int, kind: DisplayType, isPrimary: bool)
      ensures this.id == id && this.kind == kind && this.isPrimary == isPrimary
      ensures Valid() && attempts == [] && !idleFallback && !thermalFallback
    {
      this.id, this.kind, this.isPrimary := id, kind, isPrimary;
      maxStrategies, remaining := 0, 0;
      idleFallback, thermalFallback := false, false;
      constraints := Constraints(false, MAX_SDE_LAYERS);
      attempts, prepares, starts, stops := [], 0, 0, 0;
    }

    /** Over any number of Prepare calls since PrePrepare: each strategy is tried once, and later retries
        run in safe mode. */
    ghost predicate LogValid()
      reads this`remaining, this`attempts, this`maxStrategies, this`prepares
    {
      remaining + |attempts| == maxStrategies && RetriesAreSafe(attempts, prepares)
    }

    /** And every Start is matched by a Stop. */
    ghost predicate Valid()
      reads this
    {
      LogValid() && starts == stops
    }
  }

  function AppLayerCount(layers: nat): nat {
    if layers == 0 then UINT32_MAX else layers - 1
  }

  class CompManager {
    var configuredDisplays: map<int, bool>
    var poweredOnDisplays: set<int>
    var displayState: map<int, PowerState>
    var safeMode: bool
    var maxLayers: nat
    var maxExtLayers: nat
    var maxBuiltinLayers: nat
    const pipes: nat
    const separateRotator: bool
    ghost var live: set<DisplayContext>  // registered contexts
    ghost var strategies: nat            // strategies initialised and not deinitialised
    ghost var resources: nat             // displays registered with the resource manager
    ghost var events: seq<Event>         // the calls that changed the lists or safe mode

    constructor (pipes: nat, separateRotator: bool)
      ensures this.pipes == pipes && this.separateRotator == separateRotator
      ensures Valid() && View() == Initial && live == {} && events == []
    {
      configuredDisplays, poweredOnDisplays, displayState := map[], {}, map[];
      safeMode := false;
      maxLayers, maxExtLayers, maxBuiltinLayers := MAX_SDE_LAYERS, 0, 2;
      this.pipes, this.separateRotator := pipes, separateRotator;
      live, strategies, resources, events := {}, 0, 0, [];
    }

    ghost predicate Valid()
      reads this
    {
      strategies == |live| && resources == |live| && View() == Run(Initial, events)
    }

    ghost method Record(e: Event)
      requires View() == Apply(Run(Initial, events), e)
      modifies this`events
      ensures View() == Run(Initial, events) && events == old(events) + [e]
    {
      RunNext(Initial, events, e);
      events := events + [e];
    }

    /** The lists and safe mode, told from the calls made. */
    lemma ToldByCalls()
      requires Valid()
      ensures safeMode <==> Alarmed(events)
      ensures poweredOnDisplays == OnAfter(events) && configuredDisplays.Keys == ConfiguredAfter(events)
    {
      ListsByHistory(events);
      SafeModeByHistory(events);
    }

    ghost function View(): Displays
      reads this
    {
      Displays(configuredDisplays.Keys, poweredOnDisplays, safeMode)
    }

    /** Registration either fails and keeps nothing, or yields a fresh context that owns one strategy
        and one resource registration; a non-primary display forces safe mode. */
    method RegisterDisplay(id: int, kind: DisplayType, isPrimary: bool, extMaxLayers: nat,
                           strategyInit: Error, resourceRegister: Error, defaultClk: Error)
      returns (error: Error, ctx: DisplayContext?)
      requires Valid()
      modifies this`safeMode, this`maxExtLayers, this`live, this`strategies, this`resources, this`events
      ensures Valid() && events == if error == Ok then old(events) + [Register(isPrimary)] else old(events)
      ensures error == (if strategyInit != Ok then strategyInit
                        else if resourceRegister != Ok then resourceRegister else defaultClk)
      ensures error != Ok ==> ctx == null && View() == old(View()) && live == old(live)
      ensures error == Ok ==>
                && ctx != null && fresh(ctx) && live == old(live) + {ctx}
                && ctx.id == id && ctx.kind == kind && ctx.isPrimary == isPrimary && ctx.Valid()
                && !ctx.idleFallback && !ctx.thermalFallback
                && View() == Apply(old(View()), Register(isPrimary))
      ensures maxExtLayers == if error == Ok && !isPrimary then extMaxLayers else old(maxExtLayers)
    {
      ctx := null;
      if strategyInit != Ok {
        return strategyInit, null;
      }
      strategies := strategies + 1;
      if resourceRegister != Ok {
        strategies := strategies - 1;
        return resourceRegister, null;
      }
      resources := resources + 1;
      if defaultClk != Ok {
        strategies := strategies - 1;
        resources := resources - 1;
        return defaultClk, null;
      }
      ctx := new DisplayContext(id, kind, isPrimary);
      live := live + {ctx};
      if !isPrimary {
        safeMode := true;
        maxExtLayers := extMaxLayers;
      }
      Record(Register(isPrimary));
      error := Ok;
    }

    method UnregisterDisplay(ctx: DisplayContext?) returns (error: Error)
      requires Valid() && (ctx != null ==> ctx in live)
      modifies this`configuredDisplays, this`poweredOnDisplays, this`maxLayers, this`live,
               this`strategies, this`resources, this`events
      ensures Valid()
      ensures ctx == null ==> error == Parameters && View() == old(View()) && live == old(live) && events == old(events)
      ensures ctx != null ==> error == Ok && live == old(live) - {ctx} && events == old(events) + [Unregister(ctx.id)]
      ensures ctx != null ==> View() == Apply(old(View()), Unregister(ctx.id))
      ensures maxLayers == if ctx != null && ctx.kind == Hdmi then MAX_SDE_LAYERS else old(maxLayers)
    {
      if ctx == null {
        return Parameters;
      }
      Release(ctx);
      EraseDisplay(ctx.id);
      if ctx.kind == Hdmi {
        maxLayers := MAX_SDE_LAYERS;
      }
      error := Ok;
    }

    /** Gives back the context's resource registration and its strategy. */
    method Release(ctx: DisplayContext)
      requires strategies == |live| && resources == |live| && ctx in live
      modifies this`live, this`strategies, this`resources
      ensures strategies == |live| && resources == |live| && live == old(live) - {ctx}
    {
      resources := resources - 1;
      strategies := strategies - 1;
      live := live - {ctx};
    }

    method EraseDisplay(id: int)
      requires View() == Run(Initial, events)
      modifies this`configuredDisplays, this`poweredOnDisplays, this`events
      ensures View() == Run(Initial, events) == Apply(old(View()), Unregister(id))
      ensures events == old(events) + [Unregister(id)]
    {
      Erase(id, id);
      Record(Unregister(id));
    }

    method Erase(configuredId: int, poweredOnId: int)
      modifies this`configuredDisplays, this`poweredOnDisplays
      ensures View() == old(View().(configured := View().configured - {configuredId},
                                    poweredOn := View().poweredOn - {poweredOnId}))
    {
      configuredDisplays := configuredDisplays - {configuredId};
      poweredOnDisplays := poweredOnDisplays - {poweredOnId};
      assert configuredDisplays.Keys == old(configuredDisplays.Keys) - {configuredId};
    }

    method PowerOn(id: int)
      modifies this`safeMode, this`poweredOnDisplays
      ensures View() == old(View().(safeMode := safeMode || poweredOnDisplays != {},
                                    poweredOn := View().poweredOn + {id}))
    {
      if |poweredOnDisplays| != 0 {
        safeMode := true;
      }
      poweredOnDisplays := poweredOnDisplays + {id};
    }

    method UpdateLists(state: PowerState, displayId: int, contextId: int)
      modifies this`configuredDisplays, this`poweredOnDisplays, this`safeMode
      ensures View() == Apply(old(View()), SetState(state, displayId, contextId))
    {
      match state {
        case Off => Erase(displayId, contextId);
        case DozeSuspend => Erase(contextId, contextId);
        case Unknown =>
        case On => PowerOn(contextId);
        case Doze => PowerOn(contextId);
      }
    }

    method SwitchDisplay(state: PowerState, displayId: int, contextId: int)
      requires View() == Run(Initial, events)
      modifies this`configuredDisplays, this`poweredOnDisplays, this`safeMode, this`events
      ensures View() == Run(Initial, events) == Apply(old(View()), SetState(state, displayId, contextId))
      ensures events == old(events) + [SetState(state, displayId, contextId)]
    {
      UpdateLists(state, displayId, contextId);
      Record(SetState(state, displayId, contextId));
    }

    method SetDisplayState(ctx: DisplayContext, state: PowerState, displayId: int)
      requires Valid()
      modifies this`configuredDisplays, this`poweredOnDisplays, this`displayState, this`safeMode,
               this`maxBuiltinLayers, this`events
      ensures View() == Apply(old(View()), SetState(state, displayId, ctx.id))
      ensures events == old(events) + [SetState(state, displayId, ctx.id)]
      ensures displayState == old(displayState)[displayId := state]
      ensures maxBuiltinLayers ==
                if !ctx.isPrimary then old(maxBuiltinLayers)
                else if (state == Off || state == DozeSuspend) && |poweredOnDisplays| <= 1
                then MAX_SDE_LAYERS else 2
      ensures Valid()
    {
      displayState := displayState[displayId := state];
      SwitchDisplay(state, displayId, ctx.id);
      UpdateStrategyConstraints(ctx.isPrimary, state == Off || state == DozeSuspend);
    }

    method UpdateStrategyConstraints(isPrimary: bool, disabled: bool)
      modifies this`maxBuiltinLayers
      ensures maxBuiltinLayers ==
                if !isPrimary then old(maxBuiltinLayers)
                else if disabled && |poweredOnDisplays| <= 1 then MAX_SDE_LAYERS else 2
    {
      if !isPrimary {
        return;
      }
      maxBuiltinLayers := if disabled && |poweredOnDisplays| <= 1 then MAX_SDE_LAYERS else 2;
    }

    /** The display lists are updated even when the resource manager reports an error; only the idle
        fallback survives it. */
    method PostCommit(ctx: DisplayContext, resourceError: Error) returns (error: Error)
      requires Valid()
      modifies this`configuredDisplays, this`safeMode, this`events, ctx`idleFallback
      ensures Valid() && events == old(events) + [DisplayStates.PostCommit(ctx.id)]
      ensures error == resourceError
      ensures View() == Apply(old(View()), DisplayStates.PostCommit(ctx.id))
      ensures ctx.idleFallback == (error != Ok && old(ctx.idleFallback))
    {
      configuredDisplays := configuredDisplays[ctx.id := true];
      assert configuredDisplays.Keys == old(configuredDisplays).Keys + {ctx.id};
      if |poweredOnDisplays| == |configuredDisplays| {
        safeMode := false;
      }
      Record(DisplayStates.PostCommit(ctx.id));
      if resourceError != Ok {
        return resourceError;
      }
      ctx.idleFallback := false;
      error := Ok;
    }

    /** The next frames are composed in safe mode, unless they have exactly one app layer, until a commit
        succeeds. */
    method ProcessIdleTimeout(ctx: DisplayContext?)
      modifies if ctx == null then {} else {ctx}`idleFallback
      ensures ctx != null ==>
                ctx.idleFallback && forall layers: nat :: FrameIsSafe(ctx, layers) <==> AppLayerCount(layers) != 1
    {
      if ctx != null {
        ctx.idleFallback := true;
      }
    }

    /** So they are from the thermal limit on; below it, only for the other reasons. */
    method ProcessThermalEvent(ctx: DisplayContext, level: int)
      modifies ctx`thermalFallback
      ensures ctx.thermalFallback <==> level >= MAX_THERMAL_LEVEL
      ensures level >= MAX_THERMAL_LEVEL ==>
                forall layers: nat :: FrameIsSafe(ctx, layers) <==> AppLayerCount(layers) != 1
      ensures level < MAX_THERMAL_LEVEL && !old(ctx.thermalFallback) ==>
                forall layers: nat :: FrameIsSafe(ctx, layers) <==> old(FrameIsSafe(ctx, layers))
    {
      ctx.thermalFallback := level >= MAX_THERMAL_LEVEL;
    }

    /** The reasons for safe mode that are known before the first attempt of a frame. */
    ghost predicate StandingReasons(ctx: DisplayContext)
      reads this, ctx
    {
      || safeMode
      || (!ctx.isPrimary && pipes <= SAFE_MODE_THRESHOLD && !separateRotator)
      || ctx.idleFallback
      || ctx.thermalFallback
    }

    /** Safe mode is imposed on a frame by any one of five reasons, and by none of them when the frame
        has exactly one app layer. */
    ghost predicate FrameIsSafe(ctx: DisplayContext, layers: nat)
      reads this, ctx
    {
      AppLayerCount(layers) != 1 && (StandingReasons(ctx) || ctx.remaining != ctx.maxStrategies)
    }

    ghost function LayerLimit(ctx: DisplayContext): nat
      reads this, ctx
    {
      if ctx.isPrimary then maxLayers else if ctx.kind == BuiltIn then maxBuiltinLayers else maxExtLayers
    }

    method PrepareStrategyConstraints(ctx: DisplayContext, layers: nat)
      modifies ctx`constraints
      ensures ctx.constraints.safeMode <==> FrameIsSafe(ctx, layers)
      ensures ctx.constraints.maxLayers == LayerLimit(ctx)
      ensures ctx.isPrimary ==> ctx.constraints.maxLayers == maxLayers
      ensures !ctx.isPrimary && ctx.kind == BuiltIn ==> ctx.constraints.maxLayers == maxBuiltinLayers
      ensures !ctx.isPrimary && ctx.kind != BuiltIn ==> ctx.constraints.maxLayers == maxExtLayers
    {
      ctx.constraints := Constraints(safeMode, maxLayers);
      if !ctx.isPrimary {
        var lowEnd := pipes <= SAFE_MODE_THRESHOLD;
        ctx.constraints := Constraints(
          if lowEnd && !separateRotator then true else safeMode,
          if ctx.kind == BuiltIn then maxBuiltinLayers else maxExtLayers);
      }
      if ctx.remaining != ctx.maxStrategies {
        ctx.constraints := ctx.constraints.(safeMode := true);
      }
      if ctx.idleFallback || ctx.thermalFallback {
        ctx.constraints := ctx.constraints.(safeMode := true);
      }
      if AppLayerCount(layers) == 1 {
        ctx.constraints := ctx.constraints.(safeMode := false);
      }
    }

    method PrePrepare(ctx: DisplayContext, strategyCount: nat)
      requires ctx.Valid()
      modifies ctx`maxStrategies, ctx`remaining, ctx`attempts, ctx`prepares
      ensures ctx.Valid() && ctx.maxStrategies == ctx.remaining == strategyCount
      ensures ctx.attempts == [] && ctx.prepares == 0
    {
      ctx.maxStrategies := strategyCount;
      ctx.remaining := ctx.maxStrategies;
      ctx.attempts, ctx.prepares := [], 0;
    }

    /** Selects a strategy the resource manager accepts. On success the last strategy tried got its
        resources; on failure none of this call's attempts did, or stopping the resource manager
        failed. */
    method Prepare(ctx: DisplayContext, layers: nat, o: Oracle) returns (error: Error)
      requires ctx.Valid()
      modifies ctx`constraints, ctx`remaining, ctx`attempts, ctx`prepares, ctx`starts, ctx`stops
      ensures ctx.Valid() && ctx.starts == old(ctx.starts) + 1 && ctx.prepares == old(ctx.prepares) + 1
      ensures ctx.constraints == old(Constraints(FrameIsSafe(ctx, layers), LayerLimit(ctx)))
      ensures Valid() ==>
                (ctx.constraints.safeMode <==>
                 && layers != 2
                 && (|| Alarmed(events) || old(ctx.attempts) != [] || ctx.idleFallback || ctx.thermalFallback
                     || (!ctx.isPrimary && pipes <= 4 && !separateRotator)))
      ensures ctx.attempts == old(ctx.attempts)
                + Attempts(old(ctx.remaining), old(ctx.prepares), ctx.constraints,
                           AppLayerCount(layers), o, 0)
      ensures error == Ok ==>
                && |ctx.attempts| > |old(ctx.attempts)|
                && ctx.attempts[|ctx.attempts| - 1].gotResources && o.stop == Ok
      ensures error != Ok ==>
                || o.stop != Ok
                || forall i :: |old(ctx.attempts)| <= i < |ctx.attempts| ==> !ctx.attempts[i].gotResources
      ensures ctx.attempts == [] <==> ctx.maxStrategies == 0 && old(ctx.attempts) == []
      ensures EveryRetryIsSafe(ctx.attempts) <==>
              EveryRetryIsSafe(old(ctx.attempts)) &&
              (old(ctx.attempts) != [] ||
               FirstPrepareIsSafe(ctx.constraints.safeMode, AppLayerCount(layers), old(ctx.remaining), o))
    {
      if Valid() {
        ToldByCalls();
      }
      error := SelectStrategy(ctx, layers, o);
      error := Stop(ctx, error, o);
    }

    /** Fixes the constraints of this Prepare, starts the resource manager and tries strategies. */
    method SelectStrategy(ctx: DisplayContext, layers: nat, o: Oracle) returns (error: Error)
      requires ctx.LogValid()
      modifies ctx`constraints, ctx`remaining, ctx`attempts, ctx`prepares, ctx`starts
      ensures ctx.LogValid() && ctx.constraints == old(Constraints(FrameIsSafe(ctx, layers), LayerLimit(ctx)))
      ensures ctx.starts == old(ctx.starts) + 1 && ctx.prepares == old(ctx.prepares) + 1
      ensures ctx.attempts == old(ctx.attempts)
                + Attempts(old(ctx.remaining), old(ctx.prepares), ctx.constraints,
                           AppLayerCount(layers), o, 0)
      ensures error == Ok <==>
                |ctx.attempts| > |old(ctx.attempts)| && ctx.attempts[|ctx.attempts| - 1].gotResources
      ensures NoneBeforeLast(ctx.attempts, |old(ctx.attempts)|)
      ensures ctx.attempts == [] <==> ctx.maxStrategies == 0 && old(ctx.attempts) == []
      ensures EveryRetryIsSafe(ctx.attempts) <==>
              EveryRetryIsSafe(old(ctx.attempts)) &&
              (old(ctx.attempts) != [] ||
               FirstPrepareIsSafe(ctx.constraints.safeMode, AppLayerCount(layers), old(ctx.remaining), o))
    {
      ghost var before, remaining := ctx.attempts, ctx.remaining;
      PrepareStrategyConstraints(ctx, layers);
      ctx.starts := ctx.starts + 1;
      error := TryStrategies(ctx, o, AppLayerCount(layers));
      PrepareOutcome(before, ctx.attempts, remaining, ctx.prepares, ctx.constraints, AppLayerCount(layers), o);
      ctx.prepares := ctx.prepares + 1;
    }

    /** Either exit stops the resource manager; only the one after a success reports its answer. */
    method Stop(ctx: DisplayContext, selected: Error, o: Oracle) returns (error: Error)
      modifies ctx`stops
      ensures ctx.stops == old(ctx.stops) + 1
      ensures error == if selected != Ok then selected else o.stop
    {
      if selected != Ok {
        ctx.stops := ctx.stops + 1;
        return selected;
      }
      ctx.stops := ctx.stops + 1;
      error := o.stop;
    }

    /** A whole frame: PrePrepare and any number of Prepare calls. The log is told from the state before
        the frame and the answers. Every retry of the frame runs in safe mode or has one app layer if and
        only if its first Prepare is safe for one of the reasons known before the frame, has one app layer
        or a single strategy, or does not get to retry. */
    method PrepareFrame(ctx: DisplayContext, strategyCount: nat, rounds: seq<(nat, Oracle)>)
      requires ctx.Valid()
      modifies ctx`maxStrategies, ctx`remaining, ctx`constraints, ctx`attempts, ctx`prepares, ctx`starts, ctx`stops
      ensures ctx.Valid() && ctx.maxStrategies == strategyCount
      ensures ctx.attempts == FrameLog(strategyCount, old(StandingReasons(ctx)), old(LayerLimit(ctx)), rounds)
      ensures ctx.starts == old(ctx.starts) + |rounds|
      ensures EveryRetryIsSafe(ctx.attempts) <==>
              || rounds == []
              || FirstPrepareIsSafe(old(StandingReasons(ctx)), AppLayerCount(rounds[0].0), strategyCount, rounds[0].1)
    {
      PrePrepare(ctx, strategyCount);
      ghost var standing, limit := StandingReasons(ctx), LayerLimit(ctx);
      PrepareEach(ctx, rounds, standing, limit);
      FrameRetriesSafeIff(strategyCount, standing, limit, rounds);
    }

    /** The Prepare calls of a frame. */
    method PrepareEach(ctx: DisplayContext, rounds: seq<(nat, Oracle)>, ghost standing: bool, ghost limit: nat)
      requires ctx.Valid() && ctx.prepares == 0 && ctx.attempts == []
      requires standing == StandingReasons(ctx) && limit == LayerLimit(ctx)
      modifies ctx`remaining, ctx`constraints, ctx`attempts, ctx`prepares, ctx`starts, ctx`stops
      ensures ctx.Valid() && ctx.starts == old(ctx.starts) + |rounds|
      ensures ctx.attempts == FrameLog(ctx.maxStrategies, standing, limit, rounds)
    {
      for i := 0 to |rounds|
        invariant ctx.Valid() && ctx.prepares == i && ctx.starts == old(ctx.starts) + i
        invariant standing == StandingReasons(ctx) && limit == LayerLimit(ctx)
        invariant ctx.attempts == FrameLog(ctx.maxStrategies, standing, limit, rounds[..i])
      {
        FrameLogNext(ctx.maxStrategies, standing, limit, rounds, i);
        PrepareRound(ctx, rounds[i].0, rounds[i].1, standing, limit);
      }
      assert rounds[..|rounds|] == rounds;
    }

    method PrepareRound(ctx: DisplayContext, layers: nat, o: Oracle, ghost standing: bool, ghost limit: nat)
      requires ctx.Valid() && standing == StandingReasons(ctx) && limit == LayerLimit(ctx)
      modifies ctx`constraints, ctx`remaining, ctx`attempts, ctx`prepares, ctx`starts, ctx`stops
      ensures ctx.Valid() && ctx.starts == old(ctx.starts) + 1 && ctx.prepares == old(ctx.prepares) + 1
      ensures standing == StandingReasons(ctx) && limit == LayerLimit(ctx) && |old(ctx.attempts)| <= ctx.maxStrategies
      ensures ctx.attempts == old(ctx.attempts)
                + Attempts(ctx.maxStrategies - |old(ctx.attempts)|, old(ctx.prepares),
                           RoundConstraints(standing, limit, |old(ctx.attempts)|, layers), AppLayerCount(layers), o, 0)
    {
      var _ := Prepare(ctx, layers, o);
    }

    /** Adds the attempts of one Prepare to the log of the frame. */
    method TryStrategies(ctx: DisplayContext, o: Oracle, ghost appLayers: nat) returns (error: Error)
      modifies ctx`remaining, ctx`attempts
      ensures ctx.attempts == old(ctx.attempts)
                + Attempts(old(ctx.remaining), ctx.prepares, ctx.constraints, appLayers, o, 0)
      ensures |ctx.attempts| + ctx.remaining == |old(ctx.attempts)| + old(ctx.remaining)
      ensures error == Ok <==>
                |ctx.attempts| > |old(ctx.attempts)| && ctx.attempts[|ctx.attempts| - 1].gotResources
    {
      ghost var log;
      error, log := RetryLoop(ctx, o, appLayers);
      ctx.attempts := ctx.attempts + log;
    }

    /** The loop: `remaining` counts down once per attempt, also on the attempt that ends it. */
    method RetryLoop(ctx: DisplayContext, o: Oracle, ghost appLayers: nat) returns (error: Error, ghost log: seq<Attempt>)
      modifies ctx`remaining
      ensures log == Attempts(old(ctx.remaining), ctx.prepares, ctx.constraints, appLayers, o, 0)
      ensures |log| + ctx.remaining == old(ctx.remaining)
      ensures error == Ok <==> log != [] && log[|log| - 1].gotResources
    {
      ghost var c, mine, strategies := ctx.constraints, ctx.prepares, ctx.remaining;
      ghost var last := Attempt(mine, c, appLayers, false, false);
      error, log := Undefined, [];
      var exit, k := false, 0;
      while !exit && ctx.remaining > 0
        invariant 0 <= k && ctx.remaining + k == strategies && |log| == k
        invariant Logged([], strategies, mine, c, appLayers, o, 0)
                  == if exit then log else Logged(log, ctx.remaining, mine, c, appLayers, o, k)
        invariant (k > 0 ==> log[k - 1] == last) && (error == Ok <==> k > 0 && last.gotResources)
      {
        LoggedUnfold(log, ctx.remaining, mine, c, appLayers, o, k);
        var gotStrategy;
        error, exit, gotStrategy := TryOne(o, k);
        last := Attempt(mine, ctx.constraints, appLayers, gotStrategy, error == Ok);
        log := log + [last];
        k := k + 1;
        ctx.remaining := ctx.remaining - 1;
      }
      LoggedIsAppended([], strategies, mine, c, appLayers, o, 0);
    }

    /** One attempt, and whether the loop ends with it. */
    method TryOne(o: Oracle, k: nat) returns (error: Error, exit: bool, gotStrategy: bool)
      ensures gotStrategy <==> o.strategy(k) == Ok
      ensures error == Ok <==> o.strategy(k) == Ok && o.resources(k) == Ok
      ensures exit <==> o.strategy(k) != Ok || o.resources(k) == Ok
    {
      exit := false;
      error := o.strategy(k);
      gotStrategy := error == Ok;
      if error != Ok {
        exit := true;
      }
      if !exit {
        error := o.resources(k);
        exit := error == Ok;
      }
    }
  }

  /** A retry outside safe mode on a new manager with one primary display: the first of two strategies
      gets no resources for a frame of two app layers. */
  method RetryOutsideSafeMode() returns (manager: CompManager, ctx: DisplayContext)
    ensures fresh(ctx) && ctx.Valid() && |ctx.attempts| == 2
    ensures ctx.attempts[0].prepare == ctx.attempts[1].prepare && ctx.attempts[1].appLayers == 2
    ensures !ctx.attempts[1].constraints.safeMode && !EveryRetryIsSafe(ctx.attempts)
  {
    manager := new CompManager(8, false);
    var _, registered := manager.RegisterDisplay(0, BuiltIn, true, 0, Ok, Ok, Ok);
    ctx := registered;
    var o := Oracle(k => Ok, k => if k == 0 then Failed(1) else Ok, Ok);
    ghost var limit := manager.LayerLimit(ctx);
    manager.PrepareFrame(ctx, 2, [(3, o)]);
    FrameLogNext(2, false, limit, [(3, o)], 0);
    AttemptsUnfold(2, 0, Constraints(false, limit), 2, o, 0);
    AttemptsUnfold(1, 0, Constraints(false, limit), 2, o, 1);
    assert [(3, o)][..1] == [(3, o)];
    assert ctx.attempts[1] == ctx.attempts[1..][0];
  }
}

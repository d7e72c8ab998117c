/** The decision path of a user context (optimizely/src/client/user.rs): which
    variation of a flag a user gets, and which decision events are dispatched on
    the way. Dispatched events are returned alongside the result. */
module Users {
  import opened Wrappers
  import opened Decisions
  import opened Variations
  import opened TrafficAllocations
  import opened Experiments
  import opened Datafiles
  import opened EventApi
  import opened AudienceConditions

  // ---------------------------------------------------------------------------
  // Bucketing

  /** `u32::MAX`, the divisor of the scaling step. */
  const U32Max: nat := 0xFFFF_FFFF

  /** Bucket values range over 0..=10_000. */
  const MaxOfRange: nat := 10_000

  type U32 = n: nat | n <= 0xFFFF_FFFF

  /** Scaling a 32-bit hash into a bucket value: `hash / u32::MAX * 10_000`,
      truncated. */
  function BucketValue(hash: U32): nat
  {
    hash * 10_000 / 0xFFFF_FFFF
  }

  /** The bucket value is the largest b with b * u32::MAX <= hash * 10_000; it never
      exceeds 10_000, and reaches it only for the hash `u32::MAX`. */
  lemma BucketValueRange(hash: U32)
    ensures BucketValue(hash) <= MaxOfRange
    ensures BucketValue(hash) == MaxOfRange <==> hash == U32Max
    ensures BucketValue(hash) * U32Max <= hash * MaxOfRange < (BucketValue(hash) + 1) * U32Max
  {
    var b := BucketValue(hash);
    assert b * U32Max <= hash * MaxOfRange < (b + 1) * U32Max;
    if hash < U32Max {
      assert hash * MaxOfRange < U32Max * MaxOfRange;
    }
  }

  /** A larger hash never yields a smaller bucket. */
  lemma BucketMonotone(h1: U32, h2: U32)
    requires h1 <= h2
    ensures BucketValue(h1) <= BucketValue(h2)
  {
    BucketValueRange(h1);
    BucketValueRange(h2);
    assert h1 * MaxOfRange <= h2 * MaxOfRange;
  }

  // ---------------------------------------------------------------------------
  // Options, client and outcomes

  /** `DecideOptions`; only `disableDecisionEvent` is read by the decision path. */
  datatype DecideOptions = DecideOptions(
    disableDecisionEvent: bool,
    enabledFlagsOnly: bool,
    ignoreUserProfileService: bool,
    includeReasons: bool,
    excludeVariables: bool)

  /** `DecideOptions::default()`: every option off. */
  const DefaultOptions := DecideOptions(false, false, false, false, false)

  /** The client: its datafile, and the seeded MurmurHash3 of a bucketing key. */
  datatype Client = Client(datafile: Datafile, hash: string -> U32)

  /** What a lookup over experiments finds, with the events dispatched meanwhile. */
  datatype Found = Found(variation: Option<Variation>, events: seq<Event>)

  /** The result of a call that may panic, with the events dispatched before. */
  datatype Decided<T> = Decided(value: T, events: seq<Event>) | Panicked(events: seq<Event>)

  /** The decision a flag gets from the variation found for it, if any. */
  function DecisionFor(flagKey: string, found: Option<Variation>): (d: Decision)
    ensures d.flagKey == flagKey
    ensures d.enabled <==> found.Some? && found.value.isFeatureEnabled
    ensures found.Some? ==> d.variationKey == found.value.key
    ensures found.None? ==> d == Off(flagKey)
  {
    match found
    case Some(v) => New(flagKey, v.isFeatureEnabled, v.key)
    case None => Off(flagKey)
  }

  lemma ConcatAssoc<T>(x: seq<T>, y: seq<T>, z: seq<T>)
    ensures x + (y + z) == (x + y) + z
  {
  }

  // ---------------------------------------------------------------------------
  // `find_map` over a closure that dispatches events

  /** `Iterator::find_map` with a closure that may dispatch events: the outcome of
      the first item that has a variation, the items after it left untried, and
      the events of every item tried, in order. */
  function FindMap<T>(xs: seq<T>, f: T -> Found): Found
  {
    if xs == [] then Found(None, [])
    else if f(xs[0]).variation.Some? then f(xs[0])
    else
      var rest := FindMap(xs[1..], f);
      Found(rest.variation, f(xs[0]).events + rest.events)
  }

  /** `xs[i]` is the first item whose outcome has a variation. */
  predicate FirstHitAt<T>(xs: seq<T>, f: T -> Found, i: int)
  {
    0 <= i < |xs| && f(xs[i]).variation.Some? && forall j :: 0 <= j < i ==> f(xs[j]).variation.None?
  }

  /** The scan finds the outcome of the first item that has a variation, and
      nothing exactly when no item has one. */
  lemma {:induction false} FindMapMeaning<T>(xs: seq<T>, f: T -> Found)
    ensures FindMap(xs, f).variation.Some? ==>
      exists i :: FirstHitAt(xs, f, i) && FindMap(xs, f).variation == f(xs[i]).variation
    ensures FindMap(xs, f).variation.None? <==> forall i :: 0 <= i < |xs| ==> f(xs[i]).variation.None?
  {
    if xs != [] && f(xs[0]).variation.None? {
      var tail := xs[1..];
      FindMapMeaning(tail, f);
      if FindMap(tail, f).variation.Some? {
        var i :| FirstHitAt(tail, f, i) && FindMap(tail, f).variation == f(tail[i]).variation;
        assert FirstHitAt(xs, f, i + 1) by {
          assert xs[i + 1] == tail[i];
          forall j | 1 <= j <= i ensures f(xs[j]).variation.None? {
            assert xs[j] == tail[j - 1];
          }
        }
      } else {
        forall i | 1 <= i < |xs| ensures f(xs[i]).variation.None? {
          assert xs[i] == tail[i - 1];
        }
      }
    } else if xs != [] {
      assert FirstHitAt(xs, f, 0);
    }
  }

  /** Every event of the scan is an event of one of the items' outcomes. */
  lemma {:induction false} FindMapEvents<T>(xs: seq<T>, f: T -> Found)
    ensures forall k :: 0 <= k < |FindMap(xs, f).events| ==>
      exists i :: 0 <= i < |xs| && FindMap(xs, f).events[k] in f(xs[i]).events
  {
    if xs == [] {
      assert FindMap(xs, f).events == [];
    } else if f(xs[0]).variation.None? {
      var tail := xs[1..];
      FindMapEvents(tail, f);
      var head, rest := f(xs[0]).events, FindMap(tail, f).events;
      var all := FindMap(xs, f).events;
      assert all == head + rest;
      forall k | 0 <= k < |all| ensures exists i :: 0 <= i < |xs| && all[k] in f(xs[i]).events {
        if k < |head| {
          assert all[k] == head[k];
        } else {
          assert all[k] == rest[k - |head|];
          var i :| 0 <= i < |tail| && rest[k - |head|] in f(tail[i]).events;
          assert tail[i] == xs[i + 1];
        }
      }
    } else {
      var all := FindMap(xs, f).events;
      assert all == f(xs[0]).events;
      forall k | 0 <= k < |all| ensures exists i :: 0 <= i < |xs| && all[k] in f(xs[i]).events {
        assert all[k] in f(xs[0]).events;
      }
    }
  }

  /** Items whose outcomes dispatch nothing make a scan that dispatches nothing. */
  lemma {:induction false} FindMapSilent<T>(xs: seq<T>, f: T -> Found)
    requires forall i :: 0 <= i < |xs| ==> f(xs[i]).events == []
    ensures FindMap(xs, f).events == []
  {
    if xs != [] {
      var tail := xs[1..];
      assert forall i :: 0 <= i < |tail| ==> tail[i] == xs[i + 1];
      FindMapSilent(tail, f);
      assert f(xs[0]).events == [];
    }
  }

  /** When an item has a variation, the scan's events end with the events of the
      first such item. */
  lemma {:induction false} FindMapLastEvents<T>(xs: seq<T>, f: T -> Found)
    requires FindMap(xs, f).variation.Some?
    ensures exists i :: (FirstHitAt(xs, f, i) &&
      |f(xs[i]).events| <= |FindMap(xs, f).events| &&
      FindMap(xs, f).events[|FindMap(xs, f).events| - |f(xs[i]).events|..] == f(xs[i]).events)
  {
    if f(xs[0]).variation.Some? {
      assert FirstHitAt(xs, f, 0);
      assert FindMap(xs, f).events[0..] == f(xs[0]).events;
    } else {
      var tail := xs[1..];
      FindMapLastEvents(tail, f);
      var i :| FirstHitAt(tail, f, i) && |f(tail[i]).events| <= |FindMap(tail, f).events| &&
        FindMap(tail, f).events[|FindMap(tail, f).events| - |f(tail[i]).events|..] == f(tail[i]).events;
      var head, rest := f(xs[0]).events, FindMap(tail, f).events;
      var all := FindMap(xs, f).events;
      assert all == head + rest;
      var n := |f(tail[i]).events|;
      assert all[|all| - n..] == rest[|rest| - n..];
      assert FirstHitAt(xs, f, i + 1) by {
        assert xs[i + 1] == tail[i];
        forall j | 1 <= j <= i ensures f(xs[j]).variation.None? {
          assert xs[j] == tail[j - 1];
        }
      }
    }
  }

  /** Outcomes that agree on their variations make scans that find the same
      variation, whatever events they dispatch. */
  lemma {:induction false} FindMapSameHits<T>(xs: seq<T>, f: T -> Found, g: T -> Found)
    requires forall i :: 0 <= i < |xs| ==> f(xs[i]).variation == g(xs[i]).variation
    ensures FindMap(xs, f).variation == FindMap(xs, g).variation
  {
    if xs != [] {
      var tail := xs[1..];
      assert forall i :: 0 <= i < |tail| ==> tail[i] == xs[i + 1];
      FindMapSameHits(tail, f, g);
      assert f(xs[0]).variation == g(xs[0]).variation;
    }
  }

  /** A list with a hit decides the scan of any extension of it. */
  lemma {:induction false} FindMapAppendHit<T>(xs: seq<T>, ys: seq<T>, f: T -> Found)
    requires FindMap(xs, f).variation.Some?
    ensures FindMap(xs + ys, f) == FindMap(xs, f)
  {
    assert (xs + ys)[0] == xs[0];
    if f(xs[0]).variation.None? {
      assert (xs + ys)[1..] == xs[1..] + ys;
      FindMapAppendHit(xs[1..], ys, f);
    }
  }

  /** A list without a hit hands the scan on to what follows it, its events first. */
  lemma {:induction false} FindMapAppendMiss<T>(xs: seq<T>, ys: seq<T>, f: T -> Found)
    requires FindMap(xs, f).variation.None?
    ensures FindMap(xs + ys, f) == Found(FindMap(ys, f).variation, FindMap(xs, f).events + FindMap(ys, f).events)
  {
    if xs == [] {
      assert xs + ys == ys;
    } else {
      var zs := xs + ys;
      assert zs[0] == xs[0] && zs[1..] == xs[1..] + ys;
      FindMapAppendMiss(xs[1..], ys, f);
      var a, b := FindMap(xs[1..], f).events, FindMap(ys, f).events;
      ConcatAssoc(f(xs[0]).events, a, b);
    }
  }

  class UserContext {
    const client: Client
    const userId: string
    var attributes: UserAttributes

    constructor (client: Client, userId: string, attributes: UserAttributes)
      ensures this.client == client && this.userId == userId && this.attributes == attributes
    {
      this.client := client;
      this.userId := userId;
      this.attributes := attributes;
    }

    /** `set_attribute`: inserts or overwrites one attribute. */
    method SetAttribute(key: string, value: AttributeValue)
      modifies this
      ensures attributes == old(attributes)[key := value]
      ensures key in attributes && attributes[key] == value
      ensures forall k :: k != key ==> (k in attributes <==> k in old(attributes))
      ensures forall k :: k != key && k in attributes ==> attributes[k] == old(attributes)[k]
    {
      attributes := attributes[key := value];
    }

    // -------------------------------------------------------------------------
    // One experiment

    /** The variation id the traffic allocation of `e` assigns to this user: the
        bucketing key is the user id followed directly by the experiment id. */
    function Allocated(e: Experiment): Option<string>
    {
      TrafficAllocations.GetVariation(e.trafficAllocation, BucketValue(client.hash(userId + e.id)))
    }

    /** `e` gives this user a variation. */
    predicate Yields(e: Experiment)
    {
      Allocated(e).Some? && Allocated(e).value in e.variations
    }

    /** The decision event `e` dispatches for this user. */
    function EventFor(e: Experiment): Event
      requires Allocated(e).Some?
    {
      DecisionEvent(client.datafile.accountId, userId, e.campaignId, e.id, Allocated(e).value)
    }

    /** `decide_variation_for_experiment`: bucket the user, look the bucket up in
        the allocation, dispatch a decision event when sending is on and some id
        was allocated (even one the experiment has no variation for), and return
        the variation stored under that id. */
    function DecideVariationForExperiment(e: Experiment, send: bool): (r: Found)
      ensures r.variation.Some? <==> Yields(e)
      ensures r.variation.Some? ==> r.variation.value == e.variations[Allocated(e).value]
      ensures send && Allocated(e).Some? ==> r.events == [EventFor(e)]
      ensures !(send && Allocated(e).Some?) ==> r.events == []
    {
      var bucket := BucketValue(client.hash(userId + e.id));
      match TrafficAllocations.GetVariation(e.trafficAllocation, bucket)
      case None => Found(None, [])
      case Some(variationId) =>
        var events := if send then [DecisionEvent(client.datafile.accountId, userId, e.campaignId, e.id, variationId)] else [];
        Found(Experiments.GetVariation(e, variationId), events)
    }

    // -------------------------------------------------------------------------
    // A list of experiments

    /** `es[i]` is the first experiment of `es` that gives this user a variation. */
    predicate FirstYieldAt(es: seq<Experiment>, i: int)
    {
      0 <= i < |es| && Yields(es[i]) && forall j :: 0 <= j < i ==> !Yields(es[j])
    }

    /** `ev` is the decision event of one of the experiments in `es`. */
    predicate EmittedBy(es: seq<Experiment>, ev: Event)
    {
      exists i :: 0 <= i < |es| && Allocated(es[i]).Some? && ev == EventFor(es[i])
    }

    /** The closure of the scans: `decide_variation_for_experiment` with the
        sending flag fixed. */
    function Decider(send: bool): Experiment -> Found
    {
      e => DecideVariationForExperiment(e, send)
    }

    /** `find_map` of `decide_variation_for_experiment` over a list: the variation
        of the first experiment that yields one; every experiment tried on the way
        dispatches its event, so none are dispatched when sending is off. */
    function FindFirst(es: seq<Experiment>, send: bool): (r: Found)
      ensures !send ==> r.events == []
    {
      if send then FindMap(es, Decider(true))
      else
        FindMapSilent(es, Decider(false));
        FindMap(es, Decider(false))
    }

    /** The scan finds the variation of the first experiment that yields one, and
        nothing exactly when none does. */
    lemma FindFirstMeaning(es: seq<Experiment>, send: bool)
      ensures FindFirst(es, send).variation.Some? ==>
        exists i :: FirstYieldAt(es, i) && FindFirst(es, send).variation.value == es[i].variations[Allocated(es[i]).value]
      ensures FindFirst(es, send).variation.None? <==> forall i :: 0 <= i < |es| ==> !Yields(es[i])
    {
      var f := Decider(send);
      FindMapMeaning(es, f);
      DeciderHitsYield(es, send);
      if FindFirst(es, send).variation.Some? {
        var i :| FirstHitAt(es, f, i) && FindFirst(es, send).variation == f(es[i]).variation;
        FirstHitIsFirstYield(es, send, i);
      }
    }

    /** The closure has a variation for an experiment exactly when the experiment
        yields one. */
    lemma DeciderHitsYield(es: seq<Experiment>, send: bool)
      ensures forall j :: 0 <= j < |es| ==> (Decider(send)(es[j]).variation.Some? <==> Yields(es[j]))
    {
      forall j | 0 <= j < |es| ensures Decider(send)(es[j]).variation.Some? <==> Yields(es[j]) {
        assert Decider(send)(es[j]) == DecideVariationForExperiment(es[j], send);
      }
    }

    /** The first hit of the closure is the first experiment that yields. */
    lemma FirstHitIsFirstYield(es: seq<Experiment>, send: bool, i: int)
      ensures FirstHitAt(es, Decider(send), i) <==> FirstYieldAt(es, i)
    {
      DeciderHitsYield(es, send);
    }

    /** Every event the scan dispatches is the decision event of one of the
        experiments scanned. */
    lemma FindFirstEvents(es: seq<Experiment>, send: bool)
      ensures forall k :: 0 <= k < |FindFirst(es, send).events| ==> EmittedBy(es, FindFirst(es, send).events[k])
    {
      var f := Decider(send);
      FindMapEvents(es, f);
      var events := FindFirst(es, send).events;
      forall k | 0 <= k < |events| ensures EmittedBy(es, events[k]) {
        var i :| 0 <= i < |es| && events[k] in f(es[i]).events;
        assert f(es[i]) == DecideVariationForExperiment(es[i], send);
      }
    }

    /** The experiments that a list of ids resolves to in the datafile, in order;
        ids the datafile does not know are dropped. */
    function Resolve(ids: seq<string>): (es: seq<Experiment>)
      ensures |es| <= |ids|
      ensures forall i :: 0 <= i < |es| ==> es[i] in client.datafile.experiments.Values
      ensures forall i :: 0 <= i < |ids| && ids[i] in client.datafile.experiments ==>
        client.datafile.experiments[ids[i]] in es
      ensures (forall i :: 0 <= i < |ids| ==> ids[i] in client.datafile.experiments) ==>
        |es| == |ids| && forall i :: 0 <= i < |ids| ==> es[i] == client.datafile.experiments[ids[i]]
    {
      if ids == [] then []
      else
        var rest := Resolve(ids[1..]);
        if ids[0] in client.datafile.experiments then [client.datafile.experiments[ids[0]]] + rest else rest
    }

    /** The experiment phase of `decide_variation_for_flag`: `find_map` over the
        flag's experiment ids, skipping ids the datafile does not know. */
    function FindByIds(ids: seq<string>, send: bool): (r: Found)
    {
      if ids == [] then Found(None, [])
      else if ids[0] !in client.datafile.experiments then FindByIds(ids[1..], send)
      else
        var first := DecideVariationForExperiment(client.datafile.experiments[ids[0]], send);
        if first.variation.Some? then first
        else
          var rest := FindByIds(ids[1..], send);
          Found(rest.variation, first.events + rest.events)
    }

    /** Scanning the ids and resolving each one is the same as scanning the list of
        the experiments they resolve to. */
    lemma {:induction false} FindByIdsIsFindFirst(ids: seq<string>, send: bool)
      ensures FindByIds(ids, send) == FindFirst(Resolve(ids), send)
    {
      if ids != [] {
        FindByIdsIsFindFirst(ids[1..], send);
        if ids[0] in client.datafile.experiments {
          var es := Resolve(ids);
          assert es[0] == client.datafile.experiments[ids[0]];
          assert es[1..] == Resolve(ids[1..]);
        }
      }
    }

    /** Scanning two lists one after the other: the second is consulted only when
        the first yields nothing. */
    lemma FindFirstAppend(es1: seq<Experiment>, es2: seq<Experiment>, send: bool)
      ensures FindFirst(es1, send).variation.Some? ==> FindFirst(es1 + es2, send) == FindFirst(es1, send)
      ensures FindFirst(es1, send).variation.None? ==>
        FindFirst(es1 + es2, send) == Found(FindFirst(es2, send).variation, FindFirst(es1, send).events + FindFirst(es2, send).events)
    {
      if FindFirst(es1, send).variation.Some? {
        FindMapAppendHit(es1, es2, Decider(send));
      } else {
        FindMapAppendMiss(es1, es2, Decider(send));
      }
    }

    // -------------------------------------------------------------------------
    // A flag

    /** `decide_variation_for_flag`: the first A/B test that yields a variation;
        failing that, the first delivery rule of the flag's rollout, evaluated with
        sending off. A rollout id the datafile does not know panics (`unwrap`). */
    function DecideVariationForFlag(flag: FeatureFlag, send: bool): (r: Decided<Option<Variation>>)
      ensures r.events == FindByIds(flag.experimentIds, send).events
      ensures r.Panicked? <==> FindByIds(flag.experimentIds, send).variation.None? && flag.rolloutId !in client.datafile.rollouts
      ensures FindByIds(flag.experimentIds, send).variation.Some? ==> r == Decided(FindByIds(flag.experimentIds, send).variation, r.events)
    {
      var found := FindByIds(flag.experimentIds, send);
      if found.variation.Some? then Decided(found.variation, found.events)
      else if flag.rolloutId !in client.datafile.rollouts then Panicked(found.events)
      else
        var rule := FindFirst(client.datafile.rollouts[flag.rolloutId].experiments, false);
        Decided(rule.variation, found.events + rule.events)
    }

    /** With a known rollout, a flag's variation is the first match over its
        resolved A/B tests followed by its rollout rules. */
    lemma FlagIsFirstMatch(flag: FeatureFlag, send: bool)
      requires flag.rolloutId in client.datafile.rollouts
      ensures DecideVariationForFlag(flag, send).Decided?
      ensures DecideVariationForFlag(flag, send).value ==
        FindFirst(Resolve(flag.experimentIds) + client.datafile.rollouts[flag.rolloutId].experiments, send).variation
    {
      var es1 := Resolve(flag.experimentIds);
      var es2 := client.datafile.rollouts[flag.rolloutId].experiments;
      FindByIdsIsFindFirst(flag.experimentIds, send);
      FindFirstAppend(es1, es2, send);
      VariationIgnoresSend(es2);
    }

    /** Whether events are sent has no effect on which variation is found. */
    lemma VariationIgnoresSend(es: seq<Experiment>)
      ensures FindFirst(es, true).variation == FindFirst(es, false).variation
    {
      var f, g := Decider(true), Decider(false);
      forall i | 0 <= i < |es| ensures f(es[i]).variation == g(es[i]).variation {
        assert f(es[i]) == DecideVariationForExperiment(es[i], true);
        assert g(es[i]) == DecideVariationForExperiment(es[i], false);
      }
      FindMapSameHits(es, f, g);
    }

    /** Every event of the experiment phase is the decision event of one of the
        flag's A/B tests, and there are none when sending is off. */
    lemma ExperimentPhaseEvents(ids: seq<string>, send: bool)
      ensures !send ==> FindByIds(ids, send).events == []
      ensures forall k :: 0 <= k < |FindByIds(ids, send).events| ==>
        EmittedBy(Resolve(ids), FindByIds(ids, send).events[k])
    {
      FindByIdsIsFindFirst(ids, send);
      FindFirstEvents(Resolve(ids), send);
    }

    // -------------------------------------------------------------------------
    // Public entry points

    /** `decide_with_options`: an unknown flag is off and dispatches nothing;
        otherwise the variation found decides the flag, and decision events are
        dispatched unless `disableDecisionEvent` is set. */
    function DecideWithOptions(flagKey: string, options: DecideOptions): (r: Decided<Decision>)
      ensures flagKey !in client.datafile.featureFlags ==> r == Decided(Off(flagKey), [])
      ensures flagKey in client.datafile.featureFlags ==>
        r.events == FindByIds(client.datafile.featureFlags[flagKey].experimentIds, !options.disableDecisionEvent).events
      ensures flagKey in client.datafile.featureFlags ==>
        match DecideVariationForFlag(client.datafile.featureFlags[flagKey], !options.disableDecisionEvent)
        case Decided(v, _) => r.Decided? && r.value == DecisionFor(flagKey, v)
        case Panicked(_) => r.Panicked?
      ensures options.disableDecisionEvent ==> r.events == []
    {
      if flagKey !in client.datafile.featureFlags then Decided(Off(flagKey), [])
      else
        var send := !options.disableDecisionEvent;
        ExperimentPhaseEvents(client.datafile.featureFlags[flagKey].experimentIds, send);
        match DecideVariationForFlag(client.datafile.featureFlags[flagKey], send)
        case Panicked(events) => Panicked(events)
        case Decided(found, events) =>
          match found
          case Some(variation) => Decided(New(flagKey, variation.isFeatureEnabled, variation.key), events)
          case None => Decided(Off(flagKey), events)
    }

    /** `decide`: the default options, so decision events are dispatched. */
    function Decide(flagKey: string): (r: Decided<Decision>)
      ensures flagKey !in client.datafile.featureFlags ==> r == Decided(Off(flagKey), [])
      ensures flagKey in client.datafile.featureFlags ==>
        r.events == FindByIds(client.datafile.featureFlags[flagKey].experimentIds, true).events
      ensures flagKey in client.datafile.featureFlags ==>
        match DecideVariationForFlag(client.datafile.featureFlags[flagKey], true)
        case Decided(v, _) => r.Decided? && r.value == DecisionFor(flagKey, v)
        case Panicked(_) => r.Panicked?
    {
      DecideWithOptions(flagKey, DefaultOptions)
    }

    /** When an A/B test of the flag yields a variation, `decide` dispatches that
        experiment's decision event last. */
    lemma DecideReportsWinner(flagKey: string)
      requires flagKey in client.datafile.featureFlags
      requires FindByIds(client.datafile.featureFlags[flagKey].experimentIds, true).variation.Some?
      ensures Decide(flagKey).Decided? && Decide(flagKey).value.flagKey == flagKey
      ensures exists i ::
        (FirstYieldAt(Resolve(client.datafile.featureFlags[flagKey].experimentIds), i) &&
         Decide(flagKey).events != [] &&
         Decide(flagKey).events[|Decide(flagKey).events| - 1] == EventFor(Resolve(client.datafile.featureFlags[flagKey].experimentIds)[i]))
    {
      var ids := client.datafile.featureFlags[flagKey].experimentIds;
      FindByIdsIsFindFirst(ids, true);
      FindFirstLastEvent(Resolve(ids));
    }

    /** When sending is on and some experiment yields, the last event dispatched by
        the scan is the decision event of that first yielding experiment. */
    lemma FindFirstLastEvent(es: seq<Experiment>)
      requires FindFirst(es, true).variation.Some?
      ensures exists i ::
        (FirstYieldAt(es, i) && FindFirst(es, true).events != [] &&
         FindFirst(es, true).events[|FindFirst(es, true).events| - 1] == EventFor(es[i]))
    {
      var f := Decider(true);
      FindMapLastEvents(es, f);
      var all := FindFirst(es, true).events;
      var i :| FirstHitAt(es, f, i) && |f(es[i]).events| <= |all| && all[|all| - |f(es[i]).events|..] == f(es[i]).events;
      FirstHitIsFirstYield(es, true, i);
      var ev := f(es[i]).events;
      assert f(es[i]) == DecideVariationForExperiment(es[i], true);
      assert ev == [EventFor(es[i])];
      assert all[|all| - 1] == all[|all| - 1..][0] == ev[0];
    }

    /** `track_event`: a known event key dispatches one conversion event; an
        unknown one dispatches nothing. */
    function TrackEvent(eventKey: string): (events: seq<Event>)
      ensures |events| <= 1
      ensures events != [] <==> eventKey in client.datafile.events
      ensures events != [] ==> events[0] == ConversionEvent(client.datafile.accountId, userId, client.datafile.events[eventKey].id, eventKey)
    {
      if eventKey in client.datafile.events then
        [ConversionEvent(client.datafile.accountId, userId, client.datafile.events[eventKey].id, eventKey)]
      else []
    }
  }
}

# Optimizely feature-flag SDK for Rust: a verified model of the decision path and event buffering

This project models the core of the Optimizely Rust SDK (zumper/optimizely-rust-sdk)
in Dafny and proves properties of the model.

The model covers four parts of the SDK:

- **Deciding a flag for a user** (`UserContext`). The user is bucketed into 0..=10000
  by hashing the user id followed by the experiment id. A traffic allocation maps the
  bucket to a variation id. The flag's A/B tests are tried in order and its rollout
  rules after them. Decision events are dispatched on the way.
- **The datafile pieces that decision uses:**
  - boolean audience-condition trees: evaluation, emptiness, and how the JSON array
    form is read;
  - leaf audience conditions;
  - experiments: the audience gate and the variation lookup;
  - traffic allocations;
  - the list-to-map deserialization of variations, experiments and ranges.
- **Event buffering for the Event API.** A request payload holds one visitor per
  event. Each visitor has a single snapshot of decisions and events. The batching
  buffer flushes every tenth event, and once more when it is dropped. The older log
  payload groups decisions per visitor in a map.
- **The older datafile builders.** A traffic allocation or a feature flag claims the
  variations, rollout and experiments it refers to by removing them from the maps of
  the datafile.

Code that changes state in place is modelled as classes with `modifies` clauses:

- the attribute map of a user context;
- `Snapshot`, `Visitor`, `Payload` and `BatchedPayload`;
- the map of `LogPayload`.

Loops are methods with invariants, each proved equal to a specification function:

- the insertion loops of `deserialize`;
- the `while let` loop of `visit_seq`;
- the resolution loops of the older builders.

The decision path itself is expression code (`find_map`, `match`) and is modelled as
functions. Each call returns the events it dispatched, in order, next to its result.
`find_map` is `Users.FindMap`, a scan over a closure whose outcomes carry their
events, and the scans of the decision path are instances of it.

Where the specification and the code disagree, the model follows the code:

- **Rollout lookup.** `decide_variation_for_flag` unwraps the rollout lookup
  (optimizely/src/client/user.rs:166). An unknown rollout id therefore panics and
  does not yield "no variation". The model reports this outcome as `Panicked`,
  together with the events already dispatched.
- **Audience gating.** `decide` applies no audience gating. `Experiment::evaluate_audience_conditions`
  is modelled and proved, but the decision path does not call it.
- **Bucket scaling.** The divisor of the scaling is `u32::MAX`. The bucket value
  10000 is therefore reached only by the hash `u32::MAX`
  (optimizely/src/client/user.rs:192).
- **Decision events.** A decision event is dispatched as soon as the traffic
  allocation yields a variation id. This happens even when the experiment has no
  variation under that id (optimizely/src/client/user.rs:197-216).
- **Conversion events.** A conversion event carries an event id and an event key.
  This is how optimizely/src/client/user.rs:103 and
  src/event_api/request/payload.rs:68-75 use it. The enum in src/event_api/event.rs
  lists only the account and user ids for it.
- **Builder errors.** The older builders raise `InvalidVariationId` and
  `InvalidExperimentId`. src/datafile/error.rs does not declare either variant. The
  model adds both to `DatafileError`.
- **Attribute types.** User attributes are typed values: null, bool, number or
  string. This follows `AttributeValue` as audience_condition.rs uses it.
  optimizely/src/client/user.rs:16 declares the attribute map as string-valued.

## Model

| member | source | states |
|---|---|---|
| Decisions.Off | src/decision.rs:20-26 | the decision for a flag key is disabled, keeps the key, and has variation key "off" |
| Decisions.New | src/decision.rs:28-34 | the decision stores the flag key, enabled flag and variation key it is given |
| BooleanConditions.EvaluateAnd | optimizely/src/datafile/boolean_condition.rs:174-176 | an AND is true iff every child is true, so `And([])` is true |
| BooleanConditions.EvaluateOr | optimizely/src/datafile/boolean_condition.rs:177-179 | an OR is true iff some child is true, so `Or([])` is false |
| BooleanConditions.EvaluateMeaning | optimizely/src/datafile/boolean_condition.rs:169-188 | the meaning of each node kind: AND is all, OR is some, `Not(Some c)` is the negation of c, `Not(None)` is false, and a leaf is exactly the evaluator's answer |
| BooleanConditions.IsEmpty | optimizely/src/datafile/boolean_condition.rs:190-197 | empty holds exactly for `And([])`, `Or([])` and `Not(None)`; a leaf is never empty |
| BooleanConditions.EmptyIgnoresEvaluator | optimizely/src/datafile/boolean_condition.rs:169-197 | an empty tree evaluates to true iff it is an AND, whatever the evaluator |
| BooleanConditions.ParseAllAt | optimizely/src/datafile/boolean_condition.rs:149-155 | the trailing elements are decoded one for one, keeping their order |
| BooleanConditions.ParseArrayShape | optimizely/src/datafile/boolean_condition.rs:123-158 | an empty array reads as `And([])`; `["not"]` reads as `Not(None)` and `["not", x, ...]` as `Not(Some x)`; a head "and"/"or" collects the remaining elements in order; any other head is the first child of an OR, followed by the rest |
| BooleanConditions.VisitSeq | optimizely/src/datafile/boolean_condition.rs:117-160 | the loop that pushes each further element builds exactly the tree of the array rule |
| BooleanConditions.Deserialize | optimizely/src/datafile/boolean_condition.rs:89-95 | one element reads as the array rule for an array, and as a leaf for a string or any other value |
| BooleanConditions.ParseEncode | optimizely/src/datafile/boolean_condition.rs:117-160 | reading back the array form of any tree yields that tree (round trip) |
| BooleanConditions.ParseEncodeAll | optimizely/src/datafile/boolean_condition.rs:149-155 | reading back the array forms of a list of trees yields that list |
| AudienceConditions.Cmp | optimizely/src/datafile/audience_condition.rs:149-161 | integer comparison is exact: Less, Equal or Greater iff a < b, a == b or a > b |
| AudienceConditions.NumOrd | optimizely/src/datafile/audience_condition.rs:149-161 | the mixed signed/unsigned comparison agrees with exact integer ordering |
| AudienceConditions.ExactEvaluate | optimizely/src/datafile/audience_condition.rs:96-117 | false for an absent or null attribute; true iff the literal is a bool, number or string equal to an attribute of the same type |
| AudienceConditions.ExistsEvaluate | optimizely/src/datafile/audience_condition.rs:127-131 | true iff the attribute is present and not null |
| AudienceConditions.Compare | optimizely/src/datafile/audience_condition.rs:147-178 | None unless the attribute is a number; otherwise the exact ordering of the attribute against the literal |
| AudienceConditions.Contains | optimizely/src/datafile/audience_condition.rs:187-192 | true iff the text occurs in the string at some index |
| AudienceConditions.SubstringEvaluate | optimizely/src/datafile/audience_condition.rs:187-192 | true iff the attribute is present, is a string, and contains the literal |
| AudienceConditions.EvaluateCondition | optimizely/src/datafile/audience_condition.rs:63-85 | `gt`/`ge`/`lt`/`le` hold iff the attribute is a number above, at least, below, or at most the literal; an unknown match type and an absent attribute give false |
| AudienceConditions.NumericComplements | optimizely/src/datafile/audience_condition.rs:67-78 | `gt` and `le`, and `ge` and `lt`, are complementary on numeric attributes; all four are false on any other attribute |
| KeyedMaps.IndexByMeaning | optimizely/src/datafile/experiment.rs:32-36 | the insertion loop's map has exactly the elements' keys; each key holds the value of the last element with that key |
| KeyedMaps.Index | optimizely/src/datafile/variation.rs:32-36 | the insertion loop builds the list-to-map function |
| Variations.FromRaw | optimizely/src/datafile/variation.rs:18-24 | id and key are kept; the feature is enabled unless `featureEnabled` is explicitly false, so a missing value means true |
| Variations.Deserialize | optimizely/src/datafile/variation.rs:28-37 | every variation is present under its own id; of two variations with one id, the later is kept |
| TrafficAllocations.Lookup | optimizely/src/datafile/traffic_allocation.rs:29-35 | on ordered entries: None iff every end is below the bucket; otherwise the variation id at the smallest end at or above the bucket |
| TrafficAllocations.GetVariation | optimizely/src/datafile/traffic_allocation.rs:29-35 | `variation(b)` is the id at the smallest end-of-range at or above b, and None iff b exceeds every end |
| TrafficAllocations.BoundaryInclusive | optimizely/src/datafile/traffic_allocation.rs:29-35 | a bucket equal to an end gets that end's variation, and every bucket up to an end gets some variation |
| TrafficAllocations.Insert | optimizely/src/datafile/traffic_allocation.rs:23 | inserting into the ordered entries keeps them ordered and updates the map at exactly one key |
| TrafficAllocations.Deserialize | optimizely/src/datafile/traffic_allocation.rs:17-26 | the loop yields ordered entries whose map is the list-to-map of the ranges by end of range |
| TrafficAllocations.DeserializeKeepsLater | optimizely/src/datafile/traffic_allocation.rs:21-25 | a repeated end of range keeps the variation id of the later range |
| TrafficAllocations.ThreeWaySplit | optimizely/src/datafile/traffic_allocation.rs:60-80 | with {3333: A, 6666: B, 10000: C}, every bucket from 0 to 3333 gives A, every bucket from 3334 to 6666 gives B, every bucket from 6667 to 10000 gives C, and every bucket above 10000 gives None |
| Experiments.GetVariation | optimizely/src/datafile/experiment.rs:59-61 | Some exactly when the id is stored, and then the stored variation |
| Experiments.ImplicitConditions | optimizely/src/datafile/experiment.rs:73-78 | the implicit gate is an OR with one leaf per audience id, in order |
| Experiments.EvaluateAudienceConditions | optimizely/src/datafile/experiment.rs:63-84 | a present empty tree gives true; a present non-empty tree gives its evaluation; no tree and no ids gives true; no tree with ids gives true iff the evaluator accepts some id |
| Experiments.EmptyGateOverridesTree | optimizely/src/datafile/experiment.rs:67-70 | an explicit `Or([])` or `Not(None)` gate lets every user in, although the tree itself evaluates to false |
| Experiments.Deserialize | optimizely/src/datafile/experiment.rs:28-37 | every experiment is present under its own id; of two experiments with one id, the later is kept |
| Users.BucketValueRange | optimizely/src/client/user.rs:191-192 | the bucket value is the floor of hash * 10000 / u32::MAX; it is at most 10000, and equals 10000 iff the hash is u32::MAX |
| Users.BucketMonotone | optimizely/src/client/user.rs:192 | a larger hash never gives a smaller bucket |
| Users.DecisionFor | optimizely/src/client/user.rs:136-145 | a found variation gives a decision with that variation's key and enabled flag; no variation gives the "off" decision |
| Users.FindMapMeaning | optimizely/src/client/user.rs:150-157 | `find_map` returns the outcome of the first item that has a variation, and nothing iff no item has one |
| Users.FindMapEvents | optimizely/src/client/user.rs:150-157 | every event dispatched during `find_map` belongs to the outcome of one of the items |
| Users.FindMapSilent | optimizely/src/client/user.rs:169-172 | items whose outcomes dispatch nothing make a `find_map` that dispatches nothing |
| Users.FindMapLastEvents | optimizely/src/client/user.rs:150-157 | when an item has a variation, the events of `find_map` end with the events of the first such item, since the items after it are never tried |
| Users.FindMapSameHits | optimizely/src/client/user.rs:169-172 | closures whose outcomes agree on the variation make `find_map`s that find the same variation |
| Users.FindMapAppendHit | optimizely/src/client/user.rs:159-163 | a list with a hit decides the `find_map` of any extension of it |
| Users.FindMapAppendMiss | optimizely/src/client/user.rs:164-173 | a list without a hit hands `find_map` on to what follows, its own events first |
| Users.UserContext.constructor | optimizely/src/client/user.rs:61-67 | the context holds the client, user id and attributes it is given |
| Users.UserContext.SetAttribute | optimizely/src/client/user.rs:70-77 | inserts or overwrites exactly one key; every other attribute is unchanged |
| Users.UserContext.DecideVariationForExperiment | optimizely/src/client/user.rs:177-220 | a variation results iff the allocation yields an id the experiment stores, and it is the variation under that id; one decision event is dispatched iff sending is on and an id was allocated |
| Users.UserContext.FindFirst | optimizely/src/client/user.rs:169-172 | with sending off, scanning a list of experiments dispatches no event |
| Users.UserContext.FindFirstMeaning | optimizely/src/client/user.rs:150-157 | the scan returns the variation of the first experiment that yields one, and nothing iff none yields |
| Users.UserContext.FindFirstEvents | optimizely/src/client/user.rs:197-213 | every event the scan dispatches is the decision event of an experiment it scanned |
| Users.UserContext.Resolve | optimizely/src/client/user.rs:150-156 | the ids resolve to experiments of the datafile, at most one per id; every known id contributes its experiment, and a list of known ids resolves one for one, in order |
| Users.UserContext.FindByIdsIsFindFirst | optimizely/src/client/user.rs:150-157 | scanning ids and resolving each one is scanning the resolved experiments; unknown ids are skipped |
| Users.UserContext.FindFirstAppend | optimizely/src/client/user.rs:159-174 | scanning two lists gives the first list's outcome when it yields a variation; otherwise it gives the second list's variation, after the first list's events and then the second's |
| Users.UserContext.DecideVariationForFlag | optimizely/src/client/user.rs:148-175 | the events are those of the A/B-test phase; a match there is the result; otherwise an unknown rollout panics, and a known rollout is scanned with sending off |
| Users.UserContext.FlagIsFirstMatch | optimizely/src/client/user.rs:148-175 | with a known rollout, the flag's variation is the first match over its resolved A/B tests followed by its rollout rules |
| Users.UserContext.VariationIgnoresSend | optimizely/src/client/user.rs:172 | whether events are sent does not change which variation is found |
| Users.UserContext.ExperimentPhaseEvents | optimizely/src/client/user.rs:150-157 | every A/B-test-phase event belongs to one of the flag's experiments, and there are none when sending is off |
| Users.UserContext.DecideWithOptions | optimizely/src/client/user.rs:121-146 | an unknown flag gives the "off" decision and no events; otherwise the decision comes from the variation found, and events are dispatched unless `disable_decision_event` is set |
| Users.UserContext.Decide | optimizely/src/client/user.rs:115-118 | an unknown flag is off with no events; otherwise the decision comes from the variation found with sending on (or the call panics with the rollout), and the A/B-test-phase events are sent |
| Users.UserContext.DecideReportsWinner | optimizely/src/client/user.rs:150-162 | when an A/B test matches, `decide` dispatches the decision event of the first matching experiment last |
| Users.UserContext.FindFirstLastEvent | optimizely/src/client/user.rs:150-157 | with sending on and a match, the scan's last event is the decision event of the first matching experiment |
| Users.UserContext.TrackEvent | optimizely/src/client/user.rs:92-112 | a known event key dispatches exactly one conversion event with the account id, user id, event id and key; an unknown key dispatches none |
| Snapshots.NewDecision | src/event_api/request/decision.rs:13-20 | a reported decision keeps its three ids and is never a campaign holdback |
| Snapshots.Snapshot.constructor | src/event_api/request/snapshot.rs:14-16 | a new snapshot has no decisions and no events |
| Snapshots.Snapshot.AddDecision | src/event_api/request/snapshot.rs:18-21 | appends one decision and leaves the events unchanged |
| Snapshots.Snapshot.AddEvent | src/event_api/request/snapshot.rs:23-26 | appends one event and leaves the decisions unchanged |
| Visitors.Visitor.constructor | src/event_api/request/visitor.rs:15-20 | a new visitor has the given id and one empty snapshot |
| Visitors.Visitor.AddDecision | src/event_api/request/visitor.rs:22-24 | one decision is appended to the only snapshot, and nothing else changes |
| Visitors.Visitor.AddEvent | src/event_api/request/visitor.rs:26-28 | one event is appended to the only snapshot, and nothing else changes |
| Payloads.RecordOf | src/event_api/request/payload.rs:48-76 | a decision event becomes its user's visitor with one decision and one "campaign_activated" event on the campaign; a conversion becomes one event with its id and key |
| Payloads.AppendVisitor | src/event_api/request/payload.rs:79 | pushing a visitor adds its contents at the end and keeps the earlier visitors' contents |
| Payloads.VisitorFor | src/event_api/request/payload.rs:48-76 | the visitor built for an event is fresh, and its contents are the record of that event |
| Payloads.Payload.constructor | src/event_api/request/payload.rs:27-36 | a new payload has the account id and no visitors, enriches decisions, anonymizes the IP, and uses the client name "rust-sdk" |
| Payloads.Payload.AddEvent | src/event_api/request/payload.rs:39-80 | an event of another account is rejected and changes nothing; otherwise one fresh visitor holding the event's record is appended, and the earlier visitors are untouched |
| BatchedPayloads.Enqueue | src/event_api/batched_event_dispatcher/batched_payload.rs:25-40 | the first event creates a payload for the event's account; a later event is appended to the pending payload |
| BatchedPayloads.Flush | src/event_api/batched_event_dispatcher/batched_payload.rs:51-77 | the pending payload is handed over and the counter resets, whatever the send's outcome; with nothing pending, nothing changes |
| BatchedPayloads.StepKeepsConsistent | src/event_api/batched_event_dispatcher/batched_payload.rs:23-49 | between calls the counter stays below 10, a payload is pending iff the counter is positive, and the payload holds one visitor per counted event; the tenth event dispatches exactly ten visitors |
| BatchedPayloads.StepsCount | src/event_api/batched_event_dispatcher/batched_payload.rs:23-49 | n events of one account leave the counter at (c + n) mod 10, dispatch (c + n) div 10 requests, and keep the requests already dispatched |
| BatchedPayloads.BatchedPayload.constructor | src/event_api/batched_event_dispatcher/batched_payload.rs:13-21 | a new buffer has counter 0, no payload and nothing dispatched |
| BatchedPayloads.BatchedPayload.AddEvent | src/event_api/batched_event_dispatcher/batched_payload.rs:23-49 | the new state is one step of the buffer: enqueue, count one, and flush on reaching 10; an event of another account is rejected |
| BatchedPayloads.BatchedPayload.Push | src/event_api/batched_event_dispatcher/batched_payload.rs:25-40 | the event goes into the pending payload, or into a new payload when none is pending; the counter is unchanged |
| BatchedPayloads.BatchedPayload.Send | src/event_api/batched_event_dispatcher/batched_payload.rs:51-77 | the new state is the flush of the old one |
| BatchedPayloads.BatchedPayload.Drop | src/event_api/batched_event_dispatcher/batched_payload.rs:80-87 | dropping flushes the partial batch once and keeps the buffer consistent |
| LogPayloads.NewLogDecision | src/event/log_payload.rs:25-32 | a logged decision keeps its three ids and is never a campaign holdback |
| LogPayloads.WithDecision | src/event/log_payload.rs:107-114 | a decision adds one decision and one "campaign_activated" event on the campaign to the visitor, and keeps its id |
| LogPayloads.VisitorAsJson | src/event/log_payload.rs:116-138 | a visitor becomes its id and a single snapshot with its decisions and events in order |
| LogPayloads.LogPayload.constructor | src/event/log_payload.rs:148-152 | a new payload has the account id and no visitors |
| LogPayloads.LogPayload.AddDecision | src/event/log_payload.rs:154-178 | the visitor under this id, or a new empty one, gets the decision and its event; every other visitor is unchanged, and each visitor stays keyed by its own id |
| LogPayloads.LogPayload.AsJson | src/event/log_payload.rs:180-194 | one entry per visitor in the map's iteration order, each with a single snapshot; the account id, both flags true, and the client name |
| LogPayloads.OrderLength | src/event/log_payload.rs:181-185 | an iteration order of a map is as long as the map is large |
| LogPayloads.AsJsonCoversVisitors | src/event/log_payload.rs:180-194 | the document's visitors have distinct ids, and every visitor of the payload appears in it |
| Removals.TakeSucceeds | src/datafile/traffic_allocation.rs:24-28 | resolving ids by removal succeeds iff the ids are all in the map and pairwise distinct |
| Removals.TakeValues | src/datafile/traffic_allocation.rs:17-35 | a successful resolution yields the map's value for each id, in list order |
| Removals.TakeRemaining | src/datafile/traffic_allocation.rs:26-28 | a successful resolution leaves the map without exactly the resolved ids |
| Removals.TakeShrinks | src/datafile/traffic_allocation.rs:17-40 | a successful resolution shrinks the map by one entry per id |
| Removals.TakeFailure | src/datafile/traffic_allocation.rs:26-28 | a failed resolution names the first id that is unknown or already taken; the ids before it stay removed |
| Removals.TakenOnce | src/datafile/traffic_allocation.rs:24-28 | a resolved id is gone from the map that is left |
| LegacyTrafficAllocations.Build | src/datafile/traffic_allocation.rs:15-41 | the loop resolves each range's variation by removal, and fails with `InvalidVariationId` on the first range that cannot be resolved; on success the ranges are collected by end of range; the map left is that of the resolution, failures included |
| LegacyTrafficAllocations.UnknownVariationFails | src/datafile/traffic_allocation.rs:26-28 | a range whose id is not in the map makes the build fail, naming that range or an earlier one |
| LegacyTrafficAllocations.SharedVariationFails | src/datafile/traffic_allocation.rs:24-28 | two ranges that name one variation make the build fail |
| LegacyTrafficAllocations.BuildSuccess | src/datafile/traffic_allocation.rs:17-40 | on success every variation used came out of the input map under its range's id, the map shrank by the number of ranges, and the entries left are unchanged |
| LegacyTrafficAllocations.DuplicateEndKeepsLater | src/datafile/traffic_allocation.rs:35-36 | of two ranges with one end of range, the later one's variation is kept |
| LegacyFeatureFlags.Build | src/datafile/feature_flag.rs:20-55 | the loop builds exactly what the specification of building a flag gives, including the maps left behind |
| LegacyFeatureFlags.BuildSucceeds | src/datafile/feature_flag.rs:29-54 | a flag builds iff its rollout id is known and its experiment ids are distinct and known; it then holds that rollout and those experiments in list order, and they have left the maps |
| LegacyFeatureFlags.BuildFailsOnExperiment | src/datafile/feature_flag.rs:35-47 | the first experiment id that is unknown or already taken fails the build with `InvalidExperimentId` |
| LegacyFeatureFlags.SharedRolloutFails | src/datafile/feature_flag.rs:29-32 | two flags naming one rollout: the second fails with `InvalidRolloutId`, whatever became of the first |
| LegacyFeatureFlags.SharedExperimentFails | src/datafile/feature_flag.rs:39-42 | two flags naming one experiment: once the first has built, the second fails |
| LegacyFeatureFlags.MapEntry | src/datafile/feature_flag.rs:57-59 | the entry is the flag under its own key |
| LegacyFeatureFlags.EntriesKeyedByKey | src/datafile/feature_flag.rs:57-59 | collecting entries keys every flag by its own key; of two flags with one key, the later is kept |

## Left out

- The MurmurHash3 of the bucketing key is a function parameter of the client (`Client.hash`). The same goes for the UTF-8 encoding of that key.
- Users.UserContext.DecideVariationForExperiment: the model is of the build with the `online` cargo feature. Without that feature the decision event at optimizely/src/client/user.rs:200 is compiled out, so no decision event is ever dispatched and every scan's `events` is empty.
- Users.UserContext.TrackEvent: the model is of the build with the `online` cargo feature. Without it, `track_event` (optimizely/src/client/user.rs:90-112) does not exist.
- Users.BucketValue: computed with exact integer arithmetic, as floor(hash * 10000 / u32::MAX). The source scales with `f64` and truncates, which can differ by one at a boundary where rounding matters.
- The `f64` branches of `NumericCondition::compare` and the floating-point numbers of JSON. Numbers are integers in the `i64`/`u64` range.
- AudienceConditions.ExactEvaluate: numbers compare as integers. A float literal or attribute is not modelled.
- BooleanConditions.ParseArray: for `["not", x, ...]` the visitor stops reading after `x`. Whether the deserializer then rejects the leftover elements depends on serde's deserializer and is not modelled.
- Serde plumbing: the `visit_*` wrappers that wrap a scalar into `Single`, the decoding of leaf values and its errors, and the `datafile`/`context`/`environment` readers. Leaves arrive already decoded.
- The `MissingField` errors of the older builders come from the `string_field!`, `u32_field!` and `list_field!` macros of src/datafile.rs. Those macros are not part of this model; raw ranges and flags arrive with their fields read. The `expect` on a non-string experiment id is left out for the same reason.
- `list_field!` is assumed to map the closure over the array in order and to stop at the first error, as `collect` into a `Result` does.
- Sending over HTTP (`EventApiClient::send`, `LogPayload::send`) is not modelled. The `dispatched` list of `BatchedPayload` records each request handed over, in order.
- Threads and the mpsc channel of the batched event dispatcher, and the event dispatcher trait objects, are not modelled. A dispatched event is returned as a value.
- Event uuids, timestamps and the client version string are not modelled.
- Payloads.Payload.AddEvent: the source panics on an event of another account. The model reports `accepted` false and changes nothing. Unwinding, including a `Drop` flush during the panic, is not modelled.
- Users.UserContext.DecideVariationForFlag: the `unwrap` panic is the `Panicked` outcome. Nothing after it is modelled.
- `HashMap` iteration order in `LogPayload::as_json` is a parameter (`order`). The model requires only that the order lists every key once.
- Logging through the `log` crate is not modelled.
- Users.DecideOptions: `enabled_flags_only`, `ignore_user_profile_service`, `include_reasons` and `exclude_variables` exist but are not read by the decision path.
- Getters that return a field unchanged are record fields of the datatypes.
- Earlier revisions that repeat the same logic (src/user_context.rs, src/client/user.rs, src/event/batched_event_dispatcher/payload.rs, and the older request/payload files) are modelled once, through the files above.

/** The dynamic resource provider for a Netlify DNS record: the property-bag logic of
    its lifecycle operations. The Netlify HTTP calls are not modelled; what they return
    is a parameter, and the requests they would be sent are part of the result. */
module NetlifyDnsRecord {
  import opened JsObjects

  datatype Option<T> = None | Some(value: T)

  /** What an operation throws: a JavaScript value thrown by the Netlify client, or the
      `TypeError` that reading `.message` of `undefined` or `null` raises. */
  datatype Exception = Thrown(value: Value) | MessageTypeError

  datatype Result<T> = Ok(value: T) | Err(error: Exception)

  /** Reading a property of this thrown value raises a `TypeError`. */
  predicate IsNullish(e: Exception) {
    e.Thrown? && (e.value == Undef || e.value == Null)
  }

  /* ---------- Which properties are tracked ---------- */

  /** The properties that take part in the diff, in declaration order. */
  const ValidKeys: seq<string> := ["apiKey", "zoneId", "type", "hostname", "value", "ttl", "priority"]

  /** `validKeys.includes(key)`. */
  predicate IsValidKey(k: string)
    ensures IsValidKey(k) <==> k == "apiKey" || k == "zoneId" || k == "type" || k == "hostname"
                                || k == "value" || k == "ttl" || k == "priority"
  {
    k in ValidKeys
  }

  /** `keys.filter(filterValidKeys)`: the tracked keys among `keys`, in their order. */
  function FilterValidKeys(keys: seq<string>): (r: seq<string>)
    ensures forall k :: k in r <==> k in keys && IsValidKey(k)
    ensures Distinct(keys) ==> Distinct(r) && OrderedWithin(r, keys)
  {
    FilterKeepsOrder(keys, IsValidKey);
    Filter(keys, IsValidKey)
  }

  /** The tracked part of an object, as a map. */
  function Tracked(o: JsObject): map<string, Value> {
    map k | k in o.props && IsValidKey(k) :: o.props[k]
  }

  /* ---------- shallowCompare ---------- */

  /** True when `obj1` and `obj2` list equally many tracked keys and every tracked key of
      `obj1` holds, under `===`, what reading that key from `obj2` gives (`undefined`
      when `obj2` lacks it). */
  function ShallowCompare(obj1: JsObject, obj2: JsObject): (r: bool)
    ensures r <==> && |FilterValidKeys(obj1.keys)| == |FilterValidKeys(obj2.keys)|
                   && forall k :: k in obj1.props && IsValidKey(k) ==> Get(obj1, k) == Get(obj2, k)
  {
    var obj1Keys := FilterValidKeys(obj1.keys);
    var obj2Keys := FilterValidKeys(obj2.keys);
    |obj1Keys| == |obj2Keys| && Every(obj1Keys, k => StrictEquals(Get(obj1, k), Get(obj2, k)))
  }

  /* ---------- The provider's operations ---------- */

  datatype CheckFailure = CheckFailure(property: string, reason: string)

  datatype CheckResult = Failures(failures: seq<CheckFailure>) | Inputs(inputs: JsObject)

  /** `check`: no validation rule exists, so it never fails and hands back `news` unchanged. */
  function Check(olds: JsObject, news: JsObject): (r: CheckResult)
    ensures r.Inputs? && r.inputs == news
  {
    var failures: seq<CheckFailure> := [];
    if |failures| > 0 then Failures(failures) else Inputs(news)
  }

  datatype DiffResult = DiffResult(changes: bool, replaceKeys: seq<string>)

  /** `diff`: a change is reported exactly when `ShallowCompare(olds, news)` fails, and
      then every tracked key of `news`, in `news`'s order, is to be replaced. */
  method Diff(id: string, olds: JsObject, news: JsObject) returns (r: DiffResult)
    ensures r.changes <==> !ShallowCompare(olds, news)
    ensures !r.changes ==> r.replaceKeys == []
    ensures r.changes ==> r.replaceKeys == FilterValidKeys(news.keys)
    ensures forall k :: k in r.replaceKeys ==> IsValidKey(k) && k in news.props
    ensures Distinct(r.replaceKeys) && OrderedWithin(r.replaceKeys, news.keys)
    ensures olds == news ==> !r.changes
    ensures |FilterValidKeys(olds.keys)| != |FilterValidKeys(news.keys)| ==> r.changes
    ensures forall k :: k in olds.props && IsValidKey(k) && Get(olds, k) != Get(news, k) ==> r.changes
  {
    var replaceKeys: seq<string> := [];
    var changes := false;
    if !ShallowCompare(olds, news) {
      changes := true;
      replaceKeys := replaceKeys + FilterValidKeys(news.keys);
    }
    r := DiffResult(changes, replaceKeys);
  }

  /** The Netlify request that `create` sends: the client's credential, the zone and the body. */
  datatype CreateRequest = CreateRequest(apiKey: Value, zoneId: Value, body: JsObject)

  datatype CreateResult = CreateResult(id: Value, outs: JsObject)

  /** What one run of `create` does: the request it sends, the argument it passes to
      `sleep` (when it calls it), the delay in milliseconds the timer is then set to,
      and what it returns or throws. */
  datatype CreateRun = CreateRun(
    request: CreateRequest,
    sleepArgument: Option<int>,
    timerDelayMs: Option<int>,
    result: Result<CreateResult>)

  /** The largest delay `setTimeout` honours, in milliseconds; Node.js sets a larger one to 1. */
  const MaxTimerDelayMs: int := 2147483647

  /** The delay the timer of `sleep(seconds)` runs for: `setTimeout` is given
      `seconds * 1000` milliseconds and replaces a delay above the maximum or below 1 by 1. */
  function TimerDelayMs(seconds: int): (ms: int)
    ensures 1 <= ms <= MaxTimerDelayMs
    ensures 1 <= seconds * 1000 <= MaxTimerDelayMs ==> ms == seconds * 1000
    ensures !(1 <= seconds * 1000 <= MaxTimerDelayMs) ==> ms == 1
  {
    var requested := seconds * 1000;
    if requested > MaxTimerDelayMs || requested < 1 then 1 else requested
  }

  /** The fields of the record-creation body, in the order the object literal lists them. */
  const BodyKeys: seq<string> := ["type", "hostname", "value", "ttl", "priority"]

  /** Properties `create` keeps out of its outputs. */
  const StrippedKeys: set<string> := {"__provider", "secondsToWaitAfter"}

  lemma BodyKeysDistinct()
    ensures Distinct(BodyKeys)
    ensures "apiKey" !in BodyKeys && "zoneId" !in BodyKeys
  {
  }

  /** The request body: the five record fields read from `props`, each present even when
      `props` lacks it (then holding `undefined`). */
  function CreateBody(props: JsObject): (body: JsObject)
    ensures body.keys == BodyKeys
    ensures forall k :: k in body.props <==> k in BodyKeys
    ensures forall k :: k in BodyKeys ==> body.props[k] == Get(props, k)
    ensures "apiKey" !in body.props && "zoneId" !in body.props
  {
    BodyKeysDistinct();
    Obj(BodyKeys, map k | k in BodyKeys :: Get(props, k))
  }

  /** `const {__provider, secondsToWaitAfter, ...outs} = props`: `props` without those two keys. */
  function CreateOuts(props: JsObject): (outs: JsObject)
    ensures forall k :: k in outs.props <==> k in props.props && k != "__provider" && k != "secondsToWaitAfter"
    ensures forall k :: k in outs.props ==> outs.props[k] == props.props[k]
    ensures OrderedWithin(outs.keys, props.keys)
  {
    Omit(props, StrippedKeys)
  }

  /** `typeof secondsToWaitAfter === "number" && secondsToWaitAfter > 0`: a string, a
      boolean, `null` or `undefined` never asks for a wait, nor does a number up to 0. */
  predicate ShouldWait(secondsToWaitAfter: Value)
    ensures ShouldWait(secondsToWaitAfter) <==> exists n: int :: n > 0 && secondsToWaitAfter == Num(n)
  {
    assert secondsToWaitAfter.Num? ==> secondsToWaitAfter == Num(secondsToWaitAfter.n);
    secondsToWaitAfter.Num? && secondsToWaitAfter.n > 0
  }

  /** `create`, given what `createDnsRecord` answers (`reply`). When the call fails, the
      `catch` block reads `error.message` and rethrows: the thrown value comes back
      unchanged unless it is `undefined` or `null`, where that read raises a `TypeError`
      instead; nothing sleeps. A successful call sleeps when asked to and returns the
      record id from the reply together with the stripped outputs. */
  function Create(props: JsObject, reply: Result<JsObject>): (run: CreateRun)
    ensures run.request == CreateRequest(Get(props, "apiKey"), Get(props, "zoneId"), CreateBody(props))
    ensures reply.Err? ==> run.result.Err? && run.sleepArgument == None
    ensures reply.Err? && !IsNullish(reply.error) ==> run.result.error == reply.error
    ensures reply.Err? && IsNullish(reply.error) ==> run.result.error == MessageTypeError
    ensures reply.Ok? ==> run.result == Ok(CreateResult(Get(reply.value, "id"), CreateOuts(props)))
    ensures run.sleepArgument.Some? <==> reply.Ok? && Get(props, "secondsToWaitAfter").Num? && Get(props, "secondsToWaitAfter").n > 0
    ensures run.sleepArgument.Some? ==> run.sleepArgument.value == Get(props, "secondsToWaitAfter").n
    ensures run.timerDelayMs.Some? <==> run.sleepArgument.Some?
    ensures run.sleepArgument.Some? ==> run.timerDelayMs.value == TimerDelayMs(run.sleepArgument.value)
  {
    var outs := CreateOuts(props);
    var secondsToWaitAfter := Get(props, "secondsToWaitAfter");
    var request := CreateRequest(Get(props, "apiKey"), Get(props, "zoneId"), CreateBody(props));
    match reply
    case Err(e) =>
      var rethrown := if IsNullish(e) then MessageTypeError else e;
      CreateRun(request, None, None, Err(rethrown))
    case Ok(response) =>
      if ShouldWait(secondsToWaitAfter) then
        var n := secondsToWaitAfter.n;
        CreateRun(request, Some(n), Some(TimerDelayMs(n)), Ok(CreateResult(Get(response, "id"), outs)))
      else
        CreateRun(request, None, None, Ok(CreateResult(Get(response, "id"), outs)))
  }

  /** The Netlify request that `read` and `delete` send: credential, zone and record id. */
  datatype RecordRequest = RecordRequest(apiKey: Value, zoneId: Value, recordId: string)

  /** The request both `read` (`getIndividualDnsRecord`) and `delete` (`deleteDnsRecord`,
      from the destructured `apiKey` and `zoneId`) send for record `id`. */
  function RecordRequestFor(id: string, state: JsObject): (r: RecordRequest)
    ensures r.recordId == id && r.apiKey == Get(state, "apiKey") && r.zoneId == Get(state, "zoneId")
  {
    RecordRequest(Get(state, "apiKey"), Get(state, "zoneId"), id)
  }

  datatype ReadResult = ReadResult(id: Value, props: JsObject)

  /** `read`, given what `getIndividualDnsRecord` answers to `RecordRequestFor(id, props)`.
      A failed call is rethrown unchanged; otherwise the id is the response's and the
      properties are `{...props, ...response}`. */
  function Read(id: string, props: JsObject, response: Result<JsObject>): (r: Result<ReadResult>)
    ensures response.Err? ==> r == Err(response.error)
    ensures response.Ok? ==> r.Ok? && r.value.id == Get(response.value, "id")
    ensures response.Ok? ==> r.value.props == Spread(props, response.value)
  {
    match response
    case Err(e) => Err(e)
    case Ok(live) => Ok(ReadResult(Get(live, "id"), Spread(props, live)))
  }

  /* ---------- Properties ---------- */

  /** `shallowCompare` is reflexive, so `diff` of a bag with itself reports nothing. */
  lemma ShallowCompareReflexive(o: JsObject)
    ensures ShallowCompare(o, o)
  {
  }

  /** A tracked key that holds `undefined` in the old bag matches a key the new bag lacks,
      so bags with different tracked key sets can compare equal one way and not the other. */
  lemma ShallowCompareNotSymmetric()
    ensures var olds: JsObject := Obj(["ttl"], map["ttl" := Undef]);
            var news: JsObject := Obj(["priority"], map["priority" := Num(10)]);
            ShallowCompare(olds, news) && !ShallowCompare(news, olds)
  {
  }

  /** The tracked keys of a well-formed object are the keys of its tracked part, each once. */
  lemma TrackedKeys(o: JsObject)
    ensures Elems(FilterValidKeys(o.keys)) == Tracked(o).Keys
    ensures |FilterValidKeys(o.keys)| == |Tracked(o).Keys|
  {
    var f := FilterValidKeys(o.keys);
    assert Elems(f) == Tracked(o).Keys;
    DistinctCardinality(f);
  }

  lemma ValidKeysDistinct()
    ensures Distinct(ValidKeys)
  {
  }

  /** At most seven keys are ever listed for replacement. */
  lemma ReplacesAtMostSeven(news: JsObject)
    ensures |FilterValidKeys(news.keys)| <= 7
  {
    var f := FilterValidKeys(news.keys);
    DistinctCardinality(f);
    ValidKeysDistinct();
    DistinctCardinality(ValidKeys);
    SubsetSize(Elems(f), Elems(ValidKeys));
  }

  /** When both bags track the same keys, the comparison is symmetric and is exactly
      equality of the tracked values. */
  lemma ShallowCompareSameTrackedKeys(obj1: JsObject, obj2: JsObject)
    requires Tracked(obj1).Keys == Tracked(obj2).Keys
    ensures ShallowCompare(obj1, obj2) == ShallowCompare(obj2, obj1)
    ensures ShallowCompare(obj1, obj2) <==> Tracked(obj1) == Tracked(obj2)
  {
    TrackedKeys(obj1);
    TrackedKeys(obj2);
    ShallowCompareOnTracked(obj1, obj2);
    ShallowCompareOnTracked(obj2, obj1);
  }

  /** With equally many tracked keys, the comparison asks that the tracked part of
      `obj1` be contained in that of `obj2`, reading missing keys as `undefined`. */
  lemma ShallowCompareOnTracked(obj1: JsObject, obj2: JsObject)
    requires |Tracked(obj1).Keys| == |Tracked(obj2).Keys|
    ensures ShallowCompare(obj1, obj2) <==> forall k :: k in Tracked(obj1) ==> Tracked(obj1)[k] == Get(obj2, k)
  {
    TrackedKeys(obj1);
    TrackedKeys(obj2);
  }

  /** On bags without `undefined` tracked values the comparison is exactly equality of the
      tracked parts, whatever key sets the bags have. */
  lemma ShallowCompareWithoutUndefined(obj1: JsObject, obj2: JsObject)
    requires forall k :: k in Tracked(obj1) ==> Tracked(obj1)[k] != Undef
    requires forall k :: k in Tracked(obj2) ==> Tracked(obj2)[k] != Undef
    ensures ShallowCompare(obj1, obj2) <==> Tracked(obj1) == Tracked(obj2)
  {
    TrackedKeys(obj1);
    TrackedKeys(obj2);
    if ShallowCompare(obj1, obj2) {
      forall k | k in Tracked(obj1)
        ensures k in Tracked(obj2)
      {
        assert Get(obj1, k) == Get(obj2, k);
      }
      SubsetSameSize(Tracked(obj1).Keys, Tracked(obj2).Keys);
      ShallowCompareSameTrackedKeys(obj1, obj2);
    } else if Tracked(obj1) == Tracked(obj2) {
      ShallowCompareSameTrackedKeys(obj1, obj2);
    }
  }

  /** Dropping untracked keys (such as `secondsToWaitAfter` or `__provider`) from either bag
      changes neither the comparison nor the list of keys to replace. */
  lemma UntrackedKeysIgnored(obj1: JsObject, obj2: JsObject, drop1: set<string>, drop2: set<string>)
    requires forall k :: k in drop1 ==> !IsValidKey(k)
    requires forall k :: k in drop2 ==> !IsValidKey(k)
    ensures FilterValidKeys(Omit(obj1, drop1).keys) == FilterValidKeys(obj1.keys)
    ensures FilterValidKeys(Omit(obj2, drop2).keys) == FilterValidKeys(obj2.keys)
    ensures ShallowCompare(Omit(obj1, drop1), Omit(obj2, drop2)) == ShallowCompare(obj1, obj2)
  {
    FilterFilter(obj1.keys, k => k !in drop1, IsValidKey);
    FilterFilter(obj2.keys, k => k !in drop2, IsValidKey);
    var o1, o2 := Omit(obj1, drop1), Omit(obj2, drop2);
    forall k | IsValidKey(k)
      ensures Get(o1, k) == Get(obj1, k) && Get(o2, k) == Get(obj2, k)
    {
    }
  }

  /** A settle delay of up to 2147483 seconds keeps completion back for at least that long;
      a longer one is cut to a 1 ms timer by `setTimeout`. */
  lemma SettleDelayBound(props: JsObject, reply: Result<JsObject>)
    requires Create(props, reply).sleepArgument.Some?
    ensures var run := Create(props, reply);
            var n := run.sleepArgument.value;
            && (n <= MaxTimerDelayMs / 1000 ==> run.timerDelayMs.value == n * 1000)
            && (n > MaxTimerDelayMs / 1000 ==> run.timerDelayMs.value == 1)
  {
  }

  /** Example: a wait of 3000000 seconds is requested, and the timer fires after 1 ms. */
  lemma LongSettleDelayIsCut(props: JsObject, reply: Result<JsObject>)
    requires reply.Ok? && Get(props, "secondsToWaitAfter") == Num(3000000)
    ensures Create(props, reply).sleepArgument == Some(3000000)
    ensures Create(props, reply).timerDelayMs == Some(1)
  {
  }

  /** The outputs `create` records compare equal to its inputs both ways, so the next
      `diff` against unchanged inputs reports nothing. */
  lemma CreateOutsMatchInputs(props: JsObject, reply: Result<JsObject>)
    requires reply.Ok?
    ensures Create(props, reply).result.Ok?
    ensures var outs := Create(props, reply).result.value.outs;
            ShallowCompare(outs, props) && ShallowCompare(props, outs)
  {
    UntrackedKeysIgnored(props, props, StrippedKeys, {});
    UntrackedKeysIgnored(props, props, {}, StrippedKeys);
    ShallowCompareReflexive(props);
  }

  /** A refresh whose response agrees with the last-known properties on every tracked key it
      carries, and carries no tracked key they lack, leaves the comparison unchanged. */
  lemma ReadRefreshKeepsComparison(id: string, props: JsObject, live: JsObject)
    requires forall k :: k in live.props && IsValidKey(k) ==> k in props.props && live.props[k] == props.props[k]
    ensures Read(id, props, Ok(live)).Ok?
    ensures var merged := Read(id, props, Ok(live)).value.props;
            ShallowCompare(merged, props) && ShallowCompare(props, merged)
  {
    var merged := Spread(props, live);
    var added := AddedKeys(props, live);
    assert merged.keys == props.keys + added;
    FilterAppend(props.keys, added, IsValidKey);
    FilterNone(added, IsValidKey);
    assert FilterValidKeys(merged.keys) == FilterValidKeys(props.keys);
  }

  /** A refresh whose response carries a tracked key the last-known properties lack (say a
      `ttl` or `priority` the inputs omitted) makes the merged properties compare unequal
      to the stored ones, both ways: they track more keys. */
  lemma ReadRefreshAddingTrackedKeyChangesComparison(id: string, props: JsObject, live: JsObject, k: string)
    requires IsValidKey(k) && k in live.props && k !in props.props
    ensures Read(id, props, Ok(live)).Ok?
    ensures var merged := Read(id, props, Ok(live)).value.props;
            !ShallowCompare(merged, props) && !ShallowCompare(props, merged)
  {
    var merged := Spread(props, live);
    TrackedKeys(merged);
    TrackedKeys(props);
    var small, large := Tracked(props).Keys, Tracked(merged).Keys;
    assert small <= large;
    assert k in large && k !in small;
    SubsetSize(small, large);
    if |small| == |large| {
      SubsetSameSize(small, large);
      assert false;
    }
  }

  /** `check` followed by `diff` against the proposed inputs reports nothing to replace. */
  lemma CheckedInputsHaveNoDiff(olds: JsObject, news: JsObject)
    ensures Check(olds, news).Inputs?
    ensures ShallowCompare(news, Check(olds, news).inputs)
  {
  }

  /** The request `read` and `delete` send looks at nothing in the state but `apiKey`
      and `zoneId`. */
  lemma RecordRequestUsesOnlyCredentialAndZone(id: string, state: JsObject, other: JsObject)
    requires Get(state, "apiKey") == Get(other, "apiKey") && Get(state, "zoneId") == Get(other, "zoneId")
    ensures RecordRequestFor(id, state) == RecordRequestFor(id, other)
  {
  }
}

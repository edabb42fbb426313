# Netlify DNS record provider — a Dafny model

The repository is a Pulumi dynamic resource provider that manages one DNS record on
Netlify. Its provider object has five operations (`check`, `create`, `diff`, `delete`
and `read`), and all of them work on loosely typed property bags. This model covers
the logic that those operations apply to the bags:

- the allow-list of seven tracked properties (`validKeys`) and the filter built on it;
- `shallowCompare` and the replace-or-not decision of `diff`;
- `check`, which echoes the proposed inputs;
- `create`'s outputs, with `__provider` and `secondsToWaitAfter` stripped, its
  request body and its decision to wait after the call;
- `read`'s merge of last-known and live properties;
- the requests that `read` and `delete` send.

A JavaScript object is modelled as an ordered list of distinct own keys plus a map from
key to `Value` (`js_objects.dfy`, module `JsObjects`). The key list is what
`Object.keys` reports. A key may be present and hold `undefined`. Reading an absent key
also gives `undefined`. `===` is structural equality on `Value`, except that `Ref`
values (objects and arrays) compare by identity. The Netlify calls are not modelled.
What they return is a parameter: `Result<JsObject>`, where an error is `Thrown(v)`, the
JavaScript value `v` the call threw. `read` rethrows it unchanged. `create` first reads
its `.message` in the `catch` block, so an `undefined` or `null` thrown value turns into
a `TypeError` there (`MessageTypeError`); any other value is rethrown unchanged. The
request `create` sends is part of its modelled result. The request `read` and `delete`
send is the function `RecordRequestFor` of the record id and the state; the `id`
argument of `read` is used only there. For the wait after `create`, the model records the argument
passed to `sleep` (src/netlify-dns-record.ts:89) and the delay that `setTimeout` then
uses. Node.js replaces a delay above 2147483647 ms by 1 ms, so a settle delay of
2147484 seconds or more does not hold completion back. `diff` is a method because the
source builds its result step by step. The other operations are functions (`netlify_dns_record.dfy`, module `NetlifyDnsRecord`).

`shallowCompare` compares tracked key counts. It then looks up each tracked key of the
*old* bag in the new bag, where a missing key reads as `undefined`. Because of this it
is not symmetric: `ShallowCompareNotSymmetric` gives a pair of bags that compare equal
one way and not the other. It is symmetric when both bags track the same keys
(`ShallowCompareSameTrackedKeys`). When no tracked value is `undefined`, it is exactly
equality of the tracked parts (`ShallowCompareWithoutUndefined`). When a change is
detected, `diff` lists *every* tracked key of the new bag for replacement, in that bag's
order. It does not list only the keys that differ.

## Model

| member | source | states |
|---|---|---|
| `JsObjects.StrictEquals` | src/netlify-dns-record.ts:52 | `===` on the modelled values holds exactly when the two values are equal |
| `JsObjects.Filter` | src/netlify-dns-record.ts:48-49 | `filter` keeps exactly the keys that pass the predicate, never lengthens the list and keeps it free of repetitions |
| `JsObjects.FilterKeepsOrder` | src/netlify-dns-record.ts:109 | the kept keys appear in the order of the original key list |
| `JsObjects.Get` | src/netlify-dns-record.ts:52 | `obj[key]` gives the stored value of a present key and `undefined` for a missing one; a defined result comes only from a listed key |
| `JsObjects.Every` | src/netlify-dns-record.ts:52 | `every` holds exactly when the predicate holds of every listed key |
| `JsObjects.Spread` | src/netlify-dns-record.ts:126 | `{...a, ...b}` has the keys of either; `b`'s value wins on a shared key; `a`'s keys keep their positions, and `b`'s new keys follow in `b`'s order |
| `JsObjects.Omit` | src/netlify-dns-record.ts:76 | the rest of a destructuring keeps exactly the keys not named, with their values, in the original order |
| `NetlifyDnsRecord.IsValidKey` | src/netlify-dns-record.ts:36-45 | a key is tracked exactly when it is one of `apiKey`, `zoneId`, `type`, `hostname`, `value`, `ttl`, `priority` |
| `NetlifyDnsRecord.FilterValidKeys` | src/netlify-dns-record.ts:36-45 | the result holds exactly the allow-listed keys of the input, without repetitions, in input order |
| `NetlifyDnsRecord.ShallowCompare` | src/netlify-dns-record.ts:47-54 | true iff both bags list equally many tracked keys and every tracked key of the first reads the same in the second (missing reads as `undefined`) |
| `NetlifyDnsRecord.Diff` | src/netlify-dns-record.ts:99-113 | `changes` iff the comparison fails; then `replaceKeys` is every tracked key of `news` in `news` order, otherwise empty; identical bags, a tracked-key count mismatch and a differing tracked value are covered case by case |
| `NetlifyDnsRecord.Check` | src/netlify-dns-record.ts:61-70 | never fails and returns `news` as the inputs |
| `NetlifyDnsRecord.CreateBody` | src/netlify-dns-record.ts:78-84 | the body holds exactly `type`, `hostname`, `value`, `ttl` and `priority`, in that order, each read from the props; it never carries the credential or the zone |
| `NetlifyDnsRecord.CreateOuts` | src/netlify-dns-record.ts:76 | the outputs are the props without `__provider` and `secondsToWaitAfter`, with the same values and in the same order |
| `NetlifyDnsRecord.ShouldWait` | src/netlify-dns-record.ts:88 | a wait is asked for exactly when the value is a number greater than 0; strings, booleans, `null` and `undefined` never ask for one |
| `NetlifyDnsRecord.TimerDelayMs` | src/netlify-dns-record.ts:57-58 | the timer of `sleep(n)` runs for `n * 1000` ms when that lies in 1..2147483647, and for 1 ms otherwise |
| `NetlifyDnsRecord.Create` | src/netlify-dns-record.ts:72-97 | sends the body to the props' zone with the props' credential; on a failed call nothing sleeps, and the thrown value is rethrown unchanged unless it is `undefined` or `null`, which become a `TypeError`; otherwise returns the reply's id with the stripped outputs, and calls `sleep(n)` exactly when `secondsToWaitAfter` is a number `n > 0`, with the timer set by `TimerDelayMs(n)` |
| `NetlifyDnsRecord.SettleDelayBound` | src/netlify-dns-record.ts:88-89 | a requested wait of `n` seconds holds completion back `n * 1000` ms when `n <= 2147483`, and only 1 ms beyond that |
| `NetlifyDnsRecord.LongSettleDelayIsCut` | src/netlify-dns-record.ts:88-89 | example: `secondsToWaitAfter: 3000000` calls `sleep(3000000)`, and its timer fires after 1 ms |
| `NetlifyDnsRecord.RecordRequestFor` | src/netlify-dns-record.ts:115-125 | `read` asks for, and `delete` deletes, the given record id in the state's zone, with the state's credential |
| `NetlifyDnsRecord.Read` | src/netlify-dns-record.ts:120-127 | a failed call is rethrown unchanged; otherwise the id is the response's, and the props are exactly `{...props, ...response}` (see `JsObjects.Spread`) |
| `NetlifyDnsRecord.RecordRequestUsesOnlyCredentialAndZone` | src/netlify-dns-record.ts:115-125 | two states with the same `apiKey` and `zoneId` give the same request: nothing else in the state matters |
| `NetlifyDnsRecord.ShallowCompareReflexive` | src/netlify-dns-record.ts:47-54 | every bag compares equal to itself |
| `NetlifyDnsRecord.ShallowCompareNotSymmetric` | src/netlify-dns-record.ts:47-54 | an old bag with `ttl: undefined` compares equal to a new bag with only `priority: 10`, and not the other way round |
| `NetlifyDnsRecord.ReplacesAtMostSeven` | src/netlify-dns-record.ts:36-45 | at most seven keys are ever listed for replacement |
| `NetlifyDnsRecord.ShallowCompareOnTracked` | src/netlify-dns-record.ts:50-53 | with equal tracked counts, the comparison is containment of the old tracked part in the new bag |
| `NetlifyDnsRecord.ShallowCompareSameTrackedKeys` | src/netlify-dns-record.ts:47-54 | bags that track the same keys compare symmetrically, and equal exactly when their tracked values agree |
| `NetlifyDnsRecord.ShallowCompareWithoutUndefined` | src/netlify-dns-record.ts:47-54 | without `undefined` tracked values, the comparison holds exactly when the tracked parts are equal |
| `NetlifyDnsRecord.UntrackedKeysIgnored` | src/netlify-dns-record.ts:45-54 | removing untracked keys from either bag changes neither the comparison nor the keys to replace |
| `NetlifyDnsRecord.CreateOutsMatchInputs` | src/netlify-dns-record.ts:76 | `create`'s outputs compare equal to its inputs both ways, so a later `diff` against unchanged inputs reports nothing |
| `NetlifyDnsRecord.ReadRefreshKeepsComparison` | src/netlify-dns-record.ts:126 | a refresh whose tracked keys are all already stored, with the same values, leaves the stored and refreshed props equal under the comparison, both ways; untracked keys in the response do not matter |
| `NetlifyDnsRecord.ReadRefreshAddingTrackedKeyChangesComparison` | src/netlify-dns-record.ts:126 | a refresh whose response carries a tracked key the stored props lack (such as a `ttl` the inputs omitted) makes the stored and refreshed props compare unequal, both ways |
| `NetlifyDnsRecord.CheckedInputsHaveNoDiff` | src/netlify-dns-record.ts:65-69 | comparing `news` with the inputs `check` returns finds no change |

## Left out

- The Netlify client calls (`createDnsRecord`, `getIndividualDnsRecord`, `deleteDnsRecord`) are foreign HTTP calls. Their replies are parameters. The request of `create` is part of its result; the request of `read` and `delete` is `RecordRequestFor`.
- Constructing the Netlify client is modelled only as the credential carried in each request. A failure of that constructor is not modelled.
- `sleep`, `setTimeout` and the async/Promise plumbing are timers and asynchrony. Only the argument passed to `sleep` and the delay the timer is set to are kept. Node.js's `TimeoutOverflowWarning` is not modelled.
- The `console.log` of the error message in `create` is I/O. The read of `error.message`, with the `TypeError` it raises on `undefined` or `null`, and the rethrow are kept.
- The `NetlifyDnsRecord` class and the `pulumi.Input` input types are a registration wrapper over the Pulumi framework.
- Numbers are integers. Fractional values, `NaN` (for which `===` is false) and `-0` are not modelled. A fractional `secondsToWaitAfter` such as `0.5` therefore cannot be expressed. `Infinity` is not modelled either: it passes the `> 0` test, and `setTimeout` then fires after 1 ms. Integers beyond 2^53 lose precision in JavaScript, so `===` can equate two distinct large integers; the model compares them exactly.
- Object and array property values are compared by identity (`Ref`). Their contents are not modelled.
- `Object.keys` lists integer-like keys first, in ascending order. The model takes the key list as given, so this reordering is not modelled. None of the provider's property names is integer-like.
- The `id` argument of `diff` is taken and ignored, as in the source.

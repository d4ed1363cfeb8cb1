# Matrix client request core: schema validator and retry driver

This project is a Dafny model of the request layer of a small Matrix
(JSON/HTTP chat protocol) client. It has two components:

- **Schema validator** (`schema.py`). `is_valid(body, schema)` matches a
  decoded JSON body against a small schema algebra: `typing.Any`, bare
  Python types, the helpers `Optional`, `Union`, `Intersection`, `Object`
  and `Array`, the generic aliases `list[T]` and `dict[K, V]`, and
  dictionaries of per-key schemas. `ensure_valid` raises
  `InvalidResponseError` when the body does not match.
- **Response classifier and retry driver** (`client.py`).
  - `check_response` turns one HTTP response into one of three results: a
    `(status, body)` pair, a `MatrixError(code, body)`, or a
    `NotMatrixServerError`.
  - `retry` reissues a request until a time budget runs out. It uses
    exponential backoff for replies that are not protocol replies. It obeys
    the two rate-limit hints: the `Retry-After` header on a 429, and
    `M_LIMIT_EXCEEDED` with `retry_after_ms` in the body.

Files and modules:

- `json.dfy` (`Json`): decoded JSON values. `bool`, `int` and `float` are
  distinct kinds, as they are for Python's `type()`. The file also models
  Python's `in` operator on decoded values.
- `errors.dfy` (`Errors`): the three error kinds of `error.py`.
- `wrappers.dfy` (`Wrappers`): `Option`, `Result` and `Outcome`.
- `schema.dfy` (`Schemas`): the schema forms as one closed datatype. It
  holds the literal `is_valid`, `ensure_valid`, and their properties.
- `classifier.dfy` (`Classifier`): the response record and `check_response`.
- `digits.dfy` (`Digits`): the ASCII digit strings the `Retry-After` pattern
  admits, and their decimal value.
- `retry.dfy` (`RetryDriver`):
  - one loop iteration of `retry` as a pure function, `Step`;
  - the whole loop over a scripted sequence of responses, `Run`, with its
    imperative twin `Retry`;
  - scenarios against a mock clock.

Modelling choices:

- **Clock.** The clock is a mock monotonic clock in integer nanoseconds.
  Each iteration reads it at most twice, as the source does:
  - `checkNs` is the deadline check, at lines 72 and 84;
  - `actNs` is read while computing or testing the wait, at lines 79, 98
    and 109.

  An iteration that returns a response below 400 (lines 64-66) reads the
  clock not at all. One that returns an error without a usable hint
  (lines 113-115) reads it only at line 84.
- **Sleeps** are returned as actions. Nothing is performed.
- **Decoding.** The one-shot body decode is given as `Option<Value>`, with
  `None` meaning `resp.json()` raised.
- **The `in` probe.** `"errcode" in result` behaves as Python does for each
  kind of decoded value:
  - a dictionary tests for the key;
  - a list tests for an element equal to the string;
  - a string tests for a substring;
  - any other value raises `TypeError`.

  `check_response` catches that `TypeError` and reports
  `NotMatrixServerError`. In `retry` the probe at client.py:103 is outside
  the `try`, so the exception escapes; the model shows this as the
  `RaiseTypeError` action. The same happens when `result["errcode"]` is
  applied to a list or a string.

Where the code and its documentation disagree, the model follows the code:

- **Dictionary schemas stop at the first missing key.** The comment at
  schema.py:87-89 says every key must be present unless it is marked
  optional. The loop at schema.py:92-96 instead returns at the first schema
  key missing from the body. It answers whether that key is `Optional` and
  never looks at later keys. `Schemas.ShapeValid` keeps this behaviour.
  - `Schemas.ShapeMatchesComment` states the commented intent.
  - `Schemas.CommentedShapeImpliesAsWritten` proves that the code accepts
    whatever the comment accepts.
  - `Schemas.ShapeSkipsKeysAfterFirstMissing` exhibits an input where the
    code accepts and the comment rejects: `{}` against
    `{"a": Optional(int), "b": int}`.
- **Retry-After units.** The `Retry-After` delay is compared as
  `delay * 1_000_000` (client.py:98). That treats seconds as milliseconds,
  while `retry_after_ms` is scaled correctly at client.py:109. The model
  keeps the literal factor. `RetryDriver.RetryAfterScaledAsMilliseconds`
  shows a 60-second sleep granted under a 5000 ms budget.
- **Backoff units.** The backoff delay at client.py:79 takes the minimum of
  a backoff counted in seconds and a remaining time counted in
  milliseconds. The model keeps this mix, using exact reals.
- **Strict deadline test.** The deadline test is strict (`>`). With a
  limit of 0 and no time elapsed during the request, the driver sleeps 0
  seconds and retries (`RetryDriver.ZeroLimitWithoutElapsedTimeRetries`).

Three lines of the source cannot run as written. Each is modelled as its
evident intent, with a comment at the spot:

- schema.py:57 iterates `body.values` without calling it.
- schema.py:117 reads `key+type` for `key_type`. There `key` is the local
  of the dictionary-schema loop, which has no value on this path, so the
  line raises `UnboundLocalError`.
- client.py:92 reads `res.headers`, an undefined name. The model reads the
  `Retry-After` header whose presence and form were checked at :88-89.

## Model

| member | source | states |
|---|---|---|
| Json.TypeOf | schema.py:84-85 | `type(body)` gives each decoded value exactly one JSON kind. A boolean is never an `int` and an `int` is never a `float`. No decoded value has a type outside JSON. |
| Json.PyIn | client.py:33 | `"errcode" in result` is defined for dictionaries, lists and strings and raises for other values. For a dictionary it is key membership. |
| Json.SubstringIffOccurs | client.py:33 | The recursive substring search holds iff the key occurs at some offset of the string. |
| Json.PyInSearchesContents | client.py:33 | On a list, `in` is true iff some element is the key string. On a string, it is true iff the key occurs as a contiguous substring. |
| Schemas.IsValid | schema.py:72-124 | Whatever the nesting, a dictionary schema, `Object` or `dict[K, V]` accepts only dictionaries. `Array` and `list[T]` accept only lists. `dict[K, V]` accepts nothing unless `K` is `str`. A bare type accepts only values of exactly that type, and an unrecognised schema accepts nothing. |
| Schemas.WildcardAndFallback | schema.py:82-83 | `typing.Any` accepts every body. A schema of no recognised form (the final `else` at lines 123-124) rejects every body. |
| Schemas.BareTypeIsExact | schema.py:84-85 | A bare type accepts exactly the bodies whose runtime type is identical. `True` is rejected by `int`, `1` is rejected by `float`, and a non-JSON type rejects everything. |
| Schemas.OptionalIsTransparent | schema.py:14-22 | `Optional(s)` judges a present value exactly as `s` does. |
| Schemas.UnionAcceptsIffSomeMember | schema.py:25-35 | `Union` accepts iff some member accepts, so an empty `Union` rejects everything. |
| Schemas.IntersectionAcceptsIffEveryMember | schema.py:37-47 | `Intersection` accepts iff every member accepts, so an empty `Intersection` accepts everything. |
| Schemas.ArrayAcceptsIffEveryItem | schema.py:60-69 | `Array(s)` accepts iff the body is a list whose every element matches `s`. An empty list is always accepted. |
| Schemas.ListAcceptsIffEveryItem | schema.py:100-109 | `list[s]` accepts iff the body is a list whose every element matches `s`, the same bodies as `Array(s)`. |
| Schemas.ObjectAcceptsIffEveryValue | schema.py:49-58 | `Object(s)` accepts iff the body is a dictionary whose every value matches `s`. |
| Schemas.DictAcceptsOnlyStringKeys | schema.py:110-122 | `dict[str, s]` accepts iff the body is a dictionary whose every value matches `s`. `dict[K, s]` with `K` other than `str` rejects everything. |
| Schemas.ObjectUpdate | schema.py:55-58 | In a dictionary `Object(s)` accepts, replacing one value keeps it accepted iff the new value matches `s`. |
| Schemas.ShapeRejectsNonObject | schema.py:90-91 | A dictionary schema rejects every body that is not a dictionary. |
| Schemas.ShapeValid | schema.py:92-97 | The loop accepts a body that lacks some schema key only when the first missing key's schema is `Optional`. |
| Schemas.FirstMissing | schema.py:92-94 | The first schema key that the body lacks: every earlier key is present, and the key at that index is absent. |
| Schemas.ShapeDecidedAtFirstMissingKey | schema.py:86-97 | A dictionary schema accepts a dictionary iff every value before the first missing schema key matches its schema, and that first missing key (if any) is `Optional`. Keys after it are never checked. |
| Schemas.ShapeWithAllKeysPresent | schema.py:92-97 | When all schema keys are present, a dictionary schema accepts iff each value matches its key's schema. |
| Schemas.ShapeIgnoresOtherKeys | schema.py:92-96 | Two bodies that agree on the schema's keys are judged alike, so body keys the schema does not name are ignored. |
| Schemas.CommentedShapeImpliesAsWritten | schema.py:86-97 | Every body meeting the comment's rule (each key present and valid, or absent and `Optional`) is accepted by the loop as written. |
| Schemas.ShapeSkipsKeysAfterFirstMissing | schema.py:93-94 | The converse fails: `{}` is accepted by `{"a": Optional(int), "b": int}` although the required key "b" is missing. |
| Schemas.EnsureValid | schema.py:126-129 | `ensure_valid` raises `InvalidResponseError` exactly when `is_valid` is false, and otherwise passes. |
| Schemas.ShapeExamples | schema.py:75-78 | The docstring example holds. An absent `Optional` key is accepted and an absent required key is rejected. |
| Schemas.ArrayExamples | schema.py:66-69 | `[1,2,"x"]` is rejected by `Array(int)`; `[1,2,3]` is accepted. |
| Schemas.ObjectExamples | schema.py:55-58 | `{"k1":1,"k2":2}` is accepted by `Object(int)`. It is rejected once one value becomes a string. |
| Schemas.UnionIntersectionExamples | schema.py:31-47 | `True` matches `Union(int, bool)`. `5` matches `Intersection(int, Any)` but not `Intersection(int, str)`. |
| Classifier.CheckResponse | client.py:21-41 | Success iff `200 <= status < 400` and the body decodes, returning `(status, body)` unchanged. `MatrixError` carries exactly the status and body, iff the status is an error and the decoded body contains "errcode". Otherwise the result is `NotMatrixServerError`, never `InvalidResponseError`. |
| Classifier.ClassifyDecodedObject | client.py:30-41 | For a decoded object there are three outcomes: success, `MatrixError` when it has "errcode", `NotMatrixServerError` when it lacks it. A decode failure always gives `NotMatrixServerError`. |
| Digits.ParseDecimal | client.py:92 | `int()` of an `n`-digit string is below `10^n`, and its last digit is the string's last character. |
| Digits.ParseShowRoundTrip | client.py:92 | `int()` reads back the decimal spelling of every natural number. |
| Digits.ParseIgnoresLeadingZero | client.py:92 | A leading zero does not change the value `int()` reads. |
| RetryDriver.RetryAfterSeconds | client.py:86-92 | A delay is found iff `Retry-After` is present and is a non-empty ASCII digit string. |
| RetryDriver.RetryAfterReadsWrittenSeconds | client.py:88-92 | A `Retry-After` written from `n` seconds is read as `n`, whatever the other headers. |
| RetryDriver.LimitExceededHint | client.py:102-108 | The hint is found iff the body is an object with `errcode == "M_LIMIT_EXCEEDED"` and an `int` `retry_after_ms`, and it carries that value. `TypeError` arises only for non-objects for which the probe does not answer false. |
| RetryDriver.CeilSeconds | client.py:111 | The sleep for `ms` milliseconds is the least whole number of seconds covering it. |
| RetryDriver.Step | client.py:61-115 | One iteration. Status < 400 is returned. Once the deadline check sees the deadline passed, an error is returned. Backoff happens iff the error body is undecodable and the deadline has not passed; it doubles the backoff, and the delay is at most the backoff and at most the remaining time. Rate-limit sleeps come only from decodable bodies. `TypeError` escapes only for decoded non-objects. |
| RetryDriver.StepUndecodableError | client.py:68-82 | An undecodable error body is returned if `now > end_time`. Otherwise the driver sleeps `min(backoff, (end_time-now)/1_000_000)` and doubles `backoff`. |
| RetryDriver.StepRetryAfter | client.py:86-101 | A 429 with a digit `Retry-After` is decided before the body hint. It is returned if `now + delay*1_000_000 > end_time`; otherwise the driver sleeps `delay` seconds with `backoff` untouched. |
| RetryDriver.StepLimitExceeded | client.py:102-112 | An `M_LIMIT_EXCEEDED` hint is returned if `now + ms*1_000_000 > end_time`; otherwise the driver sleeps `ceil(ms/1000)` seconds. |
| RetryDriver.StepOtherErrorReturned | client.py:113-115 | Every decodable error without a usable hint is returned unchanged. This covers objects with no `M_LIMIT_EXCEEDED` hint, and lists and strings whose `"errcode"` probe answers false. |
| RetryDriver.StepListBodyReturned | client.py:102-115 | A 500 whose body is a list without "errcode" is returned, not raised. |
| RetryDriver.Run | client.py:61-115 | A run makes at least one request whenever the server answers, and at most one per response. A returned response is the last one requested. |
| RetryDriver.RunShape | client.py:61-66 | A run makes at least one request whenever the server answers at all, and at most one per response. It sleeps after every request that did not end it, and returns the last response requested. |
| RetryDriver.RunSleepsOnlyBeforeDeadline | client.py:68-112 | Every sleep follows an error response (status >= 400) whose deadline check found the deadline not yet passed. |
| RetryDriver.RunStopsAtFirstSuccess | client.py:64-66 | The loop never issues a request after a response with status < 400. A run that reaches that response returns exactly it. |
| RetryDriver.RunFirstSuccess | client.py:61-66 | A first response with status < 400 is returned after one request, with no sleep. |
| RetryDriver.RunBackoffOnlyDoubles | client.py:59-81 | The backoff ends as its start times 2 to the number of backoff sleeps. It never decreases, and rate-limit sleeps leave it unchanged. |
| RetryDriver.Retry | client.py:44-115 | `end_time = start + limit*1_000_000` is fixed once and `backoff` starts at 2. The loop produces exactly the trace of `Run`: at least one request, and a final backoff of at least 2. |
| RetryDriver.ZeroLimitUndecodableReturnsFirst | client.py:58-73 | With limit 0 and a 503 whose body does not decode, the first response is returned with no sleep once any time has passed. |
| RetryDriver.ZeroLimitWithoutElapsedTimeRetries | client.py:72-81 | The deadline test is strict: with limit 0 and no elapsed time, the driver sleeps 0 seconds and retries. |
| RetryDriver.RateLimitedOnceThenSuccess | client.py:86-101 | A 429 with `Retry-After: 1` under a 5000 ms limit gives one 1-second sleep and exactly one more request. |
| RetryDriver.LimitExceededRoundsUpToSeconds | client.py:102-111 | `retry_after_ms = 1500` with a large limit gives a sleep of 2 seconds. |
| RetryDriver.RetryAfterScaledAsMilliseconds | client.py:98 | `Retry-After: 60` under a 5000 ms budget is granted a 60-second sleep, because seconds are scaled as milliseconds. |

## Left out

- The I/O is left out: `req_func`, `resp.json()` and `resp.release()`. A
  response is given as its status, its headers and the outcome of its
  decode. Releasing a response before sleeping is an effect with no value
  to state.
- `asyncio.sleep`, task cancellation and cooperative suspension are left
  out. Sleeps are returned as actions, and time is a parameter: the two
  clock readings of each iteration.
- Transport failures of `req_func` (the FIXME at client.py:63) are left
  out. The source does not handle them, and no policy is invented here.
- The loop stops at a returnable response, or once the clock passes
  `end_time`. The model's clock readings are free parameters, so `Run`
  follows a finite script of responses and reports `ScriptEnded` when the
  script runs out.
- RetryDriver.Step: the backoff delay at client.py:79 is an exact real. The
  rounding of Python's float division is not modelled.
- RetryDriver.CeilSeconds: this is an exact ceiling. `math.ceil` of a float
  quotient can differ from it for integers too large for a float.
- RetryDriver.RetryAfterSeconds: the pattern `^[\d]+$` is modelled as a
  non-empty ASCII digit string. The model does not cover Unicode digits,
  or the trailing newline that `$` admits and `int()` strips.
- RetryDriver.RetryAfterSeconds: header names are compared exactly. The
  model does not cover aiohttp's case-insensitive header lookup.
- The schema forms are a closed datatype. This replaces the runtime
  introspection (`typing.get_origin`, `typing.get_args`, the
  `runtime_checkable` protocol).
  - Schema values that are none of the recognised forms are the single
    constructor `Unknown`.
  - Schemas are finite and acyclic by construction.
  - Keys of dictionary schemas are strings.
- `Float` values are opaque. The model does no float arithmetic.
- The `{{client module classes}}` template placeholder at client.py:17 is
  not part of this model. Neither are the `events` and `pubsub` modules
  that client.py imports.
- `error.py` is modelled only as the three-constructor datatype
  `Errors.Error`. Its classes have no behaviour.

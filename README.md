# Steer the Story: condition evaluation and per-user store

A Dafny model of the logic inside the server of *Steer the Story*. The
server hands out a unique URL per user, stores one condition record per user
id in Redis, and scores candidate strings against that record. The model
covers four parts of `server/api.py`:

- `check_conditions`, the evaluator (`Conditions.CheckConditions`). It checks
  the minimum length, then the maximum length, then case-insensitive
  containment. The first check that fails picks the failure message. If none
  fails, the answer is `"valid"`. A key missing from the record skips its
  check.
- The Redis connection `r`, used as a string-keyed map. `Store.ConditionStore`
  is a class holding a `map<string, ConditionRecord>`:
  - `Set` is `r.set` and replaces the whole value;
  - `Get` is `r.get`;
  - `SubmitForm` is `submit_form`;
  - `ValidateConditions` is `validate_conditions`.

  `json.dumps` and `json.loads` count as a lossless encoding, so the map holds
  the record itself.
- `get_unique_url`, which builds `BASE_URL + "/user/" + id`
  (`Urls.UniqueUrl`), and `serve_form`, which takes
  `user_id.split("/")[-1]` (`Urls.ServeFormUserId`).
- The Python built-ins these rely on (`PyStr`):
  - `str.lower()`;
  - the substring operator `in`;
  - `str(int)` inside the f-string messages;
  - `str.split`, with `str.join` as its inverse.

Python's `len` counts code points, so a candidate's length is `|s|` on
`seq<char>`.

Two points about errors and record identity:

- Only one error is modelled on the validation path. For an unknown user id,
  `r.get` returns `None` and `json.loads(None)` raises. The `gpt_error`
  decorator catches that and raises a new `Exception` carrying `str(e)` and a
  diagnosis (gpt_error.py:27-30). So what reaches the caller is an error,
  never a verdict. The model keeps that error as `Err(NotFound(userId))`.
- `Store.KeysMatch` says every record is stored under its own `user_id`.
  `submit_form` keeps this, because it files each form under the form's own
  `user_id`. But `r.set` accepts any key and value, so `KeysMatch` is a
  property that `SubmitForm` preserves. It is not an invariant of every
  write.

## Model

| member | source | states |
|---|---|---|
| `PyStr.Lower` | server/api.py:143 | `s.lower()` keeps the length, and each character is the lower-cased one at the same index |
| `PyStr.LowerIdempotent` | server/api.py:143 | lower-casing twice gives the same as lower-casing once |
| `PyStr.In` | server/api.py:143 | `p in s` holds exactly when `p` occurs in `s` at some index; the empty string occurs everywhere |
| `PyStr.NatToString` | server/api.py:135 | the decimal text of a natural number is non-empty, all digits, and has no leading zero except for 0 itself |
| `PyStr.IntToString` | server/api.py:135 | `str(n)` starts with '-' exactly when `n` is negative |
| `PyStr.IntToStringRoundTrip` | server/api.py:139 | `int(str(n)) == n`, so the number in a message is exactly recoverable |
| `PyStr.Split` | server/api.py:81 | `s.split(sep)` has at least one piece, and no piece contains the separator |
| `PyStr.SplitJoin` | server/api.py:81 | joining the pieces of a split with the separator gives back the original text |
| `PyStr.SplitWithoutSep` | server/api.py:81 | a text without the separator splits into itself alone |
| `PyStr.SplitAtSep` | server/api.py:81 | splitting `a + sep + b` gives the pieces of `a` followed by the pieces of `b` |
| `PyStr.SplitLastIsSuffix` | server/api.py:81 | the last piece is the suffix after the last separator, and it is the whole text exactly when the split has one piece |
| `Conditions.ToRecord` | server/api.py:27-31 | `form_results.dict()` has all four keys present |
| `Conditions.FromRecord` | server/api.py:27-31 | reading a record back as a form succeeds exactly when all four keys are present |
| `Conditions.FormRoundTrip` | server/api.py:125 | a submitted form read back from its stored record is the same form |
| `Conditions.MinMessage` | server/api.py:135 | the min-length failure starts with "Does not meet min length of " |
| `Conditions.MaxMessage` | server/api.py:139 | the max-length failure starts with "Exceeds max length of " |
| `Conditions.ContainsMessage` | server/api.py:144 | the containment failure starts with "Does not contain " |
| `Conditions.MessagesDistinct` | server/api.py:133-147 | the three failure messages differ from each other and from "valid" |
| `Conditions.MinMessageInjective` | server/api.py:135 | equal min messages carry the same bound and the same current length |
| `Conditions.MaxMessageInjective` | server/api.py:139 | equal max messages carry the same bound and the same current length |
| `Conditions.CheckConditions` | server/api.py:131-147 | the verdict is "valid" if and only if every present predicate holds: `min <= len`, `len <= max`, and `contains.lower()` occurs in `testStr.lower()` |
| `Conditions.EmptyRecordAlwaysValid` | server/api.py:133-147 | a record with none of min, max and contains accepts every candidate |
| `Conditions.MinCheckedFirst` | server/api.py:133-135 | a candidate shorter than min gets exactly the min message with its length, whatever max and contains say |
| `Conditions.MaxCheckedSecond` | server/api.py:137-139 | once min passes, a candidate longer than max gets exactly the max message, whatever contains says |
| `Conditions.ContainsCheckedLast` | server/api.py:142-144 | once both lengths pass, a missing substring gives "Does not contain " with the record's original casing |
| `Conditions.CrossedBoundsNeverValid` | server/api.py:133-139 | when min > max, no candidate is valid |
| `Conditions.CandidateCaseIgnored` | server/api.py:143 | with the model's ASCII lower-casing, lower-casing the candidate never changes the verdict |
| `Conditions.ContainsCaseIgnored` | server/api.py:143-144 | lower-casing the required substring does not change whether a candidate is valid |
| `Conditions.MinMessageSample` | server/api.py:135 | for bound 3 and length 2 the min message reads exactly "Does not meet min length of 3 characters. Current length: 2" |
| `Conditions.MaxMessageSample` | server/api.py:139 | for bound 10 and length 24 the max message reads exactly "Exceeds max length of 10 characters. Current length: 24" |
| `Conditions.CatExampleMissing` | server/api.py:142-144 | "dog" against the record (cat, 3, 10) gives "Does not contain cat" |
| `Conditions.CatExampleShort` | server/api.py:133-135 | "ab" against the same record gives the min message with bound 3 and length 2 |
| `Conditions.CatExampleLong` | server/api.py:137-139 | a 24-character candidate gives the max message with bound 10 and length 24 |
| `Conditions.CatExampleValid` | server/api.py:142-147 | "my cat" is valid for the same record, and "Hello World" is valid for a record requiring "hello" |
| `Store.Validate` | server/api.py:157-162 | it gives an error exactly when the user id was never stored, and otherwise a verdict that is "valid" exactly when the stored record is satisfied |
| `Store.ValidateAfterSet` | server/api.py:125 | after a write, validating against that key scores against the record just written |
| `Store.SetKeepsOtherKeys` | server/api.py:125 | a write leaves every other key's validation result unchanged |
| `Store.SetReplaces` | server/api.py:125 | a second write to a key replaces the first completely, with no merging of fields (a corollary of map update) |
| `Store.UnknownUserIsError` | server/api.py:160 | validating against a key that was never written is an error, never a verdict (a corollary of `Store.Validate`) |
| `Store.SubmitKeepsKeysMatching` | server/api.py:124-125 | a form stored under its own user id keeps every record filed under the id it carries |
| `Store.ConditionStore.constructor` | server/api.py:72 | a new client sees exactly what the database already holds; nothing is created or cleared |
| `Store.ConditionStore.Set` | server/api.py:125 | the new map is the old one with that key replaced |
| `Store.ConditionStore.Get` | server/api.py:160 | the lookup is present exactly when the key is stored, and then it is the stored record |
| `Store.ConditionStore.SubmitForm` | server/api.py:121-126 | reports success and stores the whole form under its user id; every later validation for that id scores against the form; other keys validate as before; records stay filed under their own ids |
| `Store.ResubmitScoresSecondForm` | server/api.py:121-162 | after a user submits two forms, validation for that user scores against the second form only, and other users' answers are unchanged |
| `Store.ConditionStore.ValidateConditions` | server/api.py:155-162 | answers what `Store.Validate` gives for the current store: an error for an unknown id, otherwise the verdict of `check_conditions` |
| `Urls.UniqueUrl` | server/api.py:77 | the URL is the base, then "/user/", then the id; `Urls.ServeFormRecoversId` is its inverse |
| `Urls.ServeFormUserId` | server/api.py:81 | the extracted id has no '/'; it is the whole path when the path has no '/', and otherwise the suffix after the last '/' |
| `Urls.ServeFormRecoversId` | server/api.py:77 | for an id without '/', the last segment of `BASE_URL + "/user/" + id` is the id |
| `Urls.ServeFormIdempotent` | server/api.py:81 | extracting the segment a second time changes nothing |
| `Urls.IssuedIdRecovered` | server/api.py:76-81 | every id in uuid4 text form comes back out of the URL issued for it |

## Left out

- PyStr.Lower: lower-cases ASCII letters only. Python's `str.lower()` applies full Unicode case mapping, which can even change the length of a string (for example for 'İ').
- AES `encrypt` / `decrypt` (server/api.py:88-106): thin wrappers over a cryptography library that nothing on a live path calls.
- The `gpt_error` decorator: it asks a remote language model for a diagnosis and prints it, which is network I/O. It then raises a new `Exception({"error": str(e), "diagnosis": ...})`, or the diagnosis call's own error if that call fails. The model keeps only what callers can rely on: an error, not a verdict, reaches them (`Store.StoreError`). The contents of the raised exception are not modelled.
- `redis_keys` (server/api.py:110-116): it only enumerates keys over the network and prints them.
- FastAPI routing, the CORS middleware, Jinja template rendering in `serve_form`, `custom_openapi` and `plugin_manifest`: framework plumbing and file I/O.
- Environment loading and the choice of `BASE_URL`, the Redis host and its credentials (server/api.py:19-21, 61-71): `BASE_URL` is the parameter `base` of `Urls.UniqueUrl`. The database's existing contents at start-up are the parameter of `Store.ConditionStore.constructor`.
- Conditions.CandidateCaseIgnored: holds for the model's length-preserving ASCII `Lower` only. In Python, `'İ'.lower()` is two code points long, so with `min = 2` the candidate "İ" fails the min check while its lower-cased form passes.
- The randomness of `uuid.uuid4()`: the id is a parameter. `Urls.IsUuidText` describes the text form it takes.
- JSON encoding of the stored record: taken to be lossless. A stored value that is not valid JSON, or that holds a wrong field type, cannot arise in the model.
- Redis being unreachable: connection failures are not modelled.
- Async execution and concurrent requests: each handler is modelled as one sequential step.
- The unused module-level dictionary `user_locations` (server/api.py:59).

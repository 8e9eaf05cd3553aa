/** The Redis connection `r` as the server uses it: a string-keyed map from
    a user id to that user's condition record, written whole by
    `submit_form` and read back by `validate_conditions` (server/api.py).
    `json.dumps` / `json.loads` around the stored value are taken to be a
    lossless encoding, so the map holds the record itself. */
module Store {
  import opened Wrappers
  import opened Conditions

  /** Validating against a user id that was never stored: `r.get` gives
      `None`, `json.loads(None)` raises, and the error propagates. */
  datatype StoreError = NotFound(userId: string)

  /** What `validate_conditions` answers for a given content of the store. */
  function Validate(entries: map<string, ConditionRecord>, userId: string, testStr: string)
    : (result: Result<string, StoreError>)
    ensures result.Err? <==> userId !in entries
    ensures result.Err? ==> result.error == NotFound(userId)
    ensures result.Ok? ==> (result.value == ValidVerdict <==> Satisfies(testStr, entries[userId]))
  {
    if userId in entries then Ok(CheckConditions(testStr, entries[userId])) else Err(NotFound(userId))
  }

  /** Every stored record carries, as its `user_id`, the key it is stored
      under. */
  ghost predicate KeysMatch(entries: map<string, ConditionRecord>) {
    forall k :: k in entries ==> entries[k].userId == Some(k)
  }

  /** After a write, validating against that key scores against the record
      just written. */
  lemma ValidateAfterSet(entries: map<string, ConditionRecord>, userId: string, rec: ConditionRecord, testStr: string)
    ensures Validate(entries[userId := rec], userId, testStr) == Ok(CheckConditions(testStr, rec))
  {
  }

  /** A write leaves what every other key validates to unchanged. */
  lemma SetKeepsOtherKeys(entries: map<string, ConditionRecord>, userId: string, rec: ConditionRecord,
                          other: string, testStr: string)
    requires other != userId
    ensures Validate(entries[userId := rec], other, testStr) == Validate(entries, other, testStr)
  {
  }

  /** A second write to the same key replaces the first completely (a
      corollary of map update, stated because `r.set` never merges). */
  lemma SetReplaces(entries: map<string, ConditionRecord>, userId: string, first: ConditionRecord, second: ConditionRecord)
    ensures entries[userId := first][userId := second] == entries[userId := second]
  {
  }

  /** A key that was never written is an error, never a verdict (a
      corollary of `Validate`'s contract, for callers). */
  lemma UnknownUserIsError(entries: map<string, ConditionRecord>, userId: string, testStr: string)
    requires userId !in entries
    ensures Validate(entries, userId, testStr) == Err(NotFound(userId))
  {
  }

  /** Submitting a form keeps every record filed under its own user id. */
  lemma SubmitKeepsKeysMatching(entries: map<string, ConditionRecord>, form: ConditionalModel)
    requires KeysMatch(entries)
    ensures KeysMatch(entries[form.userId := ToRecord(form)])
  {
  }

  class ConditionStore {
    var entries: map<string, ConditionRecord>

    /** A client for the database, which already holds whatever earlier
        runs of the server stored in it. */
    constructor (initial: map<string, ConditionRecord>)
      ensures entries == initial
    {
      entries := initial;
    }

    /** `r.set(key, value)`: replaces whatever was stored under `key`. */
    method Set(key: string, value: ConditionRecord)
      modifies this
      ensures entries == old(entries)[key := value]
    {
      entries := entries[key := value];
    }

    /** `r.get(key)`: `None` for a key that was never set. */
    method Get(key: string) returns (value: Option<ConditionRecord>)
      ensures value.Some? <==> key in entries
      ensures value.Some? ==> value.value == entries[key]
    {
      if key in entries {
        value := Some(entries[key]);
      } else {
        value := None;
      }
    }

    /** `submit_form`: stores the whole form under its own user id. */
    method SubmitForm(form: ConditionalModel) returns (success: bool)
      modifies this
      ensures success
      ensures entries == old(entries)[form.userId := ToRecord(form)]
      ensures forall s :: Validate(entries, form.userId, s) == Ok(CheckConditions(s, ToRecord(form)))
      ensures forall k, s :: k != form.userId ==> Validate(entries, k, s) == Validate(old(entries), k, s)
      ensures old(KeysMatch(entries)) ==> KeysMatch(entries)
    {
      Set(form.userId, ToRecord(form));
      success := true;
    }

    /** `validate_conditions`: looks the user's record up and scores the
        candidate against it. */
    method ValidateConditions(userId: string, testStr: string) returns (result: Result<string, StoreError>)
      ensures result == Validate(entries, userId, testStr)
    {
      var stored := Get(userId);
      match stored
      case None =>
        result := Err(NotFound(userId));
      case Some(conditions) =>
        result := Ok(CheckConditions(testStr, conditions));
    }
  }

  /** A user who submits twice is scored against the second form only, and
      no other user's answers change; proved from the class's contracts. */
  method ResubmitScoresSecondForm(store: ConditionStore, first: ConditionalModel, second: ConditionalModel,
                                  testStr: string, other: string)
    returns (result: Result<string, StoreError>)
    requires first.userId == second.userId != other
    modifies store
    ensures result == Ok(CheckConditions(testStr, ToRecord(second)))
    ensures Validate(store.entries, other, testStr) == Validate(old(store.entries), other, testStr)
  {
    var ok := store.SubmitForm(first);
    ok := store.SubmitForm(second);
    result := store.ValidateConditions(second.userId, testStr);
  }
}

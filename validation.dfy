/** `validateRequest` (src/utils/validation.js): the Joi error details folded, detail by
    detail, into one object mapping each key to a message. */
module Validation {
  import opened Common
  import opened Joi

  /** The object the fold builds: each detail in turn writes `acc[key] = message`, so
      for a key that appears several times the last detail's message stays. */
  function ErrorMap(details: seq<Detail>): map<string, string>
    decreases |details|
  {
    if details == [] then map[]
    else
      var last := details[|details| - 1];
      ErrorMap(details[..|details| - 1])[last.key := last.message]
  }

  /** The keys of the object are exactly the keys of the details. */
  lemma {:induction false} ErrorMapKeys(details: seq<Detail>)
    ensures ErrorMap(details).Keys == set i | 0 <= i < |details| :: details[i].key
    decreases |details|
  {
    if details != [] {
      var n := |details| - 1;
      var init := details[..n];
      ErrorMapKeys(init);
      assert forall i :: 0 <= i < n ==> init[i] == details[i];
      assert (set i | 0 <= i < |details| :: details[i].key)
          == (set i | 0 <= i < n :: init[i].key) + {details[n].key};
    }
  }

  /** The message kept for a key is that of the last detail carrying the key. */
  lemma {:induction false} ErrorMapLastWins(details: seq<Detail>, i: nat)
    requires i < |details|
    requires forall j :: i < j < |details| ==> details[j].key != details[i].key
    ensures details[i].key in ErrorMap(details)
    ensures ErrorMap(details)[details[i].key] == details[i].message
    decreases |details|
  {
    var n := |details| - 1;
    if i < n {
      var init := details[..n];
      assert init[i] == details[i];
      ErrorMapLastWins(init, i);
    }
  }

  /** Every message in the object is the message of some detail with that key. */
  lemma {:induction false} ErrorMapOrigin(details: seq<Detail>, key: string)
    requires key in ErrorMap(details)
    ensures exists i :: 0 <= i < |details| && details[i] == Detail(key, ErrorMap(details)[key])
    decreases |details|
  {
    var n := |details| - 1;
    if details[n].key != key {
      var init := details[..n];
      ErrorMapOrigin(init, key);
      var i :| 0 <= i < |init| && init[i] == Detail(key, ErrorMap(init)[key]);
      assert details[i] == init[i];
    } else {
      assert details[n] == Detail(key, ErrorMap(details)[key]);
    }
  }

  /** The `reduce` callback run over the details, writing one key per step into the
      accumulator. */
  method CollectErrors(details: seq<Detail>) returns (acc: map<string, string>)
    ensures acc == ErrorMap(details)
  {
    acc := map[];
    for i := 0 to |details|
      invariant acc == ErrorMap(details[..i])
    {
      assert details[..i + 1][..i] == details[..i];
      acc := acc[details[i].key := details[i].message];
    }
    assert details[..|details|] == details;
  }

  /** `validateRequest(schema, req)`: null when Joi reports no error, the folded
      key-to-message object otherwise. */
  method ValidateRequest(schema: Schema, body: Body, isEmail: string -> bool)
    returns (errors: Option<map<string, string>>)
    ensures errors.None? <==> Validate(schema, body, isEmail) == []
    ensures errors.Some? ==> errors.value == ErrorMap(Validate(schema, body, isEmail))
  {
    var details := Validate(schema, body, isEmail);
    if details == [] {
      errors := None;
    } else {
      var acc := CollectErrors(details);
      errors := Some(acc);
    }
  }
}

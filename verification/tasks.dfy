/** The background analysis task (`analyze_note_task`): one attempt as a
    pure step from the loaded record and the model's outcome to the writes it
    persists, the record it leaves and the exception it lets escape; and the
    task queue's automatic retry of escaping exceptions, bounded by
    `max_retries`. */
module AnalysisTask {
  import opened Wrappers
  import opened Json
  import opened Notes

  /** What the model call at the heart of an attempt came to: its output
      text decoded to a JSON value, the decoder rejected the text, or some
      other exception was raised on the way (by the client, or while reading
      its response) carrying the given text. */
  datatype LlmOutcome =
    | Parsed(value: JsonValue)
    | DecodeError
    | OtherError(message: string)

  /** An exception that escapes an attempt and reaches the task queue. */
  datatype TaskError =
    | RecordMissing
    | Reraised(message: string)

  /** The error text the decode-failure branch records. */
  const InvalidJsonMessage: string := "Invalid JSON returned from AI"

  const Quote: string := "'"
  const NoGetSuffix: string := "' object has no attribute 'get'"

  /** The text of the `AttributeError` raised by calling `.get` on a decoded
      value that is not a JSON object. */
  function NoGetMessage(v: JsonValue): string {
    Quote + PythonTypeName(v) + NoGetSuffix
  }

  /** A save issued by an attempt: either of the status column alone
      (`update_fields=["status"]`) or of every column of the in-memory record. */
  datatype Write =
    | SaveStatus(status: Status)
    | SaveAll(record: NoteAnalysis)

  /** Everything one attempt does: the saves in the order issued, the
      in-memory record at the end (absent when the lookup failed), and the
      exception that escapes, if any. */
  datatype AttemptResult = AttemptResult(
    writes: seq<Write>,
    record: Option<NoteAnalysis>,
    raised: Option<TaskError>)

  /** The record after a decoded JSON object has been copied into it: each
      output field takes the value under its key, or an empty string or list
      when the key is absent; status becomes completed; the error text is
      left as it was. */
  function CopyPayload(r: NoteAnalysis, fields: map<string, JsonValue>): (c: NoteAnalysis)
    ensures SameIdentity(r, c) && c.status == Completed && c.error == r.error
    ensures c.summary == if "summary" in fields then fields["summary"] else JString("")
    ensures c.keyPoints == if "key_points" in fields then fields["key_points"] else JArray([])
    ensures c.missingInfo == if "missing_information" in fields then fields["missing_information"] else JArray([])
    ensures c.nextActions == if "suggested_next_actions" in fields then fields["suggested_next_actions"] else JArray([])
  {
    r.(summary := Get(fields, "summary", JString("")),
       keyPoints := Get(fields, "key_points", JArray([])),
       missingInfo := Get(fields, "missing_information", JArray([])),
       nextActions := Get(fields, "suggested_next_actions", JArray([])),
       status := Completed)
  }

  /** One attempt on a record that was found. The status-only save to
      `processing` always comes first; the branch taken by the outcome then
      decides the final full save and whether the exception escapes. */
  function Step(r: NoteAnalysis, outcome: LlmOutcome): (a: AttemptResult)
    ensures |a.writes| == 2 && a.writes[0] == SaveStatus(Processing)
    ensures a.record.Some? && a.writes[1] == SaveAll(a.record.value)
    ensures SameIdentity(r, a.record.value)
    ensures a.record.value.status == Completed || a.record.value.status == Failed
    ensures a.record.value.status == Completed <==> outcome.Parsed? && outcome.value.JObject?
    ensures a.raised.None? <==> a.record.value.status == Completed || outcome.DecodeError?
    ensures a.record.value.status == Failed ==> Outputs(a.record.value) == Outputs(r)
  {
    var inFlight := r.(status := Processing);
    match outcome
    case Parsed(JObject(fields)) =>
      var done := CopyPayload(inFlight, fields);
      AttemptResult([SaveStatus(Processing), SaveAll(done)], Some(done), None)
    case Parsed(v) =>
      var failed := inFlight.(status := Failed, error := NoGetMessage(v));
      AttemptResult([SaveStatus(Processing), SaveAll(failed)], Some(failed), Some(Reraised(NoGetMessage(v))))
    case DecodeError =>
      var failed := inFlight.(status := Failed, error := InvalidJsonMessage);
      AttemptResult([SaveStatus(Processing), SaveAll(failed)], Some(failed), None)
    case OtherError(m) =>
      var failed := inFlight.(status := Failed, error := m);
      AttemptResult([SaveStatus(Processing), SaveAll(failed)], Some(failed), Some(Reraised(m)))
  }

  /** One attempt: the lookup by id, which raises before anything is written
      when the record does not exist, then `Step`. */
  function Attempt(found: Option<NoteAnalysis>, outcome: LlmOutcome): (a: AttemptResult)
    ensures found.None? <==> a.record.None?
    ensures found.None? ==> a.writes == [] && a.raised == Some(RecordMissing)
    ensures found.Some? ==> a == Step(found.value, outcome)
  {
    match found
    case None => AttemptResult([], None, Some(RecordMissing))
    case Some(r) => Step(r, outcome)
  }

  // ---------------------------------------------------------------------
  // The branches of one attempt, field by field.

  /** A decoded object completes the record: each output field holds the
      object's value under its key, or the empty default when the key is
      absent, with no check of the value's type; the error text from any
      earlier attempt stays; nothing escapes. */
  lemma SuccessCopiesPayload(r: NoteAnalysis, fields: map<string, JsonValue>)
    ensures var a := Step(r, Parsed(JObject(fields)));
      && a.raised.None?
      && a.record.value.status == Completed
      && a.record.value.error == r.error
      && ("summary" in fields ==> a.record.value.summary == fields["summary"])
      && ("summary" !in fields ==> a.record.value.summary == JString(""))
      && ("key_points" in fields ==> a.record.value.keyPoints == fields["key_points"])
      && ("key_points" !in fields ==> a.record.value.keyPoints == JArray([]))
      && ("missing_information" in fields ==> a.record.value.missingInfo == fields["missing_information"])
      && ("missing_information" !in fields ==> a.record.value.missingInfo == JArray([]))
      && ("suggested_next_actions" in fields ==> a.record.value.nextActions == fields["suggested_next_actions"])
      && ("suggested_next_actions" !in fields ==> a.record.value.nextActions == JArray([]))
  {
  }

  /** Re-running an attempt on the same decoded object gives the same four
      output fields, whatever the record held before. */
  lemma SuccessIgnoresPriorOutputs(r: NoteAnalysis, r': NoteAnalysis, fields: map<string, JsonValue>)
    ensures Outputs(Step(r, Parsed(JObject(fields))).record.value)
         == Outputs(Step(r', Parsed(JObject(fields))).record.value)
  {
  }

  /** Undecodable output fails the record with the fixed message, keeps the
      output fields, and is absorbed: the queue sees no exception. */
  lemma DecodeErrorIsAbsorbed(r: NoteAnalysis)
    ensures var a := Step(r, DecodeError);
      && a.raised.None?
      && a.record.value == r.(status := Failed, error := InvalidJsonMessage)
  {
  }

  /** Any other exception fails the record with the exception's text, keeps
      the output fields, and is re-raised. A decoded value that is not an
      object takes this branch too: `.get` raises before any field is
      assigned. */
  lemma OtherErrorIsReraised(r: NoteAnalysis, outcome: LlmOutcome)
    requires outcome.OtherError? || (outcome.Parsed? && !outcome.value.JObject?)
    ensures var m := if outcome.OtherError? then outcome.message else NoGetMessage(outcome.value);
      var a := Step(r, outcome);
      && a.raised == Some(Reraised(m))
      && a.record.value == r.(status := Failed, error := m)
  {
  }

  // ---------------------------------------------------------------------
  // The table the writes go to.

  /** The persisted rows, by id. */
  type Store = map<nat, NoteAnalysis>

  function Lookup(store: Store, id: nat): (found: Option<NoteAnalysis>)
    ensures found.Some? <==> id in store
    ensures found.Some? ==> found.value == store[id]
  {
    if id in store then Some(store[id]) else None
  }

  /** The row after one save against `id`: a status-only save changes the
      status column alone; a full save replaces every column. */
  function ApplyWrite(store: Store, id: nat, w: Write): Store {
    match w
    case SaveStatus(s) => if id in store then store[id := store[id].(status := s)] else store
    case SaveAll(r) => store[id := r]
  }

  /** What one save does to the table: a status-only save of an existing
      row differs from it in the status column alone; a full save makes the
      row exactly the in-memory record, inserting it if absent; no other
      row is touched by either. */
  lemma ApplyWriteEffects(store: Store, id: nat, w: Write)
    ensures var after := ApplyWrite(store, id, w);
      && after.Keys == (if w.SaveAll? then store.Keys + {id} else store.Keys)
      && (forall k :: k in store && k != id ==> after[k] == store[k])
      && (w.SaveAll? ==> after[id] == w.record)
      && (w.SaveStatus? && id in store ==>
            after[id].status == w.status && after[id].(status := store[id].status) == store[id])
  {
  }

  /** The table after a sequence of saves against `id`, in order. */
  function Persist(store: Store, id: nat, writes: seq<Write>): Store
    decreases |writes|
  {
    if writes == [] then store else Persist(ApplyWrite(store, id, writes[0]), id, writes[1..])
  }

  /** What observers of the row see while the model is being called: the
      row as it was, except that its status is `processing`. */
  lemma InFlightRowOnlyChangesStatus(store: Store, id: nat, outcome: LlmOutcome)
    requires id in store
    ensures var a := Attempt(Lookup(store, id), outcome);
      var mid := ApplyWrite(store, id, a.writes[0]);
      && mid.Keys == store.Keys
      && mid[id] == store[id].(status := Processing)
      && forall k :: k in store && k != id ==> mid[k] == store[k]
  {
  }

  /** After an attempt the row holds exactly the attempt's final record, and
      no other row changes; an attempt that found no record writes nothing. */
  lemma AttemptPersistsFinalRecord(store: Store, id: nat, outcome: LlmOutcome)
    ensures var a := Attempt(Lookup(store, id), outcome);
      Persist(store, id, a.writes) == if id in store then store[id := a.record.value] else store
  {
    if id in store {
      var a := Step(store[id], outcome);
      assert a.writes == [SaveStatus(Processing), SaveAll(a.record.value)];
      PersistStatusThenRecord(store, id, Processing, a.record.value);
    }
  }

  lemma PersistStatusThenRecord(store: Store, id: nat, s: Status, r: NoteAnalysis)
    requires id in store
    ensures Persist(store, id, [SaveStatus(s), SaveAll(r)]) == store[id := r]
  {
    var writes := [SaveStatus(s), SaveAll(r)];
    var mid := store[id := store[id].(status := s)];
    assert Persist(store, id, writes) == Persist(mid, id, writes[1..]);
    assert writes[1..] == [SaveAll(r)];
    assert Persist(mid, id, [SaveAll(r)]) == Persist(mid[id := r], id, []);
  }

  // ---------------------------------------------------------------------
  // The task queue's retry policy.

  /** `max_retries`: an escaping exception is retried at most this many
      times, so one dispatch runs at most `MaxRetries + 1` attempts. */
  const MaxRetries: nat := 3

  /** Everything one dispatch of the task does: the attempts in order, the
      table afterwards, and the exception the queue finally records. */
  datatype Dispatch = Dispatch(attempts: seq<AttemptResult>, store: Store, failure: Option<TaskError>)

  /** The table once an attempt's saves have been applied in order. */
  function Commit(store: Store, id: nat, a: AttemptResult): (after: Store)
    requires a.record.Some? <==> id in store
    requires a.record.None? ==> a.writes == []
    requires a.record.Some? ==> a.writes == [SaveStatus(Processing), SaveAll(a.record.value)]
    ensures after == if id in store then store[id := a.record.value] else store
  {
    if id in store then
      PersistStatusThenRecord(store, id, Processing, a.record.value);
      Persist(store, id, a.writes)
    else
      Persist(store, id, a.writes)
  }

  /** Runs attempt number `attempt` (0 for the first delivery) and, while an
      exception escapes and retries remain, the attempts after it. The model
      is consulted through `respond`, given the attempt number and the note
      text: its answers differ from call to call, and the fixed instruction
      template around the text is part of the call. */
  function RunFrom(store: Store, id: nat, respond: (nat, string) -> LlmOutcome, attempt: nat): (d: Dispatch)
    requires attempt <= MaxRetries
    ensures 1 <= |d.attempts| <= MaxRetries + 1 - attempt
    ensures forall k :: 0 <= k < |d.attempts| - 1 ==> d.attempts[k].raised.Some?
    ensures d.failure == d.attempts[|d.attempts| - 1].raised
    ensures d.failure.Some? ==> |d.attempts| == MaxRetries + 1 - attempt
    ensures id !in store ==> d.store == store && d.failure == Some(RecordMissing)
    ensures id in store ==> FinalRowStands(store, id, d)
    ensures id in store ==> FollowsResponses(store[id], respond, attempt, d.attempts)
    decreases MaxRetries - attempt
  {
    var found := Lookup(store, id);
    // The model is only consulted once the record is found; a failed lookup
    // raises first, and `Attempt` never looks at the outcome it is given.
    var outcome := if found.Some? then respond(attempt, found.value.rawText) else DecodeError;
    var a := Attempt(found, outcome);
    var after := Commit(store, id, a);
    if a.raised.Some? && attempt < MaxRetries then
      var rest := RunFrom(after, id, respond, attempt + 1);
      var d := Dispatch([a] + rest.attempts, rest.store, rest.failure);
      assert d.attempts[|d.attempts| - 1] == rest.attempts[|rest.attempts| - 1];
      if id in store then
        FinalRowAfterRetry(store, id, a.record.value, rest, d);
        FollowsResponsesCons(store[id], respond, attempt, a, rest.attempts);
        d
      else d
    else if id in store then
      FollowsResponsesSingle(store[id], respond, attempt, a);
      Dispatch([a], after, a.raised)
    else
      Dispatch([a], after, a.raised)
  }

  /** The row for `id` ends as the last attempt left it, `completed` or
      `failed` and with its identity fields intact; every other row is as it
      was. */
  ghost predicate FinalRowStands(store: Store, id: nat, d: Dispatch)
    requires id in store && |d.attempts| > 0
  {
    var last := d.attempts[|d.attempts| - 1].record;
    && last.Some?
    && d.store == store[id := last.value]
    && SameIdentity(store[id], last.value)
    && (last.value.status == Completed || last.value.status == Failed)
  }

  lemma FinalRowAfterRetry(store: Store, id: nat, first: NoteAnalysis, rest: Dispatch, d: Dispatch)
    requires id in store && SameIdentity(store[id], first)
    requires |rest.attempts| > 0 && FinalRowStands(store[id := first], id, rest)
    requires |d.attempts| > 0 && d.store == rest.store
    requires d.attempts[|d.attempts| - 1] == rest.attempts[|rest.attempts| - 1]
    ensures FinalRowStands(store, id, d)
  {
    var last := rest.attempts[|rest.attempts| - 1].record.value;
    assert store[id := first][id := last] == store[id := last];
  }

  /** The attempts of a dispatch are the task's own: the first is `Step` on
      the stored row with the model's answer to attempt number `attempt`,
      and each later one is `Step` on the row the previous attempt left,
      with the model's answer to its own attempt number. The note text the
      model is given never changes, since no attempt writes it. */
  ghost predicate FollowsResponses(r: NoteAnalysis, respond: (nat, string) -> LlmOutcome, attempt: nat, atts: seq<AttemptResult>)
  {
    && |atts| > 0
    && (forall k :: 0 <= k < |atts| ==> atts[k].record.Some?)
    && forall k :: 0 <= k < |atts| ==> atts[k] == Step(RowBefore(r, atts, k), respond(attempt + k, r.rawText))
  }

  /** The row attempt `k` starts from: the stored row for the first attempt,
      the row the previous attempt left for every later one. */
  function RowBefore(r: NoteAnalysis, atts: seq<AttemptResult>, k: nat): NoteAnalysis
    requires k <= |atts|
    requires k > 0 ==> atts[k - 1].record.Some?
  {
    if k == 0 then r else atts[k - 1].record.value
  }

  /** Shifts a follower of the responses from attempt `attempt + 1` onto a
      first attempt `a` whose record it continues from. */
  lemma FollowsResponsesCons(r: NoteAnalysis, respond: (nat, string) -> LlmOutcome, attempt: nat,
                             a: AttemptResult, rest: seq<AttemptResult>)
    requires a == Step(r, respond(attempt, r.rawText))
    requires FollowsResponses(a.record.value, respond, attempt + 1, rest)
    ensures FollowsResponses(r, respond, attempt, [a] + rest)
  {
    var atts := [a] + rest;
    assert a.record.value.rawText == r.rawText;
    forall k | 0 <= k < |atts|
      ensures atts[k].record.Some?
    {
      if k > 0 { assert atts[k] == rest[k - 1]; }
    }
    forall k | 0 <= k < |atts|
      ensures atts[k] == Step(RowBefore(r, atts, k), respond(attempt + k, r.rawText))
    {
      if k > 0 {
        assert atts[k] == rest[k - 1];
        assert RowBefore(r, atts, k) == RowBefore(a.record.value, rest, k - 1);
      }
    }
  }

  /** A dispatch of one attempt follows the responses when that attempt is
      `Step` on the stored row with the first answer. */
  lemma FollowsResponsesSingle(r: NoteAnalysis, respond: (nat, string) -> LlmOutcome, attempt: nat, a: AttemptResult)
    requires a == Step(r, respond(attempt, r.rawText))
    ensures FollowsResponses(r, respond, attempt, [a])
  {
  }

  /** One dispatch of the task for `id`, with every retry the queue grants. */
  function Run(store: Store, id: nat, respond: (nat, string) -> LlmOutcome): (d: Dispatch)
    ensures 1 <= |d.attempts| <= MaxRetries + 1
    ensures forall k :: 0 <= k < |d.attempts| - 1 ==> d.attempts[k].raised.Some?
    ensures d.failure == d.attempts[|d.attempts| - 1].raised
    ensures d.failure.Some? ==> |d.attempts| == MaxRetries + 1
    ensures id in store ==> FinalRowStands(store, id, d)
    ensures d.store.Keys == store.Keys
    ensures d.failure.None? ==> id in store && d.store[id].status in {Completed, Failed}
    ensures id in store ==> FollowsResponses(store[id], respond, 0, d.attempts)
  {
    RunFrom(store, id, respond, 0)
  }

  // ---------------------------------------------------------------------
  // Whole dispatches.

  /** An absent record is not special-cased: every attempt raises from the
      lookup, the queue retries each time until the cap, and nothing is
      written. */
  lemma MissingRecordExhaustsRetries(store: Store, id: nat, respond: (nat, string) -> LlmOutcome)
    requires id !in store
    ensures var d := Run(store, id, respond);
      && |d.attempts| == MaxRetries + 1
      && (forall k :: 0 <= k < |d.attempts| ==> d.attempts[k].writes == [])
      && d.store == store
      && d.failure == Some(RecordMissing)
  {
    var d := Run(store, id, respond);
    forall k | 0 <= k < |d.attempts|
      ensures d.attempts[k].writes == []
    {
      MissingRecordNeverWrites(store, id, respond, 0, k);
    }
  }

  lemma {:induction false} MissingRecordNeverWrites(store: Store, id: nat, respond: (nat, string) -> LlmOutcome, attempt: nat, k: nat)
    requires id !in store && attempt <= MaxRetries
    requires k < |RunFrom(store, id, respond, attempt).attempts|
    ensures RunFrom(store, id, respond, attempt).attempts[k].writes == []
    decreases k
  {
    var a := Attempt(None, DecodeError);
    if k > 0 {
      assert a.raised.Some? && attempt < MaxRetries;
      MissingRecordNeverWrites(store, id, respond, attempt + 1, k - 1);
    }
  }

  /** Output the decoder rejects ends the dispatch after one attempt: the
      record is failed with the fixed message and no retry is requested. */
  lemma DecodeFailureIsNotRetried(store: Store, id: nat, respond: (nat, string) -> LlmOutcome)
    requires id in store && respond(0, store[id].rawText) == DecodeError
    ensures var d := Run(store, id, respond);
      && |d.attempts| == 1
      && d.failure.None?
      && d.store == store[id := store[id].(status := Failed, error := InvalidJsonMessage)]
  {
    AttemptPersistsFinalRecord(store, id, DecodeError);
  }

  /** A decoded object on the first attempt completes the record in one
      attempt with the payload copied in. */
  lemma FirstAttemptSuccess(store: Store, id: nat, respond: (nat, string) -> LlmOutcome, fields: map<string, JsonValue>)
    requires id in store && respond(0, store[id].rawText) == Parsed(JObject(fields))
    ensures var d := Run(store, id, respond);
      && |d.attempts| == 1
      && d.failure.None?
      && d.store[id].status == Completed
      && d.store[id].error == store[id].error
      && d.store[id] == Step(store[id], Parsed(JObject(fields))).record.value
  {
    AttemptPersistsFinalRecord(store, id, Parsed(JObject(fields)));
  }

  /** An error that recurs on every attempt is retried up to the cap; the
      failure written by the last attempt stands and the exception is what
      the queue finally records. */
  lemma PersistentErrorExhaustsRetries(store: Store, id: nat, respond: (nat, string) -> LlmOutcome, m: string)
    requires id in store
    requires forall k: nat :: k <= MaxRetries ==> respond(k, store[id].rawText) == OtherError(m)
    ensures var d := Run(store, id, respond);
      && |d.attempts| == MaxRetries + 1
      && d.failure == Some(Reraised(m))
      && d.store == store[id := store[id].(status := Failed, error := m)]
  {
    PersistentErrorFrom(store, id, respond, m, 0);
  }

  lemma {:induction false} PersistentErrorFrom(store: Store, id: nat, respond: (nat, string) -> LlmOutcome, m: string, attempt: nat)
    requires id in store && attempt <= MaxRetries
    requires forall k: nat :: attempt <= k <= MaxRetries ==> respond(k, store[id].rawText) == OtherError(m)
    ensures var d := RunFrom(store, id, respond, attempt);
      && d.failure == Some(Reraised(m))
      && d.store == store[id := store[id].(status := Failed, error := m)]
    decreases MaxRetries - attempt
  {
    var r := store[id];
    var failed := r.(status := Failed, error := m);
    assert respond(attempt, r.rawText) == OtherError(m);
    var a := Attempt(Some(r), OtherError(m));
    assert a.record == Some(failed) && a.raised == Some(Reraised(m));
    var after := store[id := failed];
    assert Commit(store, id, a) == after;
    if attempt < MaxRetries {
      PersistentErrorFrom(after, id, respond, m, attempt + 1);
      RewriteSameRow(after, id, failed);
    }
  }

  /** Writing a row's current value back leaves the table as it was. */
  lemma RewriteSameRow(store: Store, id: nat, r: NoteAnalysis)
    requires id in store && store[id] == r
    ensures store[id := r] == store
  {
  }

  /** A record whose first attempt raised and whose retry then decodes an
      object ends completed, yet still carries the first attempt's error
      text: the success branch never clears it. */
  lemma StaleErrorSurvivesRecovery(store: Store, id: nat, respond: (nat, string) -> LlmOutcome, m: string, fields: map<string, JsonValue>)
    requires id in store
    requires respond(0, store[id].rawText) == OtherError(m)
    requires respond(1, store[id].rawText) == Parsed(JObject(fields))
    ensures var d := Run(store, id, respond);
      && |d.attempts| == 2
      && d.failure.None?
      && d.store[id].status == Completed
      && d.store[id].error == m
  {
    var failed := store[id].(status := Failed, error := m);
    AttemptPersistsFinalRecord(store, id, OtherError(m));
    var after := store[id := failed];
    AttemptPersistsFinalRecord(after, id, Parsed(JObject(fields)));
    assert RunFrom(store, id, respond, 0).attempts == [Attempt(Some(store[id]), OtherError(m))] + RunFrom(after, id, respond, 1).attempts;
  }
}

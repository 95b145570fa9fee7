/** Filing a return with the revenue authority: the reading of its answers and the retry loop
    that ends with one of them. An answer may be any JSON value; the reader fails, as Python
    does with an exception, on one that does not have the shape it expects. */
module GraClient {
  import opened Json
  import opened Wrappers
  import Numerals

  // ---- Reading an answer ----

  datatype Status = StatusAccepted | StatusRejected | StatusError

  datatype Submission = Submission(success: bool, graRef: Json, status: Status, message: Json, raw: Json)

  /** Any value inserted into text; `show` is Python's printed form of values other than text. */
  function InText(j: Json, show: Json -> string): string {
    match j case Text(s) => s case _ => show(j)
  }

  /** The messages of an error list, joined; None when an entry is not an object or its message
      is not text. */
  function Details(errors: seq<Json>, show: Json -> string): Option<string> {
    if errors == [] then Some("")
    else if !errors[0].Object? then None
    else
      match GetField(errors[0].fields, "message", Text(show(errors[0])))
      case Text(first) =>
        if |errors| == 1 then Some(first)
        else (match Details(errors[1..], show)
              case None => None
              case Some(others) => Some(first + "; " + others))
      case _ => None
  }

  /** The message of a rejection: the joined error list if there is one. */
  function RejectionMessage(fields: map<string, Json>, show: Json -> string): Option<Json> {
    var errors := GetField(fields, "errors", Array([]));
    if !Truthy(errors) then Some(GetField(fields, "message", Text("Validation error")))
    else if !errors.Array? then None
    else match Details(errors.elements, show)
      case None => None
      case Some(detail) => Some(Text(detail))
  }

  function ParseSubmission(status: nat, body: Json, show: Json -> string): Option<Submission> {
    if status in {200, 201, 202} then
      if !body.Object? then None
      else
        var ref := Or(Or(GetField(body.fields, "referenceNumber", Null), GetField(body.fields, "reference", Null)),
                      GetField(body.fields, "ref", Null));
        Some(Submission(true, ref, StatusAccepted, GetField(body.fields, "message", Text("Accepted")), body))
    else if status in {400, 422} then
      if !body.Object? then None
      else match RejectionMessage(body.fields, show)
        case None => None
        case Some(detail) => Some(Submission(false, Null, StatusRejected, detail, body))
    else if status in {401, 403} then
      Some(Submission(false, Null, StatusError, Text("GRA authentication failed — check GRA_API_KEY"), body))
    else if !body.Object? then None
    else
      Some(Submission(false, Null, StatusError,
                      Text("GRA server error (HTTP " + Numerals.Decimal(status) + "): "
                           + InText(GetField(body.fields, "message", Text("Unknown")), show)),
                      body))
  }

  /** An entry of an error list that can be joined. */
  predicate ReadableEntry(e: Json) {
    e.Object? && ("message" in e.fields ==> e.fields["message"].Text?)
  }

  /** The bodies that the reader can read, status by status. */
  predicate Readable(status: nat, body: Json) {
    || status in {401, 403}
    || (&& body.Object?
        && (status in {400, 422} ==>
              var errors := GetField(body.fields, "errors", Array([]));
              Truthy(errors) ==> errors.Array? && forall e :: e in errors.elements ==> ReadableEntry(e)))
  }

  lemma HeadReadable(errors: seq<Json>, show: Json -> string)
    requires errors != []
    ensures Details(errors, show).Some? <==> ReadableEntry(errors[0]) && Details(errors[1..], show).Some?
  {
    assert |errors| == 1 ==> errors[1..] == [];
  }

  lemma {:induction false} DetailsIff(errors: seq<Json>, show: Json -> string)
    ensures Details(errors, show).Some? <==> forall e :: e in errors ==> ReadableEntry(e)
  {
    if errors != [] {
      DetailsIff(errors[1..], show);
      assert errors == [errors[0]] + errors[1..];
      assert forall e :: e in errors <==> e == errors[0] || e in errors[1..];
      HeadReadable(errors, show);
    }
  }

  /** The reader fails exactly on the bodies that are not readable, and what it reads is a
      success exactly for the statuses 200, 201 and 202. */
  lemma ParseSubmissionIff(status: nat, body: Json, show: Json -> string)
    ensures ParseSubmission(status, body, show).Some? <==> Readable(status, body)
    ensures Readable(status, body) ==>
              (ParseSubmission(status, body, show).value.success <==> status in {200, 201, 202})
  {
    if status in {400, 422} && body.Object? {
      var errors := GetField(body.fields, "errors", Array([]));
      if Truthy(errors) && errors.Array? {
        DetailsIff(errors.elements, show);
      }
    }
  }

  // ---- What a reading says, told from the fields of the body ----

  /** An accepted return: the first of three names that is there gives the reference, which is
      otherwise what the last of them holds; the message is its own or "Accepted". */
  lemma AcceptedSays(status: nat, fields: map<string, Json>, show: Json -> string)
    requires status in {200, 201, 202}
    ensures
      var r := ParseSubmission(status, Object(fields), show);
      && r.Some?
      && r.value.success && r.value.status == StatusAccepted && r.value.raw == Object(fields)
      && (Holds(fields, "referenceNumber") ==> r.value.graRef == fields["referenceNumber"])
      && (!Holds(fields, "referenceNumber") && Holds(fields, "reference") ==> r.value.graRef == fields["reference"])
      && (!Holds(fields, "referenceNumber") && !Holds(fields, "reference") ==>
            r.value.graRef == if "ref" in fields then fields["ref"] else Null)
      && r.value.message == if "message" in fields then fields["message"] else Text("Accepted")
  {
    HoldsIff(fields, "referenceNumber");
    HoldsIff(fields, "reference");
  }

  /** A rejected return: no reference, and the joined messages if there is an error list, or else
      the message of the body or "Validation error". */
  lemma RejectedSays(status: nat, fields: map<string, Json>, show: Json -> string)
    requires status in {400, 422}
    ensures
      var r := ParseSubmission(status, Object(fields), show);
      r.Some? ==>
        && !r.value.success && r.value.status == StatusRejected
        && r.value.graRef == Null && r.value.raw == Object(fields)
        && (Holds(fields, "errors") ==>
              fields["errors"].Array? && IsJoined(r.value.message, fields["errors"].elements, show))
        && (!Holds(fields, "errors") ==>
              r.value.message == if "message" in fields then fields["message"] else Text("Validation error"))
  {
    HoldsIff(fields, "errors");
    if Holds(fields, "errors") && fields["errors"].Array? && ParseSubmission(status, Object(fields), show).Some? {
      var _ := DetailsJoin(fields["errors"].elements, show);
    }
  }

  /** Any other status is an error: the wording depends on the status alone for 401 and 403, and
      shows status and message for the others. */
  lemma ErrorSays(status: nat, body: Json, show: Json -> string)
    requires status !in {200, 201, 202, 400, 422}
    ensures
      var r := ParseSubmission(status, body, show);
      r.Some? ==>
        && !r.value.success && r.value.status == StatusError && r.value.graRef == Null && r.value.raw == body
        && (status in {401, 403} ==> r.value.message == Text("GRA authentication failed — check GRA_API_KEY"))
        && (status !in {401, 403} ==>
              && body.Object?
              && var own := if "message" in body.fields then body.fields["message"] else Text("Unknown");
              && r.value.message.Text?
              && ErrorText(r.value.message.s, status, if own.Text? then own.s else show(own)))
  {
    if status !in {401, 403} && body.Object? {
      Numerals.ReadBack(status);
    }
  }

  /** "GRA server error (HTTP n): message", where n reads as the status. */
  ghost predicate ErrorText(text: string, status: nat, message: string) {
    exists n :: Numerals.ReadDecimal(n) == Some(status) && text == "GRA server error (HTTP " + n + "): " + message
  }

  /** The message of an error entry, or the entry itself as text. */
  function EntryText(e: Json, show: Json -> string): string {
    if e.Object? && "message" in e.fields && e.fields["message"].Text? then e.fields["message"].s else show(e)
  }

  /** The text splits into the messages of the entries, one after the other, with "; " between. */
  ghost predicate IsJoined(message: Json, entries: seq<Json>, show: Json -> string) {
    message.Text? && exists pieces: seq<string> ::
      && |pieces| == |entries|
      && (forall i :: 0 <= i < |pieces| ==> pieces[i] == EntryText(entries[i], show))
      && message.s == Joined(pieces)
  }

  function Joined(pieces: seq<string>): string {
    if pieces == [] then ""
    else if |pieces| == 1 then pieces[0]
    else Joined(pieces[..|pieces| - 1]) + "; " + pieces[|pieces| - 1]
  }

  lemma {:induction false} JoinedFront(first: string, rest: seq<string>)
    requires rest != []
    ensures Joined([first] + rest) == first + "; " + Joined(rest)
    decreases |rest|
  {
    var all, n := [first] + rest, |rest| - 1;
    assert all[..n + 1] == [first] + rest[..n];
    if n == 0 {
      assert Joined(all) == Joined([first]) + "; " + rest[0];
    } else {
      JoinedFront(first, rest[..n]);
      assert Joined(all) == Joined([first] + rest[..n]) + "; " + rest[n];
    }
  }

  lemma {:induction false} DetailsJoin(errors: seq<Json>, show: Json -> string) returns (pieces: seq<string>)
    ensures Details(errors, show).Some? ==>
              && |pieces| == |errors|
              && (forall i :: 0 <= i < |pieces| ==> pieces[i] == EntryText(errors[i], show))
              && Details(errors, show).value == Joined(pieces)
  {
    pieces := [];
    if errors != [] && Details(errors, show).Some? {
      pieces := [EntryText(errors[0], show)];
      if |errors| > 1 {
        var rest := DetailsJoin(errors[1..], show);
        JoinedFront(pieces[0], rest);
        pieces := pieces + rest;
      }
    }
  }

  // ---- The retry loop ----

  /** A response carries its text and, if that is JSON, the decoded value. */
  datatype Answer = Response(status: nat, text: string, decoded: Option<Json>) | Timeout | RequestError

  /** The body handed to the reader: text that is not JSON is wrapped. */
  function BodyOf(text: string, decoded: Option<Json>): Json {
    match decoded case Some(j) => j case None => Object(map["raw" := Text(text)])
  }

  /** Unavailable is the client's own error; ReaderFailed an exception out of the reader, which
      the loop does not catch. */
  datatype Outcome = Returned(result: Submission) | Unavailable(last: Option<Answer>) | ReaderFailed

  const MAX_ATTEMPTS := 3

  predicate RetryStatus(status: nat) {
    status in {500, 502, 503, 504}
  }

  /** An answer after which another attempt is made, if any is left. */
  predicate Transient(a: Answer) {
    a.Timeout? || (a.Response? && a.status in {500, 502, 503, 504})
  }

  function Pow2(n: nat): (p: nat)
    ensures p >= 1
  {
    if n == 0 then 1 else 2 * Pow2(n - 1)
  }

  /** The attempt that decides, from the given one on: the first whose answer is not
      transient, or else the last one allowed. */
  function Deciding(script: nat -> Answer, from: nat, limit: nat): (k: nat)
    requires from <= limit
    ensures from <= k <= limit
    ensures forall i :: from <= i < k ==> Transient(script(i))
    ensures k < limit ==> !Transient(script(k))
    decreases limit - from
  {
    if from == limit || !Transient(script(from)) then from else Deciding(script, from + 1, limit)
  }

  function OutcomeOf(a: Answer, show: Json -> string): Outcome {
    match a
    case Response(status, text, decoded) =>
      (match ParseSubmission(status, BodyOf(text, decoded), show)
       case Some(result) => Returned(result)
       case None => ReaderFailed)
    case _ => Unavailable(Some(a))
  }

  /** The loop over the attempts. `script` gives the answer to each attempt; the pauses are
      recorded in order. */
  method PostWithRetry(script: nat -> Answer, limit: nat, show: Json -> string)
    returns (outcome: Outcome, sent: nat, pauses: seq<nat>)
    ensures limit == 0 ==> outcome == Unavailable(None) && sent == 0 && pauses == []
    ensures limit > 0 ==>
              && sent == Deciding(script, 1, limit)
              && outcome == OutcomeOf(script(sent), show)
              && pauses == Pauses(sent)
    ensures limit > 0 ==> 1 <= sent <= limit
    ensures forall i :: 1 <= i < sent ==>
              script(i).Timeout? || (script(i).Response? && script(i).status in {500, 502, 503, 504})
    ensures 0 < sent < limit ==>
              script(sent).RequestError? || (script(sent).Response? && script(sent).status !in {500, 502, 503, 504})
    ensures sent == 1 ==> pauses == []
  {
    var lastExc: Option<Answer> := None;
    sent, pauses := 0, [];
    for attempt := 1 to limit + 1
      invariant sent == attempt - 1
      invariant forall i :: 1 <= i < attempt ==> Transient(script(i))
      invariant pauses == Pauses(if attempt <= limit then attempt else attempt - 1)
      invariant attempt > limit > 0 ==> script(limit).Timeout? && lastExc == Some(Timeout)
      invariant limit == 0 ==> lastExc == None
    {
      var a := script(attempt);
      sent := attempt;
      match a {
        case Response(status, text, decoded) =>
          var body := BodyOf(text, decoded);
          if RetryStatus(status) && attempt < limit {
            pauses := pauses + [Pow2(attempt)];
            continue;
          }
          DecidingIs(script, attempt, limit);
          var result := ParseSubmission(status, body, show);
          return if result.Some? then Returned(result.value) else ReaderFailed, sent, pauses;
        case Timeout =>
          lastExc := Some(a);
          if attempt < limit {
            pauses := pauses + [Pow2(attempt)];
          }
        case RequestError =>
          lastExc := Some(a);
          DecidingIs(script, attempt, limit);
          break;
      }
    }
    if limit > 0 && script(sent).Timeout? {
      DecidingIs(script, limit, limit);
    }
    outcome := Unavailable(lastExc);
  }

  /** The pauses before attempt k: 2, 4, ... seconds, one after each attempt but the last. */
  function Pauses(k: nat): (s: seq<nat>) {
    if k <= 1 then [] else Pauses(k - 1) + [Pow2(k - 1)]
  }

  function Sum(s: seq<nat>): nat {
    if s == [] then 0 else Sum(s[..|s| - 1]) + s[|s| - 1]
  }

  /** A response that is not JSON is read as an object that holds its text. */
  lemma WrappedText(text: string, show: Json -> string)
    ensures
      var r := OutcomeOf(Response(201, text, None), show);
      && r.Returned? && r.result.success && r.result.raw == Object(map["raw" := Text(text)])
      && r.result.graRef == Null && r.result.message == Text("Accepted")
  {
    AcceptedSays(201, map["raw" := Text(text)], show);
  }

  lemma DecidingIs(script: nat -> Answer, k: nat, limit: nat)
    requires 1 <= k <= limit
    requires forall i :: 1 <= i < k ==> Transient(script(i))
    requires k == limit || !Transient(script(k))
    ensures Deciding(script, 1, limit) == k
  {
  }

  /** k attempts take 2^k - 2 seconds of pauses, so the limit allows at most 2^limit - 2. */
  lemma {:induction false} PauseTotal(k: nat, limit: nat)
    requires 1 <= k <= limit
    ensures |Pauses(k)| == k - 1
    ensures Sum(Pauses(k)) == Pow2(k) - 2 <= Pow2(limit) - 2
    decreases k
  {
    if k == 1 {
      assert Pow2(1) == 2;
      Pow2Grows(1, limit);
    } else {
      PauseTotal(k - 1, limit);
      assert Pauses(k)[..k - 2] == Pauses(k - 1);
      Pow2Grows(k, limit);
    }
  }

  lemma {:induction false} Pow2Grows(a: nat, b: nat)
    requires a <= b
    ensures Pow2(a) <= Pow2(b)
    decreases b - a
  {
    if a < b {
      Pow2Grows(a, b - 1);
    }
  }

  /** The outcome as a function of the script. */
  function Result(script: nat -> Answer, limit: nat, show: Json -> string): Outcome {
    if limit == 0 then Unavailable(None) else OutcomeOf(script(Deciding(script, 1, limit)), show)
  }

  /** Attempt k is made: the earlier ones were all transient. */
  ghost predicate Reached(script: nat -> Answer, k: nat, limit: nat) {
    1 <= k <= limit && forall i :: 1 <= i < k ==> Transient(script(i))
  }

  /** The answer to attempt k is handed to the reader. */
  ghost predicate IsRead(script: nat -> Answer, k: nat, limit: nat) {
    && Reached(script, k, limit)
    && script(k).Response?
    && (script(k).status in {500, 502, 503, 504} ==> k == limit)
  }

  predicate ReadableAnswer(a: Answer)
    requires a.Response?
  {
    Readable(a.status, BodyOf(a.text, a.decoded))
  }

  lemma ReadDecides(script: nat -> Answer, k: nat, limit: nat, show: Json -> string)
    requires IsRead(script, k, limit)
    ensures Deciding(script, 1, limit) == k
    ensures
      var r := Result(script, limit, show);
      && (r.Returned? <==> ReadableAnswer(script(k)))
      && (r.ReaderFailed? <==> !ReadableAnswer(script(k)))
      && (r.Returned? ==> (r.result.success <==> script(k).status in {200, 201, 202}))
  {
    DecidingIs(script, k, limit);
    ParseSubmissionIff(script(k).status, BodyOf(script(k).text, script(k).decoded), show);
  }

  lemma DecidingIsRead(script: nat -> Answer, limit: nat, show: Json -> string)
    requires limit > 0 && !Result(script, limit, show).Unavailable?
    ensures IsRead(script, Deciding(script, 1, limit), limit)
  {
  }

  /** The filing succeeds exactly when some allowed attempt, after transient answers only, is
      answered 200, 201 or 202 with an object. */
  lemma SucceedsIff(script: nat -> Answer, limit: nat, show: Json -> string)
    ensures
      (Result(script, limit, show).Returned? && Result(script, limit, show).result.success) <==>
        exists k :: && IsRead(script, k, limit)
                    && script(k).status in {200, 201, 202}
                    && BodyOf(script(k).text, script(k).decoded).Object?
  {
    if k :| IsRead(script, k, limit) && script(k).status in {200, 201, 202}
            && BodyOf(script(k).text, script(k).decoded).Object?
    {
      ReadDecides(script, k, limit, show);
    }
    if Result(script, limit, show).Returned? && Result(script, limit, show).result.success {
      var d := Deciding(script, 1, limit);
      DecidingIsRead(script, limit, show);
      ReadDecides(script, d, limit, show);
    }
  }

  /** It returns an unsuccessful result, without raising, exactly when the answer that is read
      has another status and a readable body: permanent errors are not raised. */
  lemma ReturnsFailureIff(script: nat -> Answer, limit: nat, show: Json -> string)
    ensures
      (Result(script, limit, show).Returned? && !Result(script, limit, show).result.success) <==>
        exists k :: && IsRead(script, k, limit)
                    && script(k).status !in {200, 201, 202}
                    && ReadableAnswer(script(k))
  {
    if k :| IsRead(script, k, limit) && script(k).status !in {200, 201, 202} && ReadableAnswer(script(k)) {
      ReadDecides(script, k, limit, show);
    }
    if Result(script, limit, show).Returned? && !Result(script, limit, show).result.success {
      var d := Deciding(script, 1, limit);
      DecidingIsRead(script, limit, show);
      ReadDecides(script, d, limit, show);
    }
  }

  /** The reader's exception leaves the loop exactly when the answer that is read has a body
      that the reader cannot read for its status. */
  lemma ReaderFailsIff(script: nat -> Answer, limit: nat, show: Json -> string)
    ensures
      Result(script, limit, show).ReaderFailed? <==>
        exists k :: IsRead(script, k, limit) && !ReadableAnswer(script(k))
  {
    if k :| IsRead(script, k, limit) && !ReadableAnswer(script(k)) {
      ReadDecides(script, k, limit, show);
    }
    if Result(script, limit, show).ReaderFailed? {
      var d := Deciding(script, 1, limit);
      DecidingIsRead(script, limit, show);
      ReadDecides(script, d, limit, show);
    }
  }

  /** A network error other than a timeout is not retried: whichever attempt meets it is the
      last one, and the client's own error follows. */
  lemma RequestErrorNotRetried(script: nat -> Answer, k: nat, limit: nat, show: Json -> string)
    requires Reached(script, k, limit) && script(k).RequestError?
    ensures Deciding(script, 1, limit) == k
    ensures Result(script, limit, show) == Unavailable(Some(RequestError))
  {
    DecidingIs(script, k, limit);
  }

  lemma UnavailableIff(script: nat -> Answer, limit: nat, show: Json -> string)
    ensures
      Result(script, limit, show).Unavailable? <==>
        || limit == 0
        || (exists k :: Reached(script, k, limit) && script(k).RequestError?)
        || (Reached(script, limit, limit) && script(limit).Timeout?)
  {
    if limit > 0 {
      var d := Deciding(script, 1, limit);
      assert Reached(script, d, limit);
      if k :| Reached(script, k, limit) && script(k).RequestError? {
        RequestErrorNotRetried(script, k, limit, show);
      }
      if Reached(script, limit, limit) && script(limit).Timeout? {
        DecidingIs(script, limit, limit);
      }
      assert script(d).Timeout? ==> d == limit;
    }
  }

  /** The loop raises exactly when no attempt is allowed, a request error comes before any
      final response, the last allowed attempt times out, or the response that ends it has a
      body that its reader cannot read. */
  lemma RaisesIff(script: nat -> Answer, limit: nat, show: Json -> string)
    ensures
      !Result(script, limit, show).Returned? <==>
        || limit == 0
        || (exists k :: Reached(script, k, limit) && script(k).RequestError?)
        || (Reached(script, limit, limit) && script(limit).Timeout?)
        || (exists k :: IsRead(script, k, limit) && !ReadableAnswer(script(k)))
  {
    UnavailableIff(script, limit, show);
    ReaderFailsIff(script, limit, show);
  }

  /** A final answer to the first attempt ends the loop at once, with one request and no pause. */
  lemma AnsweredAtOnce(script: nat -> Answer, limit: nat, show: Json -> string)
    requires limit > 0 && script(1).Response? && script(1).status !in {500, 502, 503, 504}
    ensures Deciding(script, 1, limit) == 1 && Pauses(1) == []
    ensures Result(script, limit, show).ReaderFailed? <==> !ReadableAnswer(script(1))
    ensures Result(script, limit, show).Returned? <==> ReadableAnswer(script(1))
  {
    ReadDecides(script, 1, limit, show);
  }

  /** The first pause takes two seconds, each later one twice the one before. */
  lemma {:induction false} PausesDouble(k: nat)
    ensures k >= 1 ==> |Pauses(k)| == k - 1
    ensures k >= 2 ==> Pauses(k)[0] == 2
    ensures forall i :: 1 <= i < |Pauses(k)| ==> Pauses(k)[i] == 2 * Pauses(k)[i - 1]
  {
    if k >= 2 {
      PausesDouble(k - 1);
      LastPause(k);
      if k >= 3 {
        LastPause(k - 1);
      }
    }
  }

  lemma LastPause(k: nat)
    requires k >= 2 && |Pauses(k - 1)| == k - 2
    ensures |Pauses(k)| == k - 1 && Pauses(k)[k - 2] == 2 * Pow2(k - 2)
  {
  }

  /** With the three attempts of the program the pauses are 2 and 4 seconds, as far as the first
      answers are timeouts or one of the four statuses: the third pause that a comment in the
      program mentions never happens. */
  lemma NeverEightSeconds(script: nat -> Answer)
    ensures
      var again := (a: Answer) => a.Timeout? || (a.Response? && a.status in {500, 502, 503, 504});
      Pauses(Deciding(script, 1, MAX_ATTEMPTS))
      == if !again(script(1)) then [] else if !again(script(2)) then [2] else [2, 4]
  {
    assert Pauses(1) == [] && Pauses(2) == [2];
    assert Pauses(3) == Pauses(2) + [4];
  }
}

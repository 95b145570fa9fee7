/** Bulk payouts: amounts become whole kobo on the way out, and the provider's answer is
    matched by position on the way back. */
module BulkTransfer {
  import opened Json
  import opened Wrappers
  import opened Money

  // ---- On the way out ----

  /** int() of a decimal drops the fraction, towards zero. */
  function Truncate(x: real): int {
    if x < 0.0 then -((-x).Floor) else x.Floor
  }

  function Kobo(amount: real): int {
    Truncate(amount * 100.0)
  }

  datatype Transfer = Transfer(amountGhs: real, recipientCode: string, reference: string, reason: Option<string>)

  datatype PayoutItem = PayoutItem(amount: int, recipient: string, reference: string, reason: string)

  function ItemFor(t: Transfer): PayoutItem {
    PayoutItem(Kobo(t.amountGhs), t.recipientCode, t.reference,
               match t.reason case Some(r) => r case None => "SMEFlow payout")
  }

  function Items(transfers: seq<Transfer>): (items: seq<PayoutItem>)
    ensures |items| == |transfers|
  {
    seq(|transfers|, i requires 0 <= i < |transfers| => ItemFor(transfers[i]))
  }

  /** Each transfer is sent to its own recipient under its own reference, with its own reason or
      else a common one. */
  lemma ItemsSent(transfers: seq<Transfer>, i: nat)
    requires i < |transfers|
    ensures
      var item, t := Items(transfers)[i], transfers[i];
      && item.recipient == t.recipientCode
      && item.reference == t.reference
      && (forall own :: t.reason == Some(own) ==> item.reason == own)
      && (t.reason.None? ==> item.reason == "SMEFlow payout")
      && (t.amountGhs >= 0.0 ==> 0.0 <= 100.0 * t.amountGhs - item.amount as real < 1.0)
      && (t.amountGhs < 0.0 ==> -1.0 < 100.0 * t.amountGhs - item.amount as real <= 0.0)
  {
    KoboBounds(transfers[i].amountGhs);
  }

  function TotalKobo(items: seq<PayoutItem>): int {
    if items == [] then 0 else TotalKobo(items[..|items| - 1]) + items[|items| - 1].amount
  }

  function TotalGhs(transfers: seq<Transfer>): real {
    if transfers == [] then 0.0 else TotalGhs(transfers[..|transfers| - 1]) + transfers[|transfers| - 1].amountGhs
  }

  /** A positive amount loses less than one kobo, a negative one gains less than one, and an
      amount in whole kobo is kept. */
  lemma KoboBounds(x: real)
    ensures x >= 0.0 ==> 0.0 <= 100.0 * x - Kobo(x) as real < 1.0
    ensures x < 0.0 ==> -1.0 < 100.0 * x - Kobo(x) as real <= 0.0
    ensures WholePesewas(x) <==> Kobo(x) as real == 100.0 * x
  {
    if x < 0.0 {
      var low := (-(x * 100.0)).Floor;
      assert 100.0 * x == x * 100.0;
      assert Kobo(x) == -low;
      assert low as real <= -(100.0 * x) < low as real + 1.0;
      if WholePesewas(x) {
        assert (-(100.0 * x)) == (-(100.0 * x).Floor) as real;
      }
      assert (Kobo(x) as real).Floor == Kobo(x);
    } else {
      assert 100.0 * x == x * 100.0;
    }
  }

  predicate NonNegative(transfers: seq<Transfer>) {
    forall i :: 0 <= i < |transfers| ==> transfers[i].amountGhs >= 0.0
  }

  predicate AllWhole(transfers: seq<Transfer>) {
    forall i :: 0 <= i < |transfers| ==> WholePesewas(transfers[i].amountGhs)
  }

  /** A batch never asks for more than its exact total, falls short by less than one kobo for
      each transfer, and is exact exactly when every amount is in whole kobo. */
  lemma {:induction false} BatchTotal(transfers: seq<Transfer>)
    requires NonNegative(transfers)
    ensures
      var short := 100.0 * TotalGhs(transfers) - TotalKobo(Items(transfers)) as real;
      && 0.0 <= short
      && (transfers != [] ==> short < |transfers| as real)
      && (short == 0.0 <==> AllWhole(transfers))
    decreases |transfers|
  {
    if transfers != [] {
      var n := |transfers| - 1;
      var rest, t := transfers[..n], transfers[n];
      BatchTotal(rest);
      KoboBounds(t.amountGhs);
      assert Items(transfers)[..n] == Items(rest);
      assert transfers == rest + [t];
      WholeSnoc(rest, t);
    }
  }

  lemma WholeSnoc(rest: seq<Transfer>, t: Transfer)
    ensures AllWhole(rest + [t]) <==> AllWhole(rest) && WholePesewas(t.amountGhs)
  {
    var all := rest + [t];
    if AllWhole(all) {
      forall i | 0 <= i < |rest| ensures WholePesewas(rest[i].amountGhs) {
        assert all[i] == rest[i];
      }
      assert all[|rest|] == t;
    }
  }

  // ---- On the way back ----

  /** The list of results inside an answer, wherever it is; empty when there is none. */
  function ResultList(response: Json): seq<Json> {
    match response
    case Array(es) => es
    case Object(fs) =>
      (match Or(Or(GetField(fs, "transfers", Null), GetField(fs, "data", Null)), Array([]))
       case Array(es) => es
       case _ => [])
    case _ => []
  }

  /** One transfer of the batch that was sent; a missing key is Null, or None for the amount. */
  datatype ChunkItem = ChunkItem(agentId: Json, settlementId: Json, amountGhs: Option<real>, reference: Json)

  datatype TransferOutcome = TransferOutcome(agentId: Json, settlementId: Json, amountGhs: Option<real>,
                                             transferCode: Json, status: Json, reference: Json, error: Json)

  /** What one result says about one transfer. */
  function OutcomeFor(item: ChunkItem, result: Json): TransferOutcome {
    match result
    case Object(fs) =>
      TransferOutcome(item.agentId, item.settlementId, item.amountGhs,
                      Or(GetField(fs, "transfer_code", Null), GetField(fs, "id", Null)),
                      GetField(fs, "status", Text("pending")),
                      Or(GetField(fs, "reference", Null), item.reference),
                      Or(GetField(fs, "message", Null), GetField(fs, "reason", Null)))
    case _ =>
      TransferOutcome(item.agentId, item.settlementId, item.amountGhs,
                      Null, Text("pending"), item.reference, Null)
  }

  function ResultAt(results: seq<Json>, i: nat): Json {
    if i < |results| then results[i] else Object(map[])
  }

  /** The reader of the answer: one outcome for each transfer, in order, each from the result
      in the same position. */
  method ParseOutcomes(response: Json, chunk: seq<ChunkItem>) returns (outcomes: seq<TransferOutcome>)
    ensures outcomes == Outcomes(ResultList(response), chunk)
  {
    var items: seq<Json> := [];
    if response.Array? {
      items := response.elements;
    } else if response.Object? {
      var found := GetField(response.fields, "transfers", Null);
      if !Truthy(found) {
        found := GetField(response.fields, "data", Null);
      }
      if !Truthy(found) {
        found := Array([]);
      }
      if found.Array? {
        items := found.elements;
      }
    }
    outcomes := [];
    for index := 0 to |chunk|
      invariant |outcomes| == index
      invariant forall i :: 0 <= i < index ==>
                  outcomes[i] == OutcomeFor(chunk[i], ResultAt(ResultList(response), i))
    {
      var item := if index < |items| then items[index] else Object(map[]);
      var transferCode, status, reference, errorMsg := Null, Text("pending"), chunk[index].reference, Null;
      if item.Object? {
        transferCode := GetField(item.fields, "transfer_code", Null);
        if !Truthy(transferCode) {
          transferCode := GetField(item.fields, "id", Null);
        }
        status := GetField(item.fields, "status", Text("pending"));
        reference := Or(GetField(item.fields, "reference", Null), chunk[index].reference);
        errorMsg := GetField(item.fields, "message", Null);
        if !Truthy(errorMsg) {
          errorMsg := GetField(item.fields, "reason", Null);
        }
      }
      outcomes := outcomes + [TransferOutcome(chunk[index].agentId, chunk[index].settlementId,
                                              chunk[index].amountGhs, transferCode, status, reference, errorMsg)];
    }
  }

  function Outcomes(results: seq<Json>, chunk: seq<ChunkItem>): (outcomes: seq<TransferOutcome>)
    ensures |outcomes| == |chunk|
  {
    seq(|chunk|, i requires 0 <= i < |chunk| => OutcomeFor(chunk[i], ResultAt(results, i)))
  }

  /** Where the results of an answer are: the answer itself if it is a list; in an object what is
      under "transfers" if that counts as true, and otherwise under "data", if it is a list. */
  lemma ResultsFound(response: Json)
    ensures response.Array? ==> ResultList(response) == response.elements
    ensures !response.Array? && !response.Object? ==> ResultList(response) == []
    ensures response.Object? ==>
              var fs := response.fields;
              && (Holds(fs, "transfers") && fs["transfers"].Array? ==> ResultList(response) == fs["transfers"].elements)
              && (Holds(fs, "transfers") && !fs["transfers"].Array? ==> ResultList(response) == [])
              && (!Holds(fs, "transfers") && Holds(fs, "data") && fs["data"].Array? ==>
                    ResultList(response) == fs["data"].elements)
              && (!Holds(fs, "transfers") && !(Holds(fs, "data") && fs["data"].Array?) ==> ResultList(response) == [])
  {
    if response.Object? {
      HoldsIff(response.fields, "transfers");
      HoldsIff(response.fields, "data");
    }
  }

  /** The first of two fields that holds something, or else what the second one is. */
  predicate IsFirstOf(j: Json, fields: map<string, Json>, first: string, second: string) {
    && (Holds(fields, first) ==> j == fields[first])
    && (!Holds(fields, first) ==> j == if second in fields then fields[second] else Null)
  }

  /** What the outcome of one transfer is made of. */
  lemma OutcomeSays(results: seq<Json>, chunk: seq<ChunkItem>, i: nat)
    requires i < |chunk|
    ensures
      var o, t := Outcomes(results, chunk)[i], chunk[i];
      && o.agentId == t.agentId && o.settlementId == t.settlementId && o.amountGhs == t.amountGhs
      && (i < |results| && results[i].Object? ==>
            var fs := results[i].fields;
            && IsFirstOf(o.transferCode, fs, "transfer_code", "id")
            && o.status == (if "status" in fs then fs["status"] else Text("pending"))
            && o.reference == (if Holds(fs, "reference") then fs["reference"] else t.reference)
            && IsFirstOf(o.error, fs, "message", "reason"))
      && (i >= |results| || !results[i].Object? ==>
            o.transferCode == Null && o.status == Text("pending") && o.reference == t.reference && o.error == Null)
  {
    if i < |results| && results[i].Object? {
      HoldsIff(results[i].fields, "transfer_code");
      HoldsIff(results[i].fields, "reference");
      HoldsIff(results[i].fields, "message");
    }
  }

  /** A longer answer leaves the outcomes of the results already there as they were. */
  lemma LongerAnswer(r: seq<Json>, more: seq<Json>, chunk: seq<ChunkItem>, i: nat)
    requires i < |chunk| && i < |r|
    ensures Outcomes(r + more, chunk)[i] == Outcomes(r, chunk)[i]
  {
  }

  function Named(result: Json): Json {
    match result
    case Object(fs) => GetField(fs, "reference", Null)
    case _ => Null
  }

  /** An outcome carries the reference its transfer was sent with exactly when the result in
      its position names that reference or none. A wrong result that names none is not told
      from the right one by this. */
  lemma OwnReferenceIff(results: seq<Json>, chunk: seq<ChunkItem>, i: nat)
    requires i < |chunk|
    ensures
      var named := Named(ResultAt(results, i));
      Outcomes(results, chunk)[i].reference == chunk[i].reference
      <==> !Truthy(named) || named == chunk[i].reference
  {
  }

  // ---- Results in the wrong position ----

  /** What an outcome says about the payout itself. */
  datatype Verdict = Verdict(transferCode: Json, status: Json, error: Json)

  function VerdictOf(o: TransferOutcome): Verdict {
    Verdict(o.transferCode, o.status, o.error)
  }

  /** What a result says, whichever transfer it is matched with. */
  function Says(result: Json): Verdict {
    VerdictOf(OutcomeFor(ChunkItem(Null, Null, None, Null), result))
  }

  /** What is said of a transfer without a result. */
  function Silence(): Verdict {
    Verdict(Null, Text("pending"), Null)
  }

  lemma VerdictAt(results: seq<Json>, chunk: seq<ChunkItem>, i: nat)
    requires i < |chunk|
    ensures VerdictOf(Outcomes(results, chunk)[i]) == if i < |results| then Says(results[i]) else Silence()
  {
  }

  /** Every outcome says what the transfer's own result says. */
  predicate AllRight(results: seq<Json>, own: seq<Json>, chunk: seq<ChunkItem>)
    requires |own| == |chunk|
  {
    forall i :: 0 <= i < |chunk| ==> VerdictOf(Outcomes(results, chunk)[i]) == Says(own[i])
  }

  predicate SilentFrom(own: seq<Json>, d: nat) {
    forall i :: d <= i < |own| ==> Says(own[i]) == Silence()
  }

  function Without(own: seq<Json>, d: nat): (results: seq<Json>)
    requires d < |own|
    ensures |results| == |own| - 1
  {
    own[..d] + own[d + 1..]
  }

  function SaidNext(own: seq<Json>, i: nat): Verdict {
    if i + 1 < |own| then Says(own[i + 1]) else Silence()
  }

  /** In front of a dropped result nothing changes, behind it every outcome is the next one's. */
  lemma OutcomeWithout(own: seq<Json>, chunk: seq<ChunkItem>, d: nat, i: nat)
    requires |own| == |chunk| && d < |own| && i < |own|
    ensures
      VerdictOf(Outcomes(Without(own, d), chunk)[i])
      == if i < d then Says(own[i]) else SaidNext(own, i)
  {
    if i < d {
      LongerAnswer(own[..d], own[d + 1..], chunk, i);
      VerdictAt(own[..d], chunk, i);
    } else {
      VerdictAt(Without(own, d), chunk, i);
      if i + 1 < |own| {
        assert Without(own, d)[i] == own[i + 1];
      }
    }
  }

  lemma {:induction false} SilentBackwards(own: seq<Json>, d: nat)
    requires d < |own|
    requires forall i :: d <= i < |own| ==> Says(own[i]) == SaidNext(own, i)
    ensures SilentFrom(own, d)
    decreases |own| - d
  {
    if d + 1 < |own| {
      SilentBackwards(own, d + 1);
      assert SaidNext(own, d) == Says(own[d + 1]);
    }
  }

  /** When the provider leaves one result out, all outcomes are still right exactly when neither
      that result nor any later one says anything: no code, no error, pending. */
  lemma DroppedIff(own: seq<Json>, chunk: seq<ChunkItem>, d: nat)
    requires |own| == |chunk| && d < |own|
    ensures AllRight(Without(own, d), own, chunk) <==> SilentFrom(own, d)
  {
    forall i: nat | i < |own|
      ensures
        VerdictOf(Outcomes(Without(own, d), chunk)[i])
        == if i < d then Says(own[i]) else SaidNext(own, i)
    {
      OutcomeWithout(own, chunk, d, i);
    }
    if AllRight(Without(own, d), own, chunk) {
      SilentBackwards(own, d);
    }
  }

  /** The results are the transfers' own ones in some order, perhaps with omissions and
      repetitions: position i holds that of transfer order[i]. */
  predicate Reordered(results: seq<Json>, own: seq<Json>, order: seq<nat>) {
    && |results| == |order| <= |own|
    && forall i :: 0 <= i < |order| ==> order[i] < |own| && results[i] == own[order[i]]
  }

  /** All outcomes are right exactly when every position holds a result that says the same as the
      transfer's own one, and the transfers behind the end have none that says anything. */
  lemma ReorderedIff(results: seq<Json>, own: seq<Json>, order: seq<nat>, chunk: seq<ChunkItem>)
    requires |own| == |chunk| && Reordered(results, own, order)
    ensures AllRight(results, own, chunk)
            <==> (forall i :: 0 <= i < |order| ==> Says(own[order[i]]) == Says(own[i])) && SilentFrom(own, |order|)
  {
    forall i: nat | i < |chunk|
      ensures VerdictOf(Outcomes(results, chunk)[i]) == if i < |order| then Says(own[order[i]]) else Silence()
    {
      VerdictAt(results, chunk, i);
    }
  }

  /** Every result names the reference of its transfer, and no two transfers share one. */
  predicate NamesOwn(own: seq<Json>, chunk: seq<ChunkItem>) {
    && |own| == |chunk|
    && (forall i :: 0 <= i < |chunk| ==> Truthy(chunk[i].reference) && Named(own[i]) == chunk[i].reference)
    && (forall i, j :: 0 <= i < j < |chunk| ==> chunk[i].reference != chunk[j].reference)
  }

  /** Then the references tell exactly which positions hold another transfer's result, so when
      they all agree every outcome with a result is right. */
  lemma ReferencesTell(results: seq<Json>, own: seq<Json>, order: seq<nat>, chunk: seq<ChunkItem>)
    requires NamesOwn(own, chunk) && Reordered(results, own, order)
    ensures forall i :: 0 <= i < |order| ==>
              (Outcomes(results, chunk)[i].reference == chunk[i].reference <==> order[i] == i)
    ensures (forall i :: 0 <= i < |order| ==> Outcomes(results, chunk)[i].reference == chunk[i].reference) ==>
              forall i :: 0 <= i < |order| ==> VerdictOf(Outcomes(results, chunk)[i]) == Says(own[i])
  {
    forall i: nat | i < |order|
      ensures Outcomes(results, chunk)[i].reference == chunk[i].reference <==> order[i] == i
      ensures VerdictOf(Outcomes(results, chunk)[i]) == Says(own[order[i]])
    {
      VerdictAt(results, chunk, i);
      OwnReferenceIff(results, chunk, i);
      assert Named(results[i]) == chunk[order[i]].reference;
    }
  }

  /** Two transfers whose results come in the other order and name no reference: both outcomes
      carry the right reference and the other transfer's code and status. */
  lemma SwappedUnseen(chunk: seq<ChunkItem>) returns (own: seq<Json>, results: seq<Json>)
    requires |chunk| == 2
    ensures Reordered(results, own, [1, 0])
    ensures forall i :: 0 <= i < 2 ==> Outcomes(results, chunk)[i].reference == chunk[i].reference
    ensures Outcomes(results, chunk)[0].status == Text("failed") && Says(own[0]).status == Text("success")
    ensures Outcomes(results, chunk)[1].status == Text("success") && Says(own[1]).status == Text("failed")
  {
    own := [Object(map["transfer_code" := Text("A"), "status" := Text("success")]),
            Object(map["transfer_code" := Text("B"), "status" := Text("failed")])];
    results := [own[1], own[0]];
    OwnReferenceIff(results, chunk, 0);
    OwnReferenceIff(results, chunk, 1);
    VerdictAt(results, chunk, 0);
    VerdictAt(results, chunk, 1);
  }

  function TotalSent(chunk: seq<ChunkItem>): real {
    if chunk == [] then 0.0
    else TotalSent(chunk[..|chunk| - 1]) + OrZero(chunk[|chunk| - 1].amountGhs)
  }

  function TotalReported(outcomes: seq<TransferOutcome>): real {
    if outcomes == [] then 0.0
    else TotalReported(outcomes[..|outcomes| - 1]) + OrZero(outcomes[|outcomes| - 1].amountGhs)
  }

  /** Whatever the provider answers, the outcomes report the amounts that were sent, so their
      total is that of the batch. */
  lemma {:induction false} AmountsKept(results: seq<Json>, chunk: seq<ChunkItem>)
    ensures forall i :: 0 <= i < |chunk| ==> Outcomes(results, chunk)[i].amountGhs == chunk[i].amountGhs
    ensures TotalReported(Outcomes(results, chunk)) == TotalSent(chunk)
    decreases |chunk|
  {
    if chunk != [] {
      var n := |chunk| - 1;
      AmountsKept(results, chunk[..n]);
      assert Outcomes(results, chunk)[..n] == Outcomes(results, chunk[..n]);
    }
  }
}

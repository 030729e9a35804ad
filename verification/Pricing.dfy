/**
 What a model call costs (src/wolfpaw/metering/pricing.py:22-52), what is recorded for it
 (src/wolfpaw/metering/model_client.py:142-160), and what the usage report makes of the same calls
 (src/wolfpaw/metering/usage_report.py:143-230). Arithmetic is exact.
 */
module Pricing {
  import opened Prelude

  const MTOK := 1_000_000

  datatype Price = Price(model: int, input: int, output: int, cacheRead: int, cacheWrite: int,
                         effectiveFrom: int, effectiveTo: Option<int>)

  datatype Usage = Usage(input: int, output: int, cacheRead: int, cacheWrite: int)

  // ---- one call ----

  /** The exact cost in millionths of a cent. */
  function Exact(price: Price, usage: Usage): int {
    usage.input * price.input + usage.output * price.output
    + usage.cacheRead * price.cacheRead + usage.cacheWrite * price.cacheWrite
  }

  /** The least whole number of cents not below that many millionths. */
  function Ceil(millionths: int): int {
    -((-millionths) / MTOK)
  }

  /** `compute_cost_cents`: four terms added up, then rounded up. */
  method ComputeCostCents(price: Price, usage: Usage) returns (cents: int)
    ensures cents == Ceil(Exact(price, usage))
    ensures (cents - 1) * MTOK < Exact(price, usage) <= cents * MTOK
  {
    var total := 0.0;
    total := total + (usage.input * price.input) as real / MTOK as real;
    total := total + (usage.output * price.output) as real / MTOK as real;
    total := total + (usage.cacheRead * price.cacheRead) as real / MTOK as real;
    total := total + (usage.cacheWrite * price.cacheWrite) as real / MTOK as real;
    assert total == Exact(price, usage) as real / MTOK as real;
    cents := -((-total).Floor);
  }

  // ---- the price in effect ----

  predicate Active(price: Price, model: int, at: int) {
    price.model == model && price.effectiveFrom <= at && (price.effectiveTo.Some? ==> price.effectiveTo.value > at)
  }

  /** The active row that came into effect last. */
  function ActivePrice(prices: seq<Price>, model: int, at: int): Option<Price> {
    if prices == [] then None
    else
      var last := prices[|prices| - 1];
      var best := ActivePrice(prices[..|prices| - 1], model, at);
      if Active(last, model, at) && (best.None? || best.value.effectiveFrom < last.effectiveFrom) then Some(last) else best
  }

  /** There is a price exactly when some row is active, and then it is an active row that none outdates. */
  lemma {:induction false} ActivePriceExact(prices: seq<Price>, model: int, at: int)
    ensures var best := ActivePrice(prices, model, at);
            && (best.Some? <==> exists p :: p in prices && Active(p, model, at))
            && (best.Some? ==> best.value in prices && Active(best.value, model, at))
            && forall p :: p in prices && Active(p, model, at) ==> best.Some? && p.effectiveFrom <= best.value.effectiveFrom
  {
    if prices != [] {
      var front := prices[..|prices| - 1];
      ActivePriceExact(front, model, at);
      assert prices == front + [prices[|prices| - 1]];
    }
  }

  // ---- recorded calls ----

  datatype Call = Call(model: int, agent: int, usage: Usage, at: int, costCents: int)

  /** A call without a price costs nothing, when it is recorded and in the report. */
  function ExactOf(prices: seq<Price>, c: Call): int {
    match ActivePrice(prices, c.model, c.at)
    case None => 0
    case Some(price) => Exact(price, c.usage)
  }

  /** The call was charged by the price that the table shows for its time. */
  predicate ChargedBy(prices: seq<Price>, c: Call) {
    c.costCents == Ceil(ExactOf(prices, c))
  }

  function Recorded(calls: seq<Call>): int {
    if calls == [] then 0 else Recorded(calls[..|calls| - 1]) + calls[|calls| - 1].costCents
  }

  function ExactSum(prices: seq<Price>, calls: seq<Call>): int {
    if calls == [] then 0 else ExactSum(prices, calls[..|calls| - 1]) + ExactOf(prices, calls[|calls| - 1])
  }

  /** The report's line for one model: rounded up once, after adding. */
  function ModelTotal(prices: seq<Price>, calls: seq<Call>): int {
    Ceil(ExactSum(prices, calls))
  }

  lemma CeilAdds(a: int, b: int)
    ensures Ceil(a + b) <= Ceil(a) + Ceil(b) <= Ceil(a + b) + 1
  {}

  /** A model's line is never above the calls' recorded costs, and below them by less than a cent a call. */
  lemma {:induction false} ReportedAgainstRecorded(prices: seq<Price>, calls: seq<Call>)
    requires calls != [] && forall i :: 0 <= i < |calls| ==> ChargedBy(prices, calls[i])
    ensures ModelTotal(prices, calls) <= Recorded(calls) <= ModelTotal(prices, calls) + |calls| - 1
  {
    var front, last := calls[..|calls| - 1], calls[|calls| - 1];
    assert ChargedBy(prices, last);
    if front == [] {
      assert ExactSum(prices, calls) == ExactOf(prices, last);
    } else {
      ReportedAgainstRecorded(prices, front);
      CeilAdds(ExactSum(prices, front), ExactOf(prices, last));
    }
    hide Ceil, ExactOf;
  }

  /** With one row a model and starting time, the answer does not depend on the order of the rows. */
  lemma {:induction false} ActivePriceOrderFree(prices: seq<Price>, shuffled: seq<Price>, model: int, at: int)
    requires forall p :: p in prices <==> p in shuffled
    requires forall p, q :: p in prices && q in prices && p.model == q.model && p.effectiveFrom == q.effectiveFrom ==> p == q
    ensures ActivePrice(prices, model, at) == ActivePrice(shuffled, model, at)
  {
    ActivePriceExact(prices, model, at);
    ActivePriceExact(shuffled, model, at);
    hide ActivePrice;
  }

  const PENNY: Price := Price(0, 1, 1, 1, 0, 0, None)
  const CHEAP: Call := Call(0, 0, Usage(1, 0, 0, 0), 0, 1)

  function Cheap(n: nat): seq<Call> {
    if n == 0 then [] else Cheap(n - 1) + [CHEAP]
  }

  lemma CheapOne()
    ensures ExactOf([PENNY], CHEAP) == 1 && ChargedBy([PENNY], CHEAP)
  {
    assert [PENNY][..0] == [];
    assert ActivePrice([PENNY], 0, 0) == Some(PENNY);
  }

  lemma {:induction false} CheapSums(n: nat)
    ensures |Cheap(n)| == n && ExactSum([PENNY], Cheap(n)) == n && Recorded(Cheap(n)) == n
    ensures forall i :: 0 <= i < n ==> ChargedBy([PENNY], Cheap(n)[i])
  {
    CheapOne();
    hide ExactOf, ChargedBy;
    if n > 0 {
      CheapSums(n - 1);
      assert Cheap(n)[..n - 1] == Cheap(n - 1);
    }
  }

  /** `n` calls of a millionth of a cent each show that the bound on what rounding adds cannot be improved. */
  lemma {:induction false} RoundingBoundIsTight(n: nat)
    requires 1 <= n <= MTOK
    ensures |Cheap(n)| == n && forall i :: 0 <= i < n ==> ChargedBy([PENNY], Cheap(n)[i])
    ensures Recorded(Cheap(n)) == ModelTotal([PENNY], Cheap(n)) + n - 1
  {
    CheapSums(n);
  }

  // ---- the split of a line ----

  datatype Part = Input | Output | Cache

  function ExactPart(prices: seq<Price>, c: Call, part: Part): int {
    match ActivePrice(prices, c.model, c.at)
    case None => 0
    case Some(price) =>
      match part
      case Input => c.usage.input * price.input
      case Output => c.usage.output * price.output
      case Cache => c.usage.cacheRead * price.cacheRead + c.usage.cacheWrite * price.cacheWrite
  }

  function PartSum(prices: seq<Price>, calls: seq<Call>, part: Part): int {
    if calls == [] then 0 else PartSum(prices, calls[..|calls| - 1], part) + ExactPart(prices, calls[|calls| - 1], part)
  }

  lemma {:induction false} PartsAdd(prices: seq<Price>, calls: seq<Call>)
    ensures ExactSum(prices, calls) == PartSum(prices, calls, Input) + PartSum(prices, calls, Output) + PartSum(prices, calls, Cache)
  {
    if calls != [] { PartsAdd(prices, calls[..|calls| - 1]); }
  }

  /** The input, output and cache columns of a line never add up to less than its total, nor to over two cents more. */
  lemma {:induction false} SplitOvershoots(prices: seq<Price>, calls: seq<Call>)
    ensures var split := Ceil(PartSum(prices, calls, Input)) + Ceil(PartSum(prices, calls, Output)) + Ceil(PartSum(prices, calls, Cache));
            ModelTotal(prices, calls) <= split <= ModelTotal(prices, calls) + 2
  {
    var i, o, c := PartSum(prices, calls, Input), PartSum(prices, calls, Output), PartSum(prices, calls, Cache);
    PartsAdd(prices, calls);
    hide PartSum;
    CeilAdds(i, o);
    CeilAdds(i + o, c);
  }

  // ---- the whole period ----

  function OfModel(calls: seq<Call>, model: int, same: bool): seq<Call> {
    if calls == [] then []
    else
      var front := OfModel(calls[..|calls| - 1], model, same);
      var last := calls[|calls| - 1];
      if (last.model == model) == same then front + [last] else front
  }

  lemma {:induction false} OfModelMembers(calls: seq<Call>, model: int, same: bool)
    ensures forall c :: c in OfModel(calls, model, same) <==> c in calls && (c.model == model) == same
  {
    if calls != [] {
      var front, last := calls[..|calls| - 1], calls[|calls| - 1];
      OfModelMembers(front, model, same);
      assert calls == front + [last];
    }
  }

  /** One more call is one more of its own model, or of the others. */
  lemma {:induction false} OfModelSnoc(front: seq<Call>, last: Call, model: int, same: bool)
    ensures OfModel(front + [last], model, same) ==
            if (last.model == model) == same then OfModel(front, model, same) + [last] else OfModel(front, model, same)
  {
    assert (front + [last])[..|front|] == front;
  }

  /** Every call is one of the model's or one of the others', and so is its recorded cost. */
  predicate Splits(calls: seq<Call>, model: int) {
    var mine, others := OfModel(calls, model, true), OfModel(calls, model, false);
    && multiset(mine) + multiset(others) == multiset(calls)
    && |mine| + |others| == |calls|
    && Recorded(mine) + Recorded(others) == Recorded(calls)
  }

  lemma OfModelSplitsSnoc(front: seq<Call>, last: Call, model: int)
    requires Splits(front, model)
    ensures Splits(front + [last], model)
  {
    hide OfModel, Recorded;
    OfModelSnoc(front, last, model, true);
    OfModelSnoc(front, last, model, false);
    RecordedSnoc(front, last);
    if last.model == model {
      RecordedSnoc(OfModel(front, model, true), last);
    } else {
      RecordedSnoc(OfModel(front, model, false), last);
    }
  }

  lemma {:induction false} OfModelSplits(calls: seq<Call>, model: int)
    ensures Splits(calls, model)
  {
    if calls != [] {
      var front, last := calls[..|calls| - 1], calls[|calls| - 1];
      OfModelSplits(front, model);
      OfModelSplitsSnoc(front, last, model);
      hide Splits;
      assert calls == front + [last];
    }
  }

  lemma {:induction false} RecordedSnoc(calls: seq<Call>, c: Call)
    ensures Recorded(calls + [c]) == Recorded(calls) + c.costCents
  {
    assert (calls + [c])[..|calls|] == calls;
  }

  /** What one model's calls and the others' make of all calls. */
  lemma {:induction false} OfModelExact(calls: seq<Call>, model: int)
    ensures forall same :: forall c :: c in OfModel(calls, model, same) <==> c in calls && (c.model == model) == same
    ensures multiset(OfModel(calls, model, true)) + multiset(OfModel(calls, model, false)) == multiset(calls)
    ensures |OfModel(calls, model, true)| + |OfModel(calls, model, false)| == |calls|
    ensures Recorded(OfModel(calls, model, true)) + Recorded(OfModel(calls, model, false)) == Recorded(calls)
  {
    OfModelMembers(calls, model, true);
    OfModelMembers(calls, model, false);
    OfModelSplits(calls, model);
    hide OfModel, Recorded;
  }

  /** GROUP BY model: the calls of each model that has any. */
  function Groups(calls: seq<Call>): (groups: seq<seq<Call>>)
    decreases |calls|
  {
    if calls == [] then []
    else
      OfModelExact(calls, calls[0].model);
      assert calls[0] in OfModel(calls, calls[0].model, true);
      [OfModel(calls, calls[0].model, true)] + Groups(OfModel(calls, calls[0].model, false))
  }

  /** The report's total for a period: the sum of its lines. */
  function ReportTotal(prices: seq<Price>, groups: seq<seq<Call>>): int {
    if groups == [] then 0 else ModelTotal(prices, groups[0]) + ReportTotal(prices, groups[1..])
  }

  function Members(groups: seq<seq<Call>>): multiset<Call> {
    if groups == [] then multiset{} else multiset(groups[0]) + Members(groups[1..])
  }

  predicate OneModel(group: seq<Call>) {
    group != [] && forall c :: c in group ==> c.model == group[0].model
  }

  lemma {:induction false} GroupsInside(calls: seq<Call>)
    ensures Members(Groups(calls)) == multiset(calls)
    ensures forall i :: 0 <= i < |Groups(calls)| ==>
              OneModel(Groups(calls)[i]) && exists c :: c in calls && c.model == Groups(calls)[i][0].model
    decreases |calls|
  {
    if calls != [] {
      var model := calls[0].model;
      OfModelExact(calls, model);
      var mine, others := OfModel(calls, model, true), OfModel(calls, model, false);
      assert calls[0] in mine;
      GroupsInside(others);
      hide OfModel;
      assert Groups(calls) == [mine] + Groups(others);
      assert Groups(calls)[1..] == Groups(others);
    }
  }

  predicate ModelsDiffer(groups: seq<seq<Call>>) {
    forall i, j :: 0 <= i < j < |groups| ==>
      groups[i] != [] && groups[j] != [] && groups[i][0].model != groups[j][0].model
  }

  lemma ModelsDifferCons(group: seq<Call>, others: seq<seq<Call>>)
    requires group != [] && ModelsDiffer(others)
    requires forall j :: 0 <= j < |others| ==> others[j] != [] && others[j][0].model != group[0].model
    ensures ModelsDiffer([group] + others)
  {}

  /** Each line is one model's calls, no two lines are of the same model, and no call is left out or counted twice. */
  lemma {:induction false} GroupsExact(calls: seq<Call>)
    ensures Members(Groups(calls)) == multiset(calls)
    ensures forall i :: 0 <= i < |Groups(calls)| ==> OneModel(Groups(calls)[i])
    ensures ModelsDiffer(Groups(calls))
    decreases |calls|
  {
    GroupsInside(calls);
    if calls != [] {
      var model := calls[0].model;
      OfModelExact(calls, model);
      var mine, others := OfModel(calls, model, true), OfModel(calls, model, false);
      assert calls[0] in mine;
      GroupsExact(others);
      GroupsInside(others);
      assert Groups(calls) == [mine] + Groups(others);
      hide *;
      ModelsDifferCons(mine, Groups(others));
    }
  }

  /**
   The report against the books: for a period of calls charged by the price table, the model lines add up to
   at most what the agents' lines add up to, and to less by no more than the calls in excess of the models.
   */
  lemma {:induction false} ReportAgainstBooks(prices: seq<Price>, calls: seq<Call>)
    requires forall c :: c in calls ==> ChargedBy(prices, c)
    ensures ReportTotal(prices, Groups(calls)) <= Recorded(calls)
            <= ReportTotal(prices, Groups(calls)) + |calls| - |Groups(calls)|
    decreases |calls|
  {
    if calls != [] {
      var model := calls[0].model;
      OfModelExact(calls, model);
      var mine, others := OfModel(calls, model, true), OfModel(calls, model, false);
      assert calls[0] in mine;
      ReportedAgainstRecorded(prices, mine);
      ReportAgainstBooks(prices, others);
      assert Groups(calls) == [mine] + Groups(others);
      assert Groups(calls)[1..] == Groups(others);
      hide ChargedBy, ModelTotal, Recorded, OfModel;
    }
  }
}

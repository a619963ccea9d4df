/** What a request costs: token counts times card rates, rounded to nanos. */
module Quota {
  import opened Basics

  const MAX_TOKENS: nat := 9_007_199_254_740_991
  const U128_MAX: nat := 0xFFFF_FFFF_FFFF_FFFF_FFFF_FFFF_FFFF_FFFF
  const MILLION: nat := 1_000_000
  const MAX_RATE: nat := 9_000_000_000_000_000

  // ----- usage

  function ValidCount(n: Option<nat>): Option<nat> {
    if n.Some? && n.value <= MAX_TOKENS then n else None
  }

  datatype Usage = Usage(input: Option<nat>, output: Option<nat>, cacheRead: Option<nat>, cacheCreation: Option<nat>) {
    predicate Valid() {
      && ValidCount(input) == input && ValidCount(output) == output
      && ValidCount(cacheRead) == cacheRead && ValidCount(cacheCreation) == cacheCreation
    }

    /** The cached count; none when it was not reported. */
    function Cached(): nat {
      if cacheRead.Some? then cacheRead.value else 0
    }

    function Merged(update: Usage): Usage {
      Usage(Newer(input, update.input), Newer(output, update.output),
            Newer(cacheRead, update.cacheRead), Newer(cacheCreation, update.cacheCreation))
    }
  }

  function Newer<T>(earlier: Option<T>, later: Option<T>): Option<T> {
    if later.Some? then later else earlier
  }

  /** A running total of usage reports. */
  class UsageTotal {
    var usage: Usage

    constructor ()
      ensures usage == Usage(None, None, None, None)
    {
      usage := Usage(None, None, None, None);
    }

    method Merge(update: Usage)
      modifies this
      ensures usage == old(usage).Merged(update)
    {
      var u := usage;
      if update.input.Some? {
        u := u.(input := update.input);
      }
      if update.output.Some? {
        u := u.(output := update.output);
      }
      if update.cacheRead.Some? {
        u := u.(cacheRead := update.cacheRead);
      }
      if update.cacheCreation.Some? {
        u := u.(cacheCreation := update.cacheCreation);
      }
      usage := u;
    }
  }

  function MergeAll(reports: seq<Usage>): Usage {
    if reports == [] then Usage(None, None, None, None)
    else MergeAll(reports[..|reports| - 1]).Merged(reports[|reports| - 1])
  }

  /** The last report that knows the field, if any. */
  function LastKnown<T>(fields: seq<Option<T>>): Option<T> {
    if fields == [] then None
    else if fields[|fields| - 1].Some? then fields[|fields| - 1]
    else LastKnown(fields[..|fields| - 1])
  }

  /** Merging reports keeps, field by field, the last value that was present. */
  lemma {:induction false} MergeKeepsLast(reports: seq<Usage>)
    ensures var m := MergeAll(reports);
            && m.input == LastKnown(seq(|reports|, i requires 0 <= i < |reports| => reports[i].input))
            && m.output == LastKnown(seq(|reports|, i requires 0 <= i < |reports| => reports[i].output))
            && m.cacheRead == LastKnown(seq(|reports|, i requires 0 <= i < |reports| => reports[i].cacheRead))
            && m.cacheCreation == LastKnown(seq(|reports|, i requires 0 <= i < |reports| => reports[i].cacheCreation))
  {
    if reports != [] {
      var n := |reports| - 1;
      var init := reports[..n];
      MergeKeepsLast(init);
      assert seq(|reports|, i requires 0 <= i < |reports| => reports[i].input)[..n] == seq(n, i requires 0 <= i < n => init[i].input);
      assert seq(|reports|, i requires 0 <= i < |reports| => reports[i].output)[..n] == seq(n, i requires 0 <= i < n => init[i].output);
      assert seq(|reports|, i requires 0 <= i < |reports| => reports[i].cacheRead)[..n] == seq(n, i requires 0 <= i < n => init[i].cacheRead);
      assert seq(|reports|, i requires 0 <= i < |reports| => reports[i].cacheCreation)[..n] == seq(n, i requires 0 <= i < n => init[i].cacheCreation);
    }
  }

  // ----- rates and cost

  datatype Rate = Rate(input: nat, cached: nat, output: nat) {
    predicate U64() {
      input <= U64_MAX && cached <= U64_MAX && output <= U64_MAX
    }

    /** `validate_tier`. */
    predicate Validated() {
      0 < input <= MAX_RATE && 0 < output <= MAX_RATE && cached <= input
    }
  }

  function CheckedMul(a: nat, b: nat): Option<nat> {
    if a * b <= U128_MAX then Some(a * b) else None
  }

  function CheckedAdd(a: Option<nat>, b: Option<nat>): Option<nat> {
    if a.Some? && b.Some? && a.value + b.value <= U128_MAX then Some(a.value + b.value) else None
  }

  /** The nanos of a request, or none: the checked u128 arithmetic as written. */
  function Estimate(rate: Rate, usage: Usage): Option<nat> {
    if usage.input.None? || usage.output.None? then None
    else
      var input, output := usage.input.value, usage.output.value;
      var cached := Min(usage.Cached(), input);
      var uncached := input - cached;
      var numerator := CheckedAdd(CheckedAdd(CheckedMul(uncached, rate.input), CheckedMul(cached, rate.cached)), CheckedMul(output, rate.output));
      var shifted := CheckedAdd(numerator, Some(500_000));
      if shifted.None? then None
      else
        var rounded := shifted.value / MILLION;
        if rounded > U64_MAX || rounded > I64_MAX then None else Some(rounded)
  }

  /** The exact cost in millionths of a nano. */
  function Exact(rate: Rate, input: nat, cached: nat, output: nat): nat {
    var c := Min(cached, input);
    (input - c) * rate.input + c * rate.cached + output * rate.output
  }

  function Rounded(n: nat): nat {
    (n + 500_000) / MILLION
  }

  lemma Product(a: nat, b: nat, x: nat, y: nat)
    requires a <= x && b <= y
    ensures a * b <= x * y
  {
    assert a * b <= x * b <= x * y;
  }

  lemma ExactIsSmall(rate: Rate, input: nat, cached: nat, output: nat)
    requires rate.U64() && input <= MAX_TOKENS && output <= MAX_TOKENS
    ensures Exact(rate, input, cached, output) <= 2 * (MAX_TOKENS * U64_MAX)
    ensures Exact(rate, input, cached, output) + 500_000 <= U128_MAX
    ensures (input - Min(cached, input)) * rate.input + Min(cached, input) * rate.cached <= MAX_TOKENS * U64_MAX
    ensures output * rate.output <= MAX_TOKENS * U64_MAX
  {
    var c := Min(cached, input);
    Product(input - c, rate.input, input - c, U64_MAX);
    Product(c, rate.cached, c, U64_MAX);
    Product(output, rate.output, MAX_TOKENS, U64_MAX);
    assert (input - c) * U64_MAX + c * U64_MAX == input * U64_MAX;
    Product(input, U64_MAX, MAX_TOKENS, U64_MAX);
  }

  /** The arithmetic never overflows, so the estimate is the exact cost rounded
      to the nearest nano, absent only for unknown counts or beyond `i64`. */
  lemma EstimateIsExact(rate: Rate, usage: Usage)
    requires rate.U64() && usage.Valid()
    ensures usage.input.None? || usage.output.None? ==> Estimate(rate, usage).None?
    ensures usage.input.Some? && usage.output.Some? ==>
              var exact := Exact(rate, usage.input.value, usage.Cached(), usage.output.value);
              && (Estimate(rate, usage).None? <==> Rounded(exact) > I64_MAX)
              && (Estimate(rate, usage).Some? ==>
                    var amount := Estimate(rate, usage).value;
                    -500_000 <= amount * MILLION - exact <= 500_000 && amount == Rounded(exact))
  {
    if usage.input.Some? && usage.output.Some? {
      var input, output := usage.input.value, usage.output.value;
      var cached := usage.Cached();
      ExactIsSmall(rate, input, cached, output);
      var exact := Exact(rate, input, cached, output);
      assert exact == (input - Min(cached, input)) * rate.input + Min(cached, input) * rate.cached + output * rate.output;
    }
  }

  lemma RoundedMonotone(a: nat, b: nat)
    requires a <= b
    ensures Rounded(a) <= Rounded(b)
  {
  }

  /** More input or more output never costs less. */
  lemma CostRises(rate: Rate, input: nat, output: nat, cached: nat, input': nat, output': nat)
    requires input <= input' && output <= output'
    ensures Exact(rate, input, cached, output) <= Exact(rate, input', cached, output')
    ensures Rounded(Exact(rate, input, cached, output)) <= Rounded(Exact(rate, input', cached, output'))
  {
    var c, c' := Min(cached, input), Min(cached, input');
    Product(output, rate.output, output', rate.output);
    Product(input - c, rate.input, input' - c', rate.input);
    Product(c, rate.cached, c', rate.cached);
    RoundedMonotone(Exact(rate, input, cached, output), Exact(rate, input', cached, output'));
  }

  /** So does the estimate: a request that is priced stays priced, and not
      dearer, when it uses less. */
  lemma EstimateRises(rate: Rate, less: Usage, more: Usage)
    requires rate.U64() && less.Valid() && more.Valid() && less.Cached() == more.Cached()
    requires less.input.Some? && less.output.Some? && more.input.Some? && more.output.Some?
    requires less.input.value <= more.input.value && less.output.value <= more.output.value
    ensures Estimate(rate, more).Some? ==> Estimate(rate, less).Some? && Estimate(rate, less).value <= Estimate(rate, more).value
  {
    hide Estimate, Exact, Rounded;
    EstimateIsExact(rate, less);
    EstimateIsExact(rate, more);
    CostRises(rate, less.input.value, less.output.value, less.Cached(), more.input.value, more.output.value);
  }

  lemma CacheSaves(rate: Rate, input: nat, output: nat, cached: nat, cached': nat)
    requires rate.cached <= rate.input && cached <= cached'
    ensures Exact(rate, input, cached', output) <= Exact(rate, input, cached, output)
    ensures Rounded(Exact(rate, input, cached', output)) <= Rounded(Exact(rate, input, cached, output))
  {
    var c, c' := Min(cached, input), Min(cached', input);
    var d := c' - c;
    assert (input - c) * rate.input == (input - c') * rate.input + d * rate.input;
    assert c' * rate.cached == c * rate.cached + d * rate.cached;
    Product(d, rate.cached, d, rate.input);
    RoundedMonotone(Exact(rate, input, cached', output), Exact(rate, input, cached, output));
  }

  ghost predicate CacheNeverCosts(rate: Rate) {
    forall input: nat, output: nat, cached: nat, cached': nat | cached <= cached' ::
      Rounded(Exact(rate, input, cached', output)) <= Rounded(Exact(rate, input, cached, output))
  }

  /** More cached tokens never cost more if and only if the cached rate is not
      above the input rate, which every validated tier satisfies. */
  lemma CacheNeverCostsIff(rate: Rate)
    ensures CacheNeverCosts(rate) <==> rate.cached <= rate.input
    ensures rate.Validated() ==> CacheNeverCosts(rate) && rate.U64()
  {
    if rate.cached <= rate.input {
      forall input: nat, output: nat, cached: nat, cached': nat | cached <= cached'
        ensures Rounded(Exact(rate, input, cached', output)) <= Rounded(Exact(rate, input, cached, output))
      {
        CacheSaves(rate, input, output, cached, cached');
      }
    } else {
      // a million tokens, all cached, against none cached
      assert Exact(rate, MILLION, MILLION, 0) == MILLION * rate.cached;
      assert Exact(rate, MILLION, 0, 0) == MILLION * rate.input;
      assert Rounded(MILLION * rate.cached) == rate.cached && Rounded(MILLION * rate.input) == rate.input;
    }
  }

  // ----- rate cards

  datatype Tier = Standard | Fast

  datatype ModelRates = ModelRates(standard: Rate, fast: Option<Rate>)

  datatype Card = Card(id: Text, creditsPerUsd: nat, models: map<Text, ModelRates>) {
    /** The parts of `validate` that bear on costs. */
    predicate Validated() {
      && 0 < creditsPerUsd <= 1_000_000
      && forall m | m in models :: models[m].standard.Validated() && (models[m].fast.Some? ==> models[m].fast.value.Validated())
    }

    function RateOf(model: Text, tier: Tier): Option<Rate> {
      if model !in models then None
      else match tier case Standard => Some(models[model].standard) case Fast => models[model].fast
    }

    /** `cost_rates(model)?.estimate(usage, tier)`. */
    function Cost(model: Text, usage: Usage, tier: Option<Tier>): Option<nat> {
      match RateOf(model, if tier == Some(Fast) then Fast else Standard)
      case None => None
      case Some(rate) => Estimate(rate, usage)
    }
  }

  /** On a validated card a request at a listed tier is always priced up to the
      `i64` cap, and reporting more of it as cached never raises its price nor
      takes it away. A missing cached count is none. */
  lemma CardPrices(card: Card, model: Text, usage: Usage, tier: Option<Tier>, more: nat)
    requires card.Validated() && usage.Valid() && usage.Cached() <= more <= MAX_TOKENS
    ensures var rate := card.RateOf(model, if tier == Some(Fast) then Fast else Standard);
            var base, cheap := card.Cost(model, usage, tier), card.Cost(model, usage.(cacheRead := Some(more)), tier);
            && (base.Some? ==> cheap.Some? && cheap.value <= base.value)
            && (rate.Some? && usage.input.Some? && usage.output.Some? ==>
                  (base.None? <==> Rounded(Exact(rate.value, usage.input.value, usage.Cached(), usage.output.value)) > I64_MAX))
            && (rate.None? ==> base.None?)
  {
    var rate := card.RateOf(model, if tier == Some(Fast) then Fast else Standard);
    if rate.Some? {
      assert rate.value.Validated();
      EstimateIsExact(rate.value, usage);
      EstimateIsExact(rate.value, usage.(cacheRead := Some(more)));
      if usage.input.Some? && usage.output.Some? {
        CacheSaves(rate.value, usage.input.value, usage.output.value, usage.Cached(), more);
      }
    }
  }
}

/** Weighted variants: what validation accepts, and how the 10000 buckets are shared out. */
module Variants {
  import opened Bytes
  import opened Int64
  import opened Options
  import opened Domain
  import opened Murmur

  // ---------------------------------------------------------------------------
  // Validation
  // ---------------------------------------------------------------------------

  datatype ValidationError = FlagIDRequired | EnvIDRequired | PercentageOutOfRange
                           | VariantKeyRequired | VariantWeightNegative | WeightsMustSumTo10000

  function VariantError(v: Variant): Option<ValidationError> {
    if v.key == [] then Some(VariantKeyRequired)
    else if v.weight < 0 then Some(VariantWeightNegative)
    else None
  }

  /** The true sum of the first n weights. */
  function Cumulative(variants: seq<Variant>, n: nat): int
    requires n <= |variants|
  {
    if n == 0 then 0 else Cumulative(variants, n - 1) + variants[n - 1].weight
  }

  function Sum(variants: seq<Variant>): int {
    Cumulative(variants, |variants|)
  }

  /** What FlagState.Validate asks of a state. */
  predicate Accepted(fs: FlagState) {
    && fs.flagID != [] && fs.envID != []
    && 0 <= fs.percentageRollout <= 10000
    && (forall v | v in fs.variants :: v.key != [] && v.weight >= 0)
    && (fs.variants != [] ==> Wrap(Sum(fs.variants)) == 10000)
  }

  /** Nothing is wrong before the variants. */
  predicate HeaderFine(fs: FlagState) {
    fs.flagID != [] && fs.envID != [] && 0 <= fs.percentageRollout <= 10000
  }

  /** Variant i lacks a key or has a negative weight, and none before it does. */
  predicate FirstBad(variants: seq<Variant>, i: nat) {
    && i < |variants| && (variants[i].key == [] || variants[i].weight < 0)
    && forall j | 0 <= j < i :: variants[j].key != [] && variants[j].weight >= 0
  }

  method ValidateState(fs: FlagState) returns (err: Option<ValidationError>)
    ensures err == None <==> Accepted(fs)
    ensures err == Some(FlagIDRequired) <==> fs.flagID == []
    ensures err == Some(EnvIDRequired) <==> fs.flagID != [] && fs.envID == []
    ensures err == Some(PercentageOutOfRange) <==>
              fs.flagID != [] && fs.envID != [] && (fs.percentageRollout < 0 || fs.percentageRollout > 10000)
    ensures err == Some(VariantKeyRequired) <==> HeaderFine(fs) && exists i: nat ::
              FirstBad(fs.variants, i) && fs.variants[i].key == []
    ensures err == Some(VariantWeightNegative) <==> HeaderFine(fs) && exists i: nat ::
              FirstBad(fs.variants, i) && fs.variants[i].key != [] && fs.variants[i].weight < 0
    ensures err == Some(WeightsMustSumTo10000) <==>
              && HeaderFine(fs) && fs.variants != [] && (forall v | v in fs.variants :: v.key != [] && v.weight >= 0)
              && Wrap(Sum(fs.variants)) != 10000
  {
    if fs.flagID == [] {
      return Some(FlagIDRequired);
    }
    if fs.envID == [] {
      return Some(EnvIDRequired);
    }
    if fs.percentageRollout < 0 || fs.percentageRollout > 10000 {
      return Some(PercentageOutOfRange);
    }
    var totalWeight: int64 := 0;
    for i := 0 to |fs.variants|
      invariant totalWeight == Wrap(Cumulative(fs.variants, i))
      invariant forall j | 0 <= j < i :: VariantError(fs.variants[j]) == None
    {
      var e := VariantError(fs.variants[i]);
      if e != None {
        assert !Accepted(fs) && FirstBad(fs.variants, i);
        assert forall k: nat | FirstBad(fs.variants, k) :: k == i;
        return e;
      }
      WrapTwice(Cumulative(fs.variants, i), fs.variants[i].weight);
      totalWeight := Wrap(totalWeight + fs.variants[i].weight);
    }
    if |fs.variants| > 0 && totalWeight != 10000 {
      return Some(WeightsMustSumTo10000);
    }
    return None;
  }

  // ---------------------------------------------------------------------------
  // Assignment
  // ---------------------------------------------------------------------------

  /** The first variant, from position i on, whose running total exceeds the bucket; else the last. */
  function AssignFrom(variants: seq<Variant>, bucket: nat, i: nat): (r: nat)
    requires i <= |variants| && variants != []
    ensures r < |variants|
    decreases |variants| - i
  {
    if i == |variants| then |variants| - 1
    else if bucket < Wrap(Cumulative(variants, i + 1)) then i
    else AssignFrom(variants, bucket, i + 1)
  }

  function Assigned(variants: seq<Variant>, bucket: nat): (r: nat)
    requires variants != []
    ensures r < |variants|
  {
    AssignFrom(variants, bucket, 0)
  }

  /** The running total of the first n weights, as 64-bit sums give it. */
  function RunningTotal(variants: seq<Variant>, n: nat): int64
    requires n <= |variants|
  {
    Wrap(Cumulative(variants, n))
  }

  /** Variant k is the first whose running total exceeds the bucket, or the last if none does. */
  predicate FirstAbove(variants: seq<Variant>, bucket: nat, k: nat) {
    && k < |variants|
    && (forall n | 1 <= n <= k :: RunningTotal(variants, n) <= bucket)
    && (bucket < RunningTotal(variants, k + 1) || k == |variants| - 1)
  }

  lemma AssignedIsFirstAbove(variants: seq<Variant>, bucket: nat, k: nat)
    requires variants != []
    ensures Assigned(variants, bucket) == k <==> FirstAbove(variants, bucket, k)
  {
    FromIsFirstAbove(variants, bucket, 0);
    var r := Assigned(variants, bucket);
    if FirstAbove(variants, bucket, k) {
      assert !(r < k) && !(k < r);
    }
  }

  lemma {:induction false} FromIsFirstAbove(variants: seq<Variant>, bucket: nat, i: nat)
    requires variants != [] && i <= |variants|
    requires forall n | 1 <= n <= i :: RunningTotal(variants, n) <= bucket
    ensures FirstAbove(variants, bucket, AssignFrom(variants, bucket, i))
    decreases |variants| - i
  {
    if i < |variants| && RunningTotal(variants, i + 1) <= bucket {
      FromIsFirstAbove(variants, bucket, i + 1);
    }
  }

  function VariantResult(rt: Runtime, flagKey: Key, v: Variant): EvalResult {
    EvalResult(flagKey, ParseJSONValue(rt, v.value), ReasonVariant, v.key)
  }

  method EvaluateVariant(rt: Runtime, flagKey: Key, ctx: EvalContext, variants: seq<Variant>)
    returns (r: EvalResult)
    requires variants != []
    ensures r == VariantResult(rt, flagKey, variants[Assigned(variants, Bucket(flagKey, ctx.key))])
    ensures exists k: nat :: FirstAbove(variants, Bucket(flagKey, ctx.key), k)
              && r == EvalResult(flagKey, ParseJSONValue(rt, variants[k].value), ReasonVariant, variants[k].key)
  {
    hide Bucket, FirstAbove;
    AssignedIsFirstAbove(variants, Bucket(flagKey, ctx.key), Assigned(variants, Bucket(flagKey, ctx.key)));
    var bucket := BucketUser(flagKey, ctx.key);
    var cumulative: int64 := 0;
    for i := 0 to |variants|
      invariant cumulative == Wrap(Cumulative(variants, i))
      invariant Assigned(variants, bucket) == AssignFrom(variants, bucket, i)
    {
      var v := variants[i];
      WrapTwice(Cumulative(variants, i), v.weight);
      cumulative := Wrap(cumulative + v.weight);
      if bucket < cumulative {
        return VariantResult(rt, flagKey, v);
      }
    }
    var last := variants[|variants| - 1];
    return VariantResult(rt, flagKey, last);
  }

  // ---------------------------------------------------------------------------
  // Shares
  // ---------------------------------------------------------------------------

  predicate Valid(variants: seq<Variant>) {
    && variants != []
    && (forall v | v in variants :: v.weight >= 0)
    && Wrap(Sum(variants)) == 10000
  }

  /** How many of the first n buckets variant i receives. */
  function Share(variants: seq<Variant>, i: nat, n: nat): nat
    requires i < |variants|
  {
    if n == 0 then 0
    else Share(variants, i, n - 1) + (if Assigned(variants, n - 1) == i then 1 else 0)
  }

  lemma {:induction false} CumulativeGrows(variants: seq<Variant>, m: nat, n: nat)
    requires m <= n <= |variants| && forall v | v in variants :: v.weight >= 0
    ensures 0 <= Cumulative(variants, m) <= Cumulative(variants, n)
    decreases n
  {
    if m < n {
      CumulativeGrows(variants, m, n - 1);
    } else if n > 0 {
      CumulativeGrows(variants, m - 1, n - 1);
    }
  }

  lemma {:induction false} AssignedInterval(variants: seq<Variant>, bucket: nat, i: nat, k: nat)
    requires Valid(variants) && Sum(variants) == 10000 && bucket < 10000
    requires i <= k < |variants| && Cumulative(variants, i) <= bucket
    ensures AssignFrom(variants, bucket, i) == k
       <==> Cumulative(variants, k) <= bucket < Cumulative(variants, k + 1)
    decreases |variants| - i
  {
    CumulativeGrows(variants, i + 1, |variants|);
    CumulativeGrows(variants, i + 1, k + 1);
    if i < k {
      CumulativeGrows(variants, i + 1, k);
    }
    if bucket >= Cumulative(variants, i + 1) && i < k {
      AssignedInterval(variants, bucket, i + 1, k);
    } else if bucket >= Cumulative(variants, i + 1) {
      AssignedLater(variants, bucket, i + 1);
    }
  }

  lemma {:induction false} AssignedLater(variants: seq<Variant>, bucket: nat, i: nat)
    requires Valid(variants) && Sum(variants) == 10000 && bucket < 10000
    requires i <= |variants| && Cumulative(variants, i) <= bucket
    ensures i <= AssignFrom(variants, bucket, i)
    decreases |variants| - i
  {
    if i < |variants| && bucket >= Wrap(Cumulative(variants, i + 1)) {
      CumulativeGrows(variants, i + 1, |variants|);
      AssignedLater(variants, bucket, i + 1);
    }
  }

  /**
   When the weights really sum to 10000, each bucket goes to the variant whose stretch of the running
   totals holds it; so the fallback to the last variant is never used.
   */
  lemma BucketsArePartitioned(variants: seq<Variant>, bucket: nat, k: nat)
    requires Valid(variants) && Sum(variants) == 10000 && bucket < 10000 && k < |variants|
    ensures Assigned(variants, bucket) == k
       <==> Cumulative(variants, k) <= bucket < Cumulative(variants, k + 1)
  {
    AssignedInterval(variants, bucket, 0, k);
  }

  lemma {:induction false} ShareOfInterval(variants: seq<Variant>, i: nat, n: nat)
    requires Valid(variants) && Sum(variants) == 10000 && i < |variants| && n <= 10000
    ensures var lo, hi := Cumulative(variants, i), Cumulative(variants, i + 1);
            Share(variants, i, n) == if n <= lo then 0 else if n <= hi then n - lo else hi - lo
  {
    CumulativeGrows(variants, i, i + 1);
    if n > 0 {
      ShareOfInterval(variants, i, n - 1);
      BucketsArePartitioned(variants, n - 1, i);
    }
  }

  /** The buckets given to the first k variants together. */
  function Shares(variants: seq<Variant>, k: nat, n: nat): nat
    requires k <= |variants|
  {
    if k == 0 then 0 else Shares(variants, k - 1, n) + Share(variants, k - 1, n)
  }

  lemma {:induction false} SharesStep(variants: seq<Variant>, k: nat, n: nat)
    requires variants != [] && k <= |variants| && n > 0
    ensures Shares(variants, k, n)
         == Shares(variants, k, n - 1) + if Assigned(variants, n - 1) < k then 1 else 0
  {
    if k > 0 {
      SharesStep(variants, k - 1, n);
    }
  }

  lemma {:induction false} SharesAddUp(variants: seq<Variant>, n: nat)
    requires variants != []
    ensures Shares(variants, |variants|, n) == n
  {
    if n == 0 {
      NoShares(variants, |variants|);
    } else {
      SharesAddUp(variants, n - 1);
      SharesStep(variants, |variants|, n);
    }
  }

  lemma {:induction false} NoShares(variants: seq<Variant>, k: nat)
    requires k <= |variants|
    ensures Shares(variants, k, 0) == 0
  {
    if k > 0 {
      NoShares(variants, k - 1);
    }
  }

  lemma {:induction false} SharesAreWeights(variants: seq<Variant>, k: nat)
    requires k <= |variants| && forall i | 0 <= i < |variants| :: Share(variants, i, 10000) == variants[i].weight
    ensures Shares(variants, k, 10000) == Cumulative(variants, k)
  {
    if k > 0 {
      SharesAreWeights(variants, k - 1);
    }
  }

  /**
   For an accepted list, every variant receives exactly its weight of the 10000 buckets if and only if
   the weights sum to 10000 without wrapping around.
   */
  lemma AllocationIsExact(fs: FlagState)
    requires Accepted(fs) && fs.variants != []
    ensures (forall i | 0 <= i < |fs.variants| :: Share(fs.variants, i, 10000) == fs.variants[i].weight)
       <==> Sum(fs.variants) == 10000
  {
    var variants := fs.variants;
    if Sum(variants) == 10000 {
      forall i | 0 <= i < |variants|
        ensures Share(variants, i, 10000) == variants[i].weight
      {
        CumulativeGrows(variants, i + 1, |variants|);
        CumulativeGrows(variants, i, i + 1);
        ShareOfInterval(variants, i, 10000);
      }
    }
    if forall i | 0 <= i < |variants| :: Share(variants, i, 10000) == variants[i].weight {
      SharesAreWeights(variants, |variants|);
      SharesAddUp(variants, 10000);
    }
  }

  /** Then a variant reaches some user exactly when its weight is positive. */
  lemma VariantIsServed(flagKey: Key, variants: seq<Variant>, k: nat)
    requires Valid(variants) && Sum(variants) == 10000 && k < |variants|
    ensures (exists user :: Assigned(variants, Bucket(flagKey, user)) == k) <==> variants[k].weight > 0
  {
    hide Bucket, Assigned;
    if variants[k].weight > 0 {
      CumulativeGrows(variants, 0, k);
      CumulativeGrows(variants, k + 1, |variants|);
      var bucket := Cumulative(variants, k);
      EveryBucketIsReached(flagKey, bucket);
      var user :| Bucket(flagKey, user) == bucket;
      BucketsArePartitioned(variants, bucket, k);
      assert Assigned(variants, Bucket(flagKey, user)) == k;
    }
    forall user | Assigned(variants, Bucket(flagKey, user)) == k
      ensures variants[k].weight > 0
    {
      BucketsArePartitioned(variants, Bucket(flagKey, user), k);
    }
  }

  /** Validation itself accepts a list whose true sum is 2^64 + 10000; its first variant takes everyone. */
  lemma WrappedWeightsAreAccepted(id: ByteString, json: RawMessage)
    requires id != []
    ensures var variants := [Variant(id, json, MAX), Variant(id, json, MAX), Variant(id, json, 10002)];
            && Accepted(FlagState(id, id, true, json, [], 0, variants))
            && Sum(variants) == 0x1_0000_0000_0000_0000 + 10000
            && forall bucket | 0 <= bucket < 10000 :: Assigned(variants, bucket) == 0
  {
    var variants := [Variant(id, json, MAX), Variant(id, json, MAX), Variant(id, json, 10002)];
    assert Cumulative(variants, 1) == MAX;
    assert Cumulative(variants, 2) == 2 * MAX;
    assert Cumulative(variants, 3) == 2 * MAX + 10002;
  }
}

/** The leaky strike counter that delays a flag until suspicion lasts. */
module Strikes {

  /** The counter after a sample: up when suspicious, down to no less than zero when not. */
  function Next(strikes: nat, suspicious: bool): nat {
    if suspicious then strikes + 1 else if strikes > 0 then strikes - 1 else 0
  }

  /** The counter after all samples of a history. */
  function After(history: seq<bool>): nat {
    if history == [] then 0 else Next(After(history[..|history| - 1]), history[|history| - 1])
  }

  /** Suspicious samples minus clean ones. */
  function Balance(samples: seq<bool>): int {
    if samples == [] then 0 else Balance(samples[..|samples| - 1]) + (if samples[|samples| - 1] then 1 else -1)
  }

  lemma {:induction false} BalanceSnoc(history: seq<bool>, k: nat, last: bool)
    requires k <= |history|
    ensures Balance((history + [last])[k..]) == Balance(history[k..]) + (if last then 1 else -1)
  {
    var s := (history + [last])[k..];
    assert s[..|s| - 1] == history[k..] && s[|s| - 1] == last;
  }

  /** No suffix of the history has a larger balance than the counter. */
  lemma {:induction false} CounterBoundsSuffixes(history: seq<bool>, k: nat)
    requires k <= |history|
    ensures Balance(history[k..]) <= After(history)
  {
    if k < |history| {
      var front, last := history[..|history| - 1], history[|history| - 1];
      CounterBoundsSuffixes(front, k);
      assert history == front + [last];
      BalanceSnoc(front, k, last);
    }
  }

  /** Some suffix, the empty one included, has exactly the counter as its balance. */
  lemma {:induction false} CounterIsSomeSuffix(history: seq<bool>) returns (k: nat)
    ensures k <= |history| && Balance(history[k..]) == After(history)
  {
    if history == [] {
      k := 0;
    } else {
      var front, last := history[..|history| - 1], history[|history| - 1];
      k := CounterIsSomeSuffix(front);
      assert history == front + [last];
      BalanceSnoc(front, k, last);
      if !last && After(front) == 0 {
        k := |history|;
      }
    }
  }

  ghost predicate IsMaxSuffix(history: seq<bool>, n: int) {
    && (exists k :: 0 <= k <= |history| && Balance(history[k..]) == n)
    && (forall k :: 0 <= k <= |history| ==> Balance(history[k..]) <= n)
  }

  /** The counter is the largest balance of any suffix of the sample history. */
  lemma {:induction false} CounterIsMaxSuffix(history: seq<bool>)
    ensures IsMaxSuffix(history, After(history))
  {
    var w := CounterIsSomeSuffix(history);
    forall k | 0 <= k <= |history|
      ensures Balance(history[k..]) <= After(history)
    {
      CounterBoundsSuffixes(history, k);
    }
  }

  /** Whether the last sample of a history raises a flag. */
  predicate Flags(history: seq<bool>, required: nat)
    requires history != []
  {
    history[|history| - 1] && After(history) >= required
  }

  /** A flag is raised exactly when the sample is suspicious and some suffix ending there reaches the requirement. */
  lemma {:induction false} FlagsIff(history: seq<bool>, required: nat)
    requires history != []
    ensures Flags(history, required) <==>
      history[|history| - 1] && exists k :: 0 <= k <= |history| && Balance(history[k..]) >= required
  {
    CounterIsMaxSuffix(history);
    assert IsMaxSuffix(history, After(history));
  }

  /** A run of suspicious samples as long as the requirement raises a flag, whatever came before. */
  lemma {:induction false} PersistentIsFlagged(history: seq<bool>, n: nat, required: nat)
    requires 1 <= n <= |history| && required <= n
    requires forall i :: |history| - n <= i < |history| ==> history[i]
    ensures Flags(history, required)
  {
    AllSuspicious(history[|history| - n..]);
    CounterBoundsSuffixes(history, |history| - n);
  }

  lemma {:induction false} AllSuspicious(samples: seq<bool>)
    requires forall i :: 0 <= i < |samples| ==> samples[i]
    ensures Balance(samples) == |samples|
  {
    if samples != [] {
      AllSuspicious(samples[..|samples| - 1]);
    }
  }
}

/**
 What one target's call can cost.  The price is checked before the first dispatch only
 (`_check_budget`), a raised cap is bounded by tokens alone (`_raise_cap` in `llm/client.py`), so
 the dollars left hold for every reply exactly when they cover the highest cap in reach.
 */
module CallCosts {
  import opened Options
  import opened TargetCall

  /** The cap after `t` truncations, as long as it can be raised. */
  function Top(lim: Limits, input: nat, cap: nat, t: nat): nat
    decreases t
  {
    if t == 0 then cap
    else
      match Raise(lim, input, cap)
      case None => cap
      case Some(next) => Top(lim, input, next, t - 1)
  }

  lemma {:induction false} TopNext(lim: Limits, input: nat, cap: nat, t: nat)
    ensures
      var top := Top(lim, input, cap, t);
      Top(lim, input, cap, t + 1) == match Raise(lim, input, top) case None => top case Some(next) => next
    decreases t
  {
    if t > 0 && Raise(lim, input, cap).Some? {
      TopNext(lim, input, Raise(lim, input, cap).value, t - 1);
    }
  }

  lemma {:induction false} TopGrows(lim: Limits, input: nat, cap: nat, t: nat, u: nat)
    requires t <= u
    ensures Top(lim, input, cap, t) <= Top(lim, input, cap, u)
    decreases u
  {
    if t < u {
      TopGrows(lim, input, cap, t, u - 1);
      TopNext(lim, input, cap, u - 1);
    }
  }

  /** What a call of this target may look like from outside, for one endpoint. */
  ghost predicate IsCall<V>(lim: Limits, base: seq<Message>, input: nat, cap0: nat, endpoint: Endpoint<V>,
                            log: seq<Dispatch>, out: Outcome<V>)
  {
    && LogOk(lim, base, input, cap0, endpoint, log) && log != []
    && EndsAs(lim, input, endpoint, |log| - 1, log[|log| - 1].cap, out)
  }

  /** The input and the output, each at so much a million tokens, come to `usd` at most. */
  predicate Covers(price: Price, input: nat, output: nat, usd: real)
  {
    match price
    case Free => 0.0 <= usd
    case PerMillion(i, o) => i * input as real + o * output as real <= 1000000.0 * usd
  }

  /** No dispatch is projected to cost more than `usd`. */
  ghost predicate Within(lim: Limits, input: nat, usd: real, log: seq<Dispatch>)
  {
    forall i :: 0 <= i < |log| ==> Covers(lim.price, input, log[i].cap, usd)
  }

  /** The projected cost is the sum of both at their prices. */
  lemma CoversExact(price: Price, input: nat, output: nat, usd: real)
    ensures Covers(price, input, output, usd) <==> Cost(price, input, output) <= usd
  {
  }

  /** Whatever the endpoint replies, no dispatch is projected to cost more than `usd`. */
  ghost predicate NeverOverspends<V(!new)>(lim: Limits, base: seq<Message>, input: nat, cap0: nat, usd: real)
  {
    forall endpoint: Endpoint<V>, log, out: Outcome<V> ::
      IsCall(lim, base, input, cap0, endpoint, log, out) ==> Within(lim, input, usd, log)
  }

  /** Prices are declared non-negative. */
  predicate PriceOk(price: Price) { price.PerMillion? ==> price.input >= 0.0 && price.output >= 0.0 }

  lemma CoversLess(price: Price, input: nat, a: nat, b: nat, usd: real)
    requires PriceOk(price) && a <= b && Covers(price, input, b, usd)
    ensures Covers(price, input, a, usd)
  {
    if price.PerMillion? {
      assert price.output * a as real <= price.output * b as real;
    }
  }

  /** Every dispatch asks for the cap that its number of truncations leads to. */
  lemma {:induction false} CapIsTop<V>(lim: Limits, base: seq<Message>, input: nat, cap0: nat, endpoint: Endpoint<V>,
      log: seq<Dispatch>, i: nat)
    requires LogOk(lim, base, input, cap0, endpoint, log) && i < |log|
    ensures log[i].cap == Top(lim, input, cap0, Count(endpoint, Cut, i)) && Count(endpoint, Cut, i) <= lim.truncations
    decreases i
  {
    if i > 0 {
      CapIsTop(lim, base, input, cap0, endpoint, log, i - 1);
      assert GoesOn(lim, input, endpoint, log, i - 1);
      TopNext(lim, input, cap0, Count(endpoint, Cut, i - 1));
    }
  }

  // ---------------------------------------------------------------------------------------
  // The endpoint that truncates every reply
  // ---------------------------------------------------------------------------------------

  function Truncating<V>(): Endpoint<V> { (n: nat) => Truncated }

  lemma {:induction false} AllAreCut<V>(n: nat)
    ensures Count(Truncating<V>(), Cut, n) == n
  {
    if n > 0 {
      AllAreCut<V>(n - 1);
    }
  }

  lemma {:induction false} NothingToRepair<V>(base: seq<Message>, n: nat)
    ensures ConversationAt(base, Truncating<V>(), n) == base
  {
    if n > 0 {
      NothingToRepair<V>(base, n - 1);
    }
  }

  /** The dispatches of `n` raises in a row. */
  function Climb(lim: Limits, base: seq<Message>, input: nat, cap0: nat, n: nat): (log: seq<Dispatch>)
    ensures |log| == n + 1 && forall i :: 0 <= i <= n ==> log[i] == Dispatch(base, Top(lim, input, cap0, i))
  {
    seq(n + 1, i requires 0 <= i <= n => Dispatch(base, Top(lim, input, cap0, i)))
  }

  /** `n` raises in a row succeed. */
  ghost predicate Raises(lim: Limits, input: nat, cap0: nat, n: nat)
  {
    forall i :: 0 <= i < n ==> Raise(lim, input, Top(lim, input, cap0, i)).Some?
  }

  /** How often the cap can be raised: until the retries or the room are used up. */
  lemma {:induction false} Summit(lim: Limits, input: nat, cap0: nat, t: nat) returns (n: nat)
    ensures n <= t && Raises(lim, input, cap0, n) && Top(lim, input, cap0, n) == Top(lim, input, cap0, t)
    ensures n == t || Raise(lim, input, Top(lim, input, cap0, n)).None?
    decreases t
  {
    if t == 0 {
      n := 0;
    } else {
      n := Summit(lim, input, cap0, t - 1);
      TopNext(lim, input, cap0, t - 1);
      if n == t - 1 && Raise(lim, input, Top(lim, input, cap0, n)).Some? {
        n := t;
      }
    }
  }

  lemma {:induction false} TopIsAffordable(lim: Limits, input: nat, cap0: nat, t: nat)
    requires Affordable(lim, input, cap0)
    ensures Affordable(lim, input, Top(lim, input, cap0, t))
    decreases t
  {
    if t > 0 {
      TopIsAffordable(lim, input, cap0, t - 1);
      TopNext(lim, input, cap0, t - 1);
    }
  }

  lemma ClimbIsLog<V>(lim: Limits, base: seq<Message>, input: nat, cap0: nat, n: nat)
    requires Affordable(lim, input, cap0) && n <= lim.truncations && Raises(lim, input, cap0, n)
    ensures LogOk(lim, base, input, cap0, Truncating<V>(), Climb(lim, base, input, cap0, n))
  {
    var log, endpoint := Climb(lim, base, input, cap0, n), Truncating<V>();
    forall i | 0 <= i < |log|
      ensures log[i].conversation == ConversationAt(base, endpoint, i) && Affordable(lim, input, log[i].cap)
    {
      NothingToRepair<V>(base, i);
      TopIsAffordable(lim, input, cap0, i);
    }
    forall i | 0 <= i < |log| - 1
      ensures GoesOn(lim, input, endpoint, log, i)
    {
      AllAreCut<V>(i + 1);
      TopNext(lim, input, cap0, i);
    }
  }

  /** Against that endpoint the call reaches the highest cap. */
  lemma ReachesTop<V>(lim: Limits, base: seq<Message>, input: nat, cap0: nat) returns (log: seq<Dispatch>)
    requires Affordable(lim, input, cap0)
    ensures IsCall(lim, base, input, cap0, Truncating<V>(), log, BudgetExhausted)
    ensures log[|log| - 1].cap == Top(lim, input, cap0, lim.truncations)
  {
    var n := Summit(lim, input, cap0, lim.truncations);
    log := Climb(lim, base, input, cap0, n);
    ClimbIsLog<V>(lim, base, input, cap0, n);
    AllAreCut<V>(n + 1);
  }

  /** The dollars left are kept, whatever the endpoint replies, if and only if they cover the input and
      the highest cap the truncation retries lead to, each at its price per million tokens: a sum a
      caller can work out before the call. */
  lemma DollarsKeptExactly<V(!new)>(lim: Limits, base: seq<Message>, input: nat, cap0: nat, usd: real)
    requires Affordable(lim, input, cap0) && PriceOk(lim.price)
    ensures NeverOverspends<V>(lim, base, input, cap0, usd) <==>
            Covers(lim.price, input, Top(lim, input, cap0, lim.truncations), usd)
  {
    if Covers(lim.price, input, Top(lim, input, cap0, lim.truncations), usd) {
      forall endpoint: Endpoint<V>, log, out: Outcome<V> | IsCall(lim, base, input, cap0, endpoint, log, out)
        ensures Within(lim, input, usd, log)
      {
        StaysBelowTop(lim, base, input, cap0, endpoint, log, usd);
      }
    }
    if NeverOverspends<V>(lim, base, input, cap0, usd) {
      var log := ReachesTop<V>(lim, base, input, cap0);
      assert Within(lim, input, usd, log);
    }
  }

  lemma StaysBelowTop<V>(lim: Limits, base: seq<Message>, input: nat, cap0: nat, endpoint: Endpoint<V>,
      log: seq<Dispatch>, usd: real)
    requires LogOk(lim, base, input, cap0, endpoint, log) && PriceOk(lim.price)
    requires Covers(lim.price, input, Top(lim, input, cap0, lim.truncations), usd)
    ensures Within(lim, input, usd, log)
  {
    forall i | 0 <= i < |log|
      ensures Covers(lim.price, input, log[i].cap, usd)
    {
      CapIsTop(lim, base, input, cap0, endpoint, log, i);
      TopGrows(lim, input, cap0, Count(endpoint, Cut, i), lim.truncations);
      CoversLess(lim.price, input, log[i].cap, Top(lim, input, cap0, lim.truncations), usd);
    }
  }

  const EXAMPLE := Limits(1, 2, 5, 2.0, 8000, PerMillion(0.0, 10.0), Some(Budget(100000, 0.01, 60.0)))

  /** A call that passes the check before dispatch, and whose third dispatch is projected to cost
      four times what is left. */
  lemma DispatchCanOverspend<V>(base: seq<Message>) returns (log: seq<Dispatch>)
    ensures Dispatchable(EXAMPLE, 0.0, 0, 1000)
    ensures IsCall(EXAMPLE, base, 0, 1000, Truncating<V>(), log, BudgetExhausted)
    ensures log[|log| - 1].cap == 4000 && !Covers(EXAMPLE.price, 0, 4000, EXAMPLE.budget.value.usd)
  {
    log := ReachesTop<V>(EXAMPLE, base, 0, 1000);
    assert Raise(EXAMPLE, 0, 1000) == Some(2000) by {
      assert 1000 as real * EXAMPLE.growth == 2000.0;
    }
    assert Raise(EXAMPLE, 0, 2000) == Some(4000) by {
      assert 2000 as real * EXAMPLE.growth == 4000.0;
    }
    assert Top(EXAMPLE, 0, 4000, 0) == 4000;
    assert Top(EXAMPLE, 0, 2000, 1) == 4000;
    assert Top(EXAMPLE, 0, 1000, 2) == 4000;
  }
}

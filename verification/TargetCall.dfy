/**
 One target's whole life (`_call_target`, `_raise_cap` and `_check_budget` of `llm/client.py`):
 rate-limit backoff, raised output caps after truncation, and schema repairs.

 What the endpoint replies is an arbitrary function of the invocation number, so every result
 holds of every endpoint.  Arithmetic on growth factors and prices is exact.
 */
module TargetCall {
  import opened Options

  datatype Message = Message(role: string, content: string)

  /** What an invocation comes back with; `Escaping` is any exception other than a transport error,
      a cancellation included. */
  datatype Reply<V> =
    | RateLimited
    | Unreachable
    | Truncated
    | Refused
    | Escaping
    | Invalid(offending: Message, detail: string)
    | Valid(value: V)

  datatype Kind = Throttle | Cut | Mistake | Final

  function KindOf<V>(r: Reply<V>): Kind
  {
    match r
    case RateLimited => Throttle
    case Truncated => Cut
    case Invalid(_, _) => Mistake
    case _ => Final
  }

  type Endpoint<!V> = nat -> Reply<V>

  /** What is left of the call's budget; the deadline is on the client's clock. */
  datatype Budget = Budget(tokens: nat, usd: real, deadline: real)

  datatype Price = Free | PerMillion(input: real, output: real)

  datatype Limits = Limits(
    repairs: nat, truncations: nat, rateLimits: nat, growth: real, declaredMax: nat, price: Price,
    budget: Option<Budget>)

  datatype Dispatch = Dispatch(conversation: seq<Message>, cap: nat)

  datatype Outcome<V> =
    | Answered(value: V, repairs: nat)
    | TransportFailed
    | SchemaUnsatisfied
    | ModelRefused
    | Escaped
    | BudgetExhausted

  function Min(a: int, b: int): int { if a <= b then a else b }

  function Max(a: int, b: int): int { if a <= b then b else a }

  const REPAIR_INSTRUCTION :=
    "That reply did not validate. Return the corrected JSON object only. The validator said, verbatim:\n"

  /** The offending turn played back, and the validator's words. */
  function RepairTurns(offending: Message, detail: string): seq<Message>
  {
    [offending, Message("user", REPAIR_INSTRUCTION + detail)]
  }

  /** What may be sent: within the target's declared maximum and the call's budget. */
  predicate Affordable(lim: Limits, input: nat, cap: nat)
  {
    cap <= lim.declaredMax && (lim.budget.Some? ==> input + cap <= lim.budget.value.tokens)
  }

  function Cost(price: Price, input: nat, output: nat): real
  {
    match price
    case Free => 0.0
    case PerMillion(i, o) => (i * input as real + o * output as real) / 1000000.0
  }

  /** The check before the first dispatch: deadline, tokens and price. */
  predicate Dispatchable(lim: Limits, now: real, input: nat, cap: nat)
  {
    lim.budget.Some? ==>
      && now < lim.budget.value.deadline
      && input + cap <= lim.budget.value.tokens
      && Cost(lim.price, input, cap) <= lim.budget.value.usd
  }

  function Raise(lim: Limits, input: nat, current: nat): Option<nat>
  {
    var grown := Min((current as real * lim.growth).Floor, lim.declaredMax);
    var want := if lim.budget.Some? then Min(grown, Max(lim.budget.value.tokens - input, 0)) else grown;
    if want <= current then None else Some(want)
  }

  /** `cap` is one the call may be raised to: within the growth factor, the declared maximum and the tokens
      the input leaves. */
  ghost predicate InReach(lim: Limits, input: nat, current: nat, cap: int)
  {
    && cap as real <= current as real * lim.growth && cap <= lim.declaredMax
    && (lim.budget.Some? ==> cap <= 0 || input + cap <= lim.budget.value.tokens)
  }

  /** A cap is raised to the highest in reach, and not at all exactly when that is no higher. */
  lemma RaiseExact(lim: Limits, input: nat, current: nat)
    ensures
      match Raise(lim, input, current)
      case None => forall cap :: InReach(lim, input, current, cap) ==> cap <= current
      case Some(next) =>
        && current < next && InReach(lim, input, current, next)
        && forall cap :: InReach(lim, input, current, cap) ==> cap <= next
  {
    forall cap | InReach(lim, input, current, cap)
      ensures cap <= (current as real * lim.growth).Floor
    {
      assert cap == (cap as real).Floor;
    }
  }

  lemma RaiseIsAffordable(lim: Limits, input: nat, current: nat)
    requires Affordable(lim, input, current) && Raise(lim, input, current).Some?
    ensures current < Raise(lim, input, current).value && Affordable(lim, input, Raise(lim, input, current).value)
  {
  }

  // ---------------------------------------------------------------------------------------
  // What a log of invocations must look like
  // ---------------------------------------------------------------------------------------

  /** How many of the first `n` replies are of kind `k`. */
  function Count<V>(endpoint: Endpoint<V>, k: Kind, n: nat): (c: nat)
    ensures c <= n
  {
    if n == 0 then 0 else Count(endpoint, k, n - 1) + if KindOf(endpoint(n - 1)) == k then 1 else 0
  }

  function Allowed(lim: Limits, k: Kind): nat
  {
    match k
    case Throttle => lim.rateLimits
    case Cut => lim.truncations
    case Mistake => lim.repairs
    case Final => 0
  }

  /** The reply to invocation `i` is one the loop absorbs, with a retry of its kind to spare. */
  predicate Absorbed<V>(lim: Limits, endpoint: Endpoint<V>, i: nat)
  {
    var k := KindOf(endpoint(i));
    k != Final && Count(endpoint, k, i + 1) <= Allowed(lim, k)
  }

  /** The conversation of invocation `i`: the base, and the repair turns for the latest mistake. */
  function ConversationAt<V>(base: seq<Message>, endpoint: Endpoint<V>, i: nat): seq<Message>
  {
    if i == 0 then base
    else
      match endpoint(i - 1)
      case Invalid(offending, detail) => base + RepairTurns(offending, detail)
      case _ => ConversationAt(base, endpoint, i - 1)
  }

  ghost predicate LogOk<V>(lim: Limits, base: seq<Message>, input: nat, cap0: nat, endpoint: Endpoint<V>,
      log: seq<Dispatch>)
  {
    && (forall i :: 0 <= i < |log| ==> log[i].conversation == ConversationAt(base, endpoint, i))
    && (forall i :: 0 <= i < |log| ==> Affordable(lim, input, log[i].cap))
    && (log != [] ==> log[0].cap == cap0)
    && (forall i :: 0 <= i < |log| - 1 ==> GoesOn(lim, input, endpoint, log, i))
  }

  /** After invocation `i` the loop went round again. */
  ghost predicate GoesOn<V>(lim: Limits, input: nat, endpoint: Endpoint<V>, log: seq<Dispatch>, i: nat)
    requires i + 1 < |log|
  {
    Absorbed(lim, endpoint, i) && CapFollows(lim, input, endpoint(i), log[i].cap, log[i + 1].cap)
  }

  predicate CapFollows<V>(lim: Limits, input: nat, reply: Reply<V>, cap: nat, next: nat)
  {
    if reply.Truncated? then Raise(lim, input, cap) == Some(next) else next == cap
  }

  /** How the call ends, read off the reply to its last invocation. */
  ghost predicate EndsAs<V>(lim: Limits, input: nat, endpoint: Endpoint<V>, last: nat, cap: nat, out: Outcome<V>)
  {
    match endpoint(last)
    case Valid(value) => out == Answered(value, Count(endpoint, Mistake, last))
    case Refused => out == ModelRefused
    case Escaping => out == Escaped
    case Unreachable => out == TransportFailed
    case RateLimited => out == TransportFailed && Count(endpoint, Throttle, last + 1) == lim.rateLimits + 1
    case Invalid(_, _) => out == SchemaUnsatisfied && Count(endpoint, Mistake, last + 1) == lim.repairs + 1
    case Truncated =>
      && out == BudgetExhausted
      && (Count(endpoint, Cut, last + 1) == lim.truncations + 1 || Raise(lim, input, cap) == None)
  }

  // ---------------------------------------------------------------------------------------
  // The loop
  // ---------------------------------------------------------------------------------------

  /** The log so far allows one more invocation with this cap. */
  ghost predicate Ready<V>(lim: Limits, base: seq<Message>, input: nat, cap0: nat, endpoint: Endpoint<V>,
                           log: seq<Dispatch>, cap: nat)
  {
    && LogOk(lim, base, input, cap0, endpoint, log) && Affordable(lim, input, cap)
    && if log == [] then cap == cap0
       else Absorbed(lim, endpoint, |log| - 1) && CapFollows(lim, input, endpoint(|log| - 1), log[|log| - 1].cap, cap)
  }

  lemma DispatchKeeps<V>(lim: Limits, base: seq<Message>, input: nat, cap0: nat, endpoint: Endpoint<V>,
      log: seq<Dispatch>, cap: nat)
    requires Ready(lim, base, input, cap0, endpoint, log, cap)
    ensures LogOk(lim, base, input, cap0, endpoint, log + [Dispatch(ConversationAt(base, endpoint, |log|), cap)])
  {
    var next := log + [Dispatch(ConversationAt(base, endpoint, |log|), cap)];
    forall i | 0 <= i < |next| - 1
      ensures GoesOn(lim, input, endpoint, next, i)
    {
      if i < |log| - 1 {
        assert GoesOn(lim, input, endpoint, log, i);
      }
    }
  }

  /** The loop's three counters count the replies of their kinds, and every invocation is in one. */
  ghost predicate Tallied<V>(lim: Limits, endpoint: Endpoint<V>, n: nat, repairs: nat, truncations: nat,
      rateLimits: nat)
  {
    && repairs == Count(endpoint, Mistake, n) <= lim.repairs
    && truncations == Count(endpoint, Cut, n) <= lim.truncations
    && rateLimits == Count(endpoint, Throttle, n) <= lim.rateLimits
    && n == repairs + truncations + rateLimits
  }

  lemma TallyNext<V>(lim: Limits, endpoint: Endpoint<V>, n: nat, repairs: nat, truncations: nat, rateLimits: nat)
    requires Tallied(lim, endpoint, n, repairs, truncations, rateLimits)
    ensures
      match KindOf(endpoint(n))
      case Throttle =>
        Count(endpoint, Throttle, n + 1) == rateLimits + 1
        && (rateLimits < lim.rateLimits ==>
              Absorbed(lim, endpoint, n) && Tallied(lim, endpoint, n + 1, repairs, truncations, rateLimits + 1))
      case Cut =>
        Count(endpoint, Cut, n + 1) == truncations + 1
        && (truncations < lim.truncations ==>
              Absorbed(lim, endpoint, n) && Tallied(lim, endpoint, n + 1, repairs, truncations + 1, rateLimits))
      case Mistake =>
        Count(endpoint, Mistake, n + 1) == repairs + 1
        && (repairs < lim.repairs ==>
              Absorbed(lim, endpoint, n) && Tallied(lim, endpoint, n + 1, repairs + 1, truncations, rateLimits))
      case Final => true
  {
  }

  /** What the loop carries from one invocation to the next. */
  datatype Progress = Progress(
    conversation: seq<Message>, cap: nat, repairs: nat, truncations: nat, rateLimits: nat)

  ghost predicate OnTrack<V>(lim: Limits, base: seq<Message>, input: nat, endpoint: Endpoint<V>, n: nat, p: Progress)
  {
    && p.conversation == ConversationAt(base, endpoint, n) && Affordable(lim, input, p.cap)
    && Tallied(lim, endpoint, n, p.repairs, p.truncations, p.rateLimits)
  }

  /** The loop body after invocation `n`: end the call, or go round again. */
  method React<V>(lim: Limits, base: seq<Message>, input: nat, ghost endpoint: Endpoint<V>, ghost n: nat, p: Progress,
      reply: Reply<V>)
    returns (ended: Option<Outcome<V>>, next: Progress)
    requires OnTrack(lim, base, input, endpoint, n, p) && reply == endpoint(n)
    ensures ended.Some? ==> EndsAs(lim, input, endpoint, n, p.cap, ended.value)
    ensures ended.None? ==>
              && OnTrack(lim, base, input, endpoint, n + 1, next)
              && Absorbed(lim, endpoint, n) && CapFollows(lim, input, reply, p.cap, next.cap)
  {
    TallyNext(lim, endpoint, n, p.repairs, p.truncations, p.rateLimits);
    ended, next := None, p;
    match reply {
      case RateLimited =>
        if p.rateLimits >= lim.rateLimits {
          ended := Some(TransportFailed);
        } else {
          next := next.(rateLimits := p.rateLimits + 1);
        }
      case Unreachable =>
        ended := Some(TransportFailed);
      case Truncated =>
        var want := Raise(lim, input, p.cap);
        if p.truncations + 1 > lim.truncations || want.None? {
          ended := Some(BudgetExhausted);
        } else {
          RaiseIsAffordable(lim, input, p.cap);
          next := next.(truncations := p.truncations + 1, cap := want.value);
        }
      case Refused =>
        ended := Some(ModelRefused);
      case Escaping =>
        ended := Some(Escaped);
      case Invalid(offending, detail) =>
        if p.repairs >= lim.repairs {
          ended := Some(SchemaUnsatisfied);
        } else {
          next := next.(repairs := p.repairs + 1, conversation := base + RepairTurns(offending, detail));
        }
      case Valid(value) =>
        ended := Some(Answered(value, p.repairs));
    }
  }

  method CallTarget<V>(lim: Limits, base: seq<Message>, input: nat, cap0: nat, endpoint: Endpoint<V>)
    returns (out: Outcome<V>, log: seq<Dispatch>)
    requires Affordable(lim, input, cap0)
    ensures LogOk(lim, base, input, cap0, endpoint, log) && log != []
    ensures EndsAs(lim, input, endpoint, |log| - 1, log[|log| - 1].cap, out)
    ensures |log| <= 1 + lim.repairs + lim.truncations + lim.rateLimits
  {
    log := [];
    var p := Progress(base, cap0, 0, 0, 0);
    while true
      invariant Ready(lim, base, input, cap0, endpoint, log, p.cap)
      invariant OnTrack(lim, base, input, endpoint, |log|, p)
      decreases lim.repairs + lim.truncations + lim.rateLimits - |log|
    {
      DispatchKeeps(lim, base, input, cap0, endpoint, log, p.cap);
      var ended, next := React(lim, base, input, endpoint, |log|, p, endpoint(|log|));
      log := log + [Dispatch(p.conversation, p.cap)];
      if ended.Some? {
        return ended.value, log;
      }
      p := next;
    }
  }

  /** One target of the ladder: cap the request, check the budget, call. */
  method TryTarget<V>(lim: Limits, now: real, base: seq<Message>, input: nat, requested: nat, endpoint: Endpoint<V>)
    returns (out: Outcome<V>, log: seq<Dispatch>)
    ensures LogOk(lim, base, input, Min(requested, lim.declaredMax), endpoint, log)
    ensures log == [] <==> !Dispatchable(lim, now, input, Min(requested, lim.declaredMax))
    ensures
      var cap := Min(requested, lim.declaredMax);
      match lim.budget
      case None => log != []
      case Some(left) =>
        log != [] <==>
          && now < left.deadline && input + cap <= left.tokens
          && (match lim.price
              case Free => 0.0 <= left.usd
              case PerMillion(i, o) => i * input as real + o * cap as real <= 1000000.0 * left.usd)
    ensures log == [] ==> out == BudgetExhausted
    ensures log != [] ==> EndsAs(lim, input, endpoint, |log| - 1, log[|log| - 1].cap, out)
    ensures |log| <= 1 + lim.repairs + lim.truncations + lim.rateLimits
  {
    var cap := Min(requested, lim.declaredMax);
    if !Dispatchable(lim, now, input, cap) {
      return BudgetExhausted, [];
    }
    out, log := CallTarget(lim, base, input, cap, endpoint);
  }

  // ---------------------------------------------------------------------------------------
  // What such a log guarantees
  // ---------------------------------------------------------------------------------------

  /** Every conversation sent is the base as long as no reply was invalid, and then the base and exactly
      the two repair turns of the latest invalid reply. */
  lemma {:induction false} BaseOrOneRepair<V>(base: seq<Message>, endpoint: Endpoint<V>, i: nat)
    ensures
      var c := ConversationAt(base, endpoint, i);
      || (c == base && forall j :: 0 <= j < i ==> !endpoint(j).Invalid?)
      || (|c| == |base| + 2 && c[..|base|] == base
          && exists j :: LatestInvalid(endpoint, j, i) && IsRepairOf(endpoint(j), c[|base|..]))
    decreases i
  {
    if i > 0 {
      if endpoint(i - 1).Invalid? {
        var turns := RepairTurns(endpoint(i - 1).offending, endpoint(i - 1).detail);
        assert ConversationAt(base, endpoint, i)[|base|..] == turns;
        assert LatestInvalid(endpoint, i - 1, i) && IsRepairOf(endpoint(i - 1), turns);
      } else {
        BaseOrOneRepair(base, endpoint, i - 1);
        var c := ConversationAt(base, endpoint, i - 1);
        if j :| LatestInvalid(endpoint, j, i - 1) && IsRepairOf(endpoint(j), c[|base|..]) {
          assert LatestInvalid(endpoint, j, i);
        }
      }
    }
  }

  /** Of the first `i` replies, number `j` is the last invalid one. */
  ghost predicate LatestInvalid<V>(endpoint: Endpoint<V>, j: int, i: nat)
  {
    0 <= j < i && endpoint(j).Invalid? && forall m :: j < m < i ==> !endpoint(m).Invalid?
  }

  /** The offending turn first, then the instruction with the validator's words at its end. */
  ghost predicate IsRepairOf<V>(r: Reply<V>, turns: seq<Message>)
  {
    && r.Invalid? && |turns| == 2 && turns[0] == r.offending
    && turns[1] == Message("user", REPAIR_INSTRUCTION + r.detail)
  }

  /** Caps never shrink from one invocation to a later one, and grow with every truncation. */
  lemma {:induction false} CapsGrow<V>(lim: Limits, base: seq<Message>, input: nat, cap0: nat, endpoint: Endpoint<V>,
      log: seq<Dispatch>, i: nat, j: nat)
    requires LogOk(lim, base, input, cap0, endpoint, log) && i <= j < |log|
    ensures log[j].cap >= log[i].cap + (Count(endpoint, Cut, j) - Count(endpoint, Cut, i))
    decreases j
  {
    if i < j {
      CapsGrow(lim, base, input, cap0, endpoint, log, i, j - 1);
      assert GoesOn(lim, input, endpoint, log, j - 1);
    }
  }
}

/** The relay reconnect loop (`TcpSendAndReceiveHttpWithReconnect` in
    EdiManager/EdimaxControl.cs): send the tunnelled request; when it
    throws, probe the cloud again and, if the probe succeeded, reconnect to
    the relay. Only a reconnect step that throws counts as a failed attempt,
    and the attempt that takes the count past `TcpMaxRetries` is fatal. */
module Reconnect {

  /** Reconnect steps allowed to throw before the loop gives up. */
  const TcpMaxRetries: nat := 10

  /** One pass of the loop, as the relay and the cloud played it: the
      request completed with `reply`, or it threw; after a throw the fresh
      probe succeeded or not (the probe never throws: it reports failure as
      Success=false) and, when it succeeded, connecting to the relay worked
      or threw. */
  datatype Round<T> = Completed(reply: T) | Dropped(probeOk: bool, connectOk: bool)

  /** The reconnect step of a round throws: only a successful probe followed
      by a failed connection. */
  predicate StepThrows<T>(r: Round<T>) {
    r.Dropped? && r.probeOk && !r.connectOk
  }

  /** The number of rounds in `rs` whose reconnect step threw. */
  function Thrown<T>(rs: seq<Round<T>>): nat
  {
    if |rs| == 0 then 0
    else Thrown(rs[..|rs| - 1]) + (if StepThrows(rs[|rs| - 1]) then 1 else 0)
  }

  lemma ThrownStep<T>(rs: seq<Round<T>>, i: nat)
    requires i < |rs|
    ensures Thrown(rs[..i + 1]) == Thrown(rs[..i]) + (if StepThrows(rs[i]) then 1 else 0)
  {
    assert rs[..i + 1][..i] == rs[..i];
  }

  lemma {:induction false} ThrownBound<T>(rs: seq<Round<T>>)
    ensures Thrown(rs) <= |rs|
  {
    if |rs| > 0 {
      ThrownBound(rs[..|rs| - 1]);
    }
  }

  lemma {:induction false} ThrownMonotone<T>(rs: seq<Round<T>>, a: nat, b: nat)
    requires a <= b <= |rs|
    ensures Thrown(rs[..a]) <= Thrown(rs[..b])
    decreases b - a
  {
    if a < b {
      ThrownStep(rs, a);
      ThrownMonotone(rs, a + 1, b);
    }
  }

  /** How the loop ended: the request completed after `rounds` passes; the
      reconnect failure of pass `rounds` was fatal; or the passes supplied
      ran out with the loop still going. `attempts` is the counter's value
      at the end. */
  datatype Outcome<T> =
    | Done(reply: T, rounds: nat, attempts: nat)
    | Fatal(rounds: nat, attempts: nat)
    | Exhausted(attempts: nat)

  /** Reference: the loop from pass `i` on, with the counter at 1 plus the
      throws so far. */
  function RunFrom<T>(rs: seq<Round<T>>, i: nat, attempts: nat): (o: Outcome<T>)
    requires i <= |rs|
    requires attempts == 1 + Thrown(rs[..i]) <= TcpMaxRetries
    ensures o.Done? ==> i < o.rounds <= |rs| && rs[o.rounds - 1] == Completed(o.reply)
    ensures o.Fatal? ==> i < o.rounds <= |rs| && StepThrows(rs[o.rounds - 1])
    decreases |rs| - i
  {
    if i == |rs| then
      Exhausted(attempts)
    else
      ThrownStep(rs, i);
      match rs[i]
      case Completed(v) => Done(v, i + 1, attempts)
      case Dropped(probeOk, connectOk) =>
        var next := if probeOk && !connectOk then attempts + 1 else attempts;
        if next > TcpMaxRetries then Fatal(i + 1, next) else RunFrom(rs, i + 1, next)
  }

  /** What the counter holds when the loop ends, and that every pass before
      the last one dropped its request. */
  lemma {:induction false} RunFromTrace<T>(rs: seq<Round<T>>, i: nat, attempts: nat)
    requires i <= |rs|
    requires attempts == 1 + Thrown(rs[..i]) <= TcpMaxRetries
    ensures var o := RunFrom(rs, i, attempts);
      && (o.Done? ==>
            && (forall k :: i <= k < o.rounds - 1 ==> rs[k].Dropped?)
            && o.attempts == 1 + Thrown(rs[..o.rounds]) <= TcpMaxRetries)
      && (o.Fatal? ==>
            && (forall k :: i <= k < o.rounds ==> rs[k].Dropped?)
            && o.attempts == 1 + Thrown(rs[..o.rounds]) == TcpMaxRetries + 1)
      && (o.Exhausted? ==>
            && (forall k :: i <= k < |rs| ==> rs[k].Dropped?)
            && o.attempts == 1 + Thrown(rs) <= TcpMaxRetries)
    decreases |rs| - i
  {
    if i == |rs| {
      assert rs[..i] == rs;
    } else {
      ThrownStep(rs, i);
      if rs[i].Dropped? {
        var next := if StepThrows(rs[i]) then attempts + 1 else attempts;
        if next <= TcpMaxRetries {
          RunFromTrace(rs, i + 1, next);
        }
      }
    }
  }

  function Run<T>(rs: seq<Round<T>>): Outcome<T> {
    assert rs[..0] == [];
    RunFrom(rs, 0, 1)
  }

  /** The do-while of the source, with its counter starting at 1. */
  method WithReconnect<T>(rs: seq<Round<T>>) returns (o: Outcome<T>)
    ensures o == Run(rs)
  {
    var attempts := 1;
    var i := 0;
    assert rs[..0] == [];
    while i < |rs|
      invariant i <= |rs|
      invariant attempts == 1 + Thrown(rs[..i]) <= TcpMaxRetries
      invariant RunFrom(rs, i, attempts) == Run(rs)
      decreases |rs| - i
    {
      ThrownStep(rs, i);
      match rs[i] {
        case Completed(v) =>
          return Done(v, i + 1, attempts);
        case Dropped(probeOk, connectOk) =>
          if probeOk && !connectOk {
            attempts := attempts + 1;
            if attempts > TcpMaxRetries {
              return Fatal(i + 1, attempts);
            }
          }
      }
      i := i + 1;
    }
    assert rs[..i] == rs;
    return Exhausted(attempts);
  }

  /** The loop fails fatally exactly when `TcpMaxRetries` reconnect steps
      have thrown before any request completed. */
  lemma FatalExactly<T>(rs: seq<Round<T>>, n: nat)
    requires 0 < n <= |rs|
    requires forall k :: 0 <= k < n ==> rs[k].Dropped?
    requires Thrown(rs[..n]) == TcpMaxRetries
    ensures Run(rs).Fatal? && Run(rs).rounds <= n
  {
    var o := Run(rs);
    assert rs[..0] == [];
    RunFromTrace(rs, 0, 1);
    match o
    case Done(_, m, _) =>
      assert rs[m - 1].Completed?;
      ThrownMonotone(rs, n, m);
    case Exhausted(_) =>
      assert rs[..|rs|] == rs;
      ThrownMonotone(rs, n, |rs|);
    case Fatal(m, _) =>
      if n < m {
        ThrownMonotone(rs, n, m - 1);
        ThrownStep(rs, m - 1);
      }
  }

  /** A pass whose probe failed leaves the counter alone, however often it
      repeats: with the cloud unreachable the loop never gives up. */
  lemma FailedProbesNeverCount<T>(rs: seq<Round<T>>)
    requires forall k :: 0 <= k < |rs| ==> rs[k] == Dropped(false, false) || rs[k] == Dropped(false, true)
    ensures Run(rs) == Exhausted(1)
  {
    ZeroThrown(rs, |rs|);
    assert rs[..|rs|] == rs;
    assert rs[..0] == [];
    RunFromTrace(rs, 0, 1);
  }

  lemma {:induction false} ZeroThrown<T>(rs: seq<Round<T>>, n: nat)
    requires n <= |rs|
    requires forall k :: 0 <= k < |rs| ==> rs[k] == Dropped(false, false) || rs[k] == Dropped(false, true)
    ensures Thrown(rs[..n]) == 0
  {
    if n > 0 {
      ThrownStep(rs, n - 1);
      ZeroThrown(rs, n - 1);
    }
  }

  /** A completed request ends the loop with the counter never past its
      bound; a fatal ending always reports `TcpMaxRetries + 1` attempts. */
  lemma CounterBounds<T>(rs: seq<Round<T>>)
    ensures Run(rs).Done? ==> 1 <= Run(rs).attempts <= TcpMaxRetries
    ensures Run(rs).Fatal? ==> Run(rs).attempts == TcpMaxRetries + 1
    ensures Run(rs).Fatal? ==> Run(rs).rounds >= TcpMaxRetries
  {
    assert rs[..0] == [];
    RunFromTrace(rs, 0, 1);
    var o := Run(rs);
    if o.Fatal? {
      ThrownBound(rs[..o.rounds]);
    }
  }
}

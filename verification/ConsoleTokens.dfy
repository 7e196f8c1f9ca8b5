/**
 One-time console tokens (src/daemon/api/console.rs). The store is a map that is
 swept on every operation; the theorem at the end reads a token's fate off the
 history of calls alone.
 */
module ConsoleTokens {
  import opened Common

  type Token = seq<octet>

  /** Nanoseconds; the monotonic and the wall clock are one clock here. */
  type Time = nat

  const SECOND: nat := 1_000_000_000
  const TOKEN_TTL: nat := 30 * SECOND

  // ----- constant_time_eq

  /** The fold over paired bytes: once a difference is seen it is never lost. */
  function FoldDifferences(acc: octet, a: seq<octet>, b: seq<octet>): (r: octet)
    requires |a| == |b|
    ensures r == 0 <==> acc == 0 && a == b
    decreases |a|
  {
    if |a| == 0 then acc
    else
      var r := FoldDifferences(acc | (a[0] ^ b[0]), a[1..], b[1..]);
      assert a == [a[0]] + a[1..] && b == [b[0]] + b[1..];
      assert acc | (a[0] ^ b[0]) == 0 <==> acc == 0 && a[0] == b[0];
      r
  }

  function ConstantTimeEq(a: seq<octet>, b: seq<octet>): (same: bool)
    ensures same <==> a == b
  {
    if |a| != |b| then false else FoldDifferences(0, a, b) == 0
  }

  // ----- the store

  datatype SessionType = Logs | Attach | Exec

  datatype ConsoleGrant = ConsoleGrant(
    appId: string, session: SessionType, command: seq<string>, service: Option<string>)

  datatype Entry = Entry(grant: ConsoleGrant, expires: Time)

  function Sweep(entries: map<Token, Entry>, now: Time): map<Token, Entry> {
    map t | t in entries && entries[t].expires > now :: entries[t]
  }

  /** One call on the store with the clock readings it took inside its lock. */
  datatype Call =
    | Issue(token: Token, grant: ConsoleGrant, sweepAt: Time, stampAt: Time)
    | Consume(token: Token, now: Time)
  {
    function Start(): Time {
      if Issue? then sweepAt else now
    }

    function End(): Time {
      if Issue? then stampAt else now
    }
  }

  function After(entries: map<Token, Entry>, call: Call): map<Token, Entry> {
    match call
    case Issue(token, grant, sweepAt, stampAt) =>
      Sweep(entries, sweepAt)[token := Entry(grant, stampAt + TOKEN_TTL)]
    case Consume(token, now) => Sweep(entries, now) - {token}
  }

  /** What redeeming `token` at `now` hands out. */
  function Redeem(entries: map<Token, Entry>, token: Token, now: Time): Option<ConsoleGrant> {
    var live := Sweep(entries, now);
    if token in live then Some(live[token].grant) else None
  }

  class Store {
    var entries: map<Token, Entry>

    constructor ()
      ensures entries == map[]
    {
      entries := map[];
    }

    /** `token` is what `random_hex` drew, `unixNow` the wall clock read before the lock. */
    method Issue(token: Token, grant: ConsoleGrant, unixNow: Time, sweepAt: Time, stampAt: Time)
      returns (issued: Token, expiresAt: int)
      modifies this
      ensures issued == token
      ensures expiresAt * 1_000_000_000 <= unixNow + 30_000_000_000 < (expiresAt + 1) * 1_000_000_000
      ensures entries == After(old(entries), Call.Issue(token, grant, sweepAt, stampAt))
    {
      issued, expiresAt := token, (unixNow + TOKEN_TTL) / SECOND;
      entries := Sweep(entries, sweepAt);
      entries := entries[token := Entry(grant, stampAt + TOKEN_TTL)];
    }

    method Consume(token: Token, now: Time) returns (grant: Option<ConsoleGrant>)
      modifies this
      ensures grant == Redeem(old(entries), token, now)
      ensures entries == After(old(entries), Call.Consume(token, now))
    {
      entries := Sweep(entries, now);
      if token in entries {
        grant := Some(entries[token].grant);
        entries := entries - {token};
      } else {
        grant := None;
      }
    }
  }

  // ----- every run

  function Run(calls: seq<Call>): map<Token, Entry> {
    if calls == [] then map[]
    else After(Run(calls[..|calls| - 1]), calls[|calls| - 1])
  }

  /** One non-decreasing clock across and inside the calls, up to `now`. */
  ghost predicate Clocked(calls: seq<Call>, now: Time) {
    && (forall i | 0 <= i < |calls| :: calls[i].Start() <= calls[i].End() <= now)
    && (forall i, j | 0 <= i < j < |calls| :: calls[i].End() <= calls[j].Start())
  }

  /** `random_hex` never repeats a value. */
  ghost predicate Fresh(calls: seq<Call>) {
    forall i, j | 0 <= i < j < |calls| && calls[i].Issue? && calls[j].Issue? ::
      calls[i].token != calls[j].token
  }

  /** Call `i` issued `token` for `grant`, it was not redeemed since, and its 30 seconds last beyond `now`. */
  ghost predicate Outstanding(calls: seq<Call>, i: int, token: Token, grant: ConsoleGrant, now: Time) {
    && 0 <= i < |calls| && calls[i].Issue? && calls[i].token == token && calls[i].grant == grant
    && now < calls[i].stampAt + 30_000_000_000
    && forall j | i < j < |calls| && calls[j].Consume? :: calls[j].token != token
  }

  /**
   Over every run: redeeming yields a grant exactly when the history holds an
   issue of that token for that grant, not yet redeemed, less than 30 seconds old.
   */
  lemma {:induction false} RedeemedIffOutstanding(calls: seq<Call>, token: Token, grant: ConsoleGrant, now: Time)
    requires Clocked(calls, now) && Fresh(calls)
    ensures Redeem(Run(calls), token, now) == Some(grant)
      <==> exists i :: Outstanding(calls, i, token, grant, now)
    decreases |calls|
  {
    if calls != [] {
      var n := |calls| - 1;
      var earlier, last := calls[..n], calls[n];
      RedeemedIffOutstanding(earlier, token, grant, now);
      assert forall i | 0 <= i < n :: calls[i] == earlier[i];
      if last.token == token {
        if last.Issue? {
          assert Outstanding(calls, n, token, last.grant, now) <==> now < last.stampAt + TOKEN_TTL;
        }
      } else {
        assert forall i | 0 <= i < n ::
            Outstanding(calls, i, token, grant, now) <==> Outstanding(earlier, i, token, grant, now);
      }
    }
  }

  /** Single use: once a redemption succeeded, no later one of the same token does. */
  lemma AtMostOnce(calls: seq<Call>, first: int, second: int)
    requires 0 <= first < second < |calls|
    requires calls[first].Consume? && calls[second].Consume? && calls[first].token == calls[second].token
    requires Fresh(calls) && Clocked(calls, calls[|calls| - 1].End())
    requires Redeem(Run(calls[..first]), calls[first].token, calls[first].now).Some?
    ensures Redeem(Run(calls[..second]), calls[second].token, calls[second].now) == None
  {
    var token := calls[first].token;
    var one := Redeem(Run(calls[..first]), token, calls[first].now);
    RedeemedIffOutstanding(calls[..first], token, one.value, calls[first].now);
    var i :| Outstanding(calls[..first], i, token, one.value, calls[first].now);
    assert calls[..second][first] == calls[first];
    forall grant
      ensures Redeem(Run(calls[..second]), token, calls[second].now) != Some(grant)
    {
      RedeemedIffOutstanding(calls[..second], token, grant, calls[second].now);
      forall j
        ensures !Outstanding(calls[..second], j, token, grant, calls[second].now)
      {
        assert 0 <= j < second && calls[j].Issue? && calls[j].token == token ==> j == i;
      }
    }
  }
}

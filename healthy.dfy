/**
  The health-checking module: a per-check hysteresis state machine over
  integer status codes, a registry of checks keyed by ID, and the
  monitoring loop that updates every registered check once per tick.
  The loop's goroutines touch disjoint checks, so one tick is modelled as
  a sequential pass over the registry.
 */
module Healthy {
  import opened Wrappers

  // Status codes, as assigned by iota.
  const HEALTHY: int := 0
  const SICKLY: int := 1
  const FAILED: int := 2
  const UNKNOWN: int := 3

  /** The -1 argument of Run that means "never stop". */
  const RUN_FOREVER: int := -1

  /** The default check interval of a new monitor: three seconds, as a
      time.Duration in nanoseconds. */
  const DEFAULT_INTERVAL: int := 3_000_000_000

  /** The error a checker may return; None stands for a nil error. */
  type Error = string

  /** What one execution of a checker returns: a raw status code and an optional error. */
  datatype Outcome = Outcome(code: int, err: Option<Error>)

  /** The checker of a check: the built-in HTTP placeholder, or a checker
      implemented elsewhere, identified by name. */
  datatype Checker = HttpCheck | External(name: string)

  /** The results of checkers implemented elsewhere: the registry key of the
      check (each check owns its checker, so two checks may see different
      results), checker name, arguments and tick number to the outcome of
      that execution. */
  type Probe = (string, string, string, nat) -> Outcome

  /** Runs a checker: the built-in placeholder always reports HEALTHY with no error. */
  function Execute(key: string, command: Checker, args: string, probe: Probe, tick: nat): (o: Outcome)
    ensures command == HttpCheck ==> o == Outcome(HEALTHY, None)
  {
    match command
    case HttpCheck => Outcome(HEALTHY, None)
    case External(name) => probe(key, name, args, tick)
  }

  /** The live part of a check: its most recent status and its counter of
      consecutive non-healthy runs. */
  datatype Health = Health(status: int, count: int)

  /** The state machine of UpdateStatus. An error forces UNKNOWN; the raw
      code, not the overridden status, decides whether the counter resets
      or grows; reaching the threshold forces FAILED. */
  function Step(h: Health, maxCount: int, code: int, err: Option<Error>): (r: Health)
    // A raw HEALTHY result resets the counter, whatever the error.
    ensures code == HEALTHY ==> r.count == 0
    ensures code == HEALTHY ==> r.status == (if err == None then HEALTHY else UNKNOWN)
    // Any other raw result counts one more non-healthy run, error or not.
    ensures code != HEALTHY ==> r.count == h.count + 1
    ensures code != HEALTHY && r.count >= maxCount ==> r.status == FAILED
    ensures code != HEALTHY && r.count < maxCount ==>
              r.status == (if err == None then code else UNKNOWN)
    // Whatever happens, a HEALTHY status comes with a zero counter.
    ensures r.status == HEALTHY ==> r.count == 0
  {
    var status := if err != None then UNKNOWN else code;
    if code == HEALTHY then Health(status, 0)
    else if h.count + 1 >= maxCount then Health(FAILED, h.count + 1)
    else Health(status, h.count + 1)
  }

  /** The state after feeding a sequence of results, in order, to UpdateStatus. */
  function Replay(h: Health, maxCount: int, results: seq<Outcome>): Health
  {
    if results == [] then h
    else
      var last := results[|results| - 1];
      Step(Replay(h, maxCount, results[..|results| - 1]), maxCount, last.code, last.err)
  }

  /** After N consecutive non-healthy results without error, N >= 1, the counter
      has grown by N, and the check is FAILED exactly when the counter reached
      the threshold; below it, the status is the last raw code. */
  lemma {:induction false} ConsecutiveFailures(h: Health, maxCount: int, results: seq<Outcome>)
    requires |results| >= 1
    requires forall i :: 0 <= i < |results| ==> results[i].code != HEALTHY && results[i].err == None
    ensures Replay(h, maxCount, results).count == h.count + |results|
    ensures Replay(h, maxCount, results).status ==
              if h.count + |results| >= maxCount then FAILED
              else results[|results| - 1].code
  {
    var init := results[..|results| - 1];
    if |init| >= 1 {
      ConsecutiveFailures(h, maxCount, init);
    }
  }

  /** Starting from a fresh check, N results of SICKLY make it FAILED exactly
      when N >= MaxCount, and leave it SICKLY otherwise. */
  lemma {:induction false} SicklyRunFails(maxCount: int, results: seq<Outcome>)
    requires |results| >= 1
    requires forall i :: 0 <= i < |results| ==> results[i] == Outcome(SICKLY, None)
    ensures Replay(Health(HEALTHY, 0), maxCount, results).count == |results|
    ensures Replay(Health(HEALTHY, 0), maxCount, results).status == FAILED <==> |results| >= maxCount
    ensures Replay(Health(HEALTHY, 0), maxCount, results).status == SICKLY <==> |results| < maxCount
  {
    ConsecutiveFailures(Health(HEALTHY, 0), maxCount, results);
  }

  /** Once any result has been fed in, a HEALTHY status comes with a zero counter. */
  lemma HealthyHasZeroCount(h: Health, maxCount: int, results: seq<Outcome>)
    requires |results| >= 1
    ensures Replay(h, maxCount, results).status == HEALTHY ==> Replay(h, maxCount, results).count == 0
  {
  }

  /** A check with threshold 2 that sees SICKLY, SICKLY, HEALTHY goes
      SICKLY (count 1), FAILED (count 2), HEALTHY (count 0). */
  lemma WebScenario()
    ensures Replay(Health(HEALTHY, 0), 2, [Outcome(SICKLY, None)]) == Health(SICKLY, 1)
    ensures Replay(Health(HEALTHY, 0), 2, [Outcome(SICKLY, None), Outcome(SICKLY, None)]) == Health(FAILED, 2)
    ensures Replay(Health(HEALTHY, 0), 2,
                   [Outcome(SICKLY, None), Outcome(SICKLY, None), Outcome(HEALTHY, None)]) == Health(HEALTHY, 0)
  {
    var s := Outcome(SICKLY, None);
    assert [s, s][..1] == [s];
    assert [s, s, Outcome(HEALTHY, None)][..2] == [s, s];
  }

  /** Everything about a check that one tick reads or writes. */
  datatype CheckView = CheckView(id: string, health: Health, maxCount: int,
                                 kind: string, args: string, command: Checker)

  /** One check's share of a tick: run its checker, feed the result to UpdateStatus. */
  function Apply(key: string, v: CheckView, probe: Probe, tick: nat): (r: CheckView)
    ensures r.id == v.id && r.maxCount == v.maxCount && r.kind == v.kind
    ensures r.args == v.args && r.command == v.command
    ensures r.health.status == HEALTHY ==> r.health.count == 0
  {
    var o := Execute(key, v.command, v.args, probe, tick);
    v.(health := Step(v.health, v.maxCount, o.code, o.err))
  }

  /** One tick over a registry: every registered check is updated exactly once. */
  function Tick(views: map<string, CheckView>, probe: Probe, tick: nat): (r: map<string, CheckView>)
    ensures r.Keys == views.Keys
  {
    map k | k in views :: Apply(k, views[k], probe, tick)
  }

  /** The registry after ticks 0 .. n-1. */
  function Ticks(views: map<string, CheckView>, probe: Probe, n: nat): map<string, CheckView>
  {
    if n == 0 then views else Tick(Ticks(views, probe, n - 1), probe, n - 1)
  }

  /** Ticks neither add nor remove checks and never change a check's
      identity or configuration; after at least one tick every HEALTHY
      check has a zero counter. */
  lemma {:induction false} TicksKeepRegistry(views: map<string, CheckView>, probe: Probe, n: nat)
    ensures Ticks(views, probe, n).Keys == views.Keys
    ensures forall k :: k in views ==>
              var r := Ticks(views, probe, n)[k];
              r.id == views[k].id && r.maxCount == views[k].maxCount && r.kind == views[k].kind &&
              r.args == views[k].args && r.command == views[k].command
    ensures n >= 1 ==> forall k :: k in views ==>
              Ticks(views, probe, n)[k].health.status == HEALTHY ==> Ticks(views, probe, n)[k].health.count == 0
  {
    if n > 0 {
      TicksKeepRegistry(views, probe, n - 1);
    }
  }

  /** A registry that only uses the built-in placeholder checker is entirely
      HEALTHY, with zero counters, after any positive number of ticks. */
  lemma {:induction false} PlaceholderKeepsHealthy(views: map<string, CheckView>, probe: Probe, n: nat)
    requires n >= 1
    requires forall k :: k in views ==> views[k].command == HttpCheck
    ensures Ticks(views, probe, n).Keys == views.Keys
    ensures forall k :: k in views ==> Ticks(views, probe, n)[k].health == Health(HEALTHY, 0)
  {
    TicksKeepRegistry(views, probe, n - 1);
    var before := Ticks(views, probe, n - 1);
    forall k | k in views
      ensures Ticks(views, probe, n)[k].health == Health(HEALTHY, 0)
    {
      assert before[k].command == HttpCheck;
    }
  }

  /** How many ticks Run performs before returning, for any count other than -1. */
  function TickTarget(count: int): (n: nat)
    requires count != RUN_FOREVER
    ensures count >= 1 ==> n == count
    ensures count < 1 ==> n == 1
  {
    if count >= 1 then count else 1
  }

  /** One monitored unit: identity, configuration and live status. */
  class Check {
    var id: string
    var status: int
    var count: int
    var maxCount: int
    var kind: string
    var args: string
    var command: Checker

    /** NewCheck: counter 0, threshold 1, kind "http", the placeholder checker,
        and Go's zero values elsewhere (status HEALTHY, empty ID and arguments). */
    constructor ()
      ensures id == "" && args == ""
      ensures status == HEALTHY && count == 0 && maxCount == 1
      ensures kind == "http" && command == HttpCheck
    {
      id := "";
      status := HEALTHY;
      count := 0;
      maxCount := 1;
      kind := "http";
      args := "";
      command := HttpCheck;
    }

    function View(): CheckView
      reads this
    {
      CheckView(id, Health(status, count), maxCount, kind, args, command)
    }

    /** The sole mutator of status and counter. */
    method UpdateStatus(code: int, err: Option<Error>)
      modifies this
      ensures Health(status, count) == Step(old(Health(status, count)), maxCount, code, err)
      ensures View() == old(View()).(health := Health(status, count))
    {
      if err != None {
        status := UNKNOWN;
      } else {
        status := code;
      }

      if code == HEALTHY {
        count := 0;
        return;
      }

      count := count + 1;

      if count >= maxCount {
        status := FAILED;
      }
    }
  }

  /** A fresh check goes straight to FAILED on its first non-healthy result,
      with or without an error. */
  method FreshCheckFailsAtOnce(code: int, err: Option<Error>) returns (c: Check)
    requires code != HEALTHY
    ensures c.status == FAILED && c.count == 1
  {
    c := new Check();
    c.UpdateStatus(code, err);
  }

  /** The registry of checks, keyed by check ID, and the monitoring loop. */
  class Monitor {
    var checkInterval: int
    var checks: map<string, Check>

    /** NewMonitor: an empty registry and a three-second interval. */
    constructor ()
      ensures checks == map[] && checkInterval == DEFAULT_INTERVAL
    {
      checkInterval := DEFAULT_INTERVAL;
      checks := map[];
    }

    /** No check object is registered under two keys. */
    predicate Distinct()
      reads this
    {
      forall k1, k2 :: k1 in checks && k2 in checks && k1 != k2 ==> checks[k1] != checks[k2]
    }

    /** Every check is registered under its own ID. */
    ghost predicate KeyedById()
      reads this, checks.Values
    {
      forall k :: k in checks ==> checks[k].id == k
    }

    lemma KeyedByIdIsDistinct()
      requires KeyedById()
      ensures Distinct()
    {
    }

    ghost function Snapshot(): map<string, CheckView>
      reads this, checks.Values
    {
      map k | k in checks :: checks[k].View()
    }

    /** The keys whose check is HEALTHY (healthy == true) or not HEALTHY (healthy == false). */
    ghost function KeysWhere(healthy: bool): set<string>
      reads this, checks.Values
    {
      set k | k in checks && (checks[k].status == HEALTHY) == healthy
    }

    /** Healthy and Unhealthy split the registry's keys in two. */
    lemma Partition()
      ensures KeysWhere(true) !! KeysWhere(false)
      ensures KeysWhere(true) + KeysWhere(false) == checks.Keys
      ensures |KeysWhere(true)| + |KeysWhere(false)| == |checks|
    {
    }

    /** Upsert by ID: the check replaces any previous entry under its ID. */
    method AddCheck(check: Check)
      modifies this
      ensures checks == old(checks)[check.id := check]
      ensures checkInterval == old(checkInterval)
      ensures old(KeyedById()) ==> KeyedById()
    {
      checks := checks[check.id := check];
    }

    /** Deletes the entry under name; a no-op when there is none. */
    method RemoveCheck(name: string)
      modifies this
      ensures checks == old(checks) - {name}
      ensures name !in old(checks) ==> checks == old(checks)
      ensures checkInterval == old(checkInterval)
      ensures old(KeyedById()) ==> KeyedById()
    {
      checks := checks - {name};
    }

    /** The checks whose status is HEALTHY, one entry per registered key;
        keys[i] is the key list[i] was found under. */
    method Healthy() returns (list: seq<Check>, ghost keys: seq<string>)
      ensures |list| == |KeysWhere(true)|
      ensures forall i :: 0 <= i < |list| ==> list[i] in checks.Values && list[i].status == HEALTHY
      ensures forall k :: k in checks && checks[k].status == HEALTHY ==> checks[k] in list
      ensures Distinct() ==> forall i, j :: 0 <= i < j < |list| ==> list[i] != list[j]
      ensures |keys| == |list|
      ensures forall i :: 0 <= i < |keys| ==> keys[i] in KeysWhere(true) && list[i] == checks[keys[i]]
      ensures forall i, j :: 0 <= i < j < |keys| ==> keys[i] != keys[j]
      ensures forall k :: k in KeysWhere(true) ==> k in keys
    {
      list, keys := CollectWhere(true);
    }

    /** The checks whose status is anything but HEALTHY, one entry per registered key;
        keys[i] is the key list[i] was found under. */
    method Unhealthy() returns (list: seq<Check>, ghost keys: seq<string>)
      ensures |list| == |KeysWhere(false)|
      ensures forall i :: 0 <= i < |list| ==> list[i] in checks.Values && list[i].status != HEALTHY
      ensures forall k :: k in checks && checks[k].status != HEALTHY ==> checks[k] in list
      ensures Distinct() ==> forall i, j :: 0 <= i < j < |list| ==> list[i] != list[j]
      ensures |keys| == |list|
      ensures forall i :: 0 <= i < |keys| ==> keys[i] in KeysWhere(false) && list[i] == checks[keys[i]]
      ensures forall i, j :: 0 <= i < j < |keys| ==> keys[i] != keys[j]
      ensures forall k :: k in KeysWhere(false) ==> k in keys
    {
      list, keys := CollectWhere(false);
    }

    /** The loop shared by Healthy and Unhealthy: append every registered
        check whose status is (or is not) HEALTHY. */
    method CollectWhere(healthy: bool) returns (list: seq<Check>, ghost keys: seq<string>)
      ensures |list| == |KeysWhere(healthy)|
      ensures forall i :: 0 <= i < |list| ==>
                list[i] in checks.Values && (list[i].status == HEALTHY) == healthy
      ensures forall k :: k in checks && (checks[k].status == HEALTHY) == healthy ==> checks[k] in list
      ensures Distinct() ==> forall i, j :: 0 <= i < j < |list| ==> list[i] != list[j]
      ensures |keys| == |list|
      ensures forall i :: 0 <= i < |keys| ==> keys[i] in KeysWhere(healthy) && list[i] == checks[keys[i]]
      ensures forall i, j :: 0 <= i < j < |keys| ==> keys[i] != keys[j]
      ensures forall k :: k in KeysWhere(healthy) ==> k in keys
    {
      list := [];
      ghost var taken: seq<string> := [];
      var pending := checks.Keys;
      while pending != {}
        invariant pending <= checks.Keys
        invariant |list| == |taken|
        invariant forall i :: 0 <= i < |taken| ==>
                    taken[i] in checks && taken[i] !in pending && list[i] == checks[taken[i]] &&
                    (checks[taken[i]].status == HEALTHY) == healthy
        invariant forall i, j :: 0 <= i < j < |taken| ==> taken[i] != taken[j]
        invariant forall k :: k in checks && k !in pending && (checks[k].status == HEALTHY) == healthy ==>
                    k in taken
        decreases |pending|
      {
        var k :| k in pending;
        var check := checks[k];
        if (check.status == HEALTHY) == healthy {
          list := list + [check];
          taken := taken + [k];
        }
        pending := pending - {k};
      }
      keys := taken;
      DistinctKeysCount(taken, KeysWhere(healthy));
      forall k | k in checks && (checks[k].status == HEALTHY) == healthy
        ensures checks[k] in list
      {
        var i :| 0 <= i < |taken| && taken[i] == k;
        assert list[i] == checks[k];
      }
    }

    /** One tick: for every registered check, run its checker once and feed
        the result to UpdateStatus. */
    method RunTick(probe: Probe, tick: nat)
      requires Distinct()
      modifies checks.Values
      ensures Snapshot() == Tick(old(Snapshot()), probe, tick)
    {
      var pending := checks.Keys;
      while pending != {}
        invariant pending <= checks.Keys
        invariant forall k :: k in checks && k !in pending ==>
                    checks[k].View() == Apply(k, old(checks[k].View()), probe, tick)
        invariant forall k :: k in pending ==> checks[k].View() == old(checks[k].View())
        decreases |pending|
      {
        var k :| k in pending;
        var check := checks[k];
        var result := Execute(k, check.command, check.args, probe, tick);
        check.UpdateStatus(result.code, result.err);
        pending := pending - {k};
      }
    }

    /** The monitoring loop. The ticker never stops, so the model watches at
        most `horizon` ticks: with count == -1 the loop is still running when
        the horizon is reached; with any other count it returns after
        TickTarget(count) ticks, one tick when count <= 0. A non-positive
        interval gives no ticker at all (time.Tick returns a nil channel), so
        the loop waits forever without ticking. */
    method Run(count: int, probe: Probe, horizon: nat) returns (ticks: nat, returned: bool)
      requires Distinct()
      modifies checks.Values
      ensures returned <==> checkInterval > 0 && count != RUN_FOREVER && TickTarget(count) <= horizon
      ensures ticks == if checkInterval <= 0 then 0 else if returned then TickTarget(count) else horizon
      ensures Snapshot() == Ticks(old(Snapshot()), probe, ticks)
    {
      ghost var start := Snapshot();
      ticks, returned := 0, false;
      if checkInterval <= 0 {
        // Ranging over a nil channel blocks forever.
        return;
      }
      var i := 0;
      while ticks < horizon
        invariant ticks <= horizon
        invariant count != RUN_FOREVER ==> i == ticks && ticks < TickTarget(count)
        invariant Snapshot() == Ticks(start, probe, ticks)
      {
        RunTick(probe, ticks);
        ticks := ticks + 1;
        if count != RUN_FOREVER {
          i := i + 1;
          if i >= count {
            returned := true;
            return;
          }
        }
      }
    }
  }

  /** A repetition-free sequence drawn from a set, holding all of it, has the set's size. */
  lemma {:induction false} DistinctKeysCount(taken: seq<string>, wanted: set<string>)
    requires forall i, j :: 0 <= i < j < |taken| ==> taken[i] != taken[j]
    requires forall i :: 0 <= i < |taken| ==> taken[i] in wanted
    requires forall k :: k in wanted ==> k in taken
    ensures |taken| == |wanted|
  {
    if taken != [] {
      var last := taken[|taken| - 1];
      var init := taken[..|taken| - 1];
      forall k | k in wanted - {last} ensures k in init {
        var i :| 0 <= i < |taken| && taken[i] == k;
        assert i != |taken| - 1;
      }
      DistinctKeysCount(init, wanted - {last});
    }
  }
}

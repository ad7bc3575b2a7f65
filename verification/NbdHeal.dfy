/** The NBD supervisor: an endless loop that counts bad health checks, repairs after
    three of them, and issues `zpool clear` only over a transport it has verified.
    Device sizes, probe results, pool health and the clock are the environment's. */
module NbdHeal {

  const FAIL_THRESHOLD := 3
  const CLEAR_COOLDOWN := 300
  const WEDGED_WINDOW := 600

  datatype Health = ONLINE | SUSPENDED | MISSING | OTHER

  // What the environment shows of one device during one turn of the loop: whether it
  // is attached at the health check, at the start of a repair and at its second step,
  // and the outcome of the two raw reads a probe may make.
  datatype DeviceView = DeviceView(
    checked: bool, attached: bool, verified: bool, firstRead: bool, secondRead: bool)
  {
    predicate Answers() { firstRead || secondRead }
  }

  // What it shows of one pool, and the clock readings taken while repairing it.
  datatype PoolView = PoolView(
    checked: Health, found: Health, cooldownAt: nat, clearAt: nat, cleared: bool, after: Health)

  // One turn of the loop: the configuration may have changed since the last turn.
  datatype Turn = Turn(devices: seq<DeviceView>, pools: seq<PoolView>, gateAt: nat, endAt: nat)

  predicate Bad(t: Turn) {
    || (exists i :: 0 <= i < |t.devices| && !t.devices[i].checked)
    || (exists i :: 0 <= i < |t.pools| && t.pools[i].checked == SUSPENDED)
  }

  predicate TransportVerified(t: Turn) {
    forall i :: 0 <= i < |t.devices| ==> t.devices[i].verified && t.devices[i].Answers()
  }

  datatype Clear = Clear(pool: nat, at: nat)

  // What one turn did: nothing, or a repair with its attach attempts and clears.
  datatype Action = Idle | Repair(wedged: bool, attaches: seq<nat>, clears: seq<Clear>)

  datatype State = State(failures: nat, lastWedged: nat, lastClear: nat)

  /* ---- One turn, as a function of the state and the environment ---- */

  // Devices step 1 of a repair tries to connect: those not attached.
  function Attaches(devices: seq<DeviceView>): seq<nat> {
    if devices == [] then []
    else
      var n := |devices| - 1;
      Attaches(devices[..n]) + if devices[n].attached then [] else [n]
  }

  datatype Pass = Pass(wedged: bool, lastClear: nat, clears: seq<Clear>)

  predicate CoolingDown(lastClear: nat, now: nat) {
    now - lastClear < CLEAR_COOLDOWN && lastClear > 0
  }

  // Step 3 of a repair, up to the last of the given pools.
  function PoolPass(pools: seq<PoolView>, verified: bool, lastClear: nat): Pass {
    if pools == [] then Pass(false, lastClear, [])
    else
      var n := |pools| - 1;
      var p, before := pools[n], PoolPass(pools[..n], verified, lastClear);
      if p.found != SUSPENDED then before
      else if !verified || CoolingDown(before.lastClear, p.cooldownAt) then before.(wedged := true)
      else Pass(before.wedged || !p.cleared || p.after != ONLINE, p.clearAt, before.clears + [Clear(n, p.clearAt)])
  }

  predicate InWedgedWindow(s: State, t: Turn) {
    s.lastWedged > 0 && t.gateAt - s.lastWedged < WEDGED_WINDOW
  }

  function ActionOf(s: State, t: Turn): Action {
    if !Bad(t) || s.failures + 1 < FAIL_THRESHOLD || InWedgedWindow(s, t) then Idle
    else
      var pass := PoolPass(t.pools, TransportVerified(t), s.lastClear);
      Repair(pass.wedged, Attaches(t.devices), pass.clears)
  }

  function Next(s: State, t: Turn): State {
    if !Bad(t) then s.(failures := 0)
    else if ActionOf(s, t).Idle? then s.(failures := s.failures + 1)
    else
      var pass := PoolPass(t.pools, TransportVerified(t), s.lastClear);
      State(0, if pass.wedged then t.endAt else 0, pass.lastClear)
  }

  /* ---- The script's own form: fields, loops and exit codes ---- */

  class Supervisor {
    var failures: nat
    var lastWedged: nat
    var lastClear: nat

    constructor ()
      ensures Abstract() == State(0, 0, 0)
    {
      failures, lastWedged, lastClear := 0, 0, 0;
    }

    function Abstract(): State
      reads this
    {
      State(failures, lastWedged, lastClear)
    }

    // Step 1 of a repair.
    method AttachMissing(devices: seq<DeviceView>) returns (attaches: seq<nat>)
      ensures attaches == Attaches(devices)
    {
      attaches := [];
      for i := 0 to |devices|
        invariant attaches == Attaches(devices[..i])
      {
        assert devices[..i + 1][..i] == devices[..i];
        if !devices[i].attached {
          attaches := attaches + [i];
        }
      }
      assert devices[..|devices|] == devices;
    }

    // repair: returns 2 when a pool stays wedged, 0 otherwise.
    method Repair(t: Turn) returns (code: nat, attaches: seq<nat>, clears: seq<Clear>)
      modifies this`lastClear
      ensures var pass := PoolPass(t.pools, TransportVerified(t), old(lastClear));
              && code == (if pass.wedged then 2 else 0)
              && clears == pass.clears
              && lastClear == pass.lastClear
      ensures attaches == Attaches(t.devices)
    {
      var wedged, allAttached, allAnswer := false, true, true;
      clears := [];

      attaches := AttachMissing(t.devices);

      for i := 0 to |t.devices|
        invariant allAttached && allAnswer <==>
                  forall k :: 0 <= k < i ==> t.devices[k].verified && t.devices[k].Answers()
      {
        if !t.devices[i].verified {
          allAttached := false;
        } else if !t.devices[i].Answers() {
          allAnswer := false;
        }
      }

      ghost var verified := TransportVerified(t);
      for i := 0 to |t.pools|
        invariant Pass(wedged, lastClear, clears) == PoolPass(t.pools[..i], verified, old(lastClear))
      {
        var p := t.pools[i];
        assert t.pools[..i + 1][..i] == t.pools[..i];
        if p.found == MISSING {
        } else if p.found != SUSPENDED {
        } else if !allAttached || !allAnswer {
          wedged := true;
        } else if p.cooldownAt - lastClear < CLEAR_COOLDOWN && lastClear > 0 {
          wedged := true;
        } else {
          lastClear := p.clearAt;
          clears := clears + [Clear(i, p.clearAt)];
          if p.cleared {
            if p.after != ONLINE {
              wedged := true;
            }
          } else {
            wedged := true;
          }
        }
      }
      assert t.pools[..|t.pools|] == t.pools;
      code := if wedged then 2 else 0;
    }

    // The body of main's endless loop.
    method Cycle(t: Turn) returns (action: Action)
      modifies this
      ensures Abstract() == Next(old(Abstract()), t)
      ensures action == ActionOf(old(Abstract()), t)
    {
      var bad := false;
      for i := 0 to |t.devices|
        invariant bad <==> exists k :: 0 <= k < i && !t.devices[k].checked
      {
        if !t.devices[i].checked {
          bad := true;
        }
      }
      for i := 0 to |t.pools|
        invariant bad <==> || (exists k :: 0 <= k < |t.devices| && !t.devices[k].checked)
                           || (exists k :: 0 <= k < i && t.pools[k].checked == SUSPENDED)
      {
        if t.pools[i].checked == SUSPENDED {
          bad := true;
        }
      }

      if !bad {
        failures := 0;
        return Idle;
      }
      failures := failures + 1;
      if failures < FAIL_THRESHOLD {
        return Idle;
      }
      if lastWedged > 0 && t.gateAt - lastWedged < WEDGED_WINDOW {
        return Idle;
      }
      var code, attaches, clears := Repair(t);
      lastWedged := if code == 2 then t.endAt else 0;
      failures := 0;
      action := Action.Repair(code == 2, attaches, clears);
    }
  }

  /* ---- Runs ---- */

  function StateAfter(run: seq<Turn>): State {
    if run == [] then State(0, 0, 0)
    else Next(StateAfter(run[..|run| - 1]), run[|run| - 1])
  }

  function ActionAt(run: seq<Turn>, k: nat): Action
    requires k < |run|
  {
    ActionOf(StateAfter(run[..k]), run[k])
  }

  predicate RepairAt(run: seq<Turn>, k: nat)
    requires k < |run|
  {
    ActionAt(run, k).Repair?
  }

  predicate WedgedAt(run: seq<Turn>, k: nat)
    requires k < |run|
  {
    RepairAt(run, k) && ActionAt(run, k).wedged
  }

  function ClearsIn(a: Action): seq<Clear> {
    if a.Repair? then a.clears else []
  }

  // Every clear of a run, in the order issued.
  function ClearsOf(run: seq<Turn>): seq<Clear> {
    if run == [] then []
    else
      var n := |run| - 1;
      ClearsOf(run[..n]) + ClearsIn(ActionAt(run, n))
  }

  function LastReading(now: nat, pools: seq<PoolView>): nat {
    if pools == [] then now else pools[|pools| - 1].clearAt
  }

  // The clock is positive and never steps back between two readings.
  predicate PoolsInOrder(now: nat, pools: seq<PoolView>) {
    pools != [] ==>
      var n := |pools| - 1;
      && PoolsInOrder(now, pools[..n])
      && LastReading(now, pools[..n]) <= pools[n].cooldownAt <= pools[n].clearAt
  }

  function EndOf(run: seq<Turn>): nat {
    if run == [] then 1 else run[|run| - 1].endAt
  }

  predicate ClockInOrder(run: seq<Turn>) {
    run != [] ==>
      var n := |run| - 1;
      var t := run[n];
      && ClockInOrder(run[..n])
      && EndOf(run[..n]) <= t.gateAt
      && PoolsInOrder(t.gateAt, t.pools)
      && LastReading(t.gateAt, t.pools) <= t.endAt
  }

  /* ---- What a repair does ---- */

  predicate Ascending(s: seq<nat>) {
    forall i, j :: 0 <= i < j < |s| ==> s[i] < s[j]
  }

  lemma {:induction false} AttachesMissing(devices: seq<DeviceView>)
    ensures forall i :: i in Attaches(devices) <==> 0 <= i < |devices| && !devices[i].attached
    ensures Ascending(Attaches(devices))
  {
    if devices == [] {
    } else {
      var n := |devices| - 1;
      AttachesMissing(devices[..n]);
      var before := Attaches(devices[..n]);
      forall i | 0 <= i < |before| ensures before[i] < n {
        assert before[i] in before;
      }
      assert Attaches(devices) == before + if devices[n].attached then [] else [n];
    }
  }

  // A repair tries to connect exactly the devices that are not attached, in order and each
  // once.
  lemma RepairAttaches(run: seq<Turn>, k: nat)
    requires k < |run| && RepairAt(run, k)
    ensures var attaches := ActionAt(run, k).attaches;
            && (forall i :: i in attaches <==> 0 <= i < |run[k].devices| && !run[k].devices[i].attached)
            && forall i, j :: 0 <= i < j < |attaches| ==> attaches[i] < attaches[j]
  {
    AttachesMissing(run[k].devices);
  }

  lemma {:induction false} PassClears(pools: seq<PoolView>, verified: bool, lastClear: nat, c: Clear)
    requires c in PoolPass(pools, verified, lastClear).clears
    ensures verified && c.pool < |pools| && pools[c.pool].found == SUSPENDED && c.at == pools[c.pool].clearAt
  {
    var n := |pools| - 1;
    if c in PoolPass(pools[..n], verified, lastClear).clears {
      PassClears(pools[..n], verified, lastClear, c);
    }
  }

  // A clear is issued only in a repair in which every device discovered at that turn was
  // attached and answered its probe, and only for a pool found suspended.
  lemma ClearNeedsTransport(run: seq<Turn>, k: nat, c: Clear)
    requires k < |run| && RepairAt(run, k) && c in ActionAt(run, k).clears
    ensures forall d :: d in run[k].devices ==> d.verified && (d.firstRead || d.secondRead)
    ensures c.pool < |run[k].pools| && run[k].pools[c.pool].found == SUSPENDED
    ensures c.at == run[k].pools[c.pool].clearAt
  {
    PassClears(run[k].pools, TransportVerified(run[k]), StateAfter(run[..k]).lastClear, c);
  }

  ghost predicate Spaced(clears: seq<Clear>, lastClear: nat, now: nat) {
    && (forall i, j :: 0 <= i < j < |clears| ==> clears[i].at + CLEAR_COOLDOWN <= clears[j].at)
    && (if clears == [] then lastClear == 0 else lastClear == clears[|clears| - 1].at)
    && (clears != [] ==> 0 < lastClear <= now)
  }

  lemma SpacedAppend(clears: seq<Clear>, lastClear: nat, now: nat, cooldownAt: nat, c: Clear)
    requires Spaced(clears, lastClear, now) && 0 < now <= cooldownAt <= c.at
    requires !CoolingDown(lastClear, cooldownAt)
    ensures Spaced(clears + [c], c.at, c.at)
  {
    var longer := clears + [c];
    forall i, j | 0 <= i < j < |longer| ensures longer[i].at + CLEAR_COOLDOWN <= longer[j].at {
      if j == |clears| {
        assert clears[i].at <= lastClear;
      }
    }
  }

  lemma SpacedLater(clears: seq<Clear>, lastClear: nat, now: nat, later: nat)
    requires Spaced(clears, lastClear, now) && now <= later
    ensures Spaced(clears, lastClear, later) && Spaced(clears + [], lastClear, later)
  {
    assert clears + [] == clears;
  }

  lemma {:induction false} PassKeepsSpacing(pools: seq<PoolView>, verified: bool, s: nat, before: seq<Clear>, now: nat)
    requires Spaced(before, s, now) && PoolsInOrder(now, pools) && now > 0
    ensures var pass := PoolPass(pools, verified, s);
            Spaced(before + pass.clears, pass.lastClear, LastReading(now, pools))
    ensures now <= LastReading(now, pools)
  {
    if pools == [] {
      assert before + [] == before;
    } else {
      var n := |pools| - 1;
      PassKeepsSpacing(pools[..n], verified, s, before, now);
      var earlier, p := PoolPass(pools[..n], verified, s), pools[n];
      if p.found == SUSPENDED && verified && !CoolingDown(earlier.lastClear, p.cooldownAt) {
        var c := Clear(n, p.clearAt);
        SpacedAppend(before + earlier.clears, earlier.lastClear, LastReading(now, pools[..n]), p.cooldownAt, c);
        assert before + (earlier.clears + [c]) == before + earlier.clears + [c];
      } else {
        SpacedLater(before + earlier.clears, earlier.lastClear, LastReading(now, pools[..n]), p.clearAt);
      }
    }
  }

  lemma {:induction false} TurnAdvancesClock(now: nat, pools: seq<PoolView>)
    requires PoolsInOrder(now, pools)
    ensures now <= LastReading(now, pools)
  {
    if pools == [] {
    } else {
      TurnAdvancesClock(now, pools[..|pools| - 1]);
    }
  }

  lemma TurnKeepsSpacing(s: State, t: Turn, before: seq<Clear>, now: nat)
    requires Spaced(before, s.lastClear, now) && 0 < now <= t.gateAt
    requires PoolsInOrder(t.gateAt, t.pools) && LastReading(t.gateAt, t.pools) <= t.endAt
    ensures Spaced(before + ClearsIn(ActionOf(s, t)), Next(s, t).lastClear, t.endAt)
  {
    TurnAdvancesClock(t.gateAt, t.pools);
    SpacedLater(before, s.lastClear, now, t.gateAt);
    if ActionOf(s, t).Idle? {
      SpacedLater(before, s.lastClear, t.gateAt, t.endAt);
    } else {
      var pass := PoolPass(t.pools, TransportVerified(t), s.lastClear);
      PassKeepsSpacing(t.pools, TransportVerified(t), s.lastClear, before, t.gateAt);
      SpacedLater(before + pass.clears, pass.lastClear, LastReading(t.gateAt, t.pools), t.endAt);
    }
  }

  lemma {:induction false} RunKeepsSpacing(run: seq<Turn>)
    requires ClockInOrder(run)
    ensures Spaced(ClearsOf(run), StateAfter(run).lastClear, EndOf(run)) && EndOf(run) >= 1
  {
    if run == [] {
    } else {
      var n := |run| - 1;
      RunKeepsSpacing(run[..n]);
      TurnAdvancesClock(run[n].gateAt, run[n].pools);
      TurnKeepsSpacing(StateAfter(run[..n]), run[n], ClearsOf(run[..n]), EndOf(run[..n]));
    }
  }

  // Any two clears of a run, on any pools, are at least 300 seconds apart.
  lemma ClearsAreApart(run: seq<Turn>, i: nat, j: nat)
    requires ClockInOrder(run) && i < j < |ClearsOf(run)|
    ensures ClearsOf(run)[j].at - ClearsOf(run)[i].at >= 300
  {
    RunKeepsSpacing(run);
  }

  lemma {:induction false} PassClearsPool(pools: seq<PoolView>, verified: bool, lastClear: nat, j: nat)
    requires j < |pools|
    ensures Clear(j, pools[j].clearAt) in PoolPass(pools, verified, lastClear).clears <==>
            && pools[j].found == SUSPENDED && verified
            && !CoolingDown(PoolPass(pools[..j], verified, lastClear).lastClear, pools[j].cooldownAt)
  {
    var n := |pools| - 1;
    if j < n {
      assert pools[..n][..j] == pools[..j];
      PassClearsPool(pools[..n], verified, lastClear, j);
    } else {
      var c := Clear(n, pools[n].clearAt);
      if c in PoolPass(pools[..n], verified, lastClear).clears {
        PassClears(pools[..n], verified, lastClear, c);
      }
    }
  }

  lemma {:induction false} PoolsPrefixInOrder(now: nat, pools: seq<PoolView>, j: nat)
    requires PoolsInOrder(now, pools) && j < |pools|
    ensures PoolsInOrder(now, pools[..j]) && LastReading(now, pools[..j]) <= pools[j].cooldownAt
  {
    var n := |pools| - 1;
    if j < n {
      PoolsPrefixInOrder(now, pools[..n], j);
      assert pools[..n][..j] == pools[..j];
    }
  }

  // The clears issued before a repair reaches pool j, in this turn or an earlier one.
  function ClearsBefore(run: seq<Turn>, k: nat, j: nat): seq<Clear>
    requires k < |run| && j <= |run[k].pools|
  {
    ClearsOf(run[..k]) +
    PoolPass(run[k].pools[..j], TransportVerified(run[k]), StateAfter(run[..k]).lastClear).clears
  }

  // The k-th turn issued the clear.
  predicate ClearedAt(run: seq<Turn>, k: nat, c: Clear)
    requires k < |run|
  {
    RepairAt(run, k) && c in ActionAt(run, k).clears
  }

  // The same, read off the actions of the run.
  ghost predicate ClearedBefore(run: seq<Turn>, k: nat, j: nat, c: Clear)
    requires k < |run|
  {
    || (exists m :: 0 <= m < k && ClearedAt(run, m, c))
    || (ClearedAt(run, k, c) && c.pool < j)
  }

  lemma EarlierActions(run: seq<Turn>, n: nat, j: nat)
    requires j < n <= |run|
    ensures ActionAt(run[..n], j) == ActionAt(run, j) && run[..n][j] == run[j]
  {
    assert run[..n][..j] == run[..j];
  }

  lemma ClearedInFront(run: seq<Turn>, n: nat, m: nat, c: Clear)
    requires m < n <= |run|
    ensures ClearedAt(run[..n], m, c) <==> ClearedAt(run, m, c)
  {
    EarlierActions(run, n, m);
  }

  lemma {:induction false} ClearOfAction(run: seq<Turn>, c: Clear) returns (m: nat)
    requires c in ClearsOf(run)
    ensures m < |run| && ClearedAt(run, m, c)
  {
    var n := |run| - 1;
    if c in ClearsOf(run[..n]) {
      m := ClearOfAction(run[..n], c);
      ClearedInFront(run, n, m, c);
    } else {
      m := n;
    }
  }

  lemma {:induction false} ActionInClears(run: seq<Turn>, c: Clear, m: nat)
    requires m < |run| && ClearedAt(run, m, c)
    ensures c in ClearsOf(run)
  {
    var n := |run| - 1;
    if m < n {
      ClearedInFront(run, n, m, c);
      ActionInClears(run[..n], c, m);
    }
  }

  lemma ClearsOfActions(run: seq<Turn>, c: Clear)
    ensures c in ClearsOf(run) <==> exists m :: 0 <= m < |run| && ClearedAt(run, m, c)
  {
    if c in ClearsOf(run) {
      var m := ClearOfAction(run, c);
    }
    if m :| 0 <= m < |run| && ClearedAt(run, m, c) {
      ActionInClears(run, c, m);
    }
  }

  lemma {:induction false} PassPrefix(pools: seq<PoolView>, verified: bool, lastClear: nat, j: nat, c: Clear)
    requires j <= |pools|
    ensures c in PoolPass(pools[..j], verified, lastClear).clears <==>
            c in PoolPass(pools, verified, lastClear).clears && c.pool < j
  {
    var n := |pools| - 1;
    if j == |pools| {
      assert pools[..j] == pools;
      if c in PoolPass(pools, verified, lastClear).clears {
        PassClears(pools, verified, lastClear, c);
      }
    } else {
      PassPrefix(pools[..n], verified, lastClear, j, c);
      assert pools[..n][..j] == pools[..j];
    }
  }

  lemma ClearsBeforeAreActions(run: seq<Turn>, k: nat, j: nat, c: Clear)
    requires k < |run| && j <= |run[k].pools| && RepairAt(run, k)
    ensures c in ClearsBefore(run, k, j) <==> ClearedBefore(run, k, j, c)
  {
    ClearsOfActions(run[..k], c);
    forall m | 0 <= m < k ensures ClearedAt(run[..k], m, c) <==> ClearedAt(run, m, c) {
      EarlierActions(run, k, m);
    }
    PassPrefix(run[k].pools, TransportVerified(run[k]), StateAfter(run[..k]).lastClear, j, c);
  }

  lemma LatestClear(clears: seq<Clear>, lastClear: nat, now: nat, at: nat)
    requires Spaced(clears, lastClear, now)
    ensures !CoolingDown(lastClear, at) <==> forall c :: c in clears ==> at - c.at >= CLEAR_COOLDOWN
  {
    if clears == [] {
    } else {
      assert clears[|clears| - 1] in clears;
    }
  }

  // No clear of any pool was issued in the 300 seconds before the repair reaches pool j.
  ghost predicate NoRecentClear(run: seq<Turn>, k: nat, j: nat)
    requires k < |run| && j < |run[k].pools|
  {
    forall c :: ClearedBefore(run, k, j, c) ==> run[k].pools[j].cooldownAt - c.at >= 300
  }

  lemma CooldownIsRecentClear(run: seq<Turn>, k: nat, j: nat)
    requires k < |run| && ClockInOrder(run[..k]) && EndOf(run[..k]) <= run[k].gateAt
    requires PoolsInOrder(run[k].gateAt, run[k].pools)
    requires RepairAt(run, k) && j < |run[k].pools|
    ensures var pass := PoolPass(run[k].pools[..j], TransportVerified(run[k]), StateAfter(run[..k]).lastClear);
            !CoolingDown(pass.lastClear, run[k].pools[j].cooldownAt) <==> NoRecentClear(run, k, j)
  {
    var t, s := run[k], StateAfter(run[..k]);
    var verified := TransportVerified(t);
    PoolsPrefixInOrder(t.gateAt, t.pools, j);
    RunKeepsSpacing(run[..k]);
    PassKeepsSpacing(t.pools[..j], verified, s.lastClear, ClearsOf(run[..k]), t.gateAt);
    LatestClear(ClearsBefore(run, k, j), PoolPass(t.pools[..j], verified, s.lastClear).lastClear,
                LastReading(t.gateAt, t.pools[..j]), t.pools[j].cooldownAt);
    forall c ensures c in ClearsBefore(run, k, j) <==> ClearedBefore(run, k, j, c) {
      ClearsBeforeAreActions(run, k, j, c);
    }
  }

  // A repair clears a pool exactly when it finds it suspended, every device is attached and
  // answers, and no clear, of any pool, was issued in the last 300 seconds.
  lemma ClearsExactlyWhen(run: seq<Turn>, k: nat, j: nat)
    requires k < |run| && ClockInOrder(run[..k]) && EndOf(run[..k]) <= run[k].gateAt
    requires PoolsInOrder(run[k].gateAt, run[k].pools)
    requires RepairAt(run, k) && j < |run[k].pools|
    ensures var p := run[k].pools[j];
            Clear(j, p.clearAt) in ActionAt(run, k).clears <==>
            && p.found == SUSPENDED && (forall d :: d in run[k].devices ==> d.verified && (d.firstRead || d.secondRead))
            && NoRecentClear(run, k, j)
  {
    PassClearsPool(run[k].pools, TransportVerified(run[k]), StateAfter(run[..k]).lastClear, j);
    CooldownIsRecentClear(run, k, j);
  }

  lemma {:induction false} PassClearsOnce(pools: seq<PoolView>, verified: bool, lastClear: nat)
    ensures var clears := PoolPass(pools, verified, lastClear).clears;
            forall i, j :: 0 <= i < j < |clears| ==> clears[i].pool < clears[j].pool
  {
    if pools == [] {
    } else {
      var n := |pools| - 1;
      var before := PoolPass(pools[..n], verified, lastClear).clears;
      PassClearsOnce(pools[..n], verified, lastClear);
      forall i | 0 <= i < |before| ensures before[i].pool < n {
        PassClears(pools[..n], verified, lastClear, before[i]);
      }
      var clears := PoolPass(pools, verified, lastClear).clears;
      assert clears == before || clears == before + [Clear(n, pools[n].clearAt)];
    }
  }

  // The pools of a repair are cleared in order, each at most once.
  lemma ClearsOnce(run: seq<Turn>, k: nat)
    requires k < |run| && RepairAt(run, k)
    ensures var clears := ActionAt(run, k).clears;
            forall i, j :: 0 <= i < j < |clears| ==> clears[i].pool < clears[j].pool
  {
    PassClearsOnce(run[k].pools, TransportVerified(run[k]), StateAfter(run[..k]).lastClear);
    assert ActionAt(run, k).clears ==
           PoolPass(run[k].pools, TransportVerified(run[k]), StateAfter(run[..k]).lastClear).clears;
  }

  // What leaves pool j wedged at its turn.
  predicate LeftWedged(pools: seq<PoolView>, verified: bool, lastClear: nat, j: nat)
    requires j < |pools|
  {
    && pools[j].found == SUSPENDED
    && (|| !verified || CoolingDown(PoolPass(pools[..j], verified, lastClear).lastClear, pools[j].cooldownAt)
        || !pools[j].cleared || pools[j].after != ONLINE)
  }

  lemma {:induction false} PassWedges(pools: seq<PoolView>, verified: bool, lastClear: nat)
    ensures PoolPass(pools, verified, lastClear).wedged <==>
            exists j :: 0 <= j < |pools| && LeftWedged(pools, verified, lastClear, j)
  {
    if pools == [] {
    } else {
      var n := |pools| - 1;
      PassWedges(pools[..n], verified, lastClear);
      forall j | 0 <= j < n
        ensures LeftWedged(pools, verified, lastClear, j) <==> LeftWedged(pools[..n], verified, lastClear, j)
      {
        assert pools[..n][..j] == pools[..j];
      }
      assert LeftWedged(pools, verified, lastClear, n) ==> PoolPass(pools, verified, lastClear).wedged;
    }
  }

  // A repair ends wedged exactly when it found a pool suspended and some device was missing
  // or silent, or a clear had been issued in the last 300 seconds, or the clear failed, or
  // the pool was not online after it.
  lemma WedgedExactlyWhen(run: seq<Turn>, k: nat)
    requires k < |run| && ClockInOrder(run[..k]) && EndOf(run[..k]) <= run[k].gateAt
    requires PoolsInOrder(run[k].gateAt, run[k].pools) && RepairAt(run, k)
    ensures ActionAt(run, k).wedged <==>
            exists j :: 0 <= j < |run[k].pools| && run[k].pools[j].found == SUSPENDED &&
              (|| (exists d :: d in run[k].devices && (!d.verified || (!d.firstRead && !d.secondRead)))
               || !NoRecentClear(run, k, j) || !run[k].pools[j].cleared || run[k].pools[j].after != ONLINE)
  {
    var verified, lastClear := TransportVerified(run[k]), StateAfter(run[..k]).lastClear;
    PassWedges(run[k].pools, verified, lastClear);
    assert !verified <==> exists d :: d in run[k].devices && (!d.verified || (!d.firstRead && !d.secondRead));
    forall j | 0 <= j < |run[k].pools|
      ensures LeftWedged(run[k].pools, verified, lastClear, j) <==>
              run[k].pools[j].found == SUSPENDED &&
              (!verified || !NoRecentClear(run, k, j) || !run[k].pools[j].cleared || run[k].pools[j].after != ONLINE)
    {
      CooldownIsRecentClear(run, k, j);
    }
  }

  // Checks since the last healthy check or repair.
  function Streak(run: seq<Turn>): nat {
    if run == [] then 0
    else
      var n := |run| - 1;
      if !Bad(run[n]) || RepairAt(run, n) then 0 else Streak(run[..n]) + 1
  }

  lemma {:induction false} FailuresAreStreak(run: seq<Turn>)
    ensures StateAfter(run).failures == Streak(run)
  {
    if run == [] {
    } else {
      FailuresAreStreak(run[..|run| - 1]);
    }
  }

  // The wedged window, read off the whole run: some earlier repair left a pool wedged
  // less than 600 seconds ago.
  predicate WedgedRecently(run: seq<Turn>, now: nat) {
    exists j :: 0 <= j < |run| && WedgedAt(run, j) && now < run[j].endAt + 600
  }

  // When the wedged repairs of a run ended.
  function WedgeEnds(run: seq<Turn>): set<nat> {
    if run == [] then {}
    else
      var n := |run| - 1;
      WedgeEnds(run[..n]) + if WedgedAt(run, n) then {run[n].endAt} else {}
  }

  ghost predicate WindowTracked(ends: set<nat>, lastWedged: nat, now: nat) {
    && (lastWedged > 0 ==> lastWedged in ends)
    && forall e :: e in ends ==> 0 < e && (e <= lastWedged || e + WEDGED_WINDOW <= now)
  }

  lemma {:induction false} WedgeHasEnd(run: seq<Turn>, j: nat)
    requires j < |run| && WedgedAt(run, j)
    ensures run[j].endAt in WedgeEnds(run)
  {
    var n := |run| - 1;
    if j < n {
      EarlierActions(run, n, j);
      WedgeHasEnd(run[..n], j);
    }
  }

  lemma {:induction false} EndHasWedge(run: seq<Turn>, e: nat) returns (j: nat)
    requires e in WedgeEnds(run)
    ensures j < |run| && WedgedAt(run, j) && run[j].endAt == e
  {
    var n := |run| - 1;
    if e in WedgeEnds(run[..n]) {
      j := EndHasWedge(run[..n], e);
      EarlierActions(run, n, j);
    } else {
      j := n;
    }
  }

  lemma TurnTracksWindow(ends: set<nat>, s: State, t: Turn, now: nat)
    requires WindowTracked(ends, s.lastWedged, now) && now <= t.gateAt <= t.endAt && 0 < t.endAt
    ensures var action := ActionOf(s, t);
            WindowTracked(ends + (if action.Repair? && action.wedged then {t.endAt} else {}), Next(s, t).lastWedged, t.endAt)
  {
  }

  lemma {:induction false} RunTracksWindow(run: seq<Turn>)
    requires ClockInOrder(run)
    ensures WindowTracked(WedgeEnds(run), StateAfter(run).lastWedged, EndOf(run)) && EndOf(run) >= 1
  {
    if run == [] {
    } else {
      var n := |run| - 1;
      RunTracksWindow(run[..n]);
      TurnAdvancesClock(run[n].gateAt, run[n].pools);
      TurnTracksWindow(WedgeEnds(run[..n]), StateAfter(run[..n]), run[n], EndOf(run[..n]));
    }
  }

  lemma WindowIsRecent(run: seq<Turn>, s: State, t: Turn)
    requires WindowTracked(WedgeEnds(run), s.lastWedged, EndOf(run)) && EndOf(run) <= t.gateAt
    ensures InWedgedWindow(s, t) <==> WedgedRecently(run, t.gateAt)
  {
    if InWedgedWindow(s, t) {
      var j := EndHasWedge(run, s.lastWedged);
      assert t.gateAt < run[j].endAt + WEDGED_WINDOW;
    }
    if WedgedRecently(run, t.gateAt) {
      var j :| 0 <= j < |run| && WedgedAt(run, j) && t.gateAt < run[j].endAt + WEDGED_WINDOW;
      WedgeHasEnd(run, j);
    }
  }

  lemma TwoBadTurns(run: seq<Turn>, k: nat)
    requires k < |run|
    ensures Streak(run[..k]) >= 2 <==>
            k >= 2 && Bad(run[k - 2]) && Bad(run[k - 1]) && !RepairAt(run, k - 2) && !RepairAt(run, k - 1)
  {
    if k >= 1 {
      EarlierActions(run, k, k - 1);
      assert run[..k][..k - 1] == run[..k - 1];
      if k >= 2 {
        EarlierActions(run, k - 1, k - 2);
        assert run[..k - 1][..k - 2] == run[..k - 2];
      }
    }
  }

  // A check is bad unless every device is attached and no pool is suspended.
  lemma HealthyExactly(t: Turn)
    ensures !Bad(t) <==> (forall d :: d in t.devices ==> d.checked) && (forall p :: p in t.pools ==> p.checked != SUSPENDED)
  {
  }

  // On every run, a turn repairs exactly when its check and the two before it were bad
  // with no repair between them, and no wedged repair ended within the last 600 seconds.
  lemma RepairsExactlyWhen(run: seq<Turn>, k: nat)
    requires k < |run| && ClockInOrder(run[..k]) && EndOf(run[..k]) <= run[k].gateAt
    ensures RepairAt(run, k) <==>
            && k >= 2 && Bad(run[k - 2]) && Bad(run[k - 1]) && Bad(run[k])
            && !RepairAt(run, k - 2) && !RepairAt(run, k - 1)
            && !WedgedRecently(run[..k], run[k].gateAt)
  {
    var before := run[..k];
    RunTracksWindow(before);
    WindowIsRecent(before, StateAfter(before), run[k]);
    FailuresAreStreak(before);
    TwoBadTurns(run, k);
  }

  // The wedged window is open only after a wedged repair: the latest repair of the run
  // decides, and one that left no pool wedged closes it.
  lemma {:induction false} LatestRepairDecides(run: seq<Turn>, k: nat)
    requires k < |run| && RepairAt(run, k) && forall j :: k < j < |run| ==> !RepairAt(run, j)
    ensures StateAfter(run).lastWedged == if WedgedAt(run, k) then run[k].endAt else 0
  {
    var n := |run| - 1;
    if k < n {
      forall j | 0 <= j < n ensures RepairAt(run[..n], j) == RepairAt(run, j) && WedgedAt(run[..n], j) == WedgedAt(run, j) {
        EarlierActions(run, n, j);
      }
      LatestRepairDecides(run[..n], k);
      assert !RepairAt(run, n);
    }
  }
}

/** Start and stop runs over the project order: the commands they issue, and what is
    safe about the order they issue them in. */
module ComposeRuns {
  import opened Prelude
  import opened ComposeNetworks
  import opened ComposeOrder
  import opened ComposeFixpoint

  datatype Command =
    | Create(p: Project)          // docker compose create
    | Start(p: Project)           // docker compose start
    | Stop(p: Project)            // docker compose stop
    | Down(p: Project)            // docker compose down
    | RemoveNetwork(net: string)  // docker network rm

  /* ---- Runs as functions of the order and of the folders `cd` can enter ---- */

  function CreatePhase(order: seq<Project>, enter: set<string>): seq<Command> {
    if order == [] then []
    else
      var n := |order| - 1;
      CreatePhase(order[..n], enter) + if order[n].path in enter then [Create(order[n])] else []
  }

  function StartPhase(order: seq<Project>, enter: set<string>): seq<Command> {
    if order == [] then []
    else
      var n := |order| - 1;
      StartPhase(order[..n], enter) + if order[n].path in enter then [Start(order[n])] else []
  }

  function StartRun(order: seq<Project>, enter: set<string>): seq<Command> {
    CreatePhase(order, enter) + StartPhase(order, enter)
  }

  function RemoveNetworks(nets: seq<string>): seq<Command> {
    if nets == [] then []
    else RemoveNetworks(nets[..|nets| - 1]) + [RemoveNetwork(nets[|nets| - 1])]
  }

  // Both stop phases walk the order from its last project to its first.
  function StopPhase(order: seq<Project>, enter: set<string>): seq<Command> {
    if order == [] then []
    else
      var n := |order| - 1;
      (if order[n].path in enter then [Stop(order[n])] else []) + StopPhase(order[..n], enter)
  }

  function DownOf(p: Project, enter: set<string>): seq<Command> {
    if p.path in enter then [Down(p)] + RemoveNetworks(Declares(p)) else []
  }

  function DownPhase(order: seq<Project>, enter: set<string>): seq<Command> {
    if order == [] then []
    else
      var n := |order| - 1;
      DownOf(order[n], enter) + DownPhase(order[..n], enter)
  }

  function StopRun(order: seq<Project>, enter: set<string>): seq<Command> {
    StopPhase(order, enter) + DownPhase(order, enter)
  }

  /* ---- The script's loops ---- */

  method Ordered(files: seq<Project>) returns (order: seq<Project>)
    ensures order == FullOrder(files)
  {
    var orderer := new Orderer();
    var sweeps;
    order, sweeps := orderer.OrderComposeProjects(files);
  }

  lemma DownStep(order: seq<Project>, m: nat, enter: set<string>)
    requires 0 < m <= |order|
    ensures DownPhase(order[..m], enter) == DownOf(order[m - 1], enter) + DownPhase(order[..m - 1], enter)
  {
    assert order[..m][..m - 1] == order[..m - 1];
  }

  class Runner {
    var issued: seq<Command>

    constructor ()
      ensures issued == []
    {
      issued := [];
    }

    // The project loops of do_start.
    method DoStart(files: seq<Project>, enter: set<string>)
      modifies this
      ensures issued == old(issued) + StartRun(FullOrder(files), enter)
    {
      var order := Ordered(files);
      CreateAll(order, enter);
      StartAll(order, enter);
      Reassociate(old(issued), CreatePhase(order, enter), StartPhase(order, enter));
    }

    method CreateAll(order: seq<Project>, enter: set<string>)
      modifies this
      ensures issued == old(issued) + CreatePhase(order, enter)
    {
      for i := 0 to |order|
        invariant issued == old(issued) + CreatePhase(order[..i], enter)
      {
        assert order[..i + 1][..i] == order[..i];
        if order[i].path !in enter {
          continue;
        }
        issued := issued + [Create(order[i])];
      }
      assert order[..|order|] == order;
    }

    method StartAll(order: seq<Project>, enter: set<string>)
      modifies this
      ensures issued == old(issued) + StartPhase(order, enter)
    {
      for i := 0 to |order|
        invariant issued == old(issued) + StartPhase(order[..i], enter)
      {
        assert order[..i + 1][..i] == order[..i];
        if order[i].path !in enter {
          continue;
        }
        issued := issued + [Start(order[i])];
      }
      assert order[..|order|] == order;
    }

    method RemoveLeftovers(p: Project)
      modifies this
      ensures issued == old(issued) + RemoveNetworks(Declares(p))
    {
      var orderer := new Orderer();
      var nets := orderer.QualifiedNetworks(p);
      for i := 0 to |nets|
        invariant issued == old(issued) + RemoveNetworks(nets[..i])
      {
        assert nets[..i + 1][..i] == nets[..i];
        issued := issued + [RemoveNetwork(nets[i])];
      }
      assert nets[..|nets|] == nets;
    }

    // One turn of the second loop of do_stop.
    method TakeDown(p: Project, enter: set<string>)
      modifies this
      ensures issued == old(issued) + DownOf(p, enter)
    {
      if p.path !in enter {
        return;
      }
      issued := issued + [Down(p)];
      RemoveLeftovers(p);
    }

    // The project loops of do_stop, over the reversed order.
    method DoStop(files: seq<Project>, enter: set<string>)
      modifies this
      ensures issued == old(issued) + StopRun(FullOrder(files), enter)
    {
      var order := Ordered(files);
      var reversed := Reverse(order);
      StopAll(order, reversed, enter);
      DownAll(order, reversed, enter);
      Reassociate(old(issued), StopPhase(order, enter), DownPhase(order, enter));
    }

    method Reverse(order: seq<Project>) returns (reversed: seq<Project>)
      ensures Reverses(reversed, order)
    {
      reversed := [];
      for i := |order| downto 0
        invariant |reversed| == |order| - i
        invariant forall k :: 0 <= k < |reversed| ==> reversed[k] == order[|order| - 1 - k]
      {
        reversed := reversed + [order[i]];
      }
    }

    ghost predicate Reverses(reversed: seq<Project>, order: seq<Project>) {
      |reversed| == |order| && forall k :: 0 <= k < |order| ==> reversed[k] == order[|order| - 1 - k]
    }

    method StopAll(ghost order: seq<Project>, reversed: seq<Project>, enter: set<string>)
      requires Reverses(reversed, order)
      modifies this
      ensures issued == old(issued) + StopPhase(order, enter)
    {
      ghost var n := |order|;
      assert order[..n] == order;
      for i := 0 to |reversed|
        invariant issued + StopPhase(order[..n - i], enter) == old(issued) + StopPhase(order, enter)
      {
        var p := reversed[i];
        assert order[..n - i][..n - i - 1] == order[..n - i - 1];
        if p.path !in enter {
          continue;
        }
        issued := issued + [Stop(p)];
      }
    }

    method DownAll(ghost order: seq<Project>, reversed: seq<Project>, enter: set<string>)
      requires Reverses(reversed, order)
      modifies this
      ensures issued == old(issued) + DownPhase(order, enter)
    {
      ghost var left := DownPhase(order, enter);
      ghost var target := issued + left;
      assert order[..|order|] == order;
      for i := 0 to |reversed|
        invariant left == DownPhase(order[..|order| - i], enter)
        invariant issued + left == target
      {
        left := DownNext(order, |order| - i, reversed[i], enter, left, target);
      }
      assert order[..0] == [] && left == [];
    }

    method DownNext(ghost order: seq<Project>, ghost m: nat, p: Project, enter: set<string>,
                    ghost left: seq<Command>, ghost target: seq<Command>) returns (ghost left': seq<Command>)
      requires 0 < m <= |order| && p == order[m - 1]
      requires left == DownPhase(order[..m], enter) && issued + left == target
      modifies this
      ensures left' == DownPhase(order[..m - 1], enter) && issued + left' == target
    {
      left' := DownPhase(order[..m - 1], enter);
      DownStep(order, m, enter);
      Reassociate(issued, DownOf(p, enter), left');
      TakeDown(p, enter);
    }
  }

  /* ---- What a start run keeps ---- */

  // The networks that exist after a run of commands, some of which may fail.
  function NetworksAfter(run: seq<Command>, before: set<string>, failed: set<Command>): set<string> {
    if run == [] then before
    else
      var n := |run| - 1;
      var nets := NetworksAfter(run[..n], before, failed);
      if run[n] in failed then nets
      else
        match run[n]
        case Create(p) => nets + (set net | net in Declares(p))
        case Down(p) => nets - (set net | net in Declares(p))
        case RemoveNetwork(net) => nets - {net}
        case _ => nets
  }

  predicate OnlyAdds(run: seq<Command>) {
    forall i :: 0 <= i < |run| ==> run[i].Create? || run[i].Start?
  }

  lemma {:induction false} StartRunOnlyAdds(order: seq<Project>, enter: set<string>)
    ensures OnlyAdds(CreatePhase(order, enter)) && OnlyAdds(StartPhase(order, enter))
  {
    if order == [] {
    } else {
      StartRunOnlyAdds(order[..|order| - 1], enter);
    }
  }

  // Where nothing removes networks, one successful create is enough.
  lemma {:induction false} CreatedPersists(run: seq<Command>, before: set<string>, failed: set<Command>, q: Project, net: string)
    requires OnlyAdds(run) && Create(q) in run && Create(q) !in failed && net in Declares(q)
    ensures net in NetworksAfter(run, before, failed)
  {
    var n := |run| - 1;
    if run[n] != Create(q) {
      assert run == run[..n] + [run[n]];
      CreatedPersists(run[..n], before, failed, q, net);
    }
  }

  lemma {:induction false} CreatesEntered(order: seq<Project>, enter: set<string>, q: Project)
    requires q in order && q.path in enter
    ensures Create(q) in CreatePhase(order, enter)
  {
    var n := |order| - 1;
    if order[n] != q {
      assert order == order[..n] + [order[n]];
      CreatesEntered(order[..n], enter, q);
    }
  }

  // The i-th create command is that of some project; the ones before it in the order
  // have had theirs.
  lemma {:induction false} CreateAt(order: seq<Project>, enter: set<string>, i: nat) returns (k: nat)
    requires i < |CreatePhase(order, enter)|
    ensures k < |order| && CreatePhase(order, enter)[i] == Create(order[k]) && order[k].path in enter
    ensures CreatePhase(order, enter)[..i] == CreatePhase(order[..k], enter)
  {
    var n := |order| - 1;
    var before := CreatePhase(order[..n], enter);
    if i < |before| {
      k := CreateAt(order[..n], enter, i);
      assert order[..n][..k] == order[..k];
      assert CreatePhase(order, enter)[..i] == before[..i];
    } else {
      k := n;
      assert CreatePhase(order, enter)[..i] == before;
    }
  }

  lemma {:induction false} StartAt(order: seq<Project>, enter: set<string>, i: nat)
    requires i < |StartPhase(order, enter)|
    ensures StartPhase(order, enter)[i].Start? && StartPhase(order, enter)[i].p in order
    ensures StartPhase(order, enter)[i].p.path in enter
  {
    var n := |order| - 1;
    if i < |StartPhase(order[..n], enter)| {
      StartAt(order[..n], enter, i);
    }
  }

  lemma EarlierProvider(files: seq<Project>, k: nat, net: string) returns (q: Project)
    requires k < |FullOrder(files)| && FullOrder(files)[k] in Order(files).resolved
    requires Joins(FullOrder(files)[k], net) && Provided(files, net)
    ensures q in FullOrder(files)[..k] && q in files && net in Declares(q)
  {
    var order, resolved, stuck := FullOrder(files), Order(files).resolved, Order(files).stuck;
    OrderSplits(files);
    assert k >= |resolved| ==> order[k] == stuck[k - |resolved|];
    PartsAreDisjoint(files, order[k]);
    assert resolved[..k] == order[..k];
    assert Provided(resolved[..k], net);
    NetsOfMember(order[..k], net);
    q :| q in order[..k] && net in Declares(q);
    Members(files, resolved, stuck, q);
  }

  // On every start run, each network that a resolved project joins and the input declares
  // exists before the project is created or started, as long as the folders of the
  // network's declarers can be entered and their create commands succeed.
  lemma StartSafe(files: seq<Project>, enter: set<string>, failed: set<Command>, before: set<string>, i: nat, net: string)
    requires i < |StartRun(FullOrder(files), enter)| && Provided(files, net)
    requires var c := StartRun(FullOrder(files), enter)[i];
             (c.Create? || c.Start?) && c.p in Order(files).resolved && Joins(c.p, net)
    requires forall q :: q in files && net in Declares(q) ==> q.path in enter && Create(q) !in failed
    ensures net in NetworksAfter(StartRun(FullOrder(files), enter)[..i], before, failed)
  {
    var order := FullOrder(files);
    var creates, starts, run := CreatePhase(order, enter), StartPhase(order, enter), StartRun(order, enter);
    StartRunOnlyAdds(order, enter);
    var q;
    if i < |creates| {
      var k := CreateAt(order, enter, i);
      q := EarlierProvider(files, k, net);
      CreatesEntered(order[..k], enter, q);
      assert run[..i] == CreatePhase(order[..k], enter);
    } else {
      StartAt(order, enter, i - |creates|);
      var k :| 0 <= k < |order| && order[k] == run[i].p;
      q := EarlierProvider(files, k, net);
      CreatesEntered(order, enter, q);
      assert run[..i] == creates + starts[..i - |creates|];
    }
    CreatedPersists(run[..i], before, failed, q, net);
  }

  // No create or start command is issued before every network the project joins, and the
  // input declares, exists.
  ghost predicate StartIsSafe(run: seq<Command>, files: seq<Project>, before: set<string>, failed: set<Command>) {
    forall i, net :: 0 <= i < |run| && (run[i].Create? || run[i].Start?) && Joins(run[i].p, net) && Provided(files, net) ==>
      net in NetworksAfter(run[..i], before, failed)
  }

  // A project of the list whose create command is issued and succeeds declares the network.
  ghost predicate Created(order: seq<Project>, enter: set<string>, failed: set<Command>, net: string) {
    exists q :: q in order && q.path in enter && Create(q) !in failed && net in Declares(q)
  }

  lemma CreatePhaseStep(order: seq<Project>, enter: set<string>, before: set<string>, failed: set<Command>)
    requires order != []
    ensures var n := |order| - 1;
            var p, nets := order[n], NetworksAfter(CreatePhase(order[..n], enter), before, failed);
            NetworksAfter(CreatePhase(order, enter), before, failed) ==
            if p.path in enter && Create(p) !in failed then nets + (set net | net in Declares(p)) else nets
  {
    var n := |order| - 1;
    var head := CreatePhase(order[..n], enter);
    if order[n].path in enter {
      assert (head + [Create(order[n])])[..|head|] == head;
    } else {
      assert head + [] == head;
    }
  }

  // The networks after the first phase.
  lemma {:induction false} NetworksCreated(order: seq<Project>, enter: set<string>, before: set<string>, failed: set<Command>, net: string)
    ensures net in NetworksAfter(CreatePhase(order, enter), before, failed) <==>
            net in before || Created(order, enter, failed, net)
  {
    if order == [] {
    } else {
      var n := |order| - 1;
      NetworksCreated(order[..n], enter, before, failed, net);
      CreatePhaseStep(order, enter, before, failed);
      assert order == order[..n] + [order[n]];
    }
  }

  lemma {:induction false} OnlyAddsKeeps(run: seq<Command>, m: nat, before: set<string>, failed: set<Command>)
    requires OnlyAdds(run) && m <= |run|
    ensures NetworksAfter(run[..m], before, failed) <= NetworksAfter(run, before, failed)
  {
    if m == |run| {
      assert run[..m] == run;
    } else {
      var n := |run| - 1;
      OnlyAddsKeeps(run[..n], m, before, failed);
      assert run[..n][..m] == run[..m];
    }
  }

  // Where the create command of the k-th project stands.
  lemma {:induction false} CreatePosition(order: seq<Project>, enter: set<string>, k: nat)
    requires k < |order| && order[k].path in enter
    ensures var i := |CreatePhase(order[..k], enter)|;
            && i < |CreatePhase(order, enter)| && CreatePhase(order, enter)[i] == Create(order[k])
            && CreatePhase(order, enter)[..i] == CreatePhase(order[..k], enter)
  {
    var n := |order| - 1;
    if k < n {
      CreatePosition(order[..n], enter, k);
      assert order[..n][..k] == order[..k];
      assert CreatePhase(order[..n], enter) <= CreatePhase(order, enter);
    }
  }

  // What the first phase has created is there throughout the second.
  lemma CreatedByStart(order: seq<Project>, enter: set<string>, before: set<string>, failed: set<Command>, net: string, i: nat)
    requires |CreatePhase(order, enter)| <= i <= |StartRun(order, enter)|
    requires net in before || Created(order, enter, failed, net)
    ensures net in NetworksAfter(StartRun(order, enter)[..i], before, failed)
  {
    var run, creates := StartRun(order, enter), CreatePhase(order, enter);
    StartRunOnlyAdds(order, enter);
    NetworksCreated(order, enter, before, failed, net);
    OnlyAddsKeeps(run[..i], |creates|, before, failed);
    assert run[..i][..|creates|] == creates;
  }

  // Every enterable project finds each network it joins, if any input declares it, already
  // there or created by a project before it.
  ghost predicate SuppliedInOrder(order: seq<Project>, enter: set<string>, files: seq<Project>, before: set<string>, failed: set<Command>) {
    forall k, net :: 0 <= k < |order| && order[k].path in enter && Joins(order[k], net) && Provided(files, net) ==>
      net in before || Created(order[..k], enter, failed, net)
  }

  lemma SuppliedStartIsSafe(order: seq<Project>, enter: set<string>, files: seq<Project>, before: set<string>, failed: set<Command>)
    requires SuppliedInOrder(order, enter, files, before, failed)
    ensures StartIsSafe(StartRun(order, enter), files, before, failed)
  {
    var creates, starts, run := CreatePhase(order, enter), StartPhase(order, enter), StartRun(order, enter);
    StartRunOnlyAdds(order, enter);
    forall i, net | 0 <= i < |run| && (run[i].Create? || run[i].Start?) && Joins(run[i].p, net) && Provided(files, net)
      ensures net in NetworksAfter(run[..i], before, failed)
    {
      if i < |creates| {
        var k := CreateAt(order, enter, i);
        assert run[..i] == CreatePhase(order[..k], enter);
        NetworksCreated(order[..k], enter, before, failed, net);
      } else {
        StartAt(order, enter, i - |creates|);
        var k :| 0 <= k < |order| && order[k] == run[i].p;
        assert net in before || Created(order[..k], enter, failed, net);
        assert net in before || Created(order, enter, failed, net);
        CreatedByStart(order, enter, before, failed, net, i);
      }
    }
  }

  // A start run, over any order, with any folders that can be entered and any commands
  // that fail, is safe exactly when every project is supplied in that order.
  lemma StartSafeExactlyWhen(order: seq<Project>, enter: set<string>, files: seq<Project>, before: set<string>, failed: set<Command>)
    ensures StartIsSafe(StartRun(order, enter), files, before, failed) <==>
            SuppliedInOrder(order, enter, files, before, failed)
  {
    var run := StartRun(order, enter);
    if SuppliedInOrder(order, enter, files, before, failed) {
      SuppliedStartIsSafe(order, enter, files, before, failed);
    }
    if StartIsSafe(run, files, before, failed) {
      forall k, net | 0 <= k < |order| && order[k].path in enter && Joins(order[k], net) && Provided(files, net)
        ensures net in before || Created(order[..k], enter, failed, net)
      {
        CreatePosition(order, enter, k);
        var i := |CreatePhase(order[..k], enter)|;
        assert run[i] == Create(order[k]) && run[..i] == CreatePhase(order[..k], enter);
        NetworksCreated(order[..k], enter, before, failed, net);
      }
    }
  }

  // From an empty machine, with every folder enterable and no create command failing, the
  // start run over the computed order is safe exactly when nothing is stuck.
  lemma StartRunSafe(files: seq<Project>, enter: set<string>, failed: set<Command>)
    requires forall p :: p in files ==> p.path in enter && Create(p) !in failed
    ensures StartIsSafe(StartRun(FullOrder(files), enter), files, {}, failed) <==> Order(files).stuck == []
    ensures StartIsSafe(StartRun(FullOrder(files), enter), files, {}, failed) <==> exists rank :: Grounds(rank, files)
  {
    var order := FullOrder(files);
    FullOrderPermutes(files);
    StartSafeExactlyWhen(order, enter, files, {}, failed);
    NothingStuckExactlyWhen(files);
    forall p | p in order ensures p.path in enter && Create(p) !in failed {
      PermutedMembers(order, files, p);
    }
    forall k, net | 0 <= k < |order| ensures Created(order[..k], enter, failed, net) <==> Provided(order[..k], net) {
      NetsOfMember(order[..k], net);
    }
  }

  /* ---- What a stop run keeps ---- */

  predicate Removes(c: Command, net: string) {
    match c
    case Down(p) => net in Declares(p)
    case RemoveNetwork(n) => n == net
    case _ => false
  }

  // No network is removed until every project joining it has been taken down.
  ghost predicate StopSafe(run: seq<Command>, order: seq<Project>) {
    forall i, net, p :: 0 <= i < |run| && Removes(run[i], net) && p in order && Joins(p, net) ==> Down(p) in run[..i]
  }

  lemma {:induction false} StopPhaseStops(order: seq<Project>, enter: set<string>)
    ensures forall c :: c in StopPhase(order, enter) <==> c.Stop? && c.p in order && c.p.path in enter
  {
    if order == [] {
    } else {
      StopPhaseStops(order[..|order| - 1], enter);
      assert order == order[..|order| - 1] + [order[|order| - 1]];
    }
  }

  lemma {:induction false} LeftoverCommands(nets: seq<string>)
    ensures forall c :: c in RemoveNetworks(nets) ==> c.RemoveNetwork? && c.net in nets
  {
    if nets == [] {
    } else {
      LeftoverCommands(nets[..|nets| - 1]);
    }
  }

  lemma {:induction false} DownPhaseDowns(order: seq<Project>, enter: set<string>)
    ensures forall c :: c in DownPhase(order, enter) ==> c.Down? || c.RemoveNetwork?
  {
    if order == [] {
    } else {
      DownPhaseDowns(order[..|order| - 1], enter);
      LeftoverCommands(Declares(order[|order| - 1]));
    }
  }

  lemma Appended<T>(head: seq<T>, tail: seq<T>, both: seq<T>, i: nat)
    requires both == head + tail && i < |both|
    ensures i < |head| ==> both[i] == head[i] && both[i] in head
    ensures i >= |head| ==> both[i] == tail[i - |head|]
    ensures i >= |head| ==> forall x :: x in both[..i] <==> x in head || x in tail[..i - |head|]
    ensures i >= |head| && head != [] ==> head[0] in both[..i]
  {
    if i >= |head| {
      assert both[..i] == head + tail[..i - |head|];
    }
  }

  // By the time of any other command, exactly the projects whose folder can be entered
  // have been stopped.
  lemma AllStoppedFirst(order: seq<Project>, enter: set<string>, i: nat, p: Project)
    requires i < |StopRun(order, enter)| && !StopRun(order, enter)[i].Stop? && p in order
    ensures Stop(p) in StopRun(order, enter)[..i] <==> p.path in enter
  {
    StopPhaseStops(order, enter);
    DownPhaseDowns(order, enter);
    var run, stops, downs := StopRun(order, enter), StopPhase(order, enter), DownPhase(order, enter);
    Appended(stops, downs, run, i);
    var m := i - |stops|;
    assert forall c :: c in downs[..m] ==> c in downs;
  }

  // The commands the second phase issues for one project.
  predicate BelongsTo(c: Command, p: Project) {
    c == Down(p) || (c.RemoveNetwork? && c.net in Declares(p))
  }

  lemma DownCommands(p: Project, enter: set<string>)
    ensures p.path in enter ==> DownOf(p, enter) != [] && DownOf(p, enter)[0] == Down(p)
    ensures forall c :: c in DownOf(p, enter) ==> p.path in enter && BelongsTo(c, p)
  {
    LeftoverCommands(Declares(p));
  }

  // The enterable projects after the j-th are down.
  ghost predicate DownAfter(order: seq<Project>, enter: set<string>, j: nat, issued: seq<Command>) {
    forall k :: j < k < |order| && order[k].path in enter ==> Down(order[k]) in issued
  }

  lemma DownAfterStep(order: seq<Project>, enter: set<string>, j: nat, head: seq<Command>, tail: seq<Command>, both: seq<Command>, i: nat)
    requires both == head + tail && |head| <= i < |both| && order != []
    requires order[|order| - 1].path in enter ==> head != [] && head[0] == Down(order[|order| - 1])
    requires DownAfter(order[..|order| - 1], enter, j, tail[..i - |head|])
    ensures DownAfter(order, enter, j, both[..i])
  {
    Appended(head, tail, both, i);
    forall k | j < k < |order| && order[k].path in enter ensures Down(order[k]) in both[..i] {
      if k < |order| - 1 {
        assert Down(order[..|order| - 1][k]) in tail[..i - |head|];
      }
    }
  }

  // The project a command of the second phase belongs to; the enterable ones after it in
  // the order are down by then.
  lemma {:induction false} DownAt(order: seq<Project>, enter: set<string>, i: nat) returns (j: nat)
    requires i < |DownPhase(order, enter)|
    ensures j < |order| && order[j].path in enter && BelongsTo(DownPhase(order, enter)[i], order[j])
    ensures DownAfter(order, enter, j, DownPhase(order, enter)[..i])
  {
    var n := |order| - 1;
    var head, tail := DownOf(order[n], enter), DownPhase(order[..n], enter);
    DownCommands(order[n], enter);
    Appended(head, tail, DownPhase(order, enter), i);
    if i < |head| {
      j := n;
    } else {
      j := DownAt(order[..n], enter, i - |head|);
      DownAfterStep(order, enter, j, head, tail, DownPhase(order, enter), i);
    }
  }

  lemma {:induction false} DownsAreMembers(order: seq<Project>, enter: set<string>)
    ensures forall p :: Down(p) in DownPhase(order, enter) ==> p in order && p.path in enter
  {
    if order == [] {
    } else {
      DownsAreMembers(order[..|order| - 1], enter);
      DownCommands(order[|order| - 1], enter);
      assert order == order[..|order| - 1] + [order[|order| - 1]];
    }
  }

  lemma BeforeLast(order: seq<Project>, k: nat)
    requires k < |order| && Distinct(order) && order[k] in order[..|order| - 1]
    ensures k < |order| - 1
  {
  }

  // Where an enterable project is taken down: only enterable ones after it in the order
  // are down by then.
  lemma {:induction false} DownPosition(order: seq<Project>, enter: set<string>, j: nat) returns (i: nat)
    requires j < |order| && Distinct(order) && order[j].path in enter
    ensures i < |DownPhase(order, enter)| && DownPhase(order, enter)[i] == Down(order[j])
    ensures forall k :: 0 <= k < |order| && Down(order[k]) in DownPhase(order, enter)[..i] ==>
              j < k && order[k].path in enter
  {
    var n := |order| - 1;
    var head, tail, both := DownOf(order[n], enter), DownPhase(order[..n], enter), DownPhase(order, enter);
    DownCommands(order[n], enter);
    if j == n {
      i := 0;
      Appended(head, tail, both, 0);
    } else {
      var i' := DownPosition(order[..n], enter, j);
      i := |head| + i';
      Appended(head, tail, both, i);
      DownsAreMembers(order[..n], enter);
      forall k | 0 <= k < |order| && Down(order[k]) in both[..i] ensures j < k && order[k].path in enter {
        if Down(order[k]) in head {
          assert BelongsTo(Down(order[k]), order[n]);
        } else {
          BeforeLast(order, k);
          assert Down(order[..n][k]) in tail[..i'];
        }
      }
    }
  }

  // Every project joining a network of a project that is taken down is taken down too,
  // and comes after it in the order.
  ghost predicate TornDownInOrder(order: seq<Project>, enter: set<string>) {
    forall i, j, net :: (0 <= i < |order| && 0 <= j < |order| && Joins(order[i], net) && net in Declares(order[j])
                         && order[j].path in enter) ==> order[i].path in enter && j < i
  }

  lemma OrderedStopIsSafe(order: seq<Project>, enter: set<string>)
    requires TornDownInOrder(order, enter)
    ensures StopSafe(StopRun(order, enter), order)
  {
    var run, stops, downs := StopRun(order, enter), StopPhase(order, enter), DownPhase(order, enter);
    StopPhaseStops(order, enter);
    forall i, net, p | 0 <= i < |run| && Removes(run[i], net) && p in order && Joins(p, net)
      ensures Down(p) in run[..i]
    {
      Appended(stops, downs, run, i);
      var j := DownAt(order, enter, i - |stops|);
      assert net in Declares(order[j]);
      var k :| 0 <= k < |order| && order[k] == p;
      assert j < k && order[k].path in enter;
      assert Down(order[k]) in downs[..i - |stops|];
    }
  }

  lemma SafeStopIsOrdered(order: seq<Project>, enter: set<string>)
    requires Distinct(order) && StopSafe(StopRun(order, enter), order)
    ensures TornDownInOrder(order, enter)
  {
    var run, stops, downs := StopRun(order, enter), StopPhase(order, enter), DownPhase(order, enter);
    StopPhaseStops(order, enter);
    forall k, j, net | 0 <= k < |order| && 0 <= j < |order| && Joins(order[k], net) && net in Declares(order[j])
                       && order[j].path in enter
      ensures order[k].path in enter && j < k
    {
      var i := DownPosition(order, enter, j);
      Appended(stops, downs, run, |stops| + i);
      assert Removes(run[|stops| + i], net);
      assert Down(order[k]) in run[..|stops| + i];
      assert Down(order[k]) in downs[..i];
    }
  }

  // A stop run over any order without repeats, whatever folders can be entered, is safe
  // exactly when joiners are torn down, and in order.
  lemma StopSafeExactlyWhen(order: seq<Project>, enter: set<string>)
    requires Distinct(order)
    ensures StopSafe(StopRun(order, enter), order) <==> TornDownInOrder(order, enter)
  {
    if TornDownInOrder(order, enter) {
      OrderedStopIsSafe(order, enter);
    }
    if StopSafe(StopRun(order, enter), order) {
      SafeStopIsOrdered(order, enter);
    }
  }

  // Every project joining a network that some input declares can be entered.
  ghost predicate JoinersEnter(files: seq<Project>, enter: set<string>) {
    forall p, net :: p in files && Joins(p, net) && Provided(files, net) ==> p.path in enter
  }

  lemma TornDownSplits(files: seq<Project>, order: seq<Project>, enter: set<string>)
    requires multiset(order) == multiset(files)
    requires forall p :: p in files && Declares(p) != [] ==> p.path in enter
    ensures TornDownInOrder(order, enter) <==> JoinersEnter(files, enter) && DeclarersFirst(order)
  {
    forall p ensures p in order <==> p in files {
      PermutedMembers(order, files, p);
    }
    forall net ensures Provided(files, net) <==> exists q :: q in files && net in Declares(q) {
      NetsOfMember(files, net);
    }
    if TornDownInOrder(order, enter) {
      forall p, net | p in files && Joins(p, net) && Provided(files, net) ensures p.path in enter {
        var q :| q in files && net in Declares(q);
        var i :| 0 <= i < |order| && order[i] == p;
        var j :| 0 <= j < |order| && order[j] == q;
      }
    }
    if JoinersEnter(files, enter) {
      forall i, j, net | 0 <= i < |order| && 0 <= j < |order| && Joins(order[i], net) && net in Declares(order[j])
        ensures order[i].path in enter && order[j].path in enter
      {
        assert order[j] in files && Provided(files, net);
      }
    }
  }

  // With one declarer per network, and the folders of the declarers enterable, the stop
  // run over the computed order is safe exactly when the folders of their joiners can be
  // entered and some rank decreases along all joins; that is, and nothing is stuck.
  lemma StopRunSafe(files: seq<Project>, enter: set<string>)
    requires Distinct(files) && UniqueDeclarers(files)
    requires forall p :: p in files && Declares(p) != [] ==> p.path in enter
    ensures StopSafe(StopRun(FullOrder(files), enter), FullOrder(files)) <==>
            JoinersEnter(files, enter) && exists rank :: RanksJoins(rank, files)
    ensures StopSafe(StopRun(FullOrder(files), enter), FullOrder(files)) <==>
            JoinersEnter(files, enter) && Order(files).stuck == []
  {
    var order := FullOrder(files);
    FullOrderPermutes(files);
    DistinctPermuted(files, order);
    StopSafeExactlyWhen(order, enter);
    ResolvedExactlyWhen(files);
    TornDownSplits(files, order, enter);
  }

  lemma PairIsRanked(a: Project, c: Project, net: string)
    requires Declares(a) == [net] && a.joined == [] && Declares(c) == [] && c.joined == [net] && net != ""
    ensures Distinct([a, c]) && UniqueDeclarers([a, c])
    ensures RanksJoins(p => if p == a then 0 else 1, [a, c])
  {
  }

  // A joiner ordered after its only declarer, with nothing stuck, but in a folder that
  // cannot be entered: it is skipped, and the network is removed under it.
  lemma UnenterableJoinerUnsafe(a: Project, c: Project, net: string, enter: set<string>)
    requires Declares(a) == [net] && a.joined == [] && Declares(c) == [] && c.joined == [net] && net != ""
    requires a.path in enter && c.path !in enter
    ensures var files := [a, c];
            && Order(files).stuck == [] && UniqueDeclarers(files) && DeclarersFirst(FullOrder(files))
            && !StopSafe(StopRun(FullOrder(files), enter), FullOrder(files))
  {
    var files := [a, c];
    PairIsRanked(a, c, net);
    RankedResolves(files, p => if p == a then 0 else 1);
    ResolvedExactlyWhen(files);
    StopRunSafe(files, enter);
    NetsOfMember(files, net);
    assert a in files && c in files && Joins(c, net) && Provided(files, net);
  }

  lemma MutualRanks(a: Project, b: Project, x: string, y: string, rank: Project -> nat)
    requires Declares(a) == [x] && a.joined == [y] && Declares(b) == [y] && b.joined == [x]
    requires x != y && y != "" && (Grounds(rank, [a, b]) || Grounds(rank, [b, a]))
    ensures rank(b) < rank(a)
  {
    var files := if Grounds(rank, [a, b]) then [a, b] else [b, a];
    assert a in files && b in files && Joins(a, y);
    NetsOfMember(files, y);
    assert Provided(files, y);
  }

  // Two projects that join each other's network: both are stuck, and the first is created
  // before the network it joins exists.
  lemma MutualJoinersUnsafe(a: Project, b: Project, x: string, y: string, enter: set<string>)
    requires Declares(a) == [x] && a.joined == [y] && Declares(b) == [y] && b.joined == [x]
    requires x != "" && y != "" && x != y && a.path in enter && b.path in enter
    ensures var files := [a, b];
            Order(files).stuck != [] && !StartIsSafe(StartRun(FullOrder(files), enter), files, {}, {})
  {
    var files := [a, b];
    if rank :| Grounds(rank, files) {
      MutualRanks(a, b, x, y, rank);
      MutualRanks(b, a, y, x, rank);
    }
    NothingStuckExactlyWhen(files);
    StartRunSafe(files, enter, {});
  }

  // Two folders that lose their difference in project_name declare the same network.
  lemma FoldersCollide(a: Project, b: Project)
    requires a.folder == "a.b" && b.folder == "ab" && a.own == b.own == ["n"]
    ensures Declares(a) == Declares(b) == ["ab_n"]
  {
    assert ["n"][..0] == [];
    assert "b"[1..] == "" && "ab"[1..] == "b" && ".b"[1..] == "b" && "a.b"[1..] == ".b";
    assert ProjectName("b") == "b";
    assert ProjectName("ab") == "ab";
    assert ProjectName(".b") == "b";
    assert ProjectName("a.b") == "ab";
    assert "ab" + "_" + "n" == "ab_n";
  }

  // A joiner waits for the first of two declarers only.
  lemma JoinerBetweenDeclarers(a: Project, c: Project, b: Project, net: string)
    requires Declares(a) == [net] == Declares(b) && Declares(c) == [] && a.joined == [] == b.joined && c.joined == [net]
    ensures Order([a, c, b]) == Outcome([a, c, b], [], 1)
  {
    var files, all := [a, c, b], NetsOf([a, c, b]);
    assert [a][..0] == [] && [a, c][..1] == [a] && files[..2] == [a, c];
    assert NetsOf([a]) == [net] && NetsOf([a, c]) == [net];
    assert Sweep([], [], all) == Swept([], []);
    assert Ready(a, [], all) && Sweep([a], [], all) == Swept([a], []);
    assert Ready(c, [net], all) && Sweep([a, c], [], all) == Swept([a, c], []);
    assert Ready(b, [net], all) && Sweep(files, [], all) == Swept(files, []);
    assert Sweeps([], files, all) == Outcome(files, [], 0);
  }

  // So with two declarers nothing is stuck, yet the stop run removes the network while
  // the joiner is attached.
  lemma TwoDeclarersUnsafe(a: Project, c: Project, b: Project, net: string, enter: set<string>)
    requires Declares(a) == [net] == Declares(b) && Declares(c) == [] && net != ""
    requires a.joined == [] == b.joined && c.joined == [net]
    requires Distinct([a, c, b]) && a.path in enter && b.path in enter && c.path in enter
    ensures var files := [a, c, b];
            Order(files).stuck == [] && !StopSafe(StopRun(FullOrder(files), enter), FullOrder(files))
  {
    var files := [a, c, b];
    JoinerBetweenDeclarers(a, c, b, net);
    assert FullOrder(files) == files;
    assert Joins(files[1], net) && net in Declares(files[2]);
    StopSafeExactlyWhen(files, enter);
  }
}

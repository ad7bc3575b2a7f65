/** What start and stop runs issue: which commands, how often and in what order, read off
    the run itself. */
module ComposeIssued {
  import opened Prelude
  import opened ComposeNetworks
  import opened ComposeOrder
  import opened ComposeFixpoint
  import opened ComposeRuns

  /* ---- Positions in an order ---- */

  lemma {:induction false} FirstIndexIs(order: seq<Project>, k: nat)
    requires k < |order| && Distinct(order)
    ensures FirstIndex(order, order[k]) == k
  {
    assert FirstIndex(order, order[k]) <= k;
    assert order[FirstIndex(order, order[k])] == order[k];
  }

  lemma FirstIndexOfFront(order: seq<Project>, p: Project)
    requires order != [] && Distinct(order) && p in order[..|order| - 1]
    ensures FirstIndex(order, p) == FirstIndex(order[..|order| - 1], p) < |order| - 1
  {
    var front := order[..|order| - 1];
    var k :| 0 <= k < |front| && front[k] == p;
    FirstIndexIs(order, k);
    FirstIndexIs(front, k);
  }

  predicate HasProject(c: Command) {
    !c.RemoveNetwork?
  }

  // Of the commands of one kind, earlier ones are for projects earlier in the order.
  ghost predicate Ascends(run: seq<Command>, order: seq<Project>, kind: Command -> bool) {
    forall i, j :: 0 <= i < j < |run| && kind(run[i]) && kind(run[j]) && HasProject(run[i]) && HasProject(run[j]) ==>
      FirstIndex(order, run[i].p) < FirstIndex(order, run[j].p)
  }

  // The same the other way round.
  ghost predicate Descends(run: seq<Command>, order: seq<Project>, kind: Command -> bool) {
    forall i, j :: 0 <= i < j < |run| && kind(run[i]) && kind(run[j]) && HasProject(run[i]) && HasProject(run[j]) ==>
      FirstIndex(order, run[i].p) > FirstIndex(order, run[j].p)
  }

  const CREATES := (c: Command) => c.Create?
  const STARTS := (c: Command) => c.Start?
  const STOPS := (c: Command) => c.Stop?
  const DOWNS := (c: Command) => c.Down?

  /* ---- Start runs ---- */

  lemma AscendsOneMore(order: seq<Project>, run: seq<Command>, c: Command, kind: Command -> bool)
    requires order != [] && Distinct(order) && HasProject(c) && c.p == order[|order| - 1]
    requires Ascends(run, order[..|order| - 1], kind)
    requires forall d :: d in run ==> HasProject(d) && d.p in order[..|order| - 1]
    ensures Ascends(run, order, kind) && Ascends(run + [c], order, kind)
  {
    FirstIndexIs(order, |order| - 1);
    forall d | d in run ensures FirstIndex(order, d.p) == FirstIndex(order[..|order| - 1], d.p) < |order| - 1 {
      FirstIndexOfFront(order, d.p);
    }
    assert forall i :: 0 <= i < |run| ==> run[i] in run;
  }

  lemma {:induction false} CreatePhaseIssues(order: seq<Project>, enter: set<string>)
    ensures forall c :: c in CreatePhase(order, enter) <==> c.Create? && c.p in order && c.p.path in enter
    ensures Distinct(order) ==> Ascends(CreatePhase(order, enter), order, CREATES)
  {
    if order == [] {
    } else {
      var n := |order| - 1;
      CreatePhaseIssues(order[..n], enter);
      assert order == order[..n] + [order[n]];
      if Distinct(order) {
        AscendsOneMore(order, CreatePhase(order[..n], enter), Create(order[n]), CREATES);
      }
    }
  }

  lemma {:induction false} StartPhaseIssues(order: seq<Project>, enter: set<string>)
    ensures forall c :: c in StartPhase(order, enter) <==> c.Start? && c.p in order && c.p.path in enter
    ensures Distinct(order) ==> Ascends(StartPhase(order, enter), order, STARTS)
  {
    if order == [] {
    } else {
      var n := |order| - 1;
      StartPhaseIssues(order[..n], enter);
      assert order == order[..n] + [order[n]];
      if Distinct(order) {
        AscendsOneMore(order, StartPhase(order[..n], enter), Start(order[n]), STARTS);
      }
    }
  }

  lemma SameProjects(files: seq<Project>)
    ensures forall p :: p in FullOrder(files) <==> p in files
    ensures Distinct(files) ==> Distinct(FullOrder(files))
  {
    FullOrderPermutes(files);
    forall p ensures p in FullOrder(files) <==> p in files {
      PermutedMembers(FullOrder(files), files, p);
    }
    if Distinct(files) {
      DistinctPermuted(files, FullOrder(files));
    }
  }

  // A start run creates and starts exactly the projects of the input whose folder can be
  // entered, and issues nothing else; every create comes before every start. For inputs
  // without repeats both go through the projects in the computed order, each once.
  lemma StartRunIssues(files: seq<Project>, enter: set<string>)
    ensures var run := StartRun(FullOrder(files), enter);
      && (forall p :: Create(p) in run <==> p in files && p.path in enter)
      && (forall p :: Start(p) in run <==> p in files && p.path in enter)
      && (forall c :: c in run ==> c.Create? || c.Start?)
      && (forall i, j :: 0 <= i < j < |run| && run[j].Create? ==> run[i].Create?)
      && (Distinct(files) ==> Ascends(run, FullOrder(files), CREATES) && Ascends(run, FullOrder(files), STARTS))
  {
    var order := FullOrder(files);
    var creates, starts, run := CreatePhase(order, enter), StartPhase(order, enter), StartRun(order, enter);
    SameProjects(files);
    CreatePhaseIssues(order, enter);
    StartPhaseIssues(order, enter);
    assert forall i :: 0 <= i < |creates| ==> run[i] == creates[i] && creates[i] in creates;
    assert forall i :: |creates| <= i < |run| ==> run[i] == starts[i - |creates|] && starts[i - |creates|] in starts;
  }

  /* ---- Stop runs ---- */

  lemma DescendsBefore(order: seq<Project>, head: seq<Command>, tail: seq<Command>, last: Project, kind: Command -> bool)
    requires order != [] && FirstIndex(order, last) == |order| - 1
    requires forall i :: 0 <= i < |head| && kind(head[i]) && HasProject(head[i]) ==> i == 0 && head[i].p == last
    requires Descends(tail, order[..|order| - 1], kind)
    requires forall i :: 0 <= i < |tail| && kind(tail[i]) && HasProject(tail[i]) ==>
               FirstIndex(order, tail[i].p) == FirstIndex(order[..|order| - 1], tail[i].p) < |order| - 1
    ensures Descends(head + tail, order, kind)
  {
  }

  lemma IndicesBelow(order: seq<Project>, tail: seq<Command>)
    requires order != [] && Distinct(order)
    requires forall c :: c in tail ==> HasProject(c) && c.p in order[..|order| - 1]
    ensures forall i :: 0 <= i < |tail| ==>
              && HasProject(tail[i])
              && FirstIndex(order, tail[i].p) == FirstIndex(order[..|order| - 1], tail[i].p) < |order| - 1
  {
    forall i | 0 <= i < |tail|
      ensures HasProject(tail[i]) && FirstIndex(order, tail[i].p) == FirstIndex(order[..|order| - 1], tail[i].p) < |order| - 1
    {
      assert tail[i] in tail;
      FirstIndexOfFront(order, tail[i].p);
    }
  }

  lemma {:induction false} StopPhaseDescends(order: seq<Project>, enter: set<string>)
    requires Distinct(order)
    ensures Descends(StopPhase(order, enter), order, STOPS)
  {
    if order == [] {
    } else {
      var n := |order| - 1;
      var head, tail := if order[n].path in enter then [Stop(order[n])] else [], StopPhase(order[..n], enter);
      StopPhaseDescends(order[..n], enter);
      StopPhaseStops(order[..n], enter);
      IndicesBelow(order, tail);
      FirstIndexIs(order, n);
      DescendsBefore(order, head, tail, order[n], STOPS);
      assert StopPhase(order, enter) == head + tail;
    }
  }

  predicate FollowedByRemovals(run: seq<Command>, i: nat)
    requires i < |run| && run[i].Down?
  {
    var nets := Declares(run[i].p);
    i + |nets| < |run| && forall m :: 0 <= m < |nets| ==> run[i + 1 + m] == RemoveNetwork(nets[m])
  }

  predicate FollowsDown(run: seq<Command>, j: nat) {
    exists i :: 0 <= i < j && i < |run| && run[i].Down? && j - i <= |Declares(run[i].p)|
  }

  // Each down is followed by the removals of the project's networks, in their order, and
  // there are no others.
  ghost predicate RemovalsFollow(run: seq<Command>) {
    && (forall i :: 0 <= i < |run| && run[i].Down? ==> FollowedByRemovals(run, i))
    && (forall j :: 0 <= j < |run| && run[j].RemoveNetwork? ==> FollowsDown(run, j))
  }

  lemma {:induction false} RemovalsAt(nets: seq<string>)
    ensures |RemoveNetworks(nets)| == |nets|
    ensures forall m :: 0 <= m < |nets| ==> RemoveNetworks(nets)[m] == RemoveNetwork(nets[m])
  {
    if nets == [] {
    } else {
      RemovalsAt(nets[..|nets| - 1]);
    }
  }

  lemma OneProjectFollows(p: Project, enter: set<string>)
    ensures RemovalsFollow(DownOf(p, enter))
  {
    var run := DownOf(p, enter);
    RemovalsAt(Declares(p));
    if p.path in enter {
      assert run[0] == Down(p);
      forall j | 0 <= j < |run| && run[j].RemoveNetwork? ensures FollowsDown(run, j) {
        assert run[0].Down? && j - 0 <= |Declares(run[0].p)|;
      }
    }
  }

  lemma BothFollow(a: seq<Command>, b: seq<Command>)
    requires RemovalsFollow(a) && RemovalsFollow(b)
    ensures RemovalsFollow(a + b)
  {
    var ab := a + b;
    forall i | 0 <= i < |ab| && ab[i].Down? ensures FollowedByRemovals(ab, i) {
      if i < |a| {
        assert FollowedByRemovals(a, i);
      } else {
        assert FollowedByRemovals(b, i - |a|);
        var nets := Declares(ab[i].p);
        forall m | 0 <= m < |nets| ensures ab[i + 1 + m] == RemoveNetwork(nets[m]) {
          assert ab[i + 1 + m] == b[i - |a| + 1 + m];
        }
      }
    }
    forall j | 0 <= j < |ab| && ab[j].RemoveNetwork? ensures FollowsDown(ab, j) {
      if j < |a| {
        assert FollowsDown(a, j);
        var i :| 0 <= i < j && i < |a| && a[i].Down? && j - i <= |Declares(a[i].p)|;
        assert ab[i] == a[i];
      } else {
        assert FollowsDown(b, j - |a|);
        var i :| 0 <= i < j - |a| && i < |b| && b[i].Down? && j - |a| - i <= |Declares(b[i].p)|;
        assert ab[|a| + i] == b[i];
      }
    }
  }

  lemma {:induction false} DownPhaseFollows(order: seq<Project>, enter: set<string>)
    ensures RemovalsFollow(DownPhase(order, enter))
  {
    if order == [] {
    } else {
      var n := |order| - 1;
      DownPhaseFollows(order[..n], enter);
      OneProjectFollows(order[n], enter);
      BothFollow(DownOf(order[n], enter), DownPhase(order[..n], enter));
    }
  }

  lemma OneDown(p: Project, enter: set<string>)
    ensures forall i :: 0 <= i < |DownOf(p, enter)| && DownOf(p, enter)[i].Down? ==> i == 0 && DownOf(p, enter)[i].p == p
  {
    RemovalsAt(Declares(p));
  }

  lemma {:induction false} DownPhaseIssues(order: seq<Project>, enter: set<string>)
    ensures forall p :: Down(p) in DownPhase(order, enter) <==> p in order && p.path in enter
    ensures Distinct(order) ==> Descends(DownPhase(order, enter), order, DOWNS)
  {
    if order == [] {
    } else {
      var n := |order| - 1;
      var head, tail := DownOf(order[n], enter), DownPhase(order[..n], enter);
      DownPhaseIssues(order[..n], enter);
      DownCommands(order[n], enter);
      assert order == order[..n] + [order[n]];
      if Distinct(order) {
        FirstIndexIs(order, n);
        OneDown(order[n], enter);
        forall p | Down(p) in tail ensures FirstIndex(order, p) == FirstIndex(order[..n], p) < n {
          FirstIndexOfFront(order, p);
        }
        assert forall i :: 0 <= i < |tail| ==> tail[i] in tail;
        DescendsBefore(order, head, tail, order[n], DOWNS);
      }
    }
  }

  lemma RemovesOwn(p: Project, enter: set<string>, net: string)
    ensures RemoveNetwork(net) in DownOf(p, enter) <==> p.path in enter && net in Declares(p)
  {
    RemovalsAt(Declares(p));
    var removals := RemoveNetworks(Declares(p));
    if net in Declares(p) {
      var m :| 0 <= m < |Declares(p)| && Declares(p)[m] == net;
      assert removals[m] in removals;
    }
  }

  // The networks removed by name are those that an enterable project of the list declares.
  lemma {:induction false} RemovedByName(order: seq<Project>, enter: set<string>, net: string)
    ensures RemoveNetwork(net) in DownPhase(order, enter) <==>
            exists p :: p in order && p.path in enter && net in Declares(p)
  {
    if order == [] {
    } else {
      var n := |order| - 1;
      RemovedByName(order[..n], enter, net);
      RemovesOwn(order[n], enter, net);
      assert order == order[..n] + [order[n]];
    }
  }

  lemma StopRunMembers(order: seq<Project>, enter: set<string>)
    ensures var run := StopRun(order, enter);
      && (forall p :: Stop(p) in run <==> p in order && p.path in enter)
      && (forall p :: Down(p) in run <==> p in order && p.path in enter)
      && (forall net :: RemoveNetwork(net) in run <==> exists p :: p in order && p.path in enter && net in Declares(p))
      && (forall c :: c in run ==> c.Stop? || c.Down? || c.RemoveNetwork?)
  {
    StopPhaseStops(order, enter);
    DownPhaseDowns(order, enter);
    DownPhaseIssues(order, enter);
    forall net
      ensures RemoveNetwork(net) in StopRun(order, enter) <==> exists p :: p in order && p.path in enter && net in Declares(p)
    {
      RemovedByName(order, enter, net);
    }
  }

  lemma StopsThenDowns(stops: seq<Command>, downs: seq<Command>, order: seq<Project>)
    requires forall c :: c in stops ==> c.Stop?
    requires forall c :: c in downs ==> !c.Stop?
    ensures forall i, j :: 0 <= i < j < |stops + downs| && (stops + downs)[j].Stop? ==> (stops + downs)[i].Stop?
    ensures Descends(stops, order, STOPS) ==> Descends(stops + downs, order, STOPS)
    ensures Descends(downs, order, DOWNS) ==> Descends(stops + downs, order, DOWNS)
  {
    var run := stops + downs;
    assert forall i :: 0 <= i < |stops| ==> run[i] == stops[i] && stops[i] in stops;
    assert forall i :: |stops| <= i < |run| ==> run[i] == downs[i - |stops|] && downs[i - |stops|] in downs;
  }

  lemma StopRunOrder(order: seq<Project>, enter: set<string>)
    ensures var run := StopRun(order, enter);
      && (forall i, j :: 0 <= i < j < |run| && run[j].Stop? ==> run[i].Stop?)
      && RemovalsFollow(run)
      && (Distinct(order) ==> Descends(run, order, STOPS) && Descends(run, order, DOWNS))
  {
    StopPhaseStops(order, enter);
    DownPhaseDowns(order, enter);
    DownPhaseIssues(order, enter);
    DownPhaseFollows(order, enter);
    var stops := StopPhase(order, enter);
    assert forall i :: 0 <= i < |stops| ==> stops[i] in stops;
    BothFollow(stops, DownPhase(order, enter));
    if Distinct(order) {
      StopPhaseDescends(order, enter);
    }
    StopsThenDowns(stops, DownPhase(order, enter), order);
  }

  // A stop run stops and takes down exactly the projects of the input whose folder can be
  // entered, and removes by name exactly the networks they declare, each project's right
  // after its down. Every stop comes first; for inputs without repeats both phases go
  // through the projects in the reverse of the computed order, each once.
  lemma StopRunIssues(files: seq<Project>, enter: set<string>)
    ensures var run := StopRun(FullOrder(files), enter);
      && (forall p :: Stop(p) in run <==> p in files && p.path in enter)
      && (forall p :: Down(p) in run <==> p in files && p.path in enter)
      && (forall net :: RemoveNetwork(net) in run <==> exists p :: p in files && p.path in enter && net in Declares(p))
      && (forall c :: c in run ==> c.Stop? || c.Down? || c.RemoveNetwork?)
      && (forall i, j :: 0 <= i < j < |run| && run[j].Stop? ==> run[i].Stop?)
      && RemovalsFollow(run)
      && (Distinct(files) ==> Descends(run, FullOrder(files), STOPS) && Descends(run, FullOrder(files), DOWNS))
  {
    SameProjects(files);
    StopRunMembers(FullOrder(files), enter);
    StopRunOrder(FullOrder(files), enter);
  }
}

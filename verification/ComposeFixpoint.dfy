/** What the project order promises: a resolved part in which every provider comes
    first, a stuck part that blocks itself, and their independence of the input order. */
module ComposeFixpoint {
  import opened Prelude
  import opened ComposeOrder

  // Some project of ps declares the network.
  predicate Provided(ps: seq<Project>, net: string) {
    net in NetsOf(ps)
  }

  // Each network joined by a project of the list, if any input project declares it, is
  // declared by a strictly earlier one.
  ghost predicate ProvidersFirst(ordered: seq<Project>, files: seq<Project>) {
    forall i, net :: 0 <= i < |ordered| && Joins(ordered[i], net) && Provided(files, net) ==>
      Provided(ordered[..i], net)
  }

  ghost predicate Blocks(net: string, p: Project, resolved: seq<Project>, files: seq<Project>) {
    Joins(p, net) && Provided(files, net) && !Provided(resolved, net)
  }

  ghost predicate AllBlocked(stuck: seq<Project>, resolved: seq<Project>, files: seq<Project>) {
    forall p :: p in stuck ==> exists net :: Blocks(net, p, resolved, files)
  }

  lemma OrderExtends(ordered: seq<Project>, p: Project, files: seq<Project>)
    requires ProvidersFirst(ordered, files) && Ready(p, NetsOf(ordered), NetsOf(files))
    ensures ProvidersFirst(ordered + [p], files)
  {
    var longer := ordered + [p];
    forall i, net | 0 <= i < |longer| && Joins(longer[i], net) && Provided(files, net)
      ensures Provided(longer[..i], net)
    {
      assert longer[..i] == ordered[..i];
      if i == |ordered| {
        assert ordered[..i] == ordered && net in p.joined;
      }
    }
  }

  lemma {:induction false} SweepKeepsOrder(pending: seq<Project>, ordered: seq<Project>, files: seq<Project>)
    requires ProvidersFirst(ordered, files)
    ensures ProvidersFirst(Sweep(pending, ordered, NetsOf(files)).ordered, files)
  {
    if pending == [] {
    } else {
      var n := |pending| - 1;
      SweepKeepsOrder(pending[..n], ordered, files);
      var p, before := pending[n], Sweep(pending[..n], ordered, NetsOf(files));
      if Ready(p, NetsOf(before.ordered), NetsOf(files)) {
        OrderExtends(before.ordered, p, files);
      }
    }
  }

  // A sweep that moves nothing found nobody ready.
  lemma {:induction false} IdleSweep(pending: seq<Project>, ordered: seq<Project>, all: seq<string>)
    requires |Sweep(pending, ordered, all).ordered| == |ordered|
    ensures Sweep(pending, ordered, all) == Swept(ordered, pending)
    ensures forall p :: p in pending ==> !Ready(p, NetsOf(ordered), all)
  {
    if pending == [] {
    } else {
      var n := |pending| - 1;
      IdleSweep(pending[..n], ordered, all);
      assert pending == pending[..n] + [pending[n]];
    }
  }

  lemma UnreadyIsBlocked(p: Project, resolved: seq<Project>, files: seq<Project>)
    requires !Ready(p, NetsOf(resolved), NetsOf(files))
    ensures exists net :: Blocks(net, p, resolved, files)
  {
    var net :| net in p.joined && net != "" && !Satisfied(net, NetsOf(resolved), NetsOf(files));
    assert Blocks(net, p, resolved, files);
  }

  lemma {:induction false} SweepsSplit(pending: seq<Project>, ordered: seq<Project>, files: seq<Project>)
    requires ProvidersFirst(ordered, files)
    ensures var o := Sweeps(pending, ordered, NetsOf(files));
            ProvidersFirst(o.resolved, files) && AllBlocked(o.stuck, o.resolved, files)
    decreases |pending|
  {
    if pending == [] {
    } else {
      var all := NetsOf(files);
      var s := Sweep(pending, ordered, all);
      SweepKeepsOrder(pending, ordered, files);
      if |s.ordered| == |ordered| {
        IdleSweep(pending, ordered, all);
        forall p | p in pending ensures exists net :: Blocks(net, p, ordered, files) {
          UnreadyIsBlocked(p, ordered, files);
        }
      } else {
        SweepsSplit(s.next, s.ordered, files);
      }
    }
  }

  // A split of the input into a resolved and a stuck part, as the script makes it.
  ghost predicate Split(files: seq<Project>, resolved: seq<Project>, stuck: seq<Project>) {
    && multiset(resolved) + multiset(stuck) == multiset(files)
    && ProvidersFirst(resolved, files)
    && AllBlocked(stuck, resolved, files)
  }

  lemma OrderSplits(files: seq<Project>)
    ensures Split(files, Order(files).resolved, Order(files).stuck)
  {
    SweepsSplit(files, [], files);
    SweepsPermute(files, [], NetsOf(files));
  }

  lemma Members(files: seq<Project>, resolved: seq<Project>, stuck: seq<Project>, p: Project)
    requires Split(files, resolved, stuck)
    ensures p in files <==> p in resolved || p in stuck
  {
    assert p in files <==> p in multiset(files);
    assert p in resolved <==> p in multiset(resolved);
    assert p in stuck <==> p in multiset(stuck);
  }

  // Every stuck project joins a network that only stuck projects declare, so
  // following blockers never leaves the stuck part.
  lemma StuckBlockedByStuck(files: seq<Project>, p: Project) returns (net: string, blocker: Project)
    requires p in Order(files).stuck
    ensures Joins(p, net) && blocker in Order(files).stuck && net in Declares(blocker)
    ensures forall q :: q in files && net in Declares(q) ==> q in Order(files).stuck
  {
    var resolved, stuck := Order(files).resolved, Order(files).stuck;
    OrderSplits(files);
    net :| Blocks(net, p, resolved, files);
    NetsOfMember(files, net);
    NetsOfMember(resolved, net);
    blocker :| blocker in files && net in Declares(blocker);
    forall q | q in files && net in Declares(q) ensures q in stuck {
      Members(files, resolved, stuck, q);
    }
  }

  /* ---- The resolved projects are a least fixed point ---- */

  // The projects all of whose joined networks are undeclared or provided by one in s.
  ghost function Unblocked(files: seq<Project>, s: set<Project>): set<Project> {
    set p | p in files && forall net :: Joins(p, net) && Provided(files, net) ==>
                            exists q :: q in s && net in Declares(q)
  }

  lemma UnblockedIsMonotone(files: seq<Project>, s: set<Project>, t: set<Project>)
    requires s <= t
    ensures Unblocked(files, s) <= Unblocked(files, t)
  {
  }

  ghost function AsSet(ps: seq<Project>): set<Project> {
    set p | p in ps
  }

  lemma ResolvedIsFixpoint(files: seq<Project>, resolved: seq<Project>, stuck: seq<Project>)
    requires Split(files, resolved, stuck)
    ensures Unblocked(files, AsSet(resolved)) == AsSet(resolved)
    ensures AsSet(resolved) !! AsSet(stuck)
  {
    forall p, net | p in resolved && Joins(p, net) && Provided(files, net)
      ensures exists q :: q in resolved && net in Declares(q)
    {
      var i :| 0 <= i < |resolved| && resolved[i] == p;
      NetsOfMember(resolved[..i], net);
    }
    forall p | p in stuck ensures p !in Unblocked(files, AsSet(resolved)) {
      var net :| Blocks(net, p, resolved, files);
      NetsOfMember(resolved, net);
    }
    forall p ensures p in Unblocked(files, AsSet(resolved)) <==> p in AsSet(resolved) {
      Members(files, resolved, stuck, p);
    }
  }

  // Any set closed under Unblocked holds the first n resolved projects.
  lemma {:induction false} ResolvedIsLeast(files: seq<Project>, resolved: seq<Project>, s: set<Project>, n: nat)
    requires ProvidersFirst(resolved, files) && n <= |resolved|
    requires forall p :: p in resolved ==> p in files
    requires Unblocked(files, s) <= s
    ensures forall i :: 0 <= i < n ==> resolved[i] in s
  {
    if n > 0 {
      ResolvedIsLeast(files, resolved, s, n - 1);
      var p := resolved[n - 1];
      forall net | Joins(p, net) && Provided(files, net) ensures exists q :: q in s && net in Declares(q) {
        NetsOfMember(resolved[..n - 1], net);
      }
      assert p in Unblocked(files, s);
    }
  }

  // The set of resolved projects is the least fixed point of Unblocked.
  lemma LeastFixpoint(files: seq<Project>)
    ensures var r := AsSet(Order(files).resolved);
            && Unblocked(files, r) == r
            && forall s :: Unblocked(files, s) <= s ==> r <= s
  {
    OrderSplits(files);
    var resolved := Order(files).resolved;
    ResolvedIsFixpoint(files, resolved, Order(files).stuck);
    forall p | p in resolved ensures p in files {
      Members(files, resolved, Order(files).stuck, p);
    }
    forall s | Unblocked(files, s) <= s ensures AsSet(resolved) <= s {
      ResolvedIsLeast(files, resolved, s, |resolved|);
    }
  }

  lemma SameUnblocked(files: seq<Project>, files': seq<Project>, s: set<Project>)
    requires multiset(files) == multiset(files')
    ensures Unblocked(files, s) == Unblocked(files', s)
  {
    forall p ensures p in files <==> p in files' {
      assert p in files <==> p in multiset(files);
      assert p in files' <==> p in multiset(files');
    }
    forall net ensures Provided(files, net) <==> Provided(files', net) {
      NetsOfMember(files, net);
      NetsOfMember(files', net);
    }
  }

  lemma SameResolved(files: seq<Project>, files': seq<Project>)
    requires multiset(files) == multiset(files')
    ensures AsSet(Order(files).resolved) == AsSet(Order(files').resolved)
  {
    LeastFixpoint(files);
    LeastFixpoint(files');
    var r, r' := AsSet(Order(files).resolved), AsSet(Order(files').resolved);
    SameUnblocked(files, files', r);
    SameUnblocked(files, files', r');
    assert Unblocked(files, r') <= r' && Unblocked(files', r) <= r;
  }

  lemma PartsAreDisjoint(files: seq<Project>, p: Project)
    requires p in Order(files).resolved
    ensures p !in Order(files).stuck
  {
    OrderSplits(files);
    ResolvedIsFixpoint(files, Order(files).resolved, Order(files).stuck);
    assert p in AsSet(Order(files).resolved);
  }

  lemma SameParts<T>(a: seq<T>, b: seq<T>, a': seq<T>, b': seq<T>)
    requires multiset(a) + multiset(b) == multiset(a') + multiset(b')
    requires (forall x :: x in a <==> x in a') && (forall x :: x in a ==> x !in b) && (forall x :: x in a' ==> x !in b')
    ensures multiset(a) == multiset(a') && multiset(b) == multiset(b')
  {
    forall x ensures multiset(a)[x] == multiset(a')[x] && multiset(b)[x] == multiset(b')[x] {
      assert (multiset(a) + multiset(b))[x] == (multiset(a') + multiset(b'))[x];
      assert x in a <==> x in multiset(a);
      assert x in a' <==> x in multiset(a');
      assert x in b <==> x in multiset(b);
      assert x in b' <==> x in multiset(b');
    }
  }

  // Hence the same projects are resolved, and the same ones stuck, for every
  // permutation of the input.
  lemma OrderIndependent(files: seq<Project>, files': seq<Project>)
    requires multiset(files) == multiset(files')
    ensures multiset(Order(files).resolved) == multiset(Order(files').resolved)
    ensures multiset(Order(files).stuck) == multiset(Order(files').stuck)
  {
    var o, o' := Order(files), Order(files');
    SameResolved(files, files');
    SweepsPermute(files, [], NetsOf(files));
    SweepsPermute(files', [], NetsOf(files'));
    forall p ensures p in o.resolved <==> p in o'.resolved {
      assert p in o.resolved <==> p in AsSet(o.resolved);
      assert p in o'.resolved <==> p in AsSet(o'.resolved);
    }
    forall p | p in o.resolved ensures p !in o.stuck { PartsAreDisjoint(files, p); }
    forall p | p in o'.resolved ensures p !in o'.stuck { PartsAreDisjoint(files', p); }
    SameParts(o.resolved, o.stuck, o'.resolved, o'.stuck);
  }

  /* ---- The full order ---- */

  function FullOrder(files: seq<Project>): seq<Project> {
    Order(files).resolved + Order(files).stuck
  }

  lemma FullOrderPermutes(files: seq<Project>)
    ensures multiset(FullOrder(files)) == multiset(files)
  {
    SweepsPermute(files, [], NetsOf(files));
  }

  lemma PermutedMembers<T>(s: seq<T>, t: seq<T>, x: T)
    requires multiset(s) == multiset(t)
    ensures x in s <==> x in t
  {
    assert x in s <==> x in multiset(s);
    assert x in t <==> x in multiset(t);
  }

  lemma {:induction false} DistinctCount<T>(s: seq<T>, x: T)
    requires Distinct(s)
    ensures multiset(s)[x] <= 1
  {
    if s == [] {
    } else {
      var n := |s| - 1;
      DistinctCount(s[..n], x);
      assert s == s[..n] + [s[n]];
      assert multiset(s) == multiset(s[..n]) + multiset{s[n]};
      if s[n] == x {
        assert x !in s[..n];
      }
    }
  }

  lemma DistinctPermuted<T>(s: seq<T>, t: seq<T>)
    requires Distinct(s) && multiset(s) == multiset(t)
    ensures Distinct(t)
  {
    forall i, j | 0 <= i < j < |t| ensures t[i] != t[j] {
      DistinctCount(s, t[i]);
      assert t == t[..j] + t[j..];
      assert multiset(t) == multiset(t[..j]) + multiset(t[j..]);
      assert t[i] in t[..j] && t[j] in t[j..];
    }
  }

  // The first position of a project in the order.
  function FirstIndex(order: seq<Project>, p: Project): (i: nat)
    ensures i <= |order| && (p in order ==> i < |order| && order[i] == p)
    ensures forall k :: 0 <= k < |order| && order[k] == p ==> i <= k
  {
    if order == [] || order[0] == p then 0 else 1 + FirstIndex(order[1..], p)
  }

  /* ---- What keeps its place ---- */

  // The elements of a occur in b, in the same order.
  predicate Subsequence<T(==)>(a: seq<T>, b: seq<T>) {
    if a == [] then true
    else if b == [] then false
    else
      || Subsequence(a, b[..|b| - 1])
      || (a[|a| - 1] == b[|b| - 1] && Subsequence(a[..|a| - 1], b[..|b| - 1]))
  }

  lemma {:induction false} SubsequenceGrows<T>(a: seq<T>, b: seq<T>)
    requires b != [] && Subsequence(a, b[..|b| - 1])
    ensures Subsequence(a, b)
    ensures Subsequence(a + [b[|b| - 1]], b)
  {
    assert (a + [b[|b| - 1]])[..|a|] == a;
  }

  lemma {:induction false} SubsequenceChain<T>(a: seq<T>, b: seq<T>, c: seq<T>)
    requires Subsequence(a, b) && Subsequence(b, c)
    ensures Subsequence(a, c)
    decreases |c|
  {
    if a == [] {
    } else {
      var n := |c| - 1;
      if Subsequence(b, c[..n]) {
        SubsequenceChain(a, b, c[..n]);
      } else if Subsequence(a, b[..|b| - 1]) {
        SubsequenceChain(a, b[..|b| - 1], c[..n]);
      } else {
        SubsequenceChain(a[..|a| - 1], b[..|b| - 1], c[..n]);
      }
    }
  }

  lemma {:induction false} SweepKeepsPlaces(pending: seq<Project>, ordered: seq<Project>, all: seq<string>)
    ensures var s := Sweep(pending, ordered, all);
            Subsequence(s.next, pending) && Subsequence(s.ordered[|ordered|..], pending)
  {
    if pending == [] {
    } else {
      var n := |pending| - 1;
      var before := Sweep(pending[..n], ordered, all);
      SweepKeepsPlaces(pending[..n], ordered, all);
      SubsequenceGrows(before.next, pending);
      SubsequenceGrows(before.ordered[|ordered|..], pending);
      assert (before.ordered + [pending[n]])[|ordered|..] == before.ordered[|ordered|..] + [pending[n]];
    }
  }

  lemma {:induction false} StuckKeepsPlaces(pending: seq<Project>, ordered: seq<Project>, all: seq<string>)
    ensures Subsequence(Sweeps(pending, ordered, all).stuck, pending)
    decreases |pending|
  {
    if pending == [] {
    } else {
      var s := Sweep(pending, ordered, all);
      SweepKeepsPlaces(pending, ordered, all);
      if |s.ordered| != |ordered| {
        StuckKeepsPlaces(s.next, s.ordered, all);
        SubsequenceChain(Sweeps(s.next, s.ordered, all).stuck, s.next, pending);
      }
    }
  }

  // Stuck projects come out in the order of the input.
  lemma StuckInInputOrder(files: seq<Project>)
    ensures Subsequence(Order(files).stuck, files)
  {
    StuckKeepsPlaces(files, [], NetsOf(files));
  }

  lemma {:induction false} OrderedSweepKeeps(files: seq<Project>, n: nat)
    requires ProvidersFirst(files, files) && n <= |files|
    ensures Sweep(files[..n], [], NetsOf(files)) == Swept(files[..n], [])
  {
    if n == 0 {
      assert files[..n] == [];
    } else {
      OrderedSweepKeeps(files, n - 1);
      assert files[..n][..n - 1] == files[..n - 1];
      assert files[..n] == files[..n - 1] + [files[n - 1]];
      var p, before := files[n - 1], files[..n - 1];
      forall net | Joins(p, net) ensures Satisfied(net, NetsOf(before), NetsOf(files)) {
        assert Provided(files, net) ==> Provided(before, net);
      }
      assert Ready(p, NetsOf(before), NetsOf(files)) by {
        assert forall net :: net in p.joined && net != "" ==> Joins(p, net);
      }
    }
  }

  // An input in which providers come first already is taken as it is, in a single sweep.
  lemma OrderedInputKept(files: seq<Project>)
    requires files != [] && ProvidersFirst(files, files)
    ensures Order(files) == Outcome(files, [], 1)
  {
    OrderedSweepKeeps(files, |files|);
    assert files[..|files|] == files;
    assert Sweeps([], files, NetsOf(files)) == Outcome(files, [], 0);
  }

  /* ---- When nothing is stuck ---- */

  // A rank of the projects under which every joined and declared network has a declarer
  // below its joiner.
  ghost predicate Grounds(rank: Project -> nat, files: seq<Project>) {
    forall p, net :: p in files && Joins(p, net) && Provided(files, net) ==>
      exists q :: q in files && net in Declares(q) && rank(q) < rank(p)
  }

  lemma {:induction false} GroundedIsNotStuck(files: seq<Project>, rank: Project -> nat, p: Project)
    requires Grounds(rank, files)
    ensures p !in Order(files).stuck
    decreases rank(p)
  {
    if p in Order(files).stuck {
      var net, blocker := StuckBlockedByStuck(files, p);
      OrderSplits(files);
      Members(files, Order(files).resolved, Order(files).stuck, p);
      Members(files, Order(files).resolved, Order(files).stuck, blocker);
      NetsOfMember(files, net);
      var q :| q in files && net in Declares(q) && rank(q) < rank(p);
      GroundedIsNotStuck(files, rank, q);
    }
  }

  // Where each provider comes first, positions are such a rank.
  lemma PositionGrounds(files: seq<Project>, order: seq<Project>)
    requires ProvidersFirst(order, files) && multiset(order) == multiset(files)
    ensures Grounds(p => FirstIndex(order, p), files)
  {
    forall p, net | p in files && Joins(p, net) && Provided(files, net)
      ensures exists q :: q in files && net in Declares(q) && FirstIndex(order, q) < FirstIndex(order, p)
    {
      PermutedMembers(order, files, p);
      var i := FirstIndex(order, p);
      NetsOfMember(order[..i], net);
      var q :| q in order[..i] && net in Declares(q);
      PermutedMembers(order, files, q);
      var k :| 0 <= k < i && order[k] == q;
    }
  }

  // Nothing is stuck exactly when the files can be ranked so that every joined and
  // declared network has a declarer below its joiner; then, and only then, the order puts
  // a provider before every joiner.
  lemma NothingStuckExactlyWhen(files: seq<Project>)
    ensures Order(files).stuck == [] <==> exists rank :: Grounds(rank, files)
    ensures Order(files).stuck == [] <==> ProvidersFirst(FullOrder(files), files)
  {
    var order := FullOrder(files);
    FullOrderPermutes(files);
    OrderSplits(files);
    if Order(files).stuck == [] {
      assert order == Order(files).resolved;
    }
    if ProvidersFirst(order, files) {
      PositionGrounds(files, order);
    }
    if rank :| Grounds(rank, files) {
      if Order(files).stuck != [] {
        GroundedIsNotStuck(files, rank, Order(files).stuck[0]);
      }
    }
  }

  // A rank that strictly decreases along every join, from joiner to every declarer.
  ghost predicate RanksJoins(rank: Project -> nat, files: seq<Project>) {
    forall p, q, net :: p in files && q in files && Joins(p, net) && net in Declares(q) ==> rank(q) < rank(p)
  }

  // If a rank decreases along all joins, nothing is stuck.
  lemma RankedResolves(files: seq<Project>, rank: Project -> nat)
    requires RanksJoins(rank, files)
    ensures Order(files).stuck == []
  {
    forall p, net | p in files && Joins(p, net) && Provided(files, net)
      ensures exists q :: q in files && net in Declares(q) && rank(q) < rank(p)
    {
      NetsOfMember(files, net);
    }
    assert Grounds(rank, files);
    NothingStuckExactlyWhen(files);
  }

  // No full network name is declared by two projects.
  ghost predicate UniqueDeclarers(files: seq<Project>) {
    forall p, q, net :: p in files && q in files && net in Declares(p) && net in Declares(q) ==> p == q
  }

  // With one declarer per network, nothing is stuck exactly when some rank decreases
  // along all joins.
  lemma RankedExactlyWhen(files: seq<Project>)
    requires UniqueDeclarers(files)
    ensures Order(files).stuck == [] <==> exists rank :: RanksJoins(rank, files)
  {
    NothingStuckExactlyWhen(files);
    if rank :| Grounds(rank, files) {
      forall p, q, net | p in files && q in files && Joins(p, net) && net in Declares(q) ensures rank(q) < rank(p) {
        NetsOfMember(files, net);
        assert Provided(files, net);
      }
      assert RanksJoins(rank, files);
    }
    if rank :| RanksJoins(rank, files) {
      RankedResolves(files, rank);
    }
  }

  // In the order, every declarer of a network comes strictly before its joiners.
  ghost predicate DeclarersFirst(order: seq<Project>) {
    forall i, j, net :: 0 <= i < |order| && 0 <= j < |order| && Joins(order[i], net) && net in Declares(order[j]) ==>
      j < i
  }

  lemma PositionRanks(files: seq<Project>, order: seq<Project>)
    requires DeclarersFirst(order) && multiset(order) == multiset(files)
    ensures RanksJoins(p => FirstIndex(order, p), files)
  {
    forall p, q, net | p in files && q in files && Joins(p, net) && net in Declares(q)
      ensures FirstIndex(order, q) < FirstIndex(order, p)
    {
      PermutedMembers(order, files, p);
      PermutedMembers(order, files, q);
    }
  }

  lemma UniqueOrder(files: seq<Project>, order: seq<Project>)
    requires multiset(order) == multiset(files) && ProvidersFirst(order, files)
    requires UniqueDeclarers(files) && Distinct(files)
    ensures DeclarersFirst(order)
  {
    DistinctPermuted(files, order);
    forall i, j, net | 0 <= i < |order| && 0 <= j < |order| && Joins(order[i], net) && net in Declares(order[j])
      ensures j < i
    {
      PermutedMembers(order, files, order[j]);
      NetsOfMember(files, net);
      assert Provided(files, net);
      assert Provided(order[..i], net);
      NetsOfMember(order[..i], net);
      var q :| q in order[..i] && net in Declares(q);
      PermutedMembers(order, files, q);
      var k :| 0 <= k < i && order[k] == q;
      assert order[j] == order[k];
    }
  }

  // For inputs without repeats and with one declarer per network, the order puts every
  // declarer before its joiners exactly when some rank decreases along all joins.
  lemma ResolvedExactlyWhen(files: seq<Project>)
    requires UniqueDeclarers(files) && Distinct(files)
    ensures DeclarersFirst(FullOrder(files)) <==> exists rank :: RanksJoins(rank, files)
    ensures DeclarersFirst(FullOrder(files)) <==> Order(files).stuck == []
  {
    var order := FullOrder(files);
    FullOrderPermutes(files);
    RankedExactlyWhen(files);
    if DeclarersFirst(order) {
      PositionRanks(files, order);
    }
    if Order(files).stuck == [] {
      NothingStuckExactlyWhen(files);
      UniqueOrder(files, order);
    }
  }
}

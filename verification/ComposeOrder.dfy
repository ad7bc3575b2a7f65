/** Ordering compose projects so that the provider of a network comes before the
    projects joining it: a worklist swept until nothing moves. */
module ComposeOrder {
  import opened Prelude
  import opened ComposeNetworks

  // A project as the script sees it: the path of its compose file, the directory it
  // lies in, and what compose_networks prints for "false" and for "true".
  datatype Project = Project(path: string, folder: string, own: seq<string>, joined: seq<string>)

  function ProjectOf(path: string, folder: string, lines: seq<string>): Project {
    Project(path, folder, Networks(lines, "false"), Networks(lines, "true"))
  }

  function Lower(c: char): char {
    if 'A' <= c <= 'Z' then (c as int + 32) as char else c
  }

  // project_name: lowercased, characters outside [a-z0-9_-] removed.
  function ProjectName(folder: string): string {
    if folder == "" then ""
    else
      var c := Lower(folder[0]);
      (if 'a' <= c <= 'z' || '0' <= c <= '9' || c == '_' || c == '-' then [c] else []) + ProjectName(folder[1..])
  }

  // Full network names; the read loop skips empty lines.
  function Qualified(folder: string, nets: seq<string>): seq<string> {
    if nets == [] then []
    else
      var n := |nets| - 1;
      Qualified(folder, nets[..n]) + if nets[n] == "" then [] else [ProjectName(folder) + "_" + nets[n]]
  }

  // The networks a project creates, by full name.
  function Declares(p: Project): seq<string> {
    Qualified(p.folder, p.own)
  }

  // A network it joins, by full name.
  predicate Joins(p: Project, net: string) {
    net in p.joined && net != ""
  }

  function NetsOf(files: seq<Project>): seq<string> {
    if files == [] then [] else NetsOf(files[..|files| - 1]) + Declares(files[|files| - 1])
  }

  lemma {:induction false} NetsOfMember(files: seq<Project>, net: string)
    ensures net in NetsOf(files) <==> exists f :: f in files && net in Declares(f)
  {
    if files == [] {
    } else {
      var n := |files| - 1;
      NetsOfMember(files[..n], net);
      assert files == files[..n] + [files[n]];
    }
  }

  /* ---- The sweeps, as functions ---- */

  predicate Satisfied(net: string, ordered: seq<string>, all: seq<string>) {
    net in ordered || net !in all
  }

  predicate Ready(p: Project, ordered: seq<string>, all: seq<string>) {
    forall net :: net in p.joined && net != "" ==> Satisfied(net, ordered, all)
  }

  datatype Swept = Swept(ordered: seq<Project>, next: seq<Project>)

  // One sweep: a project readied early in it provides for the ones after.
  function Sweep(pending: seq<Project>, ordered: seq<Project>, all: seq<string>): (s: Swept)
    ensures |s.ordered| + |s.next| == |ordered| + |pending|
    ensures ordered <= s.ordered
  {
    if pending == [] then Swept(ordered, [])
    else
      var n := |pending| - 1;
      var p, before := pending[n], Sweep(pending[..n], ordered, all);
      if Ready(p, NetsOf(before.ordered), all) then before.(ordered := before.ordered + [p])
      else before.(next := before.next + [p])
  }

  datatype Outcome = Outcome(resolved: seq<Project>, stuck: seq<Project>, sweeps: nat)

  // Sweeps until nothing is pending or one moves nothing.
  function Sweeps(pending: seq<Project>, ordered: seq<Project>, all: seq<string>): (o: Outcome)
    ensures o.sweeps <= |pending|
    decreases |pending|
  {
    if pending == [] then Outcome(ordered, [], 0)
    else
      var s := Sweep(pending, ordered, all);
      if |s.ordered| == |ordered| then Outcome(s.ordered, s.next, 1)
      else
        var rest := Sweeps(s.next, s.ordered, all);
        rest.(sweeps := rest.sweeps + 1)
  }

  function Order(files: seq<Project>): Outcome {
    Sweeps(files, [], NetsOf(files))
  }

  lemma Snoc<T>(s: seq<T>, x: T)
    ensures multiset(s + [x]) == multiset(s) + multiset{x}
  {
  }

  lemma MultisetShift<T>(a: multiset<T>, b: multiset<T>, c: multiset<T>, d: multiset<T>, x: T)
    requires a + b == c + d
    ensures (a + multiset{x}) + b == c + (d + multiset{x})
    ensures a + (b + multiset{x}) == c + (d + multiset{x})
  {
    assert (a + multiset{x}) + b == (a + b) + multiset{x} == a + (b + multiset{x});
    assert c + (d + multiset{x}) == (c + d) + multiset{x};
  }

  // Two parts of a whole: adding to either part adds to the whole.
  lemma SnocKeeps<T>(a: seq<T>, b: seq<T>, c: seq<T>, d: seq<T>, x: T)
    requires multiset(a) + multiset(b) == multiset(c) + multiset(d)
    ensures multiset(a + [x]) + multiset(b) == multiset(c) + multiset(d + [x])
    ensures multiset(a) + multiset(b + [x]) == multiset(c) + multiset(d + [x])
  {
    Snoc(a, x);
    Snoc(b, x);
    Snoc(d, x);
    MultisetShift(multiset(a), multiset(b), multiset(c), multiset(d), x);
  }

  lemma SweepLast(pending: seq<Project>, ordered: seq<Project>, all: seq<string>)
    requires pending != []
    ensures var before, p := Sweep(pending[..|pending| - 1], ordered, all), pending[|pending| - 1];
            var s := Sweep(pending, ordered, all);
            s == before.(ordered := before.ordered + [p]) || s == before.(next := before.next + [p])
  {
  }

  lemma SweptKeeps(before: Swept, s: Swept, ordered: seq<Project>, pending: seq<Project>, p: Project)
    requires s == before.(ordered := before.ordered + [p]) || s == before.(next := before.next + [p])
    requires multiset(before.ordered) + multiset(before.next) == multiset(ordered) + multiset(pending)
    ensures multiset(s.ordered) + multiset(s.next) == multiset(ordered) + multiset(pending + [p])
  {
    SnocKeeps(before.ordered, before.next, ordered, pending, p);
  }

  // Sweeping moves projects; it neither drops nor doubles one.
  lemma {:induction false} SweepPermutes(pending: seq<Project>, ordered: seq<Project>, all: seq<string>)
    ensures var s := Sweep(pending, ordered, all);
            multiset(s.ordered) + multiset(s.next) == multiset(ordered) + multiset(pending)
  {
    if pending == [] {
    } else {
      var front, p := pending[..|pending| - 1], pending[|pending| - 1];
      LastBack(pending);
      SweepLast(pending, ordered, all);
      SweepPermutes(front, ordered, all);
      SweptKeeps(Sweep(front, ordered, all), Sweep(pending, ordered, all), ordered, front, p);
    }
  }

  lemma {:induction false} SweepsPermute(pending: seq<Project>, ordered: seq<Project>, all: seq<string>)
    ensures var o := Sweeps(pending, ordered, all);
            multiset(o.resolved) + multiset(o.stuck) == multiset(ordered) + multiset(pending)
    decreases |pending|
  {
    if pending == [] {
    } else {
      var s := Sweep(pending, ordered, all);
      SweepPermutes(pending, ordered, all);
      if |s.ordered| != |ordered| {
        SweepsPermute(s.next, s.ordered, all);
      }
    }
  }

  /* ---- The script's own form ---- */

  // Runs compose_networks twice on a file.
  method LoadProject(path: string, folder: string, lines: seq<string>) returns (p: Project)
    ensures p == ProjectOf(path, folder, lines)
  {
    var own := new Scanner();
    own.Scan(lines, "false");
    var joined := new Scanner();
    joined.Scan(lines, "true");
    p := Project(path, folder, own.printed, joined.printed);
  }

  class Orderer {
    var allProjectNetworks: seq<string>
    var orderedNetworks: seq<string>

    constructor ()
      ensures allProjectNetworks == [] && orderedNetworks == []
    {
      allProjectNetworks, orderedNetworks := [], [];
    }

    method NetworkSatisfied(net: string) returns (yes: bool)
      ensures yes == Satisfied(net, orderedNetworks, allProjectNetworks)
    {
      for i := 0 to |orderedNetworks|
        invariant net !in orderedNetworks[..i]
      {
        if orderedNetworks[i] == net {
          return true;
        }
      }
      for i := 0 to |allProjectNetworks|
        invariant net !in allProjectNetworks[..i]
      {
        if allProjectNetworks[i] == net {
          return false;
        }
      }
      return true;
    }

    // The full names a project adds to one of the two arrays.
    method QualifiedNetworks(p: Project) returns (full: seq<string>)
      ensures full == Declares(p)
    {
      full := [];
      for i := 0 to |p.own|
        invariant full == Qualified(p.folder, p.own[..i])
      {
        assert p.own[..i + 1][..i] == p.own[..i];
        if p.own[i] != "" {
          full := full + [ProjectName(p.folder) + "_" + p.own[i]];
        }
      }
      assert p.own[..|p.own|] == p.own;
    }

    method IsReady(p: Project) returns (ready: bool)
      ensures ready == Ready(p, orderedNetworks, allProjectNetworks)
    {
      for i := 0 to |p.joined|
        invariant forall k :: 0 <= k < i && p.joined[k] != "" ==>
                    Satisfied(p.joined[k], orderedNetworks, allProjectNetworks)
      {
        if p.joined[i] != "" {
          var ok := NetworkSatisfied(p.joined[i]);
          if !ok {
            assert Joins(p, p.joined[i]);
            return false;
          }
        }
      }
      return true;
    }

    // Resets the two arrays and fills the first.
    method CollectAll(files: seq<Project>)
      modifies this
      ensures allProjectNetworks == NetsOf(files) && orderedNetworks == []
    {
      allProjectNetworks, orderedNetworks := [], [];
      for i := 0 to |files|
        invariant allProjectNetworks == NetsOf(files[..i]) && orderedNetworks == []
      {
        assert files[..i + 1][..i] == files[..i];
        var full := QualifiedNetworks(files[i]);
        allProjectNetworks := allProjectNetworks + full;
      }
      assert files[..|files|] == files;
    }

    // One pass of the outer loop over the pending projects.
    method SweepOnce(pending: seq<Project>, ordered0: seq<Project>, ghost all: seq<string>)
      returns (ordered: seq<Project>, next: seq<Project>, progress: bool)
      requires allProjectNetworks == all && orderedNetworks == NetsOf(ordered0)
      modifies this`orderedNetworks
      ensures Swept(ordered, next) == Sweep(pending, ordered0, all)
      ensures progress == (|ordered| != |ordered0|)
      ensures orderedNetworks == NetsOf(ordered)
    {
      ordered, next, progress := ordered0, [], false;
      for i := 0 to |pending|
        invariant Swept(ordered, next) == Sweep(pending[..i], ordered0, all)
        invariant progress == (|ordered| != |ordered0|)
        invariant orderedNetworks == NetsOf(ordered)
      {
        assert pending[..i + 1][..i] == pending[..i];
        var p := pending[i];
        var ready := IsReady(p);
        if ready {
          assert (ordered + [p])[..|ordered|] == ordered;
          ordered := ordered + [p];
          progress := true;
          var full := QualifiedNetworks(p);
          orderedNetworks := orderedNetworks + full;
        } else {
          next := next + [p];
        }
      }
      assert pending[..|pending|] == pending;
    }

    // order_compose_projects
    method OrderComposeProjects(files: seq<Project>) returns (result: seq<Project>, sweeps: nat)
      modifies this
      ensures result == Order(files).resolved + Order(files).stuck
      ensures sweeps == Order(files).sweeps
      ensures multiset(result) == multiset(files) && sweeps <= |files|
    {
      var pending, ordered, progress := files, [], true;
      CollectAll(files);
      sweeps := 0;
      ghost var all := NetsOf(files);
      while |pending| > 0 && progress
        invariant allProjectNetworks == all && orderedNetworks == NetsOf(ordered)
        invariant progress ==> var rest := Sweeps(pending, ordered, all);
                    Order(files) == rest.(sweeps := sweeps + rest.sweeps)
        invariant !progress ==> Order(files) == Outcome(ordered, pending, sweeps)
        decreases progress, |pending|
      {
        ordered, pending, progress := SweepOnce(pending, ordered, all);
        sweeps := sweeps + 1;
      }
      SweepsPermute(files, [], all);
      result := ordered + pending;
    }
  }
}

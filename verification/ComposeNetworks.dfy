/** Reading the networks of a compose file: a line-driven state machine, and what it
    means as a reading of the file's `networks:` blocks. */
module ComposeNetworks {

  /* ---- The patterns of the script, on one line ---- */

  // [[:space:]]
  predicate IsSpace(c: char) {
    c == ' ' || '\t' <= c <= '\r'
  }

  // What separates fields in awk and is trimmed by `read`.
  predicate IsBlank(c: char) {
    c == ' ' || c == '\t' || c == '\n'
  }

  predicate AllSpace(s: string) {
    forall i :: 0 <= i < |s| ==> IsSpace(s[i])
  }

  // ^networks:[[:space:]]*$
  predicate IsHeader(line: string) {
    "networks:" <= line && AllSpace(line[9..])
  }

  // ^[^[:space:]#]
  predicate IsTopLevel(line: string) {
    line != "" && !IsSpace(line[0]) && line[0] != '#'
  }

  // ^[[:space:]]*#
  predicate IsComment(line: string) {
    exists i :: 0 <= i < |line| && line[i] == '#' && AllSpace(line[..i])
  }

  // ^[[:space:]]{2}[^[:space:]][^:]*:[[:space:]]*$
  predicate IsEntry(line: string) {
    && |line| >= 4 && IsSpace(line[0]) && IsSpace(line[1]) && !IsSpace(line[2])
    && exists i :: 3 <= i < |line| && line[i] == ':' && ':' !in line[3..i] && AllSpace(line[i + 1..])
  }

  // ^[[:space:]]+external:[[:space:]]*true
  predicate IsExternal(line: string) {
    exists i, j ::
      && 1 <= i <= j <= |line| && AllSpace(line[..i])
      && "external:" <= line[i..] && i + 9 <= j && AllSpace(line[i + 9..j])
      && "true" <= line[j..]
  }

  // The first position from i on at which p holds, or the length.
  function Find(s: string, i: nat, p: char -> bool): (k: nat)
    requires i <= |s|
    ensures i <= k <= |s|
    ensures forall m :: i <= m < k ==> !p(s[m])
    ensures k < |s| ==> p(s[k])
    decreases |s| - i
  {
    if i == |s| || p(s[i]) then i else Find(s, i + 1, p)
  }

  predicate IsFilled(c: char) {
    !IsBlank(c)
  }

  predicate IsColon(c: char) {
    c == ':'
  }

  // $1
  function FirstField(line: string): string {
    var from := Find(line, 0, IsFilled);
    line[from..Find(line, from, IsBlank)]
  }

  // net = $1; sub(/:.*/, "", net)
  function EntryName(line: string): string {
    var field := FirstField(line);
    field[..Find(field, 0, IsColon)]
  }

  datatype Kind = Header | TopLevel | Comment | Entry(name: string) | External | Other

  // The patterns in the script's order.
  function KindOf(line: string): Kind {
    if IsHeader(line) then Header
    else if IsTopLevel(line) then TopLevel
    else if IsComment(line) then Comment
    else if IsEntry(line) then Entry(EntryName(line))
    else if IsExternal(line) then External
    else Other
  }

  function KindsOf(lines: seq<string>): (kinds: seq<Kind>)
    ensures |kinds| == |lines|
  {
    seq(|lines|, i requires 0 <= i < |lines| => KindOf(lines[i]))
  }

  /* ---- The declarative reading ---- */

  // Line i lies in a networks block: a header before it, no other top-level line since.
  predicate InBlock(kinds: seq<Kind>, i: nat)
    requires i <= |kinds|
  {
    exists h :: 0 <= h < i && kinds[h] == Header && forall k :: h < k < i ==> kinds[k] != TopLevel
  }

  predicate EntryAt(kinds: seq<Kind>, i: nat)
    requires i < |kinds|
  {
    kinds[i].Entry? && InBlock(kinds, i)
  }

  // A line that ends the entry above it.
  predicate EndsEntry(kinds: seq<Kind>, k: nat)
    requires k < |kinds|
  {
    kinds[k] == TopLevel || EntryAt(kinds, k)
  }

  // Below the entry at i and above line n, an `external: true` that belongs to it.
  predicate Marked(kinds: seq<Kind>, i: nat, n: nat)
    requires n <= |kinds|
  {
    exists k :: i < k < n && kinds[k] == External && forall m :: i < m < k ==> !EndsEntry(kinds, m)
  }

  function MarkText(marked: bool): string {
    if marked then "true" else "false"
  }

  // A named entry that the script prints for the wanted mark.
  predicate Wanted(kinds: seq<Kind>, i: nat, want: string)
    requires i < |kinds|
  {
    EntryAt(kinds, i) && kinds[i].name != "" && MarkText(Marked(kinds, i, |kinds|)) == want
  }

  // What each line contributes to the output: at most one name.
  function Contributions(kinds: seq<Kind>, want: string): (cs: seq<seq<string>>)
    ensures |cs| == |kinds|
  {
    seq(|kinds|, i requires 0 <= i < |kinds| => if Wanted(kinds, i, want) then [kinds[i].name] else [])
  }

  function Flatten(cs: seq<seq<string>>): seq<string> {
    if cs == [] then [] else Flatten(cs[..|cs| - 1]) + cs[|cs| - 1]
  }

  // compose_networks, read declaratively.
  function Networks(lines: seq<string>, want: string): seq<string> {
    Flatten(Contributions(KindsOf(lines), want))
  }

  // The lines that contribute, in file order.
  function Contributing(cs: seq<seq<string>>): (entries: seq<nat>)
    ensures forall a :: 0 <= a < |entries| ==> entries[a] < |cs|
    ensures forall i :: i in entries <==> 0 <= i < |cs| && cs[i] != []
    ensures forall a, b :: 0 <= a < b < |entries| ==> entries[a] < entries[b]
  {
    if cs == [] then []
    else
      var n := |cs| - 1;
      Contributing(cs[..n]) + if cs[n] == [] then [] else [n]
  }

  lemma {:induction false} FlattenContributing(cs: seq<seq<string>>)
    requires forall i :: 0 <= i < |cs| ==> |cs[i]| <= 1
    ensures |Flatten(cs)| == |Contributing(cs)|
    ensures forall k :: 0 <= k < |Flatten(cs)| ==> Contributing(cs)[k] < |cs| && [Flatten(cs)[k]] == cs[Contributing(cs)[k]]
  {
    if cs == [] {
    } else {
      var n := |cs| - 1;
      var names, entries := Flatten(cs[..n]), Contributing(cs[..n]);
      FlattenContributing(cs[..n]);
      assert Flatten(cs) == names + cs[n];
      assert Contributing(cs) == entries + if cs[n] == [] then [] else [n];
      forall k | 0 <= k < |Flatten(cs)|
        ensures Contributing(cs)[k] < |cs| && [Flatten(cs)[k]] == cs[Contributing(cs)[k]]
      {
        if k < |names| {
          assert entries[k] in entries;
          assert [names[k]] == cs[..n][entries[k]];
        } else {
          assert k == |names| && Contributing(cs)[k] == n && Flatten(cs)[k] == cs[n][0];
        }
      }
    }
  }

  // The lines whose names are printed.
  function PrintedLines(lines: seq<string>, want: string): seq<nat> {
    Contributing(Contributions(KindsOf(lines), want))
  }

  // Each name is that of the entry on its line, and the lines are in file order.
  predicate PrintsInOrder(lines: seq<string>, entries: seq<nat>, names: seq<string>) {
    && |names| == |entries|
    && (forall a, b :: 0 <= a < b < |entries| ==> entries[a] < entries[b])
    && (forall k :: 0 <= k < |entries| ==> entries[k] < |lines| && KindOf(lines[entries[k]]) == Entry(names[k]))
  }

  lemma ContributedNames(kinds: seq<Kind>, want: string)
    ensures var entries, names := Contributing(Contributions(kinds, want)), Flatten(Contributions(kinds, want));
      && |names| == |entries|
      && (forall i :: i in entries <==> 0 <= i < |kinds| && Wanted(kinds, i, want))
      && (forall k :: 0 <= k < |entries| ==> entries[k] < |kinds| && kinds[entries[k]] == Entry(names[k]))
  {
    var cs := Contributions(kinds, want);
    FlattenContributing(cs);
    forall k | 0 <= k < |Contributing(cs)|
      ensures Contributing(cs)[k] < |kinds| && kinds[Contributing(cs)[k]] == Entry(Flatten(cs)[k])
    {
      assert Contributing(cs)[k] in Contributing(cs);
    }
  }

  lemma LinesPrint(lines: seq<string>, want: string)
    ensures forall i :: i in PrintedLines(lines, want) <==> 0 <= i < |lines| && Wanted(KindsOf(lines), i, want)
    ensures PrintsInOrder(lines, PrintedLines(lines, want), Networks(lines, want))
  {
    ContributedNames(KindsOf(lines), want);
  }

  // "false" and "true" partition the named entries of the file, each in file order, and
  // print their names.
  lemma NetworksPartition(lines: seq<string>)
    ensures var kinds, own, joined := KindsOf(lines), PrintedLines(lines, "false"), PrintedLines(lines, "true");
      && (forall i :: (i in own || i in joined) <==> 0 <= i < |lines| && EntryAt(kinds, i) && kinds[i].name != "")
      && (forall i :: i in own ==> i !in joined)
    ensures PrintsInOrder(lines, PrintedLines(lines, "false"), Networks(lines, "false"))
    ensures PrintsInOrder(lines, PrintedLines(lines, "true"), Networks(lines, "true"))
  {
    LinesPrint(lines, "false");
    LinesPrint(lines, "true");
    assert "false"[0] != "true"[0];
    var kinds := KindsOf(lines);
    forall i | 0 <= i < |lines|
      ensures EntryAt(kinds, i) && kinds[i].name != "" <==> Wanted(kinds, i, "false") || Wanted(kinds, i, "true")
      ensures !(Wanted(kinds, i, "false") && Wanted(kinds, i, "true"))
    {
    }
  }

  lemma EntryNameIsBare(line: string)
    ensures forall i :: 0 <= i < |EntryName(line)| ==> !IsBlank(EntryName(line)[i]) && EntryName(line)[i] != ':'
  {
    var from := Find(line, 0, IsFilled);
    var to := Find(line, from, IsBlank);
    var field := line[from..to];
    forall i | 0 <= i < |EntryName(line)| ensures !IsBlank(EntryName(line)[i]) && EntryName(line)[i] != ':' {
      assert EntryName(line)[i] == field[i] == line[from + i];
    }
  }

  lemma NamesAreEntries(kinds: seq<Kind>, want: string, name: string)
    requires name in Flatten(Contributions(kinds, want))
    ensures exists i :: 0 <= i < |kinds| && kinds[i] == Entry(name) && Wanted(kinds, i, want)
  {
    ContributedNames(kinds, want);
    var names, entries := Flatten(Contributions(kinds, want)), Contributing(Contributions(kinds, want));
    var k :| 0 <= k < |names| && names[k] == name;
    assert entries[k] in entries;
  }

  lemma EntryKindIsBare(line: string, name: string)
    requires KindOf(line) == Entry(name)
    ensures forall i :: 0 <= i < |name| ==> !IsBlank(name[i]) && name[i] != ':'
  {
    EntryNameIsBare(line);
  }

  // Names come out whole from the `read -r net` loop and its `-n` test.
  lemma NamesSurviveRead(lines: seq<string>, want: string, name: string)
    requires name in Networks(lines, want)
    ensures name != "" && forall i :: 0 <= i < |name| ==> !IsBlank(name[i]) && name[i] != ':'
  {
    var kinds := KindsOf(lines);
    NamesAreEntries(kinds, want, name);
    var i :| 0 <= i < |kinds| && kinds[i] == Entry(name) && Wanted(kinds, i, want);
    EntryKindIsBare(lines[i], name);
  }

  /* ---- One line further ---- */

  lemma BlockStep(kinds: seq<Kind>, n: nat)
    requires n < |kinds|
    ensures InBlock(kinds, n + 1) <==> kinds[n] == Header || (kinds[n] != TopLevel && InBlock(kinds, n))
  {
    if kinds[n] == Header {
      assert InBlock(kinds, n + 1);
    } else if kinds[n] != TopLevel && InBlock(kinds, n) {
      var h :| 0 <= h < n && kinds[h] == Header && forall k :: h < k < n ==> kinds[k] != TopLevel;
      assert kinds[h] == Header && forall k :: h < k < n + 1 ==> kinds[k] != TopLevel;
    }
  }

  // An entry with nothing ending it is still inside its block.
  lemma {:induction false} OpenInBlock(kinds: seq<Kind>, start: nat, n: nat)
    requires start < n <= |kinds| && EntryAt(kinds, start)
    requires forall m :: start < m < n ==> !EndsEntry(kinds, m)
    ensures InBlock(kinds, n)
  {
    BlockStep(kinds, n - 1);
    if start < n - 1 {
      OpenInBlock(kinds, start, n - 1);
      assert !EndsEntry(kinds, n - 1);
    }
  }

  lemma MarkStep(kinds: seq<Kind>, start: nat, n: nat)
    requires start < n < |kinds| && forall m :: start < m < n ==> !EndsEntry(kinds, m)
    ensures Marked(kinds, start, n + 1) <==> Marked(kinds, start, n) || kinds[n] == External
  {
  }

  // Lines below the end of an entry do not mark it.
  lemma MarkFrozen(kinds: seq<Kind>, start: nat, n: nat)
    requires start < n <= |kinds| && (n < |kinds| ==> EndsEntry(kinds, n) && kinds[n] != External)
    ensures Marked(kinds, start, |kinds|) <==> Marked(kinds, start, n)
  {
    if Marked(kinds, start, |kinds|) {
      var k :| start < k < |kinds| && kinds[k] == External && forall m :: start < m < k ==> !EndsEntry(kinds, m);
      assert k < n;
    }
  }

  // What the first n lines contribute.
  function NamesTo(kinds: seq<Kind>, n: nat, want: string): seq<string>
    requires n <= |kinds|
  {
    Flatten(Contributions(kinds, want)[..n])
  }

  lemma FlattenStep(cs: seq<seq<string>>, n: nat)
    requires n < |cs|
    ensures Flatten(cs[..n + 1]) == Flatten(cs[..n]) + cs[n]
  {
    assert cs[..n + 1][..n] == cs[..n];
  }

  lemma {:induction false} FlattenNothing(cs: seq<seq<string>>, from: nat, n: nat)
    requires from <= n <= |cs| && forall m :: from <= m < n ==> cs[m] == []
    ensures Flatten(cs[..n]) == Flatten(cs[..from])
    decreases n
  {
    if from < n {
      FlattenNothing(cs, from, n - 1);
      FlattenStep(cs, n - 1);
    }
  }

  // A line that is not a wanted entry leaves the output as it is.
  lemma QuietLine(kinds: seq<Kind>, n: nat, want: string)
    requires n < |kinds| && !Wanted(kinds, n, want)
    ensures NamesTo(kinds, n + 1, want) == NamesTo(kinds, n, want)
  {
    FlattenStep(Contributions(kinds, want), n);
  }

  lemma NothingBetween(kinds: seq<Kind>, start: nat, n: nat, want: string)
    requires start < n <= |kinds| && forall m :: start < m < n ==> !EndsEntry(kinds, m)
    ensures forall m :: start + 1 <= m < n ==> Contributions(kinds, want)[m] == []
  {
    forall m | start + 1 <= m < n ensures Contributions(kinds, want)[m] == [] {
      assert !EndsEntry(kinds, m);
    }
  }

  lemma EntryContributes(kinds: seq<Kind>, start: nat, n: nat, want: string)
    requires start < n <= |kinds| && EntryAt(kinds, start) && kinds[start].name != ""
    requires n < |kinds| ==> EndsEntry(kinds, n)
    ensures Contributions(kinds, want)[start] ==
            if MarkText(Marked(kinds, start, n)) == want then [kinds[start].name] else []
  {
    MarkFrozen(kinds, start, n);
  }

  // What a closed entry adds to the output.
  lemma CloseEntry(kinds: seq<Kind>, start: nat, n: nat, want: string)
    requires start < n <= |kinds| && EntryAt(kinds, start) && kinds[start].name != ""
    requires forall m :: start < m < n ==> !EndsEntry(kinds, m)
    requires n < |kinds| ==> EndsEntry(kinds, n)
    ensures NamesTo(kinds, n, want) == NamesTo(kinds, start, want) +
            if MarkText(Marked(kinds, start, n)) == want then [kinds[start].name] else []
  {
    var cs := Contributions(kinds, want);
    EntryContributes(kinds, start, n, want);
    NothingBetween(kinds, start, n, want);
    FlattenNothing(cs, start + 1, n);
    FlattenStep(cs, start);
  }

  /* ---- No state leaks across a top-level line ---- */

  lemma BlockOfLater(a: seq<Kind>, b: seq<Kind>, i: nat)
    requires b != [] && b[0] == TopLevel && 1 <= i <= |b|
    ensures InBlock(a + b, |a| + i) <==> InBlock(b, i)
  {
    var ab := a + b;
    if InBlock(ab, |a| + i) {
      var h :| 0 <= h < |a| + i && ab[h] == Header && forall k :: h < k < |a| + i ==> ab[k] != TopLevel;
      assert ab[|a|] == TopLevel;
      assert b[h - |a|] == Header && forall k :: h - |a| < k < i ==> b[k] == ab[|a| + k];
    }
    if InBlock(b, i) {
      var h :| 0 <= h < i && b[h] == Header && forall k :: h < k < i ==> b[k] != TopLevel;
      assert ab[|a| + h] == Header && forall k :: |a| + h < k < |a| + i ==> ab[k] == b[k - |a|];
    }
  }

  lemma BlockOfEarlier(a: seq<Kind>, b: seq<Kind>, i: nat)
    requires i <= |a|
    ensures InBlock(a + b, i) <==> InBlock(a, i)
  {
    var ab := a + b;
    assert forall k :: 0 <= k < i ==> ab[k] == a[k];
  }

  lemma MarkOfEarlier(a: seq<Kind>, b: seq<Kind>, i: nat)
    requires b != [] && b[0] == TopLevel && i < |a|
    ensures Marked(a + b, i, |a + b|) <==> Marked(a, i, |a|)
  {
    var ab := a + b;
    MarkFrozen(ab, i, |a|);
    forall m | 0 <= m < |a| ensures EndsEntry(ab, m) == EndsEntry(a, m) && ab[m] == a[m] {
      BlockOfEarlier(a, b, m);
    }
  }

  lemma MarkOfLater(a: seq<Kind>, b: seq<Kind>, i: nat)
    requires b != [] && b[0] == TopLevel && i < |b|
    ensures Marked(a + b, |a| + i, |a + b|) <==> Marked(b, i, |b|)
  {
    var ab := a + b;
    forall m | i < m < |b| ensures EndsEntry(ab, |a| + m) == EndsEntry(b, m) && ab[|a| + m] == b[m] {
      BlockOfLater(a, b, m);
    }
    if Marked(ab, |a| + i, |ab|) {
      var k :| |a| + i < k < |ab| && ab[k] == External && forall m :: |a| + i < m < k ==> !EndsEntry(ab, m);
      assert b[k - |a|] == External;
      forall m | i < m < k - |a| ensures !EndsEntry(b, m) { assert !EndsEntry(ab, |a| + m); }
    }
    if Marked(b, i, |b|) {
      var k :| i < k < |b| && b[k] == External && forall m :: i < m < k ==> !EndsEntry(b, m);
      assert ab[|a| + k] == External;
      forall m | |a| + i < m < |a| + k ensures !EndsEntry(ab, m) { assert !EndsEntry(b, m - |a|); }
    }
  }

  lemma ContributionsOfParts(a: seq<Kind>, b: seq<Kind>, want: string)
    requires b != [] && b[0] == TopLevel
    ensures Contributions(a + b, want) == Contributions(a, want) + Contributions(b, want)
  {
    forall i | 0 <= i < |a| ensures Wanted(a + b, i, want) == Wanted(a, i, want) {
      BlockOfEarlier(a, b, i);
      MarkOfEarlier(a, b, i);
    }
    forall i | 0 <= i < |b| ensures Wanted(a + b, |a| + i, want) == Wanted(b, i, want) {
      if i > 0 {
        BlockOfLater(a, b, i);
        MarkOfLater(a, b, i);
      }
    }
  }

  lemma Reassociate<T>(a: seq<T>, b: seq<T>, c: seq<T>)
    ensures a + (b + c) == (a + b) + c
  {
  }

  lemma {:induction false} FlattenParts(x: seq<seq<string>>, y: seq<seq<string>>)
    ensures Flatten(x + y) == Flatten(x) + Flatten(y)
  {
    if y == [] {
      assert x + y == x;
    } else {
      var n := |y| - 1;
      FlattenParts(x, y[..n]);
      assert (x + y)[..|x + y| - 1] == x + y[..n];
      Reassociate(Flatten(x), Flatten(y[..n]), y[n]);
    }
  }

  // A file cut at a top-level line reads as its two parts do.
  lemma NetworksOfParts(a: seq<string>, b: seq<string>, want: string)
    requires b != [] && KindOf(b[0]) == TopLevel
    ensures Networks(a + b, want) == Networks(a, want) + Networks(b, want)
  {
    var ka, kb := KindsOf(a), KindsOf(b);
    assert KindsOf(a + b) == ka + kb;
    ContributionsOfParts(ka, kb, want);
    FlattenParts(Contributions(ka, want), Contributions(kb, want));
  }

  /* ---- The state machine ---- */

  // The awk variables after n lines: printed are the entries above line `start`, and
  // a pending name is that of the entry at `start`, still open at line n.
  ghost predicate Tracks(kinds: seq<Kind>, n: nat, want: string, start: nat,
                         net: string, ext: string, innets: bool, printed: seq<string>)
  {
    && start <= n <= |kinds|
    && innets == InBlock(kinds, n)
    && printed == NamesTo(kinds, start, want)
    && (net == "" ==> start == n)
    && (net != "" ==>
         && start < n && EntryAt(kinds, start) && net == kinds[start].name
         && (forall m :: start < m < n ==> !EndsEntry(kinds, m))
         && ext == MarkText(Marked(kinds, start, n)))
  }

  function Flushed(net: string, ext: string, want: string, printed: seq<string>): seq<string> {
    printed + if net != "" && ext == want then [net] else []
  }

  // A line that does not end an entry.
  lemma TrackOn(kinds: seq<Kind>, n: nat, want: string, start: nat,
                net: string, ext: string, innets: bool, printed: seq<string>)
    requires Tracks(kinds, n, want, start, net, ext, innets, printed) && n < |kinds| && !EndsEntry(kinds, n)
    ensures var ext' := if innets && kinds[n] == External then "true" else ext;
            Tracks(kinds, n + 1, want, if net == "" then n + 1 else start, net, ext',
                   innets || kinds[n] == Header, printed)
  {
    BlockStep(kinds, n);
    if net == "" {
      QuietLine(kinds, n, want);
    } else {
      OpenInBlock(kinds, start, n);
      MarkStep(kinds, start, n);
    }
  }

  // A line that ends one, or the end of the file.
  lemma TrackFlush(kinds: seq<Kind>, n: nat, want: string, start: nat,
                   net: string, ext: string, innets: bool, printed: seq<string>)
    requires Tracks(kinds, n, want, start, net, ext, innets, printed)
    requires n < |kinds| ==> EndsEntry(kinds, n)
    ensures Flushed(net, ext, want, printed) == NamesTo(kinds, n, want)
  {
    if net == "" {
    } else {
      CloseEntry(kinds, start, n, want);
    }
  }

  lemma TrackAll(lines: seq<string>, want: string, start: nat,
                 net: string, ext: string, innets: bool, printed: seq<string>)
    requires Tracks(KindsOf(lines), |lines|, want, start, net, ext, innets, printed)
    ensures Flushed(net, ext, want, printed) == Networks(lines, want)
  {
    var kinds := KindsOf(lines);
    TrackFlush(kinds, |lines|, want, start, net, ext, innets, printed);
    assert Contributions(kinds, want)[..|lines|] == Contributions(kinds, want);
  }

  lemma TrackStart(kinds: seq<Kind>, want: string, net: string, ext: string)
    requires net == ""
    ensures Tracks(kinds, 0, want, 0, net, ext, false, [])
  {
  }

  lemma TrackEnd(kinds: seq<Kind>, n: nat, want: string)
    requires n < |kinds| && EndsEntry(kinds, n)
    ensures var name := if kinds[n].Entry? then kinds[n].name else "";
            Tracks(kinds, n + 1, want, if name == "" then n + 1 else n, name, "false",
                   kinds[n].Entry?, NamesTo(kinds, n, want))
  {
    BlockStep(kinds, n);
    if kinds[n] == TopLevel || kinds[n].name == "" {
      QuietLine(kinds, n, want);
    }
  }

  class Scanner {
    var net: string
    var ext: string
    var innets: bool
    var printed: seq<string>

    constructor ()
      ensures net == "" && ext == "" && !innets && printed == []
    {
      net, ext, innets, printed := "", "", false, [];
    }

    method Flush(want: string)
      modifies this`net, this`ext, this`printed
      ensures net == "" && ext == "false"
      ensures printed == Flushed(old(net), old(ext), want, old(printed))
    {
      if net != "" && ext == want {
        printed := printed + [net];
      }
      net := "";
      ext := "false";
    }

    // One line of the awk program.
    method Line(kind: Kind, want: string, ghost kinds: seq<Kind>, ghost n: nat, ghost start: nat)
      returns (ghost start': nat)
      requires Tracks(kinds, n, want, start, net, ext, innets, printed)
      requires n < |kinds| && kinds[n] == kind
      modifies this
      ensures Tracks(kinds, n + 1, want, start', net, ext, innets, printed)
    {
      if EndsEntry(kinds, n) {
        TrackFlush(kinds, n, want, start, net, ext, innets, printed);
        TrackEnd(kinds, n, want);
      } else {
        TrackOn(kinds, n, want, start, net, ext, innets, printed);
      }
      start' := if net == "" then n + 1 else start;
      if kind == Header {
        innets := true;
      } else if kind == TopLevel {
        Flush(want);
        innets := false;
        start' := n + 1;
      } else if !innets {
      } else if kind == Comment {
      } else if kind.Entry? {
        Flush(want);
        net := kind.name;
        start' := if net == "" then n + 1 else n;
      } else if kind == External {
        ext := "true";
      }
    }

    // compose_networks
    method Scan(lines: seq<string>, want: string)
      requires net == "" && ext == "" && !innets && printed == []
      modifies this
      ensures printed == Networks(lines, want)
    {
      ghost var kinds, start := KindsOf(lines), 0;
      TrackStart(kinds, want, net, ext);
      for n := 0 to |lines|
        invariant Tracks(kinds, n, want, start, net, ext, innets, printed)
      {
        start := Line(KindOf(lines[n]), want, kinds, n, start);
      }
      TrackAll(lines, want, start, net, ext, innets, printed);
      Flush(want);
    }
  }
}

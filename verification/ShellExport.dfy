/** `zebrafish-config list --format shell`: flattening a configuration tree into one
    assignment for every scalar leaf and every array count. */
module ShellExport {
  import opened Prelude
  import Text
  import opened ConfigTree

  datatype Step = Key(key: string) | At(i: nat) | Count

  type Path = seq<Step>

  datatype Assignment = Assignment(name: string, word: string)

  /* ---- Names ---- */

  // Upper-casing and hyphen folding.
  function FoldChar(c: char): char {
    if 'a' <= c <= 'z' then (c as int - 32) as char else if c == '-' then '_' else c
  }

  function Fold(s: string): (r: string)
    ensures |r| == |s|
  {
    seq(|s|, i requires 0 <= i < |s| => FoldChar(s[i]))
  }

  // A capital letter and its small one.
  predicate LetterPair(capital: char, small: char) {
    'A' <= capital <= 'Z' && small as int == capital as int + 32
  }

  predicate CharsAlike(c: char, d: char) {
    c == d || LetterPair(c, d) || LetterPair(d, c) || (c == '-' && d == '_') || (c == '_' && d == '-')
  }

  // Equal but for the case of ASCII letters, and a hyphen against an underscore.
  predicate FoldsAlike(a: string, b: string) {
    |a| == |b| && forall i :: 0 <= i < |a| ==> CharsAlike(a[i], b[i])
  }

  // A folded key is the key but for case and hyphens, and has no small letter and no hyphen.
  lemma FoldExactly(k: string)
    ensures FoldsAlike(Fold(k), k)
    ensures forall i :: 0 <= i < |k| ==> !('a' <= Fold(k)[i] <= 'z') && Fold(k)[i] != '-'
  {
  }

  // Two keys clash exactly when they differ in nothing else.
  lemma FoldClashExactly(a: string, b: string)
    ensures Fold(a) == Fold(b) <==> FoldsAlike(a, b)
  {
    if Fold(a) == Fold(b) {
      forall i | 0 <= i < |a| ensures CharsAlike(a[i], b[i]) {
        assert Fold(a)[i] == FoldChar(a[i]) && Fold(b)[i] == FoldChar(b[i]);
      }
    }
  }

  function StepText(step: Step): string {
    match step
    case Key(k) => Fold(k)
    case At(i) => Text.Decimal(i)
    case Count => "COUNT"
  }

  // Everything after the first part of a joined name.
  function JoinTail(parts: seq<string>): string {
    if parts == [] then "" else "_" + parts[0] + JoinTail(parts[1..])
  }

  // parts.join("_")
  function Join(parts: seq<string>): string {
    if parts == [] then "" else parts[0] + JoinTail(parts[1..])
  }

  function Texts(path: Path): (r: seq<string>)
    ensures |r| == |path|
  {
    seq(|path|, i requires 0 <= i < |path| => StepText(path[i]))
  }

  /* ---- Words ---- */

  predicate IsSafe(c: char) {
    || 'a' <= c <= 'z' || 'A' <= c <= 'Z' || '0' <= c <= '9'
    || c == '_' || c == '-' || c == '.' || c == '/' || c == ':' || c == '+' || c == '='
  }

  predicate AllSafe(s: string) {
    forall i :: 0 <= i < |s| ==> IsSafe(s[i])
  }

  // s.replace('\'', "'\\''")
  function Escaped(s: string): string {
    if s == "" then "" else (if s[0] == '\'' then "'\\''" else [s[0]]) + Escaped(s[1..])
  }

  // shell_quote
  function ShellQuote(s: string): string {
    if AllSafe(s) then s else "'" + Escaped(s) + "'"
  }

  function IntText(i: int): string {
    if i < 0 then "-" + Text.Decimal(-i) else Text.Decimal(i)
  }

  function FlagText(b: bool): string {
    if b then "true" else "false"
  }

  predicate IsScalar(t: Tree) {
    t.Text? || t.Number? || t.Flag?
  }

  // What a scalar stands for, and how it is printed.
  function ScalarText(t: Tree): string
    requires IsScalar(t)
  {
    match t
    case Text(s) => s
    case Number(i) => IntText(i)
    case Flag(b) => FlagText(b)
  }

  function Rendered(t: Tree): string
    requires IsScalar(t)
  {
    if t.Text? then ShellQuote(t.s) else ScalarText(t)
  }

  // Flags print as `true` and `false`; numbers in decimal, after a minus when negative.
  lemma ScalarTextExactly(t: Tree)
    requires IsScalar(t)
    ensures t.Flag? ==> ScalarText(t) == if t.b then "true" else "false"
    ensures t.Number? && t.i >= 0 ==> Text.AllDigits(ScalarText(t)) && Text.NumberOf(ScalarText(t)) == t.i
    ensures t.Number? && t.i < 0 ==>
              && ScalarText(t) != "" && ScalarText(t)[0] == '-'
              && Text.AllDigits(ScalarText(t)[1..]) && Text.NumberOf(ScalarText(t)[1..]) == -t.i
    ensures t.Text? ==> ScalarText(t) == t.s
  {
    if t.Number? {
      Text.NumberOfDecimal(if t.i < 0 then -t.i else t.i);
      if t.i < 0 {
        assert IntText(t.i)[1..] == Text.Decimal(-t.i);
      }
    }
  }

  // A digit, a letter by its code, or one of a few marks.
  predicate IsPlain(c: char) {
    Text.IsDigit(c) || 0x41 <= c as int <= 0x5a || 0x61 <= c as int <= 0x7a || c in "_-./:+="
  }

  lemma PlainIsSafe(c: char)
    ensures IsSafe(c) <==> IsPlain(c)
  {
  }

  lemma {:induction false} EscapedIsNoShorter(s: string)
    ensures |Escaped(s)| >= |s|
  {
    if s == "" {
    } else {
      EscapedIsNoShorter(s[1..]);
    }
  }

  // A text is printed as it is exactly when it has only plain characters, and is quoted
  // otherwise.
  lemma QuotedExactlyWhen(s: string)
    ensures ShellQuote(s) == s <==> forall i :: 0 <= i < |s| ==> IsPlain(s[i])
    ensures ShellQuote(s) != s ==> ShellQuote(s)[0] == '\'' == ShellQuote(s)[|ShellQuote(s)| - 1]
  {
    forall i | 0 <= i < |s| ensures IsSafe(s[i]) <==> IsPlain(s[i]) {
      PlainIsSafe(s[i]);
    }
    EscapedIsNoShorter(s);
  }

  /* ---- Leaves: every scalar, and the count of every array ---- */

  predicate IsLeafPath(t: Tree, p: Path)
    decreases |p|
  {
    match t
    case Node(fs) => p != [] && p[0].Key? && p[0].key in fs && IsLeafPath(fs[p[0].key], p[1..])
    case List(es) => p != [] && (p == [Count] || (p[0].At? && p[0].i < |es| && IsLeafPath(es[p[0].i], p[1..])))
    case _ => p == []
  }

  function WordAt(t: Tree, p: Path): string
    requires IsLeafPath(t, p)
    decreases |p|
  {
    match t
    case Node(fs) => WordAt(fs[p[0].key], p[1..])
    case List(es) => if p == [Count] then Text.Decimal(|es|) else WordAt(es[p[0].i], p[1..])
    case _ => Rendered(t)
  }

  function LineAt(t: Tree, prefix: seq<string>, p: Path): Assignment
    requires IsLeafPath(t, p)
  {
    Assignment(Join(prefix + Texts(p)), WordAt(t, p))
  }

  // One entry of the listing is right.
  ghost predicate Listed(t: Tree, prefix: seq<string>, starts: set<Step>, line: Assignment, p: Path) {
    p != [] && p[0] in starts && IsLeafPath(t, p) && line == LineAt(t, prefix, p)
  }

  // The lines list the leaves that start with one of the given steps, each once.
  ghost predicate Covers(t: Tree, prefix: seq<string>, starts: set<Step>, lines: seq<Assignment>, paths: seq<Path>) {
    && |lines| == |paths| && Distinct(paths)
    && (forall i :: 0 <= i < |paths| ==> Listed(t, prefix, starts, lines[i], paths[i]))
    && (forall p: Path :: p != [] && p[0] in starts && IsLeafPath(t, p) ==> p in paths)
  }

  // The lines list the leaves of the tree, each once.
  ghost predicate Lists(t: Tree, prefix: seq<string>, lines: seq<Assignment>, paths: seq<Path>) {
    && |lines| == |paths| && Distinct(paths)
    && (forall i :: 0 <= i < |paths| ==> IsLeafPath(t, paths[i]) && lines[i] == LineAt(t, prefix, paths[i]))
    && (forall p: Path :: IsLeafPath(t, p) ==> p in paths)
  }

  // The line of some leaf.
  ghost predicate LeafLine(t: Tree, prefix: seq<string>, line: Assignment) {
    exists p: Path :: IsLeafPath(t, p) && line == LineAt(t, prefix, p)
  }

  lemma LinesOfLeaves(t: Tree, prefix: seq<string>, lines: seq<Assignment>, paths: seq<Path>)
    requires Lists(t, prefix, lines, paths)
    ensures forall line :: line in lines <==> LeafLine(t, prefix, line)
  {
    forall line | LeafLine(t, prefix, line) ensures line in lines {
      var p: Path :| IsLeafPath(t, p) && line == LineAt(t, prefix, p);
      var i :| 0 <= i < |paths| && paths[i] == p;
      assert lines[i] == line;
    }
  }

  function Child(t: Tree, s: Step): Option<Tree> {
    if t.Node? && s.Key? && s.key in t.fields then Some(t.fields[s.key])
    else if t.List? && s.At? && s.i < |t.elems| then Some(t.elems[s.i])
    else None
  }

  function Prepend(s: Step, paths: seq<Path>): (r: seq<Path>)
    ensures |r| == |paths|
  {
    seq(|paths|, i requires 0 <= i < |paths| => [s] + paths[i])
  }

  lemma LeafOfChild(t: Tree, s: Step, q: Path, prefix: seq<string>)
    requires Child(t, s).Some?
    ensures IsLeafPath(t, [s] + q) <==> IsLeafPath(Child(t, s).value, q)
    ensures IsLeafPath(t, [s] + q) ==>
              LineAt(t, prefix, [s] + q) == LineAt(Child(t, s).value, prefix + [StepText(s)], q)
  {
    assert ([s] + q)[1..] == q;
    assert prefix + Texts([s] + q) == (prefix + [StepText(s)]) + Texts(q);
  }

  lemma DistinctChild(starts: set<Step>, paths: seq<Path>, s: Step, childPaths: seq<Path>)
    requires Distinct(paths) && Distinct(childPaths) && s !in starts
    requires forall i :: 0 <= i < |paths| ==> paths[i] != [] && paths[i][0] in starts
    ensures Distinct(paths + Prepend(s, childPaths))
  {
    var all := paths + Prepend(s, childPaths);
    forall i, j | 0 <= i < j < |all| ensures all[i] != all[j] {
      if i >= |paths| {
        assert all[i][1..] == childPaths[i - |paths|] && all[j][1..] == childPaths[j - |paths|];
      } else if j >= |paths| {
        assert all[i][0] in starts && all[j][0] == s;
      }
    }
  }

  lemma SoundChild(t: Tree, prefix: seq<string>, s: Step, line: Assignment, q: Path)
    requires Child(t, s).Some? && IsLeafPath(Child(t, s).value, q)
    requires line == LineAt(Child(t, s).value, prefix + [StepText(s)], q)
    ensures Listed(t, prefix, {s}, line, [s] + q)
  {
    LeafOfChild(t, s, q, prefix);
  }

  lemma CompleteChild(t: Tree, s: Step, childPaths: seq<Path>, p: Path)
    requires Child(t, s).Some? && p != [] && p[0] == s && IsLeafPath(t, p)
    requires forall q: Path :: IsLeafPath(Child(t, s).value, q) ==> q in childPaths
    ensures p in Prepend(s, childPaths)
  {
    assert p == [s] + p[1..];
    LeafOfChild(t, s, p[1..], []);
    var i :| 0 <= i < |childPaths| && childPaths[i] == p[1..];
    assert Prepend(s, childPaths)[i] == p;
  }

  lemma CompleteAll(t: Tree, s: Step, starts: set<Step>, paths: seq<Path>, childPaths: seq<Path>, p: Path)
    requires Child(t, s).Some? && p != [] && p[0] in starts + {s} && IsLeafPath(t, p)
    requires p[0] in starts ==> p in paths
    requires forall q: Path :: IsLeafPath(Child(t, s).value, q) ==> q in childPaths
    ensures p in paths + Prepend(s, childPaths)
  {
    if p[0] == s {
      CompleteChild(t, s, childPaths, p);
    }
  }

  lemma ListedChild(t: Tree, prefix: seq<string>, starts: set<Step>, lines: seq<Assignment>, paths: seq<Path>,
                    s: Step, childLines: seq<Assignment>, childPaths: seq<Path>, i: nat)
    requires Covers(t, prefix, starts, lines, paths) && Child(t, s).Some?
    requires Lists(Child(t, s).value, prefix + [StepText(s)], childLines, childPaths)
    requires i < |paths| + |childPaths|
    ensures Listed(t, prefix, starts + {s}, (lines + childLines)[i], (paths + Prepend(s, childPaths))[i])
  {
    if i < |paths| {
      assert Listed(t, prefix, starts, lines[i], paths[i]);
    } else {
      var j := i - |paths|;
      SoundChild(t, prefix, s, childLines[j], childPaths[j]);
      assert (paths + Prepend(s, childPaths))[i] == [s] + childPaths[j];
    }
  }

  // Listing one more child.
  lemma CoverChild(t: Tree, prefix: seq<string>, starts: set<Step>, lines: seq<Assignment>, paths: seq<Path>,
                   s: Step, childLines: seq<Assignment>, childPaths: seq<Path>)
    requires Covers(t, prefix, starts, lines, paths) && s !in starts && Child(t, s).Some?
    requires Lists(Child(t, s).value, prefix + [StepText(s)], childLines, childPaths)
    ensures Covers(t, prefix, starts + {s}, lines + childLines, paths + Prepend(s, childPaths))
  {
    assert forall i :: 0 <= i < |paths| ==> Listed(t, prefix, starts, lines[i], paths[i]);
    DistinctChild(starts, paths, s, childPaths);
    var all, more := paths + Prepend(s, childPaths), lines + childLines;
    forall i | 0 <= i < |all| ensures Listed(t, prefix, starts + {s}, more[i], all[i]) {
      ListedChild(t, prefix, starts, lines, paths, s, childLines, childPaths, i);
    }
    forall p: Path | p != [] && p[0] in starts + {s} && IsLeafPath(t, p) ensures p in all {
      CompleteAll(t, s, starts, paths, childPaths, p);
    }
  }

  lemma CoverCount(t: Tree, prefix: seq<string>)
    requires t.List?
    ensures Covers(t, prefix, {Count}, [Assignment(Join(prefix + ["COUNT"]), Text.Decimal(|t.elems|))], [[Count]])
  {
    assert Texts([Count]) == ["COUNT"];
  }

  // emit_shell. The entries of a table are taken in an arbitrary order.
  method EmitShell(t: Tree, prefix: seq<string>) returns (lines: seq<Assignment>, ghost paths: seq<Path>)
    ensures Lists(t, prefix, lines, paths)
    ensures forall line :: line in lines <==> LeafLine(t, prefix, line)
    decreases t
  {
    lines, paths := [], [];
    ghost var starts: set<Step> := {};
    match t {
      case Node(fs) =>
        var left := fs.Keys;
        while left != {}
          invariant left <= fs.Keys
          invariant forall k :: Key(k) in starts <==> k in fs.Keys - left
          invariant Covers(t, prefix, starts, lines, paths)
        {
          var k :| k in left;
          var childLines, childPaths := EmitShell(fs[k], prefix + [Fold(k)]);
          CoverChild(t, prefix, starts, lines, paths, Key(k), childLines, childPaths);
          lines, paths := lines + childLines, paths + Prepend(Key(k), childPaths);
          starts := starts + {Key(k)};
          left := left - {k};
        }
      case List(es) =>
        lines := [Assignment(Join(prefix + ["COUNT"]), Text.Decimal(|es|))];
        paths, starts := [[Count]], {Count};
        CoverCount(t, prefix);
        for i := 0 to |es|
          invariant starts == {Count} + set j | 0 <= j < i :: At(j)
          invariant Covers(t, prefix, starts, lines, paths)
        {
          var childLines, childPaths := EmitShell(es[i], prefix + [Text.Decimal(i)]);
          CoverChild(t, prefix, starts, lines, paths, At(i), childLines, childPaths);
          lines, paths := lines + childLines, paths + Prepend(At(i), childPaths);
          starts := starts + {At(i)};
        }
      case _ =>
        lines := [Assignment(Join(prefix), Rendered(t))];
        paths := [[]];
        assert prefix + Texts([]) == prefix;
    }
    LinesOfLeaves(t, prefix, lines, paths);
  }
}

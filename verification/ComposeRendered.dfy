/** Compose files written out: what the scanner reads of a file whose networks are known,
    told of the text of its lines. */
module ComposeRendered {
  import opened ComposeNetworks
  import opened ComposeOrder

  /* ---- The scanner as a fold over lines ---- */

  datatype Vars = Vars(net: string, ext: string, innets: bool, printed: seq<string>)

  const INITIAL := Vars("", "", false, [])

  function StepOf(v: Vars, kind: Kind, want: string): Vars {
    var flushed := Flushed(v.net, v.ext, want, v.printed);
    match kind
    case Header => v.(innets := true)
    case TopLevel => Vars("", "false", false, flushed)
    case Entry(name) => if v.innets then Vars(name, "false", true, flushed) else v
    case External => if v.innets then v.(ext := "true") else v
    case _ => v
  }

  function Fold(v: Vars, kinds: seq<Kind>, want: string): Vars
    decreases |kinds|
  {
    if kinds == [] then v else Fold(StepOf(v, kinds[0], want), kinds[1..], want)
  }

  lemma {:induction false} FoldParts(v: Vars, a: seq<Kind>, b: seq<Kind>, want: string)
    ensures Fold(v, a + b, want) == Fold(Fold(v, a, want), b, want)
    decreases |a|
  {
    if a == [] {
      assert a + b == b;
    } else {
      assert (a + b)[1..] == a[1..] + b;
      FoldParts(StepOf(v, a[0], want), a[1..], b, want);
    }
  }

  lemma FoldOne(v: Vars, kind: Kind, want: string)
    ensures Fold(v, [kind], want) == StepOf(v, kind, want)
  {
    assert [kind][1..] == [];
  }

  ghost predicate TracksFold(kinds: seq<Kind>, n: nat, want: string, start: nat)
    requires n <= |kinds|
  {
    var v := Fold(INITIAL, kinds[..n], want);
    Tracks(kinds, n, want, start, v.net, v.ext, v.innets, v.printed)
  }

  lemma EndTracks(kinds: seq<Kind>, n: nat, want: string, start: nat, v: Vars) returns (start': nat)
    requires n < |kinds| && Tracks(kinds, n, want, start, v.net, v.ext, v.innets, v.printed) && EndsEntry(kinds, n)
    ensures var next := StepOf(v, kinds[n], want);
            Tracks(kinds, n + 1, want, start', next.net, next.ext, next.innets, next.printed)
  {
    TrackFlush(kinds, n, want, start, v.net, v.ext, v.innets, v.printed);
    TrackEnd(kinds, n, want);
    start' := if kinds[n].Entry? && kinds[n].name != "" then n else n + 1;
  }

  lemma OtherKept(kinds: seq<Kind>, n: nat, want: string, v: Vars)
    requires n < |kinds| && !EndsEntry(kinds, n) && v.innets == InBlock(kinds, n)
    ensures StepOf(v, kinds[n], want) ==
            Vars(v.net, if v.innets && kinds[n] == External then "true" else v.ext, v.innets || kinds[n] == Header, v.printed)
  {
  }

  lemma StepTracks(kinds: seq<Kind>, n: nat, want: string, start: nat, v: Vars) returns (start': nat)
    requires n < |kinds| && Tracks(kinds, n, want, start, v.net, v.ext, v.innets, v.printed)
    ensures var next := StepOf(v, kinds[n], want);
            Tracks(kinds, n + 1, want, start', next.net, next.ext, next.innets, next.printed)
  {
    if EndsEntry(kinds, n) {
      start' := EndTracks(kinds, n, want, start, v);
    } else {
      TrackOn(kinds, n, want, start, v.net, v.ext, v.innets, v.printed);
      OtherKept(kinds, n, want, v);
      start' := if v.net == "" then n + 1 else start;
    }
  }

  lemma FoldStep(kinds: seq<Kind>, n: nat, want: string)
    requires n < |kinds|
    ensures Fold(INITIAL, kinds[..n + 1], want) == StepOf(Fold(INITIAL, kinds[..n], want), kinds[n], want)
  {
    assert kinds[..n + 1] == kinds[..n] + [kinds[n]];
    FoldParts(INITIAL, kinds[..n], [kinds[n]], want);
    FoldOne(Fold(INITIAL, kinds[..n], want), kinds[n], want);
  }

  lemma TracksFoldStep(kinds: seq<Kind>, n: nat, want: string, start: nat) returns (start': nat)
    requires n < |kinds| && TracksFold(kinds, n, want, start)
    ensures TracksFold(kinds, n + 1, want, start')
  {
    FoldStep(kinds, n, want);
    start' := StepTracks(kinds, n, want, start, Fold(INITIAL, kinds[..n], want));
  }

  lemma TracksFoldStart(kinds: seq<Kind>, want: string)
    ensures TracksFold(kinds, 0, want, 0)
  {
    assert kinds[..0] == [];
    TrackStart(kinds, want, "", "");
  }

  lemma {:induction false} FoldTracks(kinds: seq<Kind>, n: nat, want: string) returns (start: nat)
    requires n <= |kinds|
    ensures TracksFold(kinds, n, want, start)
  {
    if n == 0 {
      TracksFoldStart(kinds, want);
      start := 0;
    } else {
      var before := FoldTracks(kinds, n - 1, want);
      start := TracksFoldStep(kinds, n - 1, want, before);
    }
  }

  function Printed(v: Vars, want: string): seq<string> {
    Flushed(v.net, v.ext, want, v.printed)
  }

  lemma NetworksIsFold(lines: seq<string>, want: string)
    ensures Networks(lines, want) == Printed(Fold(INITIAL, KindsOf(lines), want), want)
  {
    var kinds := KindsOf(lines);
    var start := FoldTracks(kinds, |kinds|, want);
    assert kinds[..|kinds|] == kinds;
    var v := Fold(INITIAL, kinds, want);
    TrackAll(lines, want, start, v.net, v.ext, v.innets, v.printed);
  }

  /* ---- Lines by their text ---- */

  // What may stand as a network's name.
  predicate IsGoodName(name: string) {
    name != "" && name[0] != '#' && forall i :: 0 <= i < |name| ==> !IsSpace(name[i]) && name[i] != ':'
  }

  function EntryLine(name: string, gap: string): string {
    "  " + name + ":" + gap
  }

  lemma {:induction false} FindIs(s: string, i: nat, p: char -> bool, k: nat)
    requires i <= k <= |s| && (forall m :: i <= m < k ==> !p(s[m])) && (k < |s| ==> p(s[k]))
    ensures Find(s, i, p) == k
    decreases k - i
  {
    if i == k {
    } else {
      FindIs(s, i + 1, p, k);
    }
  }

  lemma EntryNameReads(name: string, gap: string)
    requires IsGoodName(name) && AllSpace(gap)
    ensures EntryName(EntryLine(name, gap)) == name
  {
    var line := EntryLine(name, gap);
    var n := |name| + 3;
    assert line[0] == ' ' && line[1] == ' ' && line[n - 1] == ':';
    assert forall i :: 2 <= i < n - 1 ==> line[i] == name[i - 2];
    FindIs(line, 0, IsFilled, 2);
    var to := Find(line, 2, IsBlank);
    assert to >= n;
    var field := line[2..to];
    assert FirstField(line) == field;
    assert forall i :: 0 <= i < |name| ==> field[i] == name[i];
    FindIs(field, 0, IsColon, |name|);
    assert field[..|name|] == name;
  }

  lemma EntryLineReads(name: string, gap: string)
    requires IsGoodName(name) && AllSpace(gap)
    ensures KindOf(EntryLine(name, gap)) == Entry(name)
  {
    var line := EntryLine(name, gap);
    assert line[0] == ' ' && line[1] == ' ' && line[2] == name[0];
    assert !IsComment(line);
    var last := |name| + 2;
    assert line[last] == ':' && line[last + 1..] == gap;
    assert forall i :: 3 <= i < last ==> line[i] == name[i - 2];
    assert ':' !in line[3..last];
    assert IsEntry(line);
    EntryNameReads(name, gap);
  }

  // `external:`, blanks, and a word that starts with `true`.
  predicate IsMark(text: string) {
    "external:" <= text && exists j :: 9 <= j <= |text| && AllSpace(text[9..j]) && "true" <= text[j..]
  }

  // The first colon after the first character has only white space after it.
  predicate NamesEntry(text: string) {
    exists i :: 1 <= i < |text| && text[i] == ':' && ':' !in text[1..i] && AllSpace(text[i + 1..])
  }

  // Lines that say nothing of networks: blank ones, comments, and indented lines that do
  // not mark a network as external and that, if indented by two blanks, have something
  // other than a colon at the end.
  ghost predicate IsNote(line: string) {
    || AllSpace(line)
    || (exists indent, text :: AllSpace(indent) && line == indent + "#" + text)
    || (exists indent, text ::
          && AllSpace(indent) && indent != "" && line == indent + text
          && text != "" && !IsSpace(text[0]) && !IsMark(text) && (|indent| == 2 ==> !NamesEntry(text)))
  }

  lemma IndentEnds(line: string, indent: string, text: string)
    requires line == indent + text && AllSpace(indent) && text != "" && !IsSpace(text[0])
    ensures forall i :: 0 <= i <= |line| && AllSpace(line[..i]) ==> i <= |indent|
    ensures forall i :: 0 <= i < |indent| ==> IsSpace(line[i])
    ensures line[|indent|] == text[0] && line[|indent|..] == text
  {
    forall i | |indent| < i <= |line| ensures !AllSpace(line[..i]) {
      assert line[..i][|indent|] == text[0];
    }
  }

  lemma Slices(line: string, indent: string, text: string, a: nat, b: nat)
    requires line == indent + text && |indent| <= a <= b <= |line|
    ensures line[a..b] == text[a - |indent|..b - |indent|] && line[a..] == text[a - |indent|..]
  {
  }

  lemma IndentIs(line: string, indent: string, text: string, i: nat)
    requires line == indent + text && AllSpace(indent) && text != "" && !IsSpace(text[0])
    requires i < |line| && AllSpace(line[..i]) && !IsSpace(line[i])
    ensures i == |indent|
  {
    IndentEnds(line, indent, text);
  }

  lemma MarkAt(text: string, j: nat)
    requires "external:" <= text && 9 <= j <= |text| && AllSpace(text[9..j]) && "true" <= text[j..]
    ensures IsMark(text)
  {
  }

  lemma ExternalIsMark(line: string, indent: string, text: string)
    requires line == indent + text && AllSpace(indent) && text != "" && !IsSpace(text[0]) && IsExternal(line)
    ensures IsMark(text)
  {
    var i, j :| 1 <= i <= j <= |line| && AllSpace(line[..i]) && "external:" <= line[i..] && i + 9 <= j
               && AllSpace(line[i + 9..j]) && "true" <= line[j..];
    assert line[i] == line[i..][0] == "external:"[0];
    IndentIs(line, indent, text, i);
    Slices(line, indent, text, i, j);
    Slices(line, indent, text, i + 9, j);
    Slices(line, indent, text, j, j);
    assert text[0..] == text;
    MarkAt(text, j - i);
  }

  lemma ExternalHasE(line: string)
    requires IsExternal(line)
    ensures exists i :: 0 <= i < |line| && line[i] == 'e'
  {
    var i, j :| 1 <= i <= j <= |line| && AllSpace(line[..i]) && "external:" <= line[i..] && i + 9 <= j
               && AllSpace(line[i + 9..j]) && "true" <= line[j..];
    assert line[i] == line[i..][0] == "external:"[0];
  }

  lemma NotNamed(line: string, indent: string, text: string)
    requires line == indent + text && |indent| == 2 && !NamesEntry(text)
    ensures !IsEntry(line)
  {
    forall i | 3 <= i < |line| && line[i] == ':' && ':' !in line[3..i] ensures !AllSpace(line[i + 1..]) {
      Slices(line, indent, text, 3, i);
      Slices(line, indent, text, i + 1, i + 1);
      assert text[i - 2] == ':';
    }
  }

  // An indented line that is no comment and not indented as an entry.
  lemma IndentedKind(line: string, indent: string, text: string)
    requires line == indent + text && AllSpace(indent) && |indent| >= 1 && (|indent| == 2 ==> !NamesEntry(text))
    requires text != "" && !IsSpace(text[0]) && text[0] != '#'
    ensures KindOf(line) == if IsExternal(line) then External else Other
  {
    IndentEnds(line, indent, text);
    assert IsSpace(line[0]);
    assert line[0] != "networks:"[0];
    assert !IsHeader(line);
    if |indent| == 1 {
      assert !IsSpace(line[1]);
    } else if |indent| == 2 {
      NotNamed(line, indent, text);
    } else {
      assert IsSpace(line[2]);
    }
    assert !IsEntry(line);
    forall i | 0 <= i < |line| && line[i] == '#' ensures !AllSpace(line[..i]) {
      assert i > |indent| ==> i <= |line| && line[..i][|indent|] == text[0];
    }
    assert !IsComment(line);
  }

  lemma CommentIsQuiet(line: string, indent: string, text: string)
    requires AllSpace(indent) && line == indent + "#" + text
    ensures KindOf(line) == Comment
  {
    var m := |indent|;
    assert line[m] == '#' && line[..m] == indent;
    assert IsComment(line);
    if m > 0 {
      assert IsSpace(line[0]);
    }
  }

  lemma IndentedIsQuiet(line: string, indent: string, text: string)
    requires line == indent + text && AllSpace(indent) && indent != "" && (|indent| == 2 ==> !NamesEntry(text))
    requires text != "" && !IsSpace(text[0]) && !IsMark(text)
    ensures KindOf(line) == Comment || KindOf(line) == Other
  {
    if text[0] == '#' {
      assert line == indent + "#" + text[1..];
      CommentIsQuiet(line, indent, text[1..]);
    } else {
      IndentedKind(line, indent, text);
      if IsExternal(line) {
        ExternalIsMark(line, indent, text);
      }
    }
  }

  lemma BlankIsQuiet(line: string)
    requires AllSpace(line)
    ensures KindOf(line) == Other
  {
    if line != "" {
      assert IsSpace(line[0]) && line[0] != "networks:"[0];
    }
    assert !IsHeader(line) && !IsTopLevel(line) && !IsComment(line);
    if |line| > 2 {
      assert IsSpace(line[2]);
    }
    assert !IsEntry(line);
    if IsExternal(line) {
      ExternalHasE(line);
    }
  }

  lemma NoteIsQuiet(line: string)
    requires IsNote(line)
    ensures KindOf(line) == Comment || KindOf(line) == Other
  {
    if AllSpace(line) {
      BlankIsQuiet(line);
    } else if indent, text :| AllSpace(indent) && line == indent + "#" + text {
      CommentIsQuiet(line, indent, text);
    } else {
      var indent, text :| AllSpace(indent) && indent != "" && line == indent + text
                          && text != "" && !IsSpace(text[0]) && !IsMark(text) && (|indent| == 2 ==> !NamesEntry(text));
      IndentedIsQuiet(line, indent, text);
    }
  }

  // A mark: `external:`, blanks and `true`, indented, and not itself an entry.
  ghost predicate IsMarkLine(line: string) {
    exists indent, text ::
      AllSpace(indent) && |indent| >= 1 && line == indent + text && IsMark(text) && (|indent| == 2 ==> !NamesEntry(text))
  }

  lemma MarkIsExternal(line: string, indent: string, text: string, j: nat)
    requires line == indent + text && AllSpace(indent) && |indent| >= 1
    requires "external:" <= text && 9 <= j <= |text| && AllSpace(text[9..j]) && "true" <= text[j..]
    ensures IsExternal(line)
  {
    var m := |indent|;
    Slices(line, indent, text, m, m);
    Slices(line, indent, text, m + 9, m + j);
    Slices(line, indent, text, m + j, m + j);
    assert line[..m] == indent && text[0..] == text;
  }

  lemma MarkLineReads(line: string)
    requires IsMarkLine(line)
    ensures KindOf(line) == External
  {
    var indent, text :|
      AllSpace(indent) && |indent| >= 1 && line == indent + text && IsMark(text) && (|indent| == 2 ==> !NamesEntry(text));
    var j :| 9 <= j <= |text| && AllSpace(text[9..j]) && "true" <= text[j..];
    assert text[0] == "external:"[0];
    MarkIsExternal(line, indent, text, j);
    IndentedKind(line, indent, text);
  }

  lemma MarkHasT(text: string)
    requires IsMark(text)
    ensures exists j :: 9 <= j < |text| && text[j] == 't'
  {
    var j :| 9 <= j <= |text| && AllSpace(text[9..j]) && "true" <= text[j..];
    assert text[j] == text[j..][0] == "true"[0];
  }

  lemma MarkLine(indent: string, text: string)
    requires AllSpace(indent) && |indent| > 2 && IsMark(text)
    ensures IsMarkLine(indent + text)
  {
  }

  lemma NoteLine(indent: string, text: string)
    requires AllSpace(indent) && |indent| > 2 && text != "" && !IsSpace(text[0]) && !IsMark(text)
    ensures IsNote(indent + text)
  {
  }

  // `external: true` is a mark,
  lemma ExternalTrueMarks()
    ensures IsMarkLine("    " + "external: true")
  {
    var text := "external: true";
    assert text == "external:" + " " + "true";
    assert text[9..10] == " " && text[10..] == "true" && text[..9] == "external:";
    MarkAt(text, 10);
    MarkLine("    ", text);
  }

  // and `external: false` is none.
  lemma ExternalFalseDoesNot()
    ensures IsNote("    " + "external: false")
  {
    var text := "external: false";
    if IsMark(text) {
      MarkHasT(text);
    }
    NoteLine("    ", text);
  }

  /* ---- A block of networks, written out ---- */

  // A network and the white space after its name, whether it is joined, its mark if so, and
  // the notes below its name and below its mark.
  datatype Network = Network(name: string, gap: string, joined: bool, mark: string, notes: seq<string>, more: seq<string>)

  ghost predicate IsGood(net: Network) {
    && IsGoodName(net.name) && AllSpace(net.gap) && (net.joined ==> IsMarkLine(net.mark))
    && (forall i :: 0 <= i < |net.notes| ==> IsNote(net.notes[i]))
    && (forall i :: 0 <= i < |net.more| ==> IsNote(net.more[i]))
  }

  function RenderOne(net: Network): seq<string> {
    [EntryLine(net.name, net.gap)] + net.notes + (if net.joined then [net.mark] else []) + net.more
  }

  function RenderAll(nets: seq<Network>): seq<string> {
    if nets == [] then [] else RenderAll(nets[..|nets| - 1]) + RenderOne(nets[|nets| - 1])
  }

  // The names of the joined networks, or of the others, in order.
  function NamesOf(nets: seq<Network>, joined: bool): seq<string> {
    if nets == [] then []
    else
      var n := |nets| - 1;
      NamesOf(nets[..n], joined) + if nets[n].joined == joined then [nets[n].name] else []
  }

  lemma {:induction false} NotesFold(v: Vars, lines: seq<string>, want: string)
    requires forall i :: 0 <= i < |lines| ==> IsNote(lines[i])
    ensures Fold(v, KindsOf(lines), want) == v
    decreases |lines|
  {
    if lines == [] {
    } else {
      NoteIsQuiet(lines[0]);
      assert KindsOf(lines)[1..] == KindsOf(lines[1..]);
      NotesFold(v, lines[1..], want);
    }
  }

  lemma KindsOfParts(a: seq<string>, b: seq<string>)
    ensures KindsOf(a + b) == KindsOf(a) + KindsOf(b)
  {
  }

  lemma FoldLines(v: Vars, a: seq<string>, b: seq<string>, want: string)
    ensures Fold(v, KindsOf(a + b), want) == Fold(Fold(v, KindsOf(a), want), KindsOf(b), want)
  {
    KindsOfParts(a, b);
    FoldParts(v, KindsOf(a), KindsOf(b), want);
  }

  lemma OneLine(v: Vars, line: string, want: string)
    ensures Fold(v, KindsOf([line]), want) == StepOf(v, KindOf(line), want)
  {
    assert KindsOf([line]) == [KindOf(line)];
    FoldOne(v, KindOf(line), want);
  }

  lemma OneNetworkFolds(v: Vars, net: Network, want: string)
    requires IsGood(net) && v.innets
    ensures Fold(v, KindsOf(RenderOne(net)), want) == Vars(net.name, MarkText(net.joined), true, Printed(v, want))
  {
    var entry, mark := [EntryLine(net.name, net.gap)], if net.joined then [net.mark] else [];
    EntryLineReads(net.name, net.gap);
    OneLine(v, EntryLine(net.name, net.gap), want);
    var after := Vars(net.name, "false", true, Printed(v, want));
    FoldLines(v, entry, net.notes, want);
    NotesFold(after, net.notes, want);
    FoldLines(v, entry + net.notes, mark, want);
    if net.joined {
      MarkLineReads(net.mark);
      OneLine(after, net.mark, want);
    } else {
      assert KindsOf(mark) == [];
    }
    FoldLines(v, entry + net.notes + mark, net.more, want);
    NotesFold(after.(ext := MarkText(net.joined)), net.more, want);
  }

  lemma {:induction false} AllNetworksFold(v: Vars, nets: seq<Network>, joined: bool)
    requires forall i :: 0 <= i < |nets| ==> IsGood(nets[i])
    requires v.innets && v.net == ""
    ensures var after := Fold(v, KindsOf(RenderAll(nets)), MarkText(joined));
            after.innets && Printed(after, MarkText(joined)) == v.printed + NamesOf(nets, joined)
  {
    var want := MarkText(joined);
    if nets == [] {
      assert KindsOf(RenderAll(nets)) == [];
      assert v.printed + NamesOf(nets, joined) == v.printed;
    } else {
      var n := |nets| - 1;
      AllNetworksFold(v, nets[..n], joined);
      FoldLines(v, RenderAll(nets[..n]), RenderOne(nets[n]), want);
      OneNetworkFolds(Fold(v, KindsOf(RenderAll(nets[..n])), want), nets[n], want);
      assert MarkText(nets[n].joined) == want <==> nets[n].joined == joined by {
        assert "true"[0] != "false"[0];
      }
    }
  }

  /* ---- A whole file ---- */

  // `networks:` alone on its line, but for white space after it.
  ghost predicate IsHeaderLine(line: string) {
    exists gap :: AllSpace(gap) && line == "networks:" + gap
  }

  lemma HeaderReads(line: string)
    ensures IsHeaderLine(line) <==> KindOf(line) == Header
  {
    if IsHeader(line) {
      assert line == "networks:" + line[9..];
    }
    if gap :| AllSpace(gap) && line == "networks:" + gap {
      assert line[9..] == gap;
    }
  }

  // No networks block starts here.
  ghost predicate NoHeader(lines: seq<string>) {
    forall i :: 0 <= i < |lines| ==> !IsHeaderLine(lines[i])
  }

  // A key of the top level.
  predicate IsKeyLine(line: string) {
    line != "" && !IsSpace(line[0]) && line[0] != '#'
  }

  lemma {:induction false} OutsideFolds(v: Vars, lines: seq<string>, want: string)
    requires NoHeader(lines) && !v.innets && v.net == ""
    ensures var after := Fold(v, KindsOf(lines), want); !after.innets && after.net == "" && after.printed == v.printed
    decreases |lines|
  {
    if lines == [] {
    } else {
      assert KindsOf(lines)[1..] == KindsOf(lines[1..]);
      HeaderReads(lines[0]);
      var next := StepOf(v, KindOf(lines[0]), want);
      assert next.printed == v.printed + [] == v.printed;
      OutsideFolds(next, lines[1..], want);
    }
  }

  lemma HeaderFolds(v: Vars, header: string, want: string)
    requires IsHeaderLine(header)
    ensures Fold(v, KindsOf([header]), want) == v.(innets := true)
  {
    HeaderReads(header);
    OneLine(v, header, want);
  }

  lemma RestFolds(v: Vars, lines: seq<string>, want: string)
    requires NoHeader(lines) && (lines != [] ==> IsKeyLine(lines[0]))
    ensures Printed(Fold(v, KindsOf(lines), want), want) == Printed(v, want)
  {
    if lines == [] {
    } else {
      assert KindsOf(lines)[1..] == KindsOf(lines[1..]);
      HeaderReads(lines[0]);
      assert KindOf(lines[0]) == TopLevel;
      OutsideFolds(StepOf(v, TopLevel, want), lines[1..], want);
    }
  }

  // A file whose only networks block lists the given networks, among any notes, and
  // between any other sections, reads as their names: "true" gives the joined ones and
  // "false" the others, in order.
  lemma WrittenFileReads(before: seq<string>, header: string, nets: seq<Network>, after: seq<string>, joined: bool)
    requires NoHeader(before) && IsHeaderLine(header) && NoHeader(after) && (after != [] ==> IsKeyLine(after[0]))
    requires forall i :: 0 <= i < |nets| ==> IsGood(nets[i])
    ensures Networks(before + [header] + RenderAll(nets) + after, if joined then "true" else "false") == NamesOf(nets, joined)
  {
    var want := MarkText(joined);
    var head, block := before + [header], before + [header] + RenderAll(nets);
    NetworksIsFold(block + after, want);
    FoldLines(INITIAL, block, after, want);
    FoldLines(INITIAL, head, RenderAll(nets), want);
    FoldLines(INITIAL, before, [header], want);
    OutsideFolds(INITIAL, before, want);
    var v := Fold(INITIAL, KindsOf(before), want);
    HeaderFolds(v, header, want);
    AllNetworksFold(v.(innets := true), nets, joined);
    RestFolds(Fold(INITIAL, KindsOf(block), want), after, want);
    assert [] + NamesOf(nets, joined) == NamesOf(nets, joined);
  }

  // So the project of such a file owns the others and joins the joined ones.
  lemma ProjectOfWrittenFile(path: string, folder: string,
                             before: seq<string>, header: string, nets: seq<Network>, after: seq<string>)
    requires NoHeader(before) && IsHeaderLine(header) && NoHeader(after) && (after != [] ==> IsKeyLine(after[0]))
    requires forall i :: 0 <= i < |nets| ==> IsGood(nets[i])
    ensures ProjectOf(path, folder, before + [header] + RenderAll(nets) + after) ==
            Project(path, folder, NamesOf(nets, false), NamesOf(nets, true))
  {
    WrittenFileReads(before, header, nets, after, false);
    WrittenFileReads(before, header, nets, after, true);
  }
}

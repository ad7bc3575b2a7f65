/** What `eval` makes of the exported text. The reader of words follows the quoting rules of
    section 2.2 of the POSIX Shell Command Language and refuses any other special
    character. */
module ShellEval {
  import opened Prelude
  import Text
  import opened ConfigTree
  import opened ShellExport
  import opened Schema

  /* ---- The shell's reading of an assignment ---- */

  datatype Read = Read(value: string, rest: string)

  function Consed(c: char, r: Option<Read>): Option<Read> {
    match r
    case None => None
    case Some(read) => Some(read.(value := [c] + read.value))
  }

  // The characters that need quoting, other than the quotes this reader knows and the
  // newline; in the value of an assignment an equals sign needs none.
  predicate IsSpecial(c: char) {
    || c == '|' || c == '&' || c == ';' || c == '<' || c == '>' || c == '(' || c == ')' || c == '$' || c == '`'
    || c == '\"' || c == ' ' || c == '\t' || c == '*' || c == '?' || c == '[' || c == '#' || c == '~' || c == '%'
  }

  // A word up to the end of its line, outside or inside single quotes.
  function ReadWord(s: string, quoted: bool): Option<Read>
    decreases |s|
  {
    if quoted then
      if s == "" then None
      else if s[0] == '\'' then ReadWord(s[1..], false)
      else Consed(s[0], ReadWord(s[1..], true))
    else if s == "" || s[0] == '\n' then Some(Read("", s))
    else if s[0] == '\'' then ReadWord(s[1..], true)
    else if s[0] == '\\' then
      if |s| < 2 then None
      else if s[1] == '\n' then ReadWord(s[2..], false)
      else Consed(s[1], ReadWord(s[2..], false))
    else if IsSpecial(s[0]) then None
    else Consed(s[0], ReadWord(s[1..], false))
  }

  predicate IsNameChar(c: char) {
    'a' <= c <= 'z' || 'A' <= c <= 'Z' || c == '_' || Text.IsDigit(c)
  }

  predicate IsName(s: string) {
    s != "" && !Text.IsDigit(s[0]) && forall i :: 0 <= i < |s| ==> IsNameChar(s[i])
  }

  // The part before the first '='; the whole text when there is none.
  function UpToEquals(s: string): (r: string)
    ensures r <= s
  {
    if s == "" || s[0] == '=' then "" else [s[0]] + UpToEquals(s[1..])
  }

  type Env = map<string, string>

  // eval of a text of assignments, one a line.
  function Eval(text: string, env: Env): Option<Env>
    decreases |text|
  {
    if text == "" then Some(env)
    else
      var name := UpToEquals(text);
      if !IsName(name) || |name| == |text| then None
      else
        match ReadWord(text[|name| + 1..], false)
        case None => None
        case Some(Read(value, rest)) =>
          if rest == "" then Some(env[name := value])
          else if |rest| <= |text| - |name| - 1 then Eval(rest[1..], env[name := value])
          else None
  }

  function Script(lines: seq<Assignment>): string {
    if lines == [] then ""
    else lines[0].name + "=" + lines[0].word + "\n" + Script(lines[1..])
  }

  /* ---- Quoting is undone ---- */

  lemma ReadQuotedChar(c: char, tail: string)
    requires c != '\''
    ensures ReadWord([c] + tail, true) == Consed(c, ReadWord(tail, true))
  {
    assert ([c] + tail)[1..] == tail;
  }

  lemma ReadEscapedQuote(tail: string)
    ensures ReadWord("'\\''" + tail, true) == Consed('\'', ReadWord(tail, true))
  {
    var text, afterQuote, afterSlash := "'\\''" + tail, "\\''" + tail, "'" + tail;
    assert text[1..] == afterQuote && afterQuote[2..] == afterSlash && afterSlash[1..] == tail;
    assert ReadWord(text, true) == ReadWord(afterQuote, false);
    assert afterQuote[0] == '\\' && afterQuote[1] == '\'' && |afterQuote| >= 2;
    assert ReadWord(afterQuote, false) == Consed('\'', ReadWord(afterSlash, false));
    assert ReadWord(afterSlash, false) == ReadWord(tail, true);
  }

  lemma EscapedSplits(s: string, rest: string)
    requires s != ""
    ensures Escaped(s) + "'" + rest == (if s[0] == '\'' then "'\\''" else [s[0]]) + (Escaped(s[1..]) + "'" + rest)
  {
  }

  // Inside quotes, an escaped text and its closing quote read as the text.
  lemma {:induction false} ReadEscaped(s: string, rest: string)
    requires ReadWord(rest, false).Some? && ReadWord(rest, false).value.value == ""
    ensures ReadWord(Escaped(s) + "'" + rest, true) == Some(Read(s, ReadWord(rest, false).value.rest))
  {
    if s == "" {
      assert ("'" + rest)[1..] == rest;
    } else {
      var tail := Escaped(s[1..]) + "'" + rest;
      ReadEscaped(s[1..], rest);
      EscapedSplits(s, rest);
      if s[0] == '\'' {
        ReadEscapedQuote(tail);
      } else {
        ReadQuotedChar(s[0], tail);
      }
      assert s == [s[0]] + s[1..];
    }
  }

  lemma {:induction false} ReadSafe(s: string, rest: string)
    requires AllSafe(s) && ReadWord(rest, false).Some? && ReadWord(rest, false).value.value == ""
    ensures ReadWord(s + rest, false) == Some(Read(s, ReadWord(rest, false).value.rest))
  {
    if s == "" {
      assert s + rest == rest;
    } else {
      ReadSafe(s[1..], rest);
      assert (s + rest)[1..] == s[1..] + rest;
      assert s == [s[0]] + s[1..];
    }
  }

  // For every string at all, what shell_quote prints reads back as that string.
  lemma QuoteRoundTrip(s: string, rest: string)
    ensures ReadWord(ShellQuote(s) + "\n" + rest, false) == Some(Read(s, "\n" + rest))
  {
    var line := "\n" + rest;
    if AllSafe(s) {
      ReadSafe(s, line);
      assert s + line == s + "\n" + rest;
    } else {
      ReadEscaped(s, line);
      var text := "'" + (Escaped(s) + "'" + line);
      assert text == ShellQuote(s) + "\n" + rest;
      assert text[1..] == Escaped(s) + "'" + line;
    }
  }

  lemma DigitsAreSafe(s: string)
    requires Text.AllDigits(s)
    ensures AllSafe(s)
  {
    forall i | 0 <= i < |s| ensures IsSafe(s[i]) {
      assert Text.IsDigit(s[i]);
    }
  }

  lemma ScalarReads(t: Tree, rest: string)
    requires IsScalar(t)
    ensures ReadWord(Rendered(t) + "\n" + rest, false) == Some(Read(ScalarText(t), "\n" + rest))
  {
    QuoteRoundTrip(ScalarText(t), rest);
    match t {
      case Text(s) =>
      case Number(i) =>
        DigitsAreSafe(Text.Decimal(if i < 0 then -i else i));
        assert AllSafe(IntText(i));
      case Flag(b) =>
        assert AllSafe(FlagText(b));
    }
  }

  // What the variable of a leaf should hold.
  function ValueAt(t: Tree, p: Path): string
    requires IsLeafPath(t, p)
    decreases |p|
  {
    match t
    case Node(fs) => ValueAt(fs[p[0].key], p[1..])
    case List(es) => if p == [Count] then Text.Decimal(|es|) else ValueAt(es[p[0].i], p[1..])
    case _ => ScalarText(t)
  }

  lemma {:induction false} LeafReads(t: Tree, p: Path, rest: string)
    requires IsLeafPath(t, p)
    ensures ReadWord(WordAt(t, p) + "\n" + rest, false) == Some(Read(ValueAt(t, p), "\n" + rest))
    decreases |p|
  {
    match t {
      case Node(fs) => LeafReads(fs[p[0].key], p[1..], rest);
      case List(es) =>
        if p == [Count] {
          DigitsAreSafe(Text.Decimal(|es|));
          QuoteRoundTrip(Text.Decimal(|es|), rest);
        } else {
          LeafReads(es[p[0].i], p[1..], rest);
        }
      case _ => ScalarReads(t, rest);
    }
  }

  /* ---- Evaluating an export ---- */

  // Lines with proper names whose words read as the given values.
  ghost predicate Readable(lines: seq<Assignment>, values: seq<string>) {
    && |lines| == |values|
    && (forall i :: 0 <= i < |lines| ==> IsName(lines[i].name))
    && (forall i, rest :: 0 <= i < |lines| ==>
         ReadWord(lines[i].word + "\n" + rest, false) == Some(Read(values[i], "\n" + rest)))
  }

  function Assigned(lines: seq<Assignment>, values: seq<string>, env: Env): Env
    requires |lines| == |values|
  {
    if lines == [] then env else Assigned(lines[1..], values[1..], env[lines[0].name := values[0]])
  }

  lemma {:induction false} NameRead(name: string, rest: string)
    requires forall i :: 0 <= i < |name| ==> IsNameChar(name[i])
    ensures UpToEquals(name + "=" + rest) == name
  {
    var text := name + "=" + rest;
    if name == "" {
    } else {
      NameRead(name[1..], rest);
      assert text[1..] == name[1..] + "=" + rest;
      assert IsNameChar(name[0]);
      assert name == [name[0]] + name[1..];
    }
  }

  lemma EvalLine(name: string, word: string, value: string, rest: string, env: Env)
    requires IsName(name) && ReadWord(word + "\n" + rest, false) == Some(Read(value, "\n" + rest))
    ensures Eval(name + "=" + word + "\n" + rest, env) == Eval(rest, env[name := value])
  {
    var after := word + "\n" + rest;
    var text := name + "=" + after;
    assert text == name + "=" + word + "\n" + rest;
    NameRead(name, after);
    assert text[|name| + 1..] == after;
    assert ("\n" + rest)[1..] == rest;
  }

  lemma {:induction false} EvalScript(lines: seq<Assignment>, values: seq<string>, env: Env)
    requires Readable(lines, values)
    ensures Eval(Script(lines), env) == Some(Assigned(lines, values, env))
  {
    if lines == [] {
    } else {
      EvalLine(lines[0].name, lines[0].word, values[0], Script(lines[1..]), env);
      EvalScript(lines[1..], values[1..], env[lines[0].name := values[0]]);
    }
  }

  lemma {:induction false} AssignedElsewhere(lines: seq<Assignment>, values: seq<string>, env: Env, x: string)
    requires |lines| == |values| && forall i :: 0 <= i < |lines| ==> lines[i].name != x
    ensures x in Assigned(lines, values, env) <==> x in env
    ensures x in env ==> Assigned(lines, values, env)[x] == env[x]
  {
    if lines == [] {
    } else {
      assert lines[0].name != x;
      AssignedElsewhere(lines[1..], values[1..], env[lines[0].name := values[0]], x);
    }
  }

  // Under distinct names, every variable keeps the value of its own line.
  lemma {:induction false} AssignedKeeps(lines: seq<Assignment>, values: seq<string>, env: Env, i: nat)
    requires |lines| == |values| && i < |lines|
    requires forall j, k :: 0 <= j < k < |lines| ==> lines[j].name != lines[k].name
    ensures var after, name := Assigned(lines, values, env), lines[i].name;
            name in after && after[name] == values[i]
  {
    var next := env[lines[0].name := values[0]];
    if i == 0 {
      AssignedElsewhere(lines[1..], values[1..], next, lines[0].name);
    } else {
      AssignedKeeps(lines[1..], values[1..], next, i - 1);
    }
  }

  /* ---- From leaves to variables ---- */

  lemma {:induction false} JoinTailAppend(a: seq<string>, b: seq<string>)
    ensures JoinTail(a + b) == JoinTail(a) + JoinTail(b)
  {
    if a == [] {
      assert a + b == b;
    } else {
      JoinTailAppend(a[1..], b);
      assert (a + b)[1..] == a[1..] + b;
    }
  }

  lemma {:induction false} JoinTailOfTexts(p: Path)
    ensures JoinTail(Texts(p)) == Tail(p)
  {
    if p == [] {
    } else {
      JoinTailOfTexts(p[1..]);
      assert Texts(p)[1..] == Texts(p[1..]);
    }
  }

  lemma JoinIsTail(parts: seq<string>)
    requires parts != []
    ensures "_" + Join(parts) == JoinTail(parts)
  {
  }

  // A name is the path's tail after the prefix, less the leading separator.
  lemma NameIsTail(prefix: seq<string>, p: Path)
    requires prefix + Texts(p) != []
    ensures "_" + Join(prefix + Texts(p)) == JoinTail(prefix) + Tail(p)
  {
    JoinIsTail(prefix + Texts(p));
    JoinTailAppend(prefix, Texts(p));
    JoinTailOfTexts(p);
  }

  // For every conforming tree, distinct leaves and counts get distinct variable names.
  lemma VariablesDiffer(t: Tree, shape: Shape, prefix: seq<string>, p: Path, q: Path)
    requires Conforms(t, shape) && Separable(shape) && IsLeafPath(t, p) && IsLeafPath(t, q)
    requires Join(prefix + Texts(p)) == Join(prefix + Texts(q))
    ensures p == q
  {
    if p != [] && q != [] {
      NameIsTail(prefix, p);
      NameIsTail(prefix, q);
      SameRest(JoinTail(prefix), Tail(p), Tail(q));
      NamesDiffer(t, shape, p, q);
    }
  }

  // Without a schema they can clash: a hyphen and an underscore fold to the same.
  lemma KeysCanClash(t: Tree)
    requires t.Text?
    ensures var node := Node(map["a-b" := t, "a_b" := t]);
      && IsLeafPath(node, [Key("a-b")]) && IsLeafPath(node, [Key("a_b")])
      && Join(Texts([Key("a-b")])) == Join(Texts([Key("a_b")]))
  {
    assert Fold("a-b") == Fold("a_b");
    assert [Key("a-b")][1..] == [] && [Key("a_b")][1..] == [];
  }
}

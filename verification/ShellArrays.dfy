/** The whole way round: export a configuration, evaluate the text, and read its arrays
    back through `_COUNT` and the indexed variables, as the init scripts do. */
module ShellArrays {
  import opened Prelude
  import Text
  import opened ConfigTree
  import opened ShellExport
  import opened Schema
  import opened ShellEval

  /* ---- Proper variable names ---- */

  predicate NameChars(s: string) {
    forall i :: 0 <= i < |s| ==> IsNameChar(s[i])
  }

  predicate IsKeyChar(c: char) {
    'a' <= c <= 'z' || Text.IsDigit(c) || c == '_' || c == '-'
  }

  predicate GoodKey(k: string) {
    k != "" && 'a' <= k[0] <= 'z' && forall i :: 0 <= i < |k| ==> IsKeyChar(k[i])
  }

  lemma FoldedKey(k: string)
    requires GoodKey(k)
    ensures Fold(k) != "" && NameChars(Fold(k)) && !Text.IsDigit(Fold(k)[0])
  {
    forall i | 0 <= i < |k| ensures IsNameChar(Fold(k)[i]) {
      assert IsKeyChar(k[i]);
    }
  }

  ghost predicate WellKeyed(shape: Shape) {
    match shape
    case Scalar => true
    case Many(elem) => WellKeyed(elem)
    case Record(ms) => forall i :: 0 <= i < |ms| ==> GoodKey(ms[i].key) && WellKeyed(ms[i].shape)
  }

  lemma DecimalNameChars(n: nat)
    ensures NameChars(Text.Decimal(n))
  {
    var s := Text.Decimal(n);
    forall i | 0 <= i < |s| ensures IsNameChar(s[i]) {
      assert Text.IsDigit(s[i]);
    }
  }

  lemma {:induction false} TailNameChars(t: Tree, shape: Shape, p: Path)
    requires Conforms(t, shape) && WellKeyed(shape) && IsLeafPath(t, p)
    ensures NameChars(Tail(p))
    ensures t.Node? ==> GoodKey(p[0].key)
    decreases t
  {
    if t.Node? {
      var i := MemberOf(t, shape, p);
      TailNameChars(t.fields[p[0].key], shape.members[i].shape, p[1..]);
      FoldedKey(p[0].key);
    } else if t.List? && p[0].At? {
      TailNameChars(t.elems[p[0].i], shape.elem, p[1..]);
      DecimalNameChars(p[0].i);
    } else if t.List? {
      assert Tail(p) == "_COUNT" + Tail(p[1..]) && p[1..] == [];
    }
  }

  // What is listed: the whole configuration without a prefix, or one section under its name.
  predicate GoodPrefix(t: Tree, prefix: seq<string>) {
    if prefix == [] then t.Node?
    else |prefix| == 1 && prefix[0] != "" && NameChars(prefix[0]) && !Text.IsDigit(prefix[0][0])
  }

  lemma ProperParts(first: string, rest: string)
    requires first != "" && NameChars(first) && !Text.IsDigit(first[0]) && NameChars(rest)
    ensures IsName(first + rest)
  {
  }

  lemma NameUnderSection(section: string, p: Path)
    ensures Join([section] + Texts(p)) == section + Tail(p)
  {
    assert ([section] + Texts(p))[1..] == Texts(p);
    JoinTailOfTexts(p);
  }

  lemma NameOfWhole(p: Path)
    requires p != []
    ensures Join([] + Texts(p)) == StepText(p[0]) + Tail(p[1..])
  {
    assert ([] + Texts(p))[1..] == Texts(p[1..]);
    JoinTailOfTexts(p[1..]);
  }

  lemma LeafNameIsProper(t: Tree, shape: Shape, prefix: seq<string>, p: Path)
    requires Conforms(t, shape) && WellKeyed(shape) && GoodPrefix(t, prefix) && IsLeafPath(t, p)
    ensures IsName(Join(prefix + Texts(p)))
  {
    TailNameChars(t, shape, p);
    if prefix == [] {
      var i := MemberOf(t, shape, p);
      TailNameChars(t.fields[p[0].key], shape.members[i].shape, p[1..]);
      NameOfWhole(p);
      FoldedKey(p[0].key);
      ProperParts(Fold(p[0].key), Tail(p[1..]));
    } else {
      assert prefix == [prefix[0]];
      NameUnderSection(prefix[0], p);
      ProperParts(prefix[0], Tail(p));
    }
  }

  /* ---- Export, then eval ---- */

  // "${!v}": an unset variable reads as nothing.
  function Variable(env: Env, name: string): string {
    if name in env then env[name] else ""
  }

  // Every leaf's variable holds what the leaf stands for.
  ghost predicate Recovers(env: Env, t: Tree, prefix: seq<string>) {
    forall p :: IsLeafPath(t, p) ==>
      Join(prefix + Texts(p)) in env && env[Join(prefix + Texts(p))] == ValueAt(t, p)
  }

  ghost predicate NamesLeaf(t: Tree, prefix: seq<string>, x: string) {
    exists p :: IsLeafPath(t, p) && x == Join(prefix + Texts(p))
  }

  // From one environment to the next: every leaf's variable is set, and no other changes.
  ghost predicate Exports(t: Tree, prefix: seq<string>, before: Env, after: Env) {
    && Recovers(after, t, prefix)
    && forall x :: !NamesLeaf(t, prefix, x) ==> Variable(after, x) == Variable(before, x)
  }

  lemma ListedIsReadable(t: Tree, shape: Shape, prefix: seq<string>, lines: seq<Assignment>, paths: seq<Path>, values: seq<string>)
    requires Conforms(t, shape) && WellKeyed(shape) && GoodPrefix(t, prefix) && Lists(t, prefix, lines, paths)
    requires |values| == |paths| && forall i :: 0 <= i < |paths| ==> values[i] == ValueAt(t, paths[i])
    ensures Readable(lines, values)
  {
    forall i | 0 <= i < |lines| ensures IsName(lines[i].name) {
      LeafNameIsProper(t, shape, prefix, paths[i]);
    }
    forall i, rest | 0 <= i < |lines|
      ensures ReadWord(lines[i].word + "\n" + rest, false) == Some(Read(values[i], "\n" + rest))
    {
      LeafReads(t, paths[i], rest);
    }
  }

  lemma ListedNamesDiffer(t: Tree, shape: Shape, prefix: seq<string>, lines: seq<Assignment>, paths: seq<Path>)
    requires Conforms(t, shape) && Separable(shape) && Lists(t, prefix, lines, paths)
    ensures forall i, j :: 0 <= i < j < |lines| ==> lines[i].name != lines[j].name
  {
    forall i, j | 0 <= i < j < |lines| ensures lines[i].name != lines[j].name {
      if lines[i].name == lines[j].name {
        VariablesDiffer(t, shape, prefix, paths[i], paths[j]);
      }
    }
  }

  lemma AssignedRecovers(t: Tree, prefix: seq<string>, lines: seq<Assignment>, paths: seq<Path>, values: seq<string>, start: Env)
    requires Lists(t, prefix, lines, paths) && forall i, j :: 0 <= i < j < |lines| ==> lines[i].name != lines[j].name
    requires |values| == |paths| && forall i :: 0 <= i < |paths| ==> values[i] == ValueAt(t, paths[i])
    ensures Recovers(Assigned(lines, values, start), t, prefix)
  {
    var after := Assigned(lines, values, start);
    forall p | IsLeafPath(t, p)
      ensures var name := Join(prefix + Texts(p)); name in after && after[name] == ValueAt(t, p)
    {
      var i :| 0 <= i < |paths| && paths[i] == p;
      AssignedKeeps(lines, values, start, i);
    }
  }

  lemma ListingExports(t: Tree, shape: Shape, prefix: seq<string>, lines: seq<Assignment>, paths: seq<Path>, start: Env)
    requires Conforms(t, shape) && Separable(shape) && WellKeyed(shape) && GoodPrefix(t, prefix)
    requires Lists(t, prefix, lines, paths)
    ensures Eval(Script(lines), start).Some? && Exports(t, prefix, start, Eval(Script(lines), start).value)
  {
    var values := seq(|paths|, i requires 0 <= i < |paths| => ValueAt(t, paths[i]));
    ListedIsReadable(t, shape, prefix, lines, paths, values);
    EvalScript(lines, values, start);
    ListedNamesDiffer(t, shape, prefix, lines, paths);
    var after := Assigned(lines, values, start);
    AssignedRecovers(t, prefix, lines, paths, values, start);
    forall x | !NamesLeaf(t, prefix, x) ensures Variable(after, x) == Variable(start, x) {
      AssignedElsewhere(lines, values, start, x);
    }
  }

  // Evaluating the export of a conforming tree succeeds, sets every leaf's variable and
  // no other.
  method ExportAndEval(t: Tree, ghost shape: Shape, prefix: seq<string>, start: Env) returns (env: Option<Env>)
    requires Conforms(t, shape) && Separable(shape) && WellKeyed(shape) && GoodPrefix(t, prefix)
    ensures env.Some? && Exports(t, prefix, start, env.value)
  {
    var lines, paths := EmitShell(t, prefix);
    ListingExports(t, shape, prefix, lines, paths, start);
    env := Eval(Script(lines), start);
  }

  /* ---- Reading an array ---- */

  // The loop bound: a count that is unset, or not a number, is no count.
  function CountOf(env: Env, base: string): nat {
    var text := Variable(env, base + "_COUNT");
    if Text.AllDigits(text) then Text.NumberOf(text) else 0
  }

  // The reading loop of the init scripts.
  method ReadArray(env: Env, base: string) returns (values: seq<string>)
    ensures |values| == CountOf(env, base)
    ensures forall i :: 0 <= i < |values| ==> values[i] == Variable(env, base + "_" + Text.Decimal(i))
  {
    values := [];
    for i := 0 to CountOf(env, base)
      invariant |values| == i
      invariant forall k :: 0 <= k < i ==> values[k] == Variable(env, base + "_" + Text.Decimal(k))
    {
      values := values + [Variable(env, base + "_" + Text.Decimal(i))];
    }
  }

  // The subtree a path of keys and indices leads to.
  function Subtree(t: Tree, p: Path): Option<Tree>
    decreases |p|
  {
    if p == [] then Some(t)
    else
      match Child(t, p[0])
      case None => None
      case Some(child) => Subtree(child, p[1..])
  }

  lemma {:induction false} LeafBelow(t: Tree, p: Path, q: Path)
    requires Subtree(t, p).Some?
    ensures IsLeafPath(t, p + q) <==> IsLeafPath(Subtree(t, p).value, q)
    ensures IsLeafPath(t, p + q) ==> ValueAt(t, p + q) == ValueAt(Subtree(t, p).value, q)
    decreases |p|
  {
    if p == [] {
      assert p + q == q;
    } else {
      LeafBelow(Child(t, p[0]).value, p[1..], q);
      assert p + q == [p[0]] + (p[1..] + q);
      assert (p + q)[1..] == p[1..] + q;
    }
  }

  lemma JoinOneMore(parts: seq<string>, x: string)
    requires parts != []
    ensures Join(parts + [x]) == Join(parts) + "_" + x
  {
    assert (parts + [x])[1..] == parts[1..] + [x];
    JoinTailAppend(parts[1..], [x]);
    assert JoinTail([x]) == "_" + x;
  }

  lemma NameOfElement(prefix: seq<string>, p: Path, s: Step)
    requires prefix + Texts(p) != []
    ensures Join(prefix + Texts(p + [s])) == Join(prefix + Texts(p)) + "_" + StepText(s)
  {
    assert prefix + Texts(p + [s]) == prefix + Texts(p) + [StepText(s)];
    JoinOneMore(prefix + Texts(p), StepText(s));
  }

  lemma CountRecovered(env: Env, t: Tree, prefix: seq<string>, p: Path)
    requires Recovers(env, t, prefix) && prefix + Texts(p) != []
    requires Subtree(t, p).Some? && Subtree(t, p).value.List?
    ensures CountOf(env, Join(prefix + Texts(p))) == |Subtree(t, p).value.elems|
  {
    var base, n := Join(prefix + Texts(p)), |Subtree(t, p).value.elems|;
    LeafBelow(t, p, [Count]);
    NameOfElement(prefix, p, Count);
    Text.NumberOfDecimal(n);
    assert base + "_COUNT" == base + "_" + StepText(Count);
    assert IsLeafPath(t, p + [Count]) && ValueAt(t, p + [Count]) == Text.Decimal(n);
  }

  lemma ElementRecovered(env: Env, t: Tree, prefix: seq<string>, p: Path, i: nat)
    requires Recovers(env, t, prefix) && prefix + Texts(p) != []
    requires Subtree(t, p).Some? && Subtree(t, p).value.List?
    requires i < |Subtree(t, p).value.elems| && IsScalar(Subtree(t, p).value.elems[i])
    ensures Variable(env, Join(prefix + Texts(p)) + "_" + Text.Decimal(i)) == ScalarText(Subtree(t, p).value.elems[i])
  {
    LeafBelow(t, p, [At(i)]);
    NameOfElement(prefix, p, At(i));
    assert [At(i)][1..] == [];
    assert IsLeafPath(Subtree(t, p).value, [At(i)]);
  }

  /* ---- The zebrafish configuration ---- */

  ghost predicate GoodKeys(shape: Shape) {
    shape.Record? && forall i :: 0 <= i < |shape.members| ==> GoodKey(shape.members[i].key)
  }

  lemma SshKeys()
    ensures WellKeyed(SSH)
  {
    assert GoodKey("port");
    assert GoodKey("keys");
  }

  lemma IpKeys()
    ensures WellKeyed(IP)
  {
    assert GoodKey("address");
    assert GoodKey("broadcast");
    assert GoodKey("subnet");
    assert GoodKey("netmask");
    assert GoodKey("gateway");
    assert GoodKey("dns");
  }

  lemma PeerKeys()
    ensures WellKeyed(PEER)
  {
    assert GoodKey("public_key");
    assert GoodKey("endpoint");
    assert GoodKey("allowed_ips");
    assert GoodKey("persistent_keepalive");
  }

  lemma WgKeys()
    ensures WellKeyed(WG)
  {
    PeerKeys();
    assert GoodKey("name");
    assert GoodKey("private_key");
    assert GoodKey("address");
    assert GoodKey("listen_port");
    assert GoodKey("peers");
  }

  lemma NbdClientKeys()
    ensures WellKeyed(NBD_CLIENT)
  {
    assert GoodKey("address");
    assert GoodKey("port");
    assert GoodKey("device");
    assert GoodKey("export");
    assert GoodKey("timeout");
  }

  lemma NbdServerKeys()
    ensures WellKeyed(NBD_SERVER)
  {
  }

  lemma ZfsKeyKeys()
    ensures WellKeyed(ZFS_KEY)
  {
  }

  lemma RegistryKeys()
    ensures WellKeyed(REGISTRY)
  {
  }

  lemma ConsoleKeys()
    ensures WellKeyed(CONSOLE)
  {
  }

  lemma SystemSectionNames()
    ensures GoodKey("machine") && GoodKey("console") && GoodKey("headless") && GoodKey("rescue")
    ensures GoodKey("hostname") && GoodKey("ssh") && GoodKey("ipv4") && GoodKey("ipv6")
  {
  }

  lemma ServiceSectionNames()
    ensures GoodKey("wg") && GoodKey("wg-server") && GoodKey("nbd-client") && GoodKey("nbd-server")
    ensures GoodKey("zfs-key") && GoodKey("zfs-mount") && GoodKey("docker-registry")
  {
  }

  lemma SectionKeys()
    ensures GoodKeys(CONFIG)
  {
    SystemSectionNames();
    ServiceSectionNames();
  }

  lemma ConfigIsWellKeyed()
    ensures WellKeyed(CONFIG)
  {
    SshKeys();
    IpKeys();
    WgKeys();
    NbdClientKeys();
    NbdServerKeys();
    ZfsKeyKeys();
    RegistryKeys();
    ConsoleKeys();
    SectionKeys();
  }

  lemma ShapeOfSection(config: Tree, ms: seq<Member>, name: string) returns (shape: Shape)
    requires Conforms(config, Record(ms)) && name in config.fields && Separable(Record(ms)) && WellKeyed(Record(ms))
    ensures Conforms(config.fields[name], shape) && Separable(shape) && WellKeyed(shape) && GoodKey(name)
  {
    var i :| 0 <= i < |ms| && ms[i].key == name && Conforms(config.fields[name], ms[i].shape);
    shape := ms[i].shape;
  }

  // A section of a conforming configuration can be listed on its own.
  lemma SectionConforms(config: Tree, name: string) returns (shape: Shape)
    requires Conforms(config, CONFIG) && name in config.fields
    ensures Conforms(config.fields[name], shape) && Separable(shape) && WellKeyed(shape)
    ensures GoodPrefix(config.fields[name], [Fold(name)])
  {
    ConfigIsSeparable();
    ConfigIsWellKeyed();
    shape := ShapeOfSection(config, CONFIG.members, name);
    FoldedKey(name);
  }

  // The shell form of `list`, then eval in a shell that already has variables: of the
  // whole configuration, or of one section. An absent section prints nothing.
  method ListAndEval(config: Tree, section: Option<string>, start: Env) returns (env: Env)
    requires Conforms(config, CONFIG)
    ensures section.None? ==> Exports(config, [], start, env)
    ensures section.Some? && section.value !in config.fields ==> env == start
    ensures section.Some? && section.value in config.fields ==>
              Exports(config.fields[section.value], [Fold(section.value)], start, env)
  {
    if section.None? {
      ConfigIsSeparable();
      ConfigIsWellKeyed();
      var after := ExportAndEval(config, CONFIG, [], start);
      env := after.value;
    } else if section.value in config.fields {
      var name := section.value;
      ghost var shape := SectionConforms(config, name);
      var after := ExportAndEval(config.fields[name], shape, [Fold(name)], start);
      env := after.value;
    } else {
      env := start;
    }
  }

  // All elements of an exported array of scalars.
  lemma ElementsRecovered(env: Env, t: Tree, prefix: seq<string>, p: Path, elems: seq<Tree>, base: string)
    requires Recovers(env, t, prefix) && prefix + Texts(p) != [] && base == Join(prefix + Texts(p))
    requires Subtree(t, p) == Some(List(elems)) && forall i :: 0 <= i < |elems| ==> IsScalar(elems[i])
    ensures CountOf(env, base) == |elems|
    ensures forall i :: 0 <= i < |elems| ==> Variable(env, base + "_" + Text.Decimal(i)) == ScalarText(elems[i])
  {
    CountRecovered(env, t, prefix, p);
    forall i | 0 <= i < |elems| ensures Variable(env, base + "_" + Text.Decimal(i)) == ScalarText(elems[i]) {
      ElementRecovered(env, t, prefix, p, i);
    }
  }
}

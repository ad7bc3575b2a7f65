/** How the NBD supervisor discovers its devices and pools: at every turn it evaluates two
    exports in the same shell and reads fields of numbered records. Variables of earlier
    turns stay set. */
module ShellDiscovery {
  import opened Prelude
  import Text
  import opened ConfigTree
  import opened ShellExport
  import opened Schema
  import opened ShellEval
  import opened ShellArrays

  /* ---- Fields of numbered records ---- */

  // The variable of a field of the i-th record of a section.
  function VarName(section: string, i: nat, key: string): string {
    Fold(section) + "_" + Text.Decimal(i) + "_" + Fold(key)
  }

  lemma VarNamesLeaf(section: string, i: nat, key: string)
    ensures Join([Fold(section)] + Texts([At(i), Key(key)])) == VarName(section, i, key)
  {
    NameUnderSection(Fold(section), [At(i), Key(key)]);
    assert [At(i), Key(key)][1..] == [Key(key)] && [Key(key)][1..] == [];
    assert Tail([Key(key)]) == "_" + Fold(key);
    assert Tail([At(i), Key(key)]) == "_" + Text.Decimal(i) + ("_" + Fold(key));
    assert Fold(section) + ("_" + Text.Decimal(i) + ("_" + Fold(key))) == VarName(section, i, key);
  }

  // A list of records in which the key may appear.
  ghost predicate IsRecords(t: Tree, ms: seq<Member>, key: string) {
    Conforms(t, Many(Record(ms))) && Separable(Record(ms)) && Member(key, Scalar) in ms
  }

  function RecordAt(t: Tree, j: nat): Tree
    requires t.List?
  {
    if j < |t.elems| then t.elems[j] else Node(map[])
  }

  // The list with the i-th record, created where there is none, holding the key.
  function WithField(t: Tree, i: nat, key: string): Tree
    requires t.List? && RecordAt(t, i).Node?
  {
    List(seq(if i < |t.elems| then |t.elems| else i + 1,
             j requires 0 <= j => if j == i then Node(RecordAt(t, i).fields[key := ConfigTree.Text("")]) else RecordAt(t, j)))
  }

  lemma RecordConforms(t: Tree, ms: seq<Member>, j: nat)
    requires Conforms(t, Many(Record(ms)))
    ensures Conforms(RecordAt(t, j), Record(ms))
  {
  }

  lemma KeyAddedConforms(record: Tree, ms: seq<Member>, m: nat)
    requires Conforms(record, Record(ms)) && m < |ms| && ms[m].shape == Scalar
    ensures Conforms(Node(record.fields[ms[m].key := ConfigTree.Text("")]), Record(ms))
  {
    var added := record.fields[ms[m].key := ConfigTree.Text("")];
    forall k | k in added ensures exists j :: 0 <= j < |ms| && ms[j].key == k && Conforms(added[k], ms[j].shape) {
      if k == ms[m].key {
        assert Conforms(added[k], ms[m].shape);
      } else {
        assert added[k] == record.fields[k];
      }
    }
  }

  lemma WithFieldConforms(t: Tree, ms: seq<Member>, i: nat, key: string)
    requires IsRecords(t, ms, key)
    ensures RecordAt(t, i).Node? && Conforms(WithField(t, i, key), Many(Record(ms)))
    ensures IsLeafPath(WithField(t, i, key), [At(i), Key(key)])
  {
    var m :| 0 <= m < |ms| && ms[m] == Member(key, Scalar);
    RecordConforms(t, ms, i);
    assert [At(i), Key(key)][1..] == [Key(key)] && [Key(key)][1..] == [];
    var padded := WithField(t, i, key);
    forall j | 0 <= j < |padded.elems| ensures Conforms(padded.elems[j], Record(ms)) {
      RecordConforms(t, ms, j);
      if j == i {
        KeyAddedConforms(RecordAt(t, i), ms, m);
      }
    }
  }

  // What is a leaf stays one.
  lemma WithFieldKeepsLeaf(t: Tree, i: nat, key: string, p: Path)
    requires t.List? && RecordAt(t, i).Node? && key !in RecordAt(t, i).fields && IsLeafPath(t, p)
    ensures IsLeafPath(WithField(t, i, key), p)
  {
    if p != [Count] {
      assert WithField(t, i, key).elems[p[0].i] ==
             if p[0].i == i then Node(RecordAt(t, i).fields[key := ConfigTree.Text("")]) else t.elems[p[0].i];
    }
  }

  // A key of a record is a leaf exactly when the record is there and has it.
  lemma FieldIsLeaf(t: Tree, i: nat, key: string)
    requires t.List? && RecordAt(t, i).Node? && (key in RecordAt(t, i).fields ==> IsScalar(RecordAt(t, i).fields[key]))
    ensures IsLeafPath(t, [At(i), Key(key)]) <==> key in RecordAt(t, i).fields
    ensures key in RecordAt(t, i).fields ==> ValueAt(t, [At(i), Key(key)]) == ScalarText(RecordAt(t, i).fields[key])
  {
    var q := [At(i), Key(key)];
    assert q[1..] == [Key(key)] && [Key(key)][1..] == [];
    var record := RecordAt(t, i);
    assert IsLeafPath(record, [Key(key)]) <==> key in record.fields;
    if key in record.fields {
      assert ValueAt(record, [Key(key)]) == ValueAt(record.fields[key], []);
      assert ValueAt(t, q) == ValueAt(record, [Key(key)]);
    }
  }

  // A field that a record lacks names no leaf, nor does one of a record that is not there.
  lemma AbsentNamesNoLeaf(t: Tree, ms: seq<Member>, section: string, i: nat, key: string)
    requires IsRecords(t, ms, key) && RecordAt(t, i).Node? && key !in RecordAt(t, i).fields
    ensures !NamesLeaf(t, [Fold(section)], VarName(section, i, key))
  {
    var q := [At(i), Key(key)];
    VarNamesLeaf(section, i, key);
    WithFieldConforms(t, ms, i, key);
    FieldIsLeaf(t, i, key);
    forall p | IsLeafPath(t, p) ensures Join([Fold(section)] + Texts(p)) != VarName(section, i, key) {
      WithFieldKeepsLeaf(t, i, key, p);
      if Join([Fold(section)] + Texts(p)) == VarName(section, i, key) {
        VariablesDiffer(WithField(t, i, key), Many(Record(ms)), [Fold(section)], p, q);
      }
    }
  }

  // What a configuration says of a field.
  function Configured(config: Tree, section: string, i: nat, key: string): Option<string> {
    if !config.Node? || section !in config.fields then None
    else
      var t := config.fields[section];
      if t.List? && i < |t.elems| && t.elems[i].Node? && key in t.elems[i].fields && IsScalar(t.elems[i].fields[key])
      then Some(ScalarText(t.elems[i].fields[key])) else None
  }

  // One eval of a section, present or absent.
  ghost predicate Evaluates(config: Tree, section: string, before: Env, after: Env)
    requires config.Node?
  {
    if section in config.fields then Exports(config.fields[section], [Fold(section)], before, after) else after == before
  }

  ghost predicate IsSection(config: Tree, section: string, ms: seq<Member>, key: string) {
    config.Node? && (section in config.fields ==> IsRecords(config.fields[section], ms, key))
  }

  lemma SameKeyNotApart(a: Member, b: Member)
    requires a.key == b.key
    ensures !KeptApart(a, b)
  {
  }

  lemma SameKeySameMember(ms: seq<Member>, i: nat, j: nat)
    requires Separable(Record(ms)) && i < |ms| && j < |ms| && ms[i].key == ms[j].key
    ensures i == j
  {
    SameKeyNotApart(ms[i], ms[j]);
    SameKeyNotApart(ms[j], ms[i]);
  }

  lemma FieldIsScalar(t: Tree, ms: seq<Member>, i: nat, key: string)
    requires IsRecords(t, ms, key) && RecordAt(t, i).Node? && key in RecordAt(t, i).fields
    ensures IsScalar(RecordAt(t, i).fields[key])
  {
    RecordConforms(t, ms, i);
    var m :| 0 <= m < |ms| && ms[m] == Member(key, Scalar);
    var k :| 0 <= k < |ms| && ms[k].key == key && Conforms(RecordAt(t, i).fields[key], ms[k].shape);
    SameKeySameMember(ms, m, k);
  }

  lemma PresentField(t: Tree, ms: seq<Member>, section: string, after: Env, i: nat, key: string)
    requires IsRecords(t, ms, key) && Recovers(after, t, [Fold(section)])
    requires i < |t.elems| && t.elems[i].Node? && key in t.elems[i].fields
    ensures IsScalar(t.elems[i].fields[key])
    ensures Variable(after, VarName(section, i, key)) == ScalarText(t.elems[i].fields[key])
  {
    FieldIsScalar(t, ms, i, key);
    FieldIsLeaf(t, i, key);
    VarNamesLeaf(section, i, key);
  }

  // After it a field reads as configured, or as before when nothing is configured.
  lemma FieldAfterEval(config: Tree, section: string, ms: seq<Member>, before: Env, after: Env, i: nat, key: string)
    requires IsSection(config, section, ms, key) && Evaluates(config, section, before, after)
    ensures var name := VarName(section, i, key);
            Variable(after, name) ==
            match Configured(config, section, i, key) case Some(text) => text case None => Variable(before, name)
  {
    if section in config.fields {
      var t := config.fields[section];
      RecordConforms(t, ms, i);
      if key in RecordAt(t, i).fields {
        PresentField(t, ms, section, after, i, key);
      } else {
        AbsentNamesNoLeaf(t, ms, section, i, key);
      }
    }
  }

  // The count, as configured or as before.
  function ConfiguredCount(config: Tree, section: string): Option<nat> {
    if config.Node? && section in config.fields && config.fields[section].List? then Some(|config.fields[section].elems|) else None
  }

  lemma CountAfterEval(config: Tree, section: string, ms: seq<Member>, key: string, before: Env, after: Env)
    requires IsSection(config, section, ms, key) && Evaluates(config, section, before, after)
    ensures CountOf(after, Fold(section)) ==
            match ConfiguredCount(config, section) case Some(n) => n case None => CountOf(before, Fold(section))
  {
    if section in config.fields {
      CountRecovered(after, config.fields[section], [Fold(section)], []);
      assert [Fold(section)] + Texts([]) == [Fold(section)];
      assert Join([Fold(section)]) == Fold(section) + JoinTail([Fold(section)][1..]) == Fold(section);
    }
  }

  /* ---- Two sections in one shell ---- */

  lemma LeafNameStarts(t: Tree, section: string, x: string)
    requires NamesLeaf(t, [Fold(section)], x) && section != ""
    ensures x != "" && x[0] == FoldChar(section[0])
  {
    var p :| IsLeafPath(t, p) && x == Join([Fold(section)] + Texts(p));
    NameUnderSection(Fold(section), p);
  }

  // Evaluating one section leaves the variables of another, whose name starts otherwise.
  lemma OtherSectionKept(config: Tree, section: string, other: string, before: Env, after: Env, i: nat, key: string)
    requires config.Node? && Evaluates(config, other, before, after)
    requires section != "" && other != "" && FoldChar(section[0]) != FoldChar(other[0])
    ensures Variable(after, VarName(section, i, key)) == Variable(before, VarName(section, i, key))
    ensures CountOf(after, Fold(section)) == CountOf(before, Fold(section))
  {
    if other in config.fields {
      forall x | x != "" && x[0] == FoldChar(section[0]) ensures Variable(after, x) == Variable(before, x) {
        if NamesLeaf(config.fields[other], [Fold(other)], x) {
          LeafNameStarts(config.fields[other], other, x);
        }
      }
      assert VarName(section, i, key)[0] == (Fold(section) + "_COUNT")[0] == FoldChar(section[0]);
    }
  }

  /* ---- discover ---- */

  const CLIENTS := "nbd-client"
  const MOUNTS := "zfs-mount"

  datatype Client = Client(address: string, port: string, device: string, name: string, timeout: string)

  // "${v:-default}"
  function OrElse(text: string, default: string): string {
    if text == "" then default else text
  }

  function ClientAt(env: Env, i: nat): Client {
    Client(Variable(env, VarName(CLIENTS, i, "address")),
           Variable(env, VarName(CLIENTS, i, "port")),
           Variable(env, VarName(CLIENTS, i, "device")),
           OrElse(Variable(env, VarName(CLIENTS, i, "export")), "export"),
           OrElse(Variable(env, VarName(CLIENTS, i, "timeout")), "180"))
  }

  lemma ClientNames(i: nat)
    ensures VarName(CLIENTS, i, "address") == "NBD_CLIENT_" + Text.Decimal(i) + "_ADDRESS"
    ensures VarName(CLIENTS, i, "port") == "NBD_CLIENT_" + Text.Decimal(i) + "_PORT"
    ensures VarName(CLIENTS, i, "device") == "NBD_CLIENT_" + Text.Decimal(i) + "_DEVICE"
    ensures VarName(CLIENTS, i, "export") == "NBD_CLIENT_" + Text.Decimal(i) + "_EXPORT"
    ensures VarName(CLIENTS, i, "timeout") == "NBD_CLIENT_" + Text.Decimal(i) + "_TIMEOUT"
    ensures Fold(CLIENTS) == "NBD_CLIENT"
  {
    assert Fold(CLIENTS) == "NBD_CLIENT";
    assert Fold("address") == "ADDRESS" && Fold("port") == "PORT" && Fold("device") == "DEVICE";
    assert Fold("export") == "EXPORT" && Fold("timeout") == "TIMEOUT";
    var n := Text.Decimal(i);
    assert forall rest :: "NBD_CLIENT" + "_" + n + "_" + rest == "NBD_CLIENT_" + n + ("_" + rest);
    assert "_" + "ADDRESS" == "_ADDRESS" && "_" + "PORT" == "_PORT" && "_" + "DEVICE" == "_DEVICE";
    assert "_" + "EXPORT" == "_EXPORT" && "_" + "TIMEOUT" == "_TIMEOUT";
  }

  lemma MountNames(i: nat)
    ensures VarName(MOUNTS, i, "name") == "ZFS_MOUNT_" + Text.Decimal(i) + "_NAME" && Fold(MOUNTS) == "ZFS_MOUNT"
  {
    assert Fold(MOUNTS) == "ZFS_MOUNT" && Fold("name") == "NAME";
    assert "ZFS_MOUNT" + "_" == "ZFS_MOUNT_" && "_" + "NAME" == "_NAME";
  }

  // What one discovery leaves in the shell: two evals.
  ghost predicate Discovers(config: Tree, before: Env, after: Env)
    requires config.Node?
  {
    exists mid :: Evaluates(config, CLIENTS, before, mid) && Evaluates(config, MOUNTS, mid, after)
  }

  lemma ClientsKept(config: Tree, mid: Env, after: Env)
    requires config.Node? && Evaluates(config, MOUNTS, mid, after)
    ensures CountOf(after, Fold(CLIENTS)) == CountOf(mid, Fold(CLIENTS))
    ensures forall i :: ClientAt(after, i) == ClientAt(mid, i)
  {
    OtherSectionKept(config, CLIENTS, MOUNTS, mid, after, 0, "address");
    forall i: nat ensures ClientAt(after, i) == ClientAt(mid, i) {
      OtherSectionKept(config, CLIENTS, MOUNTS, mid, after, i, "address");
      OtherSectionKept(config, CLIENTS, MOUNTS, mid, after, i, "port");
      OtherSectionKept(config, CLIENTS, MOUNTS, mid, after, i, "device");
      OtherSectionKept(config, CLIENTS, MOUNTS, mid, after, i, "export");
      OtherSectionKept(config, CLIENTS, MOUNTS, mid, after, i, "timeout");
    }
  }

  // The loop over the devices.
  method ReadClients(env: Env) returns (clients: seq<Client>)
    ensures |clients| == CountOf(env, Fold(CLIENTS)) && forall i :: 0 <= i < |clients| ==> clients[i] == ClientAt(env, i)
  {
    ClientNames(0);
    clients := [];
    for i := 0 to CountOf(env, "NBD_CLIENT")
      invariant |clients| == i && forall k :: 0 <= k < i ==> clients[k] == ClientAt(env, k)
    {
      ClientNames(i);
      var a, p := "NBD_CLIENT_" + Text.Decimal(i) + "_ADDRESS", "NBD_CLIENT_" + Text.Decimal(i) + "_PORT";
      var d, n := "NBD_CLIENT_" + Text.Decimal(i) + "_DEVICE", "NBD_CLIENT_" + Text.Decimal(i) + "_EXPORT";
      var t := "NBD_CLIENT_" + Text.Decimal(i) + "_TIMEOUT";
      clients := clients + [Client(Variable(env, a), Variable(env, p), Variable(env, d),
                                   OrElse(Variable(env, n), "export"), OrElse(Variable(env, t), "180"))];
    }
  }

  // The loop over the pools.
  method ReadPools(env: Env) returns (pools: seq<string>)
    ensures |pools| == CountOf(env, Fold(MOUNTS))
    ensures forall i :: 0 <= i < |pools| ==> pools[i] == Variable(env, VarName(MOUNTS, i, "name"))
  {
    MountNames(0);
    pools := [];
    for i := 0 to CountOf(env, "ZFS_MOUNT")
      invariant |pools| == i && forall k :: 0 <= k < i ==> pools[k] == Variable(env, VarName(MOUNTS, k, "name"))
    {
      MountNames(i);
      pools := pools + [Variable(env, "ZFS_MOUNT_" + Text.Decimal(i) + "_NAME")];
    }
  }

  // discover: the devices are read after the first eval, the pools after the second.
  method Discover(config: Tree, env: Env) returns (after: Env, clients: seq<Client>, pools: seq<string>)
    requires Conforms(config, CONFIG)
    ensures Discovers(config, env, after)
    ensures |clients| == CountOf(after, Fold(CLIENTS)) && forall i :: 0 <= i < |clients| ==> clients[i] == ClientAt(after, i)
    ensures |pools| == CountOf(after, Fold(MOUNTS))
    ensures forall i :: 0 <= i < |pools| ==> pools[i] == Variable(after, VarName(MOUNTS, i, "name"))
  {
    var mid := ListAndEval(config, Some(CLIENTS), env);
    clients := ReadClients(mid);
    after := ListAndEval(config, Some(MOUNTS), mid);
    assert Evaluates(config, CLIENTS, env, mid) && Evaluates(config, MOUNTS, mid, after);
    ClientsKept(config, mid, after);
    pools := ReadPools(after);
  }

  /* ---- Runs of discoveries in one shell ---- */

  // A shell with no variable of a section.
  predicate NoVariables(env: Env, section: string) {
    forall x :: x in env ==> !(Fold(section) <= x)
  }

  // The environments of a run: one more than the configurations discovered.
  ghost predicate IsRun(configs: seq<Tree>, envs: seq<Env>) {
    && |envs| == |configs| + 1
    && NoVariables(envs[0], CLIENTS) && NoVariables(envs[0], MOUNTS)
    && forall n :: 0 <= n < |configs| ==> Conforms(configs[n], CONFIG) && Discovers(configs[n], envs[n], envs[n + 1])
  }

  // The latest thing any configuration of the run said of a field, and of a count.
  function Latest(configs: seq<Tree>, section: string, i: nat, key: string): string {
    if configs == [] then ""
    else
      var n := |configs| - 1;
      match Configured(configs[n], section, i, key)
      case Some(text) => text
      case None => Latest(configs[..n], section, i, key)
  }

  function LatestCount(configs: seq<Tree>, section: string): nat {
    if configs == [] then 0
    else
      var n := |configs| - 1;
      match ConfiguredCount(configs[n], section)
      case Some(count) => count
      case None => LatestCount(configs[..n], section)
  }

  // The sections discovered, and the keys read of their records.
  predicate IsRead(section: string, key: string) {
    || (section == CLIENTS && (key == "address" || key == "port" || key == "device" || key == "export" || key == "timeout"))
    || (section == MOUNTS && key == "name")
  }

  function MembersOf(section: string): seq<Member> {
    if section == CLIENTS then NBD_CLIENT.members else ZFS_MOUNT.members
  }

  lemma KeyIsMember(section: string, key: string)
    requires IsRead(section, key)
    ensures Member(key, Scalar) in MembersOf(section) && Separable(Record(MembersOf(section)))
  {
    NbdClientIsSeparable();
    var ms := NBD_CLIENT.members;
    assert ms[0].key == "address" && ms[1].key == "port" && ms[2].key == "device" && ms[3].key == "export" && ms[4].key == "timeout";
    assert ZFS_MOUNT.members[0].key == "name";
  }

  lemma SectionIsRecords(config: Tree, section: string, key: string)
    requires Conforms(config, CONFIG) && IsRead(section, key)
    ensures IsSection(config, section, MembersOf(section), key)
  {
    NbdClientIsSeparable();
    assert CONFIG.members[10] == Member(CLIENTS, Many(NBD_CLIENT)) && CONFIG.members[13] == Member(MOUNTS, Many(ZFS_MOUNT));
    KeyIsMember(section, key);
    if section in config.fields {
      var m := if section == CLIENTS then 10 else 13;
      ConfigIsSeparable();
      var k :| 0 <= k < |CONFIG.members| && CONFIG.members[k].key == section
               && Conforms(config.fields[section], CONFIG.members[k].shape);
      SameKeySameMember(CONFIG.members, m, k);
    }
  }

  // One discovery: fields and counts read as configured, or as before.
  lemma DiscoveryReads(config: Tree, before: Env, after: Env, section: string, i: nat, key: string)
    requires Conforms(config, CONFIG) && Discovers(config, before, after) && IsRead(section, key)
    ensures var name := VarName(section, i, key);
            Variable(after, name) ==
            match Configured(config, section, i, key) case Some(text) => text case None => Variable(before, name)
    ensures CountOf(after, Fold(section)) ==
            match ConfiguredCount(config, section) case Some(n) => n case None => CountOf(before, Fold(section))
  {
    SectionIsRecords(config, section, key);
    var mid :| Evaluates(config, CLIENTS, before, mid) && Evaluates(config, MOUNTS, mid, after);
    if section == CLIENTS {
      FieldAfterEval(config, section, MembersOf(section), before, mid, i, key);
      CountAfterEval(config, section, MembersOf(section), key, before, mid);
      OtherSectionKept(config, CLIENTS, MOUNTS, mid, after, i, key);
    } else {
      OtherSectionKept(config, MOUNTS, CLIENTS, before, mid, i, key);
      FieldAfterEval(config, section, MembersOf(section), mid, after, i, key);
      CountAfterEval(config, section, MembersOf(section), key, mid, after);
    }
  }

  lemma NothingAtFirst(env: Env, section: string, i: nat, key: string)
    requires NoVariables(env, section)
    ensures Variable(env, VarName(section, i, key)) == "" && CountOf(env, Fold(section)) == 0
  {
    assert Fold(section) <= VarName(section, i, key) && Fold(section) <= Fold(section) + "_COUNT";
    assert Text.NumberOf("") == 0;
  }

  // On every run, a field and a count read as the latest configuration of the run that
  // said anything of them.
  lemma {:induction false} RunReadsLatest(configs: seq<Tree>, envs: seq<Env>, section: string, i: nat, key: string)
    requires IsRun(configs, envs) && IsRead(section, key)
    ensures Variable(envs[|configs|], VarName(section, i, key)) == Latest(configs, section, i, key)
    ensures CountOf(envs[|configs|], Fold(section)) == LatestCount(configs, section)
  {
    if configs == [] {
      NothingAtFirst(envs[0], section, i, key);
    } else {
      var n := |configs| - 1;
      RunReadsLatest(configs[..n], envs[..n + 1], section, i, key);
      DiscoveryReads(configs[n], envs[n], envs[n + 1], section, i, key);
    }
  }

  function ValueOr(config: Tree, section: string, i: nat, key: string, default: string): string {
    match Configured(config, section, i, key) case Some(text) => OrElse(text, default) case None => default
  }

  // The device a configuration describes, defaults filled in.
  function ConfiguredClient(config: Tree, i: nat): Client {
    Client(ValueOr(config, CLIENTS, i, "address", ""), ValueOr(config, CLIENTS, i, "port", ""), ValueOr(config, CLIENTS, i, "device", ""),
           ValueOr(config, CLIENTS, i, "export", "export"), ValueOr(config, CLIENTS, i, "timeout", "180"))
  }

  function DefaultOf(key: string): string {
    if key == "export" then "export" else if key == "timeout" then "180" else ""
  }

  // Nothing the earlier configurations said of a field shows through.
  predicate NotStale(earlier: seq<Tree>, config: Tree, section: string, i: nat, key: string) {
    Configured(config, section, i, key).Some? || OrElse(Latest(earlier, section, i, key), DefaultOf(key)) == DefaultOf(key)
  }

  lemma FieldReadsConfigured(configs: seq<Tree>, envs: seq<Env>, section: string, i: nat, key: string)
    requires configs != [] && IsRun(configs, envs) && IsRead(section, key)
    ensures var n := |configs| - 1;
            var read := OrElse(Variable(envs[n + 1], VarName(section, i, key)), DefaultOf(key));
            read == ValueOr(configs[n], section, i, key, DefaultOf(key)) <==> NotStale(configs[..n], configs[n], section, i, key)
  {
    RunReadsLatest(configs, envs, section, i, key);
  }

  // Nothing of any field of a record shows through.
  ghost predicate RecordNotStale(earlier: seq<Tree>, config: Tree, i: nat) {
    forall key :: IsRead(CLIENTS, key) ==> NotStale(earlier, config, CLIENTS, i, key)
  }

  lemma FiveFields(earlier: seq<Tree>, config: Tree, i: nat)
    ensures RecordNotStale(earlier, config, i) <==>
            && NotStale(earlier, config, CLIENTS, i, "address") && NotStale(earlier, config, CLIENTS, i, "port")
            && NotStale(earlier, config, CLIENTS, i, "device") && NotStale(earlier, config, CLIENTS, i, "export")
            && NotStale(earlier, config, CLIENTS, i, "timeout")
  {
    assert IsRead(CLIENTS, "address") && IsRead(CLIENTS, "port") && IsRead(CLIENTS, "device");
    assert IsRead(CLIENTS, "export") && IsRead(CLIENTS, "timeout");
  }

  lemma ClientReadsConfigured(configs: seq<Tree>, envs: seq<Env>, i: nat)
    requires configs != [] && IsRun(configs, envs)
    ensures var n := |configs| - 1;
            ClientAt(envs[n + 1], i) == ConfiguredClient(configs[n], i) <==> RecordNotStale(configs[..n], configs[n], i)
  {
    FieldReadsConfigured(configs, envs, CLIENTS, i, "address");
    FieldReadsConfigured(configs, envs, CLIENTS, i, "port");
    FieldReadsConfigured(configs, envs, CLIENTS, i, "device");
    FieldReadsConfigured(configs, envs, CLIENTS, i, "export");
    FieldReadsConfigured(configs, envs, CLIENTS, i, "timeout");
    FiveFields(configs[..|configs| - 1], configs[|configs| - 1], i);
  }

  // The devices of a configuration, in order.
  function ConfiguredClients(config: Tree): seq<Client> {
    match ConfiguredCount(config, CLIENTS)
    case None => []
    case Some(count) => seq(count, i requires 0 <= i => ConfiguredClient(config, i))
  }

  lemma SamePointwise<T>(a: seq<T>, b: seq<T>)
    ensures a == b <==> |a| == |b| && forall i :: 0 <= i < |a| ==> a[i] == b[i]
  {
  }

  // At every turn of a run, the devices discovered are those the configuration of that
  // turn describes exactly when nothing earlier shows through: the section is present or
  // the latest one was empty, and no record lacks a field that the latest record with it
  // under the same index gave another value than the default.
  lemma DiscoversConfigured(configs: seq<Tree>, envs: seq<Env>, clients: seq<Client>)
    requires configs != [] && IsRun(configs, envs)
    requires |clients| == CountOf(envs[|configs|], Fold(CLIENTS))
    requires forall i :: 0 <= i < |clients| ==> clients[i] == ClientAt(envs[|configs|], i)
    ensures var n := |configs| - 1;
            var earlier, config := configs[..n], configs[n];
            clients == ConfiguredClients(config) <==>
            && (ConfiguredCount(config, CLIENTS).Some? || LatestCount(earlier, CLIENTS) == 0)
            && forall i :: 0 <= i < |ConfiguredClients(config)| ==> RecordNotStale(earlier, config, i)
  {
    var n := |configs| - 1;
    RunReadsLatest(configs, envs, CLIENTS, 0, "address");
    forall i: nat ensures ClientAt(envs[n + 1], i) == ConfiguredClient(configs[n], i) <==> RecordNotStale(configs[..n], configs[n], i) {
      ClientReadsConfigured(configs, envs, i);
    }
    SamePointwise(clients, ConfiguredClients(configs[n]));
  }

  // The pools of a configuration, in order.
  function ConfiguredPools(config: Tree): seq<string> {
    match ConfiguredCount(config, MOUNTS)
    case None => []
    case Some(count) => seq(count, i requires 0 <= i => ValueOr(config, MOUNTS, i, "name", ""))
  }

  // The same of the pools, whose only field is the name.
  lemma DiscoversConfiguredPools(configs: seq<Tree>, envs: seq<Env>, pools: seq<string>)
    requires configs != [] && IsRun(configs, envs)
    requires |pools| == CountOf(envs[|configs|], Fold(MOUNTS))
    requires forall i :: 0 <= i < |pools| ==> pools[i] == Variable(envs[|configs|], VarName(MOUNTS, i, "name"))
    ensures var n := |configs| - 1;
            var earlier, config := configs[..n], configs[n];
            pools == ConfiguredPools(config) <==>
            && (ConfiguredCount(config, MOUNTS).Some? || LatestCount(earlier, MOUNTS) == 0)
            && forall i :: 0 <= i < |ConfiguredPools(config)| ==> NotStale(earlier, config, MOUNTS, i, "name")
  {
    var n := |configs| - 1;
    RunReadsLatest(configs, envs, MOUNTS, 0, "name");
    forall i: nat
      ensures Variable(envs[n + 1], VarName(MOUNTS, i, "name")) == ValueOr(configs[n], MOUNTS, i, "name", "") <==>
              NotStale(configs[..n], configs[n], MOUNTS, i, "name")
    {
      FieldReadsConfigured(configs, envs, MOUNTS, i, "name");
    }
    SamePointwise(pools, ConfiguredPools(configs[n]));
  }

  // Where every pool is named, as the schema demands, only a missing section matters.
  lemma NamedPoolsDiscovered(configs: seq<Tree>, envs: seq<Env>, pools: seq<string>)
    requires configs != [] && IsRun(configs, envs)
    requires |pools| == CountOf(envs[|configs|], Fold(MOUNTS))
    requires forall i :: 0 <= i < |pools| ==> pools[i] == Variable(envs[|configs|], VarName(MOUNTS, i, "name"))
    requires var config := configs[|configs| - 1];
             forall i :: 0 <= i < |ConfiguredPools(config)| ==> Configured(config, MOUNTS, i, "name").Some?
    ensures var n := |configs| - 1;
            pools == ConfiguredPools(configs[n]) <==>
            ConfiguredCount(configs[n], MOUNTS).Some? || LatestCount(configs[..n], MOUNTS) == 0
  {
    DiscoversConfiguredPools(configs, envs, pools);
  }

  // In a fresh shell the first discovery yields what is configured.
  lemma FirstDiscovery(config: Tree, envs: seq<Env>, clients: seq<Client>, pools: seq<string>)
    requires IsRun([config], envs)
    requires |clients| == CountOf(envs[1], Fold(CLIENTS)) && |pools| == CountOf(envs[1], Fold(MOUNTS))
    requires forall i :: 0 <= i < |clients| ==> clients[i] == ClientAt(envs[1], i)
    requires forall i :: 0 <= i < |pools| ==> pools[i] == Variable(envs[1], VarName(MOUNTS, i, "name"))
    ensures clients == ConfiguredClients(config) && pools == ConfiguredPools(config)
  {
    assert [config][..0] == [];
    DiscoversConfigured([config], envs, clients);
    DiscoversConfiguredPools([config], envs, pools);
  }

  /* ---- It does show through ---- */

  function OneClient(fields: map<string, Tree>): Tree {
    Node(map[CLIENTS := List([Node(fields)])])
  }

  // A device loses its export name from the configuration: the supervisor keeps using it.
  lemma DroppedExportStays(device: map<string, Tree>, name: string, envs: seq<Env>)
    requires "export" !in device && name != "" && name != "export"
    requires IsRun([OneClient(device["export" := ConfigTree.Text(name)]), OneClient(device)], envs)
    ensures ClientAt(envs[2], 0).name == name && ConfiguredClient(OneClient(device), 0).name == "export"
  {
    var named, plain := OneClient(device["export" := ConfigTree.Text(name)]), OneClient(device);
    var configs := [named, plain];
    RunReadsLatest(configs, envs, CLIENTS, 0, "export");
    assert configs[..1] == [named] && [named][..0] == [];
    assert Configured(named, CLIENTS, 0, "export") == Some(name);
    assert Latest([named], CLIENTS, 0, "export") == name;
  }

  // A device as the schema wants it, without the optional fields.
  const DEVICE: map<string, Tree> := map["address" := ConfigTree.Text("10.0.0.1"), "port" := Number(10809),
                                         "device" := ConfigTree.Text("/dev/nbd0")]

  lemma DeviceConforms(fields: map<string, Tree>)
    requires forall key :: key in fields ==> IsRead(CLIENTS, key) && IsScalar(fields[key])
    ensures Conforms(OneClient(fields), CONFIG)
  {
    forall key | key in fields
      ensures exists i :: 0 <= i < |NBD_CLIENT.members| && NBD_CLIENT.members[i].key == key && Conforms(fields[key], NBD_CLIENT.members[i].shape)
    {
      KeyIsMember(CLIENTS, key);
      var i :| 0 <= i < |NBD_CLIENT.members| && NBD_CLIENT.members[i] == Member(key, Scalar);
    }
    assert Conforms(Node(fields), NBD_CLIENT);
    var list := List([Node(fields)]);
    assert Conforms(list, Many(NBD_CLIENT));
    assert CONFIG.members[10] == Member(CLIENTS, Many(NBD_CLIENT));
  }

  lemma TwoDiscoveries(first: Tree, second: Tree, mid: Env, after: Env)
    requires Conforms(first, CONFIG) && Conforms(second, CONFIG)
    requires Discovers(first, map[], mid) && Discovers(second, mid, after)
    ensures IsRun([first, second], [map[], mid, after])
  {
    var configs, envs := [first, second], [map[], mid, after];
    forall n | 0 <= n < |configs| ensures Conforms(configs[n], CONFIG) && Discovers(configs[n], envs[n], envs[n + 1]) {
      if n == 0 {
        assert configs[n] == first;
      } else {
        assert configs[n] == second;
      }
    }
  }

  lemma CountDiscovered(config: Tree, before: Env, after: Env)
    requires Conforms(config, CONFIG) && Discovers(config, before, after) && ConfiguredCount(config, CLIENTS).Some?
    ensures CountOf(after, Fold(CLIENTS)) == ConfiguredCount(config, CLIENTS).value
  {
    DiscoveryReads(config, before, after, CLIENTS, 0, "export");
  }

  function Named(name: string): Tree {
    OneClient(DEVICE["export" := ConfigTree.Text(name)])
  }

  function Unnamed(): Tree {
    OneClient(DEVICE)
  }

  lemma BothConform(name: string)
    ensures Conforms(Named(name), CONFIG) && Conforms(Unnamed(), CONFIG) && ConfiguredCount(Unnamed(), CLIENTS) == Some(1)
  {
    DeviceConforms(DEVICE["export" := ConfigTree.Text(name)]);
    DeviceConforms(DEVICE);
  }

  // Two discoveries from an empty shell, the export name dropped between them: the second
  // still yields it.
  method RediscoverDropped(name: string) returns (envs: seq<Env>, clients: seq<Client>)
    requires name != "" && name != "export"
    ensures IsRun([Named(name), Unnamed()], envs)
    ensures |clients| == 1 && clients[0].name == name && ConfiguredClient(Unnamed(), 0).name == "export"
  {
    BothConform(name);
    var first, before, pools := Discover(Named(name), map[]);
    var second;
    second, clients, pools := Discover(Unnamed(), first);
    envs := [map[], first, second];
    TwoDiscoveries(Named(name), Unnamed(), first, second);
    CountDiscovered(Unnamed(), first, second);
    DroppedExportStays(DEVICE, name, envs);
  }

  // The whole section is removed: the supervisor keeps all its devices.
  lemma RemovedSectionStays(config: Tree, before: Env, after: Env)
    requires Conforms(config, CONFIG) && Discovers(config, before, after) && CLIENTS !in config.fields
    ensures CountOf(after, Fold(CLIENTS)) == CountOf(before, Fold(CLIENTS))
    ensures forall i :: ClientAt(after, i) == ClientAt(before, i)
  {
    var mid :| Evaluates(config, CLIENTS, before, mid) && Evaluates(config, MOUNTS, mid, after);
    ClientsKept(config, mid, after);
  }
}

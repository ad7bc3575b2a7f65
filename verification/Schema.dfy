/** The shape of the configuration, and why its exported variable names never clash. */
module Schema {
  import Text
  import opened ConfigTree
  import opened ShellExport

  // A record's members are all optional, as the serializer skips absent ones.
  datatype Shape = Scalar | Many(elem: Shape) | Record(members: seq<Member>)

  datatype Member = Member(key: string, shape: Shape)

  /* ---- schema.rs ---- */

  const MACHINE := Record([Member("id", Scalar)])
  const CONSOLE := Record([Member("keymap", Scalar), Member("font", Scalar)])
  const FLAG := Record([Member("enabled", Scalar)])
  const HOSTNAME := Record([Member("name", Scalar)])
  const SSH := Record([Member("port", Scalar), Member("keys", Many(Scalar))])
  const IP := Record([Member("address", Scalar), Member("broadcast", Scalar), Member("subnet", Scalar),
                      Member("netmask", Scalar), Member("gateway", Scalar), Member("dns", Many(Scalar))])
  const PEER := Record([Member("public_key", Scalar), Member("endpoint", Scalar),
                        Member("allowed_ips", Many(Scalar)), Member("persistent_keepalive", Scalar)])
  const WG := Record([Member("name", Scalar), Member("private_key", Scalar), Member("address", Scalar),
                      Member("listen_port", Scalar), Member("peers", Many(PEER))])
  const NBD_CLIENT := Record([Member("address", Scalar), Member("port", Scalar), Member("device", Scalar),
                              Member("export", Scalar), Member("timeout", Scalar)])
  const NBD_SERVER := Record([Member("address", Scalar), Member("device", Scalar)])
  const ZFS_KEY := Record([Member("dataset", Scalar), Member("key", Scalar)])
  const ZFS_MOUNT := Record([Member("name", Scalar)])
  const REGISTRY := Record([Member("hostname", Scalar), Member("username", Scalar), Member("password", Scalar)])

  const CONFIG := Record([
    Member("machine", MACHINE), Member("console", CONSOLE), Member("headless", FLAG), Member("rescue", FLAG),
    Member("hostname", HOSTNAME), Member("ssh", SSH), Member("ipv4", IP), Member("ipv6", IP),
    Member("wg", Many(WG)), Member("wg-server", Many(WG)), Member("nbd-client", Many(NBD_CLIENT)),
    Member("nbd-server", Many(NBD_SERVER)), Member("zfs-key", Many(ZFS_KEY)), Member("zfs-mount", Many(ZFS_MOUNT)),
    Member("docker-registry", Many(REGISTRY))])

  // The tree has the shape; a table's entries are members of the record.
  ghost predicate Conforms(t: Tree, shape: Shape)
    decreases t
  {
    match shape
    case Scalar => IsScalar(t)
    case Many(elem) => t.List? && forall i :: 0 <= i < |t.elems| ==> Conforms(t.elems[i], elem)
    case Record(ms) =>
      t.Node? && forall k :: k in t.fields ==>
        exists i :: 0 <= i < |ms| && ms[i].key == k && Conforms(t.fields[k], ms[i].shape)
  }

  /* ---- When names stay apart ---- */

  // The folded keys differ somewhere within both.
  ghost predicate Diverge(x: string, y: string) {
    exists i :: 0 <= i < |x| && i < |y| && FoldChar(x[i]) != FoldChar(y[i])
  }

  // The longer key goes on in a way an index or a count after the shorter cannot.
  predicate Overtakes(a: Member, b: Member) {
    && a.shape.Many? && |b.key| > |a.key| + 1
    && var c := FoldChar(b.key[|a.key| + 1]); !Text.IsDigit(c) && c != 'C'
  }

  ghost predicate KeptApart(a: Member, b: Member) {
    Diverge(a.key, b.key) || Overtakes(a, b) || Overtakes(b, a)
  }

  ghost predicate Separable(shape: Shape) {
    match shape
    case Scalar => true
    case Many(elem) => Separable(elem)
    case Record(ms) =>
      && (forall i :: 0 <= i < |ms| ==> Separable(ms[i].shape))
      && (forall i, j :: 0 <= i < j < |ms| ==> KeptApart(ms[i], ms[j]))
  }

  function Tail(p: Path): string {
    if p == [] then "" else "_" + StepText(p[0]) + Tail(p[1..])
  }

  predicate StartsWithoutDigit(s: string) {
    s == "" || !Text.IsDigit(s[0])
  }

  lemma DigitsEnd(a: string, b: string, s: string, t: string)
    requires Text.AllDigits(a) && Text.AllDigits(b) && StartsWithoutDigit(s) && StartsWithoutDigit(t)
    requires a + s == b + t
    ensures a == b && s == t
  {
    var x := a + s;
    assert forall k :: 0 <= k < |a| ==> x[k] == a[k];
    assert forall k :: 0 <= k < |b| ==> x[k] == b[k];
    assert |s| > 0 ==> x[|a|] == s[0];
    assert |t| > 0 ==> x[|b|] == t[0];
    assert |a| == |b|;
    assert a == x[..|a|] == b && s == x[|a|..] == t;
  }

  lemma TailStart(p: Path)
    ensures StartsWithoutDigit(Tail(p))
    ensures p != [] ==> Tail(p)[0] == '_'
    ensures p != [] && p[0].At? ==> |Tail(p)| >= 2 && Text.IsDigit(Tail(p)[1])
    ensures p != [] && p[0].Count? ==> |Tail(p)| >= 2 && Tail(p)[1] == 'C'
  {
  }

  // Two members of one record cannot yield the same name.
  lemma MembersApart(a: Member, b: Member, p: Path, q: Path)
    requires KeptApart(a, b)
    requires a.shape.Many? ==> p != [] && !p[0].Key?
    requires b.shape.Many? ==> q != [] && !q[0].Key?
    ensures Fold(a.key) + Tail(p) != Fold(b.key) + Tail(q)
  {
    var x, y := Fold(a.key) + Tail(p), Fold(b.key) + Tail(q);
    TailStart(p);
    TailStart(q);
    if Diverge(a.key, b.key) {
      var i :| 0 <= i < |a.key| && i < |b.key| && FoldChar(a.key[i]) != FoldChar(b.key[i]);
      assert x[i] == FoldChar(a.key[i]) && y[i] == FoldChar(b.key[i]);
    } else if Overtakes(a, b) {
      var i := |a.key| + 1;
      assert x[i] == Tail(p)[1] && y[i] == FoldChar(b.key[i]);
    } else {
      var i := |b.key| + 1;
      assert y[i] == Tail(q)[1] && x[i] == FoldChar(a.key[i]);
    }
  }

  lemma ManyStartsWithIndex(t: Tree, shape: Shape, p: Path)
    requires Conforms(t, shape) && IsLeafPath(t, p) && shape.Many?
    ensures p != [] && !p[0].Key?
  {
  }

  lemma DropFirst(c: char, x: string, y: string)
    ensures ([c] + x + y)[1..] == x + y
  {
  }

  // A leaf's name splits after its first step.
  lemma TailSplits(p: Path)
    requires p != []
    ensures Tail(p)[1..] == StepText(p[0]) + Tail(p[1..])
    ensures p == [p[0]] + p[1..]
  {
    DropFirst('_', StepText(p[0]), Tail(p[1..]));
  }

  // The member of its record a leaf goes through.
  lemma MemberOf(t: Tree, shape: Shape, p: Path) returns (i: nat)
    requires t.Node? && Conforms(t, shape) && IsLeafPath(t, p)
    ensures shape.Record? && i < |shape.members| && shape.members[i].key == p[0].key
    ensures Conforms(t.fields[p[0].key], shape.members[i].shape)
    ensures shape.members[i].shape.Many? ==> p[1..] != [] && !p[1..][0].Key?
  {
    i :| 0 <= i < |shape.members| && shape.members[i].key == p[0].key
         && Conforms(t.fields[p[0].key], shape.members[i].shape);
    if shape.members[i].shape.Many? {
      ManyStartsWithIndex(t.fields[p[0].key], shape.members[i].shape, p[1..]);
    }
  }

  lemma SameMember(ms: seq<Member>, i: nat, j: nat, p: Path, q: Path)
    requires i < |ms| && j < |ms| && Separable(Record(ms))
    requires ms[i].shape.Many? ==> p != [] && !p[0].Key?
    requires ms[j].shape.Many? ==> q != [] && !q[0].Key?
    requires Fold(ms[i].key) + Tail(p) == Fold(ms[j].key) + Tail(q)
    ensures i == j
  {
    if i < j {
      MembersApart(ms[i], ms[j], p, q);
    }
    if j < i {
      MembersApart(ms[j], ms[i], q, p);
    }
  }

  lemma SameRest(a: string, s: string, t: string)
    requires a + s == a + t
    ensures s == t
  {
    assert s == (a + s)[|a|..] && t == (a + t)[|a|..];
  }

  // Names below a list agree only under the same index, or are both the count.
  lemma IndexAgrees(p: Path, q: Path)
    requires p != [] && q != [] && !p[0].Key? && !q[0].Key? && Tail(p) == Tail(q)
    requires p[0].Count? ==> |p| == 1
    requires q[0].Count? ==> |q| == 1
    ensures p[0] == q[0] && Tail(p[1..]) == Tail(q[1..])
  {
    TailSplits(p);
    TailSplits(q);
    TailStart(p);
    TailStart(q);
    if p[0].At? {
      TailStart(p[1..]);
      TailStart(q[1..]);
      DigitsEnd(Text.Decimal(p[0].i), Text.Decimal(q[0].i), Tail(p[1..]), Tail(q[1..]));
      Text.DecimalInjective(p[0].i, q[0].i);
    }
  }

  // Distinct leaves of a conforming tree have distinct names.
  lemma {:induction false} NamesDiffer(t: Tree, shape: Shape, p: Path, q: Path)
    requires Conforms(t, shape) && Separable(shape) && IsLeafPath(t, p) && IsLeafPath(t, q)
    requires Tail(p) == Tail(q)
    ensures p == q
    decreases t
  {
    if t.Node? {
      var i := MemberOf(t, shape, p);
      var j := MemberOf(t, shape, q);
      TailSplits(p);
      TailSplits(q);
      SameMember(shape.members, i, j, p[1..], q[1..]);
      SameRest(Fold(p[0].key), Tail(p[1..]), Tail(q[1..]));
      NamesDiffer(t.fields[p[0].key], shape.members[i].shape, p[1..], q[1..]);
    } else if t.List? {
      IndexAgrees(p, q);
      TailSplits(p);
      TailSplits(q);
      if p[0].At? {
        NamesDiffer(t.elems[p[0].i], shape.elem, p[1..], q[1..]);
      }
    }
  }

  /* ---- The schema itself ---- */

  lemma ApartAt(a: Member, b: Member, i: nat)
    requires i < |a.key| && i < |b.key| && FoldChar(a.key[i]) != FoldChar(b.key[i])
    ensures KeptApart(a, b)
  {
  }

  // Members whose folded keys start with the given pairs of characters.
  ghost predicate Starts(ms: seq<Member>, firsts: string, seconds: string) {
    && |firsts| == |seconds| == |ms|
    && forall i :: 0 <= i < |ms| ==>
         |ms[i].key| >= 2 && FoldChar(ms[i].key[0]) == firsts[i] && FoldChar(ms[i].key[1]) == seconds[i]
  }

  lemma RecordSeparable(ms: seq<Member>, firsts: string, seconds: string)
    requires Starts(ms, firsts, seconds) && forall i :: 0 <= i < |ms| ==> Separable(ms[i].shape)
    requires forall i, j :: 0 <= i < j < |ms| ==> firsts[i] != firsts[j] || seconds[i] != seconds[j]
    ensures Separable(Record(ms))
  {
    forall i, j | 0 <= i < j < |ms| ensures KeptApart(ms[i], ms[j]) {
      ApartAt(ms[i], ms[j], if firsts[i] != firsts[j] then 0 else 1);
    }
  }

  lemma ConsoleIsSeparable()
    ensures Separable(CONSOLE)
  {
    RecordSeparable(CONSOLE.members, "KF", "EO");
  }

  lemma SshIsSeparable()
    ensures Separable(SSH)
  {
    RecordSeparable(SSH.members, "PK", "OE");
  }

  lemma IpIsSeparable()
    ensures Separable(IP)
  {
    RecordSeparable(IP.members, "ABSNGD", "DRUEAN");
  }

  lemma PeerIsSeparable()
    ensures Separable(PEER)
  {
    RecordSeparable(PEER.members, "PEAP", "UNLE");
  }

  lemma WgIsSeparable()
    ensures Separable(WG)
  {
    PeerIsSeparable();
    RecordSeparable(WG.members, "NPALP", "ARDIE");
  }

  lemma NbdClientIsSeparable()
    ensures Separable(NBD_CLIENT)
  {
    RecordSeparable(NBD_CLIENT.members, "APDET", "DOEXI");
  }

  lemma NbdServerIsSeparable()
    ensures Separable(NBD_SERVER)
  {
    RecordSeparable(NBD_SERVER.members, "AD", "DE");
  }

  lemma ZfsKeyIsSeparable()
    ensures Separable(ZFS_KEY)
  {
    RecordSeparable(ZFS_KEY.members, "DK", "AE");
  }

  lemma RegistryIsSeparable()
    ensures Separable(REGISTRY)
  {
    RecordSeparable(REGISTRY.members, "HUP", "OSA");
  }

  lemma SectionStarts()
    ensures Starts(CONFIG.members, "MCHRHSIIWWNNZZD", "AOEEOSPPGGBBFFO")
  {
  }

  // Sections that share their first two characters.
  lemma TwinSectionsApart()
    ensures KeptApart(CONFIG.members[6], CONFIG.members[7])
    ensures KeptApart(CONFIG.members[8], CONFIG.members[9])
    ensures KeptApart(CONFIG.members[10], CONFIG.members[11])
    ensures KeptApart(CONFIG.members[12], CONFIG.members[13])
  {
    ApartAt(CONFIG.members[6], CONFIG.members[7], 3);
    // `wg` goes on with an index or a count, `wg-server` with an S.
    assert Overtakes(CONFIG.members[8], CONFIG.members[9]);
    ApartAt(CONFIG.members[10], CONFIG.members[11], 4);
    ApartAt(CONFIG.members[12], CONFIG.members[13], 4);
  }

  lemma SectionsApart(ms: seq<Member>, i: nat, j: nat)
    requires Starts(ms, "MCHRHSIIWWNNZZD", "AOEEOSPPGGBBFFO") && i < j < 15
    requires KeptApart(ms[6], ms[7]) && KeptApart(ms[8], ms[9]) && KeptApart(ms[10], ms[11]) && KeptApart(ms[12], ms[13])
    ensures KeptApart(ms[i], ms[j])
  {
    if FoldChar(ms[i].key[0]) != FoldChar(ms[j].key[0]) {
      ApartAt(ms[i], ms[j], 0);
    } else if FoldChar(ms[i].key[1]) != FoldChar(ms[j].key[1]) {
      ApartAt(ms[i], ms[j], 1);
    }
  }

  lemma SectionShapesSeparable()
    ensures forall i :: 0 <= i < 15 ==> Separable(CONFIG.members[i].shape)
  {
    ConsoleIsSeparable();
    SshIsSeparable();
    IpIsSeparable();
    WgIsSeparable();
    NbdClientIsSeparable();
    NbdServerIsSeparable();
    ZfsKeyIsSeparable();
    RegistryIsSeparable();
  }

  // The schema as a whole keeps its names apart.
  lemma ConfigIsSeparable()
    ensures Separable(CONFIG)
  {
    SectionStarts();
    TwinSectionsApart();
    SectionShapesSeparable();
    var ms := CONFIG.members;
    forall i, j | 0 <= i < j < 15 ensures KeptApart(ms[i], ms[j]) {
      SectionsApart(ms, i, j);
    }
  }
}

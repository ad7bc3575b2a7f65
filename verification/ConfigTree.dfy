/** Configuration documents: the editable tree that `set` and `remove` work on, and the
    plain view of it in which paths are looked up. */
module ConfigTree {
  import opened Prelude
  import opened KeyPath

  // The editable document: ordinary tables and arrays of tables are items of their own,
  // inline tables and arrays are values.
  datatype Value =
    | Str(s: string) | Int(i: int) | Bool(b: bool)
    | Array(elems: seq<Value>)
    | Inline(fields: map<string, Value>)

  datatype Item = Leaf(value: Value) | Sub(table: Table) | Tables(tables: seq<Table>)

  datatype Table = Table(entries: map<string, Item>)

  const EMPTY := Table(map[])

  // The view: nothing distinguishes inline tables or arrays of tables any more.
  datatype Tree =
    | Text(s: string) | Number(i: int) | Flag(b: bool)
    | List(elems: seq<Tree>)
    | Node(fields: map<string, Tree>)

  function ViewValue(v: Value): Tree {
    match v
    case Str(s) => Text(s)
    case Int(i) => Number(i)
    case Bool(b) => Flag(b)
    case Array(es) => List(seq(|es|, i requires 0 <= i < |es| => ViewValue(es[i])))
    case Inline(fs) => Node(map k | k in fs :: ViewValue(fs[k]))
  }

  function ViewItem(item: Item): Tree {
    match item
    case Leaf(v) => ViewValue(v)
    case Sub(t) => ViewTable(t)
    case Tables(ts) => List(seq(|ts|, i requires 0 <= i < |ts| => ViewTable(ts[i])))
  }

  function ViewTable(t: Table): Tree {
    Node(map k | k in t.entries :: ViewItem(t.entries[k]))
  }

  // walk_segments
  function Walk(path: seq<Segment>, tree: Tree): Option<Tree> {
    if path == [] then Some(tree)
    else
      match path[0]
      case Field(name) =>
        if tree.Node? && name in tree.fields then Walk(path[1..], tree.fields[name]) else None
      case Index(i) =>
        if tree.List? && i < |tree.elems| then Walk(path[1..], tree.elems[i]) else None
  }

  function Lookup(doc: Table, path: seq<Segment>): Option<Tree> {
    Walk(path, ViewTable(doc))
  }

  lemma {:induction false} WalkAppend(a: seq<Segment>, b: seq<Segment>, tree: Tree)
    ensures Walk(a + b, tree) == match Walk(a, tree) case None => None case Some(t) => Walk(b, t)
  {
    if a == [] {
      assert a + b == b;
    } else {
      assert (a + b)[1..] == a[1..] + b;
      match a[0] {
        case Field(name) => if tree.Node? && name in tree.fields { WalkAppend(a[1..], b, tree.fields[name]); }
        case Index(i) => if tree.List? && i < |tree.elems| { WalkAppend(a[1..], b, tree.elems[i]); }
      }
    }
  }

  // Neither path is a prefix of the other.
  predicate Incomparable(p: seq<Segment>, q: seq<Segment>) {
    !(p <= q) && !(q <= p)
  }

  lemma IncomparableTails(p: seq<Segment>, q: seq<Segment>)
    requires Incomparable(p, q)
    ensures p != [] && q != []
    ensures p[0] == q[0] ==> Incomparable(p[1..], q[1..])
  {
    if p[0] == q[0] {
      assert p == [p[0]] + p[1..] && q == [q[0]] + q[1..];
    }
  }

  /* ---- Editing one entry, seen in the view ---- */

  function With(t: Table, name: string, item: Item): Table {
    Table(t.entries[name := item])
  }

  lemma ViewWith(t: Table, name: string, item: Item)
    ensures ViewTable(With(t, name, item)) == Node(ViewTable(t).fields[name := ViewItem(item)])
  {
  }

  // Looking up a path in an edited table.
  lemma LookupWith(t: Table, name: string, item: Item, path: seq<Segment>)
    requires path != []
    ensures Lookup(With(t, name, item), path) ==
            if path[0] == Field(name) then Walk(path[1..], ViewItem(item)) else Lookup(t, path)
  {
    ViewWith(t, name, item);
  }

  lemma LookupEntry(t: Table, path: seq<Segment>)
    requires path != []
    ensures path[0].Index? ==> Lookup(t, path) == None
    ensures path[0].Field? ==>
              (Lookup(t, path) ==
               if path[0].name in t.entries then Walk(path[1..], ViewItem(t.entries[path[0].name])) else None)
  {
  }
}

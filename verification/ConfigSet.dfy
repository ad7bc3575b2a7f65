/** `zebrafish-config set`: writing a value at a path, creating missing tables. */
module ConfigSet {
  import opened Prelude
  import opened KeyPath
  import opened ConfigTree

  // An edit in place: the document it leaves, also when it fails half way.
  datatype Edit = Edit(table: Table, ok: bool)

  // The table under a name, or the empty one that would be created there.
  function Below(t: Table, name: string): Table {
    if name in t.entries && t.entries[name].Sub? then t.entries[name].table else EMPTY
  }

  // set_in_table
  function SetInTable(t: Table, path: seq<Segment>, v: Value): Edit
    decreases |path|
  {
    if path == [] || path[0].Index? then Edit(t, false)
    else
      var name := path[0].name;
      if |path| == 1 then Edit(With(t, name, Leaf(v)), true)
      else if name in t.entries && !t.entries[name].Sub? then Edit(t, false)
      else
        var next := SetInTable(Below(t, name), path[1..], v);
        Edit(With(t, name, Sub(next.table)), next.ok)
  }

  // apply_set
  function ApplySet(doc: Table, path: seq<Segment>, v: Value): Edit {
    if path == [] || path[0].Index? then Edit(doc, false)
    else
      var section, tail := path[0].name, path[1..];
      if tail != [] && tail[0].Index? then
        if section in doc.entries && !doc.entries[section].Tables? then Edit(doc, false)
        else
          var arr := if section in doc.entries then doc.entries[section].tables else [];
          var i := tail[0].i;
          if i >= |arr| then Edit(With(doc, section, Tables(arr)), false)
          else
            var next := SetInTable(arr[i], tail[1..], v);
            Edit(With(doc, section, Tables(arr[i := next.table])), next.ok)
      else if section in doc.entries && !doc.entries[section].Sub? then Edit(doc, false)
      else
        var next := SetInTable(Below(doc, section), tail, v);
        Edit(With(doc, section, Sub(next.table)), next.ok)
  }

  class Document {
    var root: Table

    constructor (root: Table)
      ensures this.root == root
    {
      this.root := root;
    }

    // ensure_table
    method EnsureTable(section: string) returns (ok: bool)
      modifies this
      ensures ok == (section !in old(root).entries || old(root).entries[section].Sub?)
      ensures root == if section in old(root).entries then old(root) else With(old(root), section, Sub(EMPTY))
    {
      if section !in root.entries {
        root := With(root, section, Sub(EMPTY));
        return true;
      }
      return root.entries[section].Sub?;
    }

    // ensure_array_of_tables
    method EnsureArrayOfTables(section: string) returns (ok: bool)
      modifies this
      ensures ok == (section !in old(root).entries || old(root).entries[section].Tables?)
      ensures root == if section in old(root).entries then old(root) else With(old(root), section, Tables([]))
    {
      if section !in root.entries {
        root := With(root, section, Tables([]));
        return true;
      }
      return root.entries[section].Tables?;
    }

    method Apply(path: seq<Segment>, v: Value) returns (ok: bool)
      modifies this
      ensures Edit(root, ok) == ApplySet(old(root), path, v)
    {
      if path == [] {
        return false;
      }
      if path[0].Index? {
        return false;
      }
      var section, tail := path[0].name, path[1..];
      if tail != [] && tail[0].Index? {
        ok := EnsureArrayOfTables(section);
        if !ok {
          return;
        }
        var arr, i := root.entries[section].tables, tail[0].i;
        if i >= |arr| {
          assert root == With(old(root), section, Tables(arr));
          return false;
        }
        var next := SetInTable(arr[i], tail[1..], v);
        root := With(root, section, Tables(arr[i := next.table]));
        ok := next.ok;
      } else {
        ok := EnsureTable(section);
        if !ok {
          return;
        }
        var next := SetInTable(root.entries[section].table, tail, v);
        root := With(root, section, Sub(next.table));
        ok := next.ok;
      }
    }
  }

  /* ---- When a set succeeds ---- */

  predicate AllFields(path: seq<Segment>) {
    forall i :: 0 <= i < |path| ==> path[i].Field?
  }

  // The entry reached by following ordinary tables by name.
  function ItemAt(t: Table, path: seq<Segment>): Option<Item>
    decreases |path|
  {
    if path == [] || path[0].Index? || path[0].name !in t.entries then None
    else if |path| == 1 then Some(t.entries[path[0].name])
    else if t.entries[path[0].name].Sub? then ItemAt(t.entries[path[0].name].table, path[1..])
    else None
  }

  // Nothing but an ordinary table stands where the first n names lead.
  predicate OpenAt(t: Table, path: seq<Segment>, n: nat)
    requires n <= |path|
  {
    ItemAt(t, path[..n]).None? || ItemAt(t, path[..n]).value.Sub?
  }

  // Names only, and no other kind of entry on the way.
  predicate Settable(t: Table, path: seq<Segment>) {
    path != [] && AllFields(path) && forall n :: 1 <= n < |path| ==> OpenAt(t, path, n)
  }

  lemma OpenBelow(t: Table, path: seq<Segment>, n: nat)
    requires 2 <= n <= |path| && path[0].Field? && (path[0].name in t.entries ==> t.entries[path[0].name].Sub?)
    ensures OpenAt(t, path, n) <==> OpenAt(Below(t, path[0].name), path[1..], n - 1)
  {
    assert path[..n][1..] == path[1..][..n - 1];
  }

  lemma {:induction false} TableSetSucceeds(t: Table, path: seq<Segment>, v: Value)
    ensures SetInTable(t, path, v).ok <==> Settable(t, path)
    decreases |path|
  {
    if |path| >= 2 && path[0].Field? {
      var name, tail := path[0].name, path[1..];
      assert path[..1] == [path[0]];
      if name in t.entries && !t.entries[name].Sub? {
        assert !OpenAt(t, path, 1);
      } else {
        var below := Below(t, name);
        TableSetSucceeds(below, tail, v);
        assert AllFields(path) <==> AllFields(tail) by {
          assert path == [path[0]] + tail;
        }
        if Settable(below, tail) {
          forall n | 1 <= n < |path| ensures OpenAt(t, path, n) {
            if n >= 2 { OpenBelow(t, path, n); }
          }
        }
        if Settable(t, path) {
          forall n | 1 <= n < |tail| ensures OpenAt(below, tail, n) {
            OpenBelow(t, path, n + 1);
          }
        }
      }
    }
  }

  // A set succeeds exactly on a path of at least two names that meets nothing but
  // ordinary tables, or one that leads so into an existing element of an array of tables.
  lemma SetSucceedsExactlyWhen(doc: Table, path: seq<Segment>, v: Value)
    ensures ApplySet(doc, path, v).ok <==>
            && |path| >= 2 && path[0].Field?
            && if path[1].Field? then Settable(doc, path)
               else
                 && path[0].name in doc.entries && doc.entries[path[0].name].Tables?
                 && path[1].i < |doc.entries[path[0].name].tables|
                 && Settable(doc.entries[path[0].name].tables[path[1].i], path[2..])
  {
    if |path| >= 2 && path[0].Field? {
      if path[1].Field? {
        TableSetSucceeds(doc, path, v);
      } else if path[0].name in doc.entries && doc.entries[path[0].name].Tables? {
        var arr := doc.entries[path[0].name].tables;
        assert path[1..][1..] == path[2..];
        if path[1].i < |arr| {
          TableSetSucceeds(arr[path[1].i], path[2..], v);
        }
      }
    }
  }

  /* ---- What was written is found, and nothing else changes ---- */

  lemma {:induction false} TableSetFound(t: Table, path: seq<Segment>, v: Value)
    requires SetInTable(t, path, v).ok
    ensures Lookup(SetInTable(t, path, v).table, path) == Some(ViewValue(v))
    decreases |path|
  {
    var name := path[0].name;
    if |path| == 1 {
      LookupWith(t, name, Leaf(v), path);
    } else {
      var next := SetInTable(Below(t, name), path[1..], v);
      TableSetFound(Below(t, name), path[1..], v);
      LookupWith(t, name, Sub(next.table), path);
    }
  }

  // A missing table looks up nothing, like the empty one created for it.
  lemma LookupBelow(t: Table, path: seq<Segment>)
    requires |path| >= 2 && path[0].Field? && (path[0].name in t.entries ==> t.entries[path[0].name].Sub?)
    ensures Lookup(t, path) == Lookup(Below(t, path[0].name), path[1..])
  {
    LookupEntry(t, path);
    LookupEntry(EMPTY, path[1..]);
  }

  lemma {:induction false} TableSetElsewhere(t: Table, path: seq<Segment>, v: Value, q: seq<Segment>)
    requires Incomparable(path, q)
    ensures Lookup(SetInTable(t, path, v).table, q) == Lookup(t, q)
    decreases |path|
  {
    IncomparableTails(path, q);
    if path[0].Field? {
      var name := path[0].name;
      var next := SetInTable(Below(t, name), path[1..], v);
      LookupWith(t, name, Leaf(v), q);
      LookupWith(t, name, Sub(next.table), q);
      if q[0] == path[0] && (name in t.entries ==> t.entries[name].Sub?) {
        assert |path| >= 2 && |q| >= 2;
        TableSetElsewhere(Below(t, name), path[1..], v, q[1..]);
        LookupBelow(t, q);
      }
    }
  }

  // An element of an array of tables, in the view.
  lemma LookupElement(t: Table, name: string, ts: seq<Table>, path: seq<Segment>)
    requires |path| >= 2 && path[0] == Field(name)
    ensures Lookup(With(t, name, Tables(ts)), path) ==
            if path[1].Index? && path[1].i < |ts| then Lookup(ts[path[1].i], path[2..]) else None
  {
    LookupWith(t, name, Tables(ts), path);
    assert path[1..][1..] == path[2..];
  }

  // A successful set is read back: looking up the path gives the written value.
  lemma SetIsFound(doc: Table, path: seq<Segment>, v: Value)
    requires ApplySet(doc, path, v).ok
    ensures Lookup(ApplySet(doc, path, v).table, path) == Some(ViewValue(v))
  {
    var section, tail := path[0].name, path[1..];
    if tail != [] && tail[0].Index? {
      var arr := doc.entries[section].tables;
      var next := SetInTable(arr[tail[0].i], tail[1..], v);
      TableSetFound(arr[tail[0].i], tail[1..], v);
      assert path[2..] == tail[1..];
      LookupElement(doc, section, arr[tail[0].i := next.table], path);
    } else {
      TableSetFound(Below(doc, section), tail, v);
      LookupWith(doc, section, Sub(SetInTable(Below(doc, section), tail, v).table), path);
    }
  }

  // Writing back the same array of tables, or an empty one for a missing one.
  lemma SameElements(doc: Table, section: string, q: seq<Segment>)
    requires |q| >= 2 && q[0] == Field(section)
    requires section in doc.entries ==> doc.entries[section].Tables?
    ensures Lookup(With(doc, section, Tables(if section in doc.entries then doc.entries[section].tables else [])), q)
         == Lookup(doc, q)
  {
    if section in doc.entries {
      assert With(doc, section, doc.entries[section]) == doc;
    } else {
      LookupElement(doc, section, [], q);
      LookupEntry(doc, q);
    }
  }

  lemma SetElementElsewhere(doc: Table, path: seq<Segment>, v: Value, q: seq<Segment>)
    requires Incomparable(path, q) && |path| >= 2 && path[0].Field? && path[1].Index? && q != []
    requires path[0].name in doc.entries ==> doc.entries[path[0].name].Tables?
    ensures Lookup(ApplySet(doc, path, v).table, q) == Lookup(doc, q)
  {
    var section, i := path[0].name, path[1].i;
    var arr := if section in doc.entries then doc.entries[section].tables else [];
    assert path[1..][1..] == path[2..];
    if q[0] != path[0] {
      LookupWith(doc, section, Tables(arr), q);
      if i < |arr| {
        LookupWith(doc, section, Tables(arr[i := SetInTable(arr[i], path[2..], v).table]), q);
      }
    } else {
      IncomparableTails(path, q);
      IncomparableTails(path[1..], q[1..]);
      LookupElement(doc, section, arr, q);
      SameElements(doc, section, q);
      if i < |arr| {
        var next := SetInTable(arr[i], path[2..], v);
        LookupElement(doc, section, arr[i := next.table], q);
        if q[1] == path[1] {
          assert q[1..][1..] == q[2..];
          TableSetElsewhere(arr[i], path[2..], v, q[2..]);
        }
      }
    }
  }

  // In particular a text, a number or a flag is read back as it was written, and an array
  // has its elements, in order, under their indices.
  lemma SetReadsBack(doc: Table, path: seq<Segment>, v: Value)
    requires ApplySet(doc, path, v).ok
    ensures var found := Lookup(ApplySet(doc, path, v).table, path);
      && (v.Str? ==> found == Some(Text(v.s)))
      && (v.Int? ==> found == Some(Number(v.i)))
      && (v.Bool? ==> found == Some(Flag(v.b)))
      && (v.Array? ==> found.Some? && found.value.List? && |found.value.elems| == |v.elems|
                       && forall i :: 0 <= i < |v.elems| && v.elems[i].Str? ==> found.value.elems[i] == Text(v.elems[i].s))
  {
    SetIsFound(doc, path, v);
  }

  // Every path that is neither a prefix nor an extension of the set one looks up as
  // before, through tables created on the way too, and also when the set fails.
  lemma SetElsewhere(doc: Table, path: seq<Segment>, v: Value, q: seq<Segment>)
    requires Incomparable(path, q)
    ensures Lookup(ApplySet(doc, path, v).table, q) == Lookup(doc, q)
  {
    IncomparableTails(path, q);
    if path[0].Field? {
      var section, tail := path[0].name, path[1..];
      if tail != [] && tail[0].Index? {
        if section in doc.entries ==> doc.entries[section].Tables? {
          SetElementElsewhere(doc, path, v, q);
        }
      } else if section in doc.entries ==> doc.entries[section].Sub? {
        var next := SetInTable(Below(doc, section), tail, v);
        LookupWith(doc, section, Sub(next.table), q);
        if q[0] == path[0] {
          assert |q| >= 2;
          TableSetElsewhere(Below(doc, section), tail, v, q[1..]);
          LookupBelow(doc, q);
        }
      }
    }
  }

  /* ---- What a failed set leaves ---- */

  lemma {:induction false} FailedTableSet(t: Table, path: seq<Segment>, v: Value, q: seq<Segment>)
    requires !SetInTable(t, path, v).ok && path <= q && q != []
    ensures Lookup(SetInTable(t, path, v).table, q) == Lookup(t, q)
    decreases |path|
  {
    if |path| > 1 && path[0].Field? && (path[0].name in t.entries ==> t.entries[path[0].name].Sub?) {
      var name := path[0].name;
      var next := SetInTable(Below(t, name), path[1..], v);
      LookupWith(t, name, Sub(next.table), q);
      FailedTableSet(Below(t, name), path[1..], v, q[1..]);
      LookupBelow(t, q);
    }
  }

  lemma FailedElementSet(doc: Table, path: seq<Segment>, v: Value, q: seq<Segment>)
    requires !ApplySet(doc, path, v).ok && path <= q && |path| >= 2 && path[0].Field? && path[1].Index?
    requires path[0].name in doc.entries ==> doc.entries[path[0].name].Tables?
    ensures Lookup(ApplySet(doc, path, v).table, q) == Lookup(doc, q)
  {
    var section, i := path[0].name, path[1].i;
    var arr := if section in doc.entries then doc.entries[section].tables else [];
    assert path[1..][1..] == path[2..];
    LookupElement(doc, section, arr, q);
    SameElements(doc, section, q);
    if i < |arr| {
      var next := SetInTable(arr[i], path[2..], v);
      LookupElement(doc, section, arr[i := next.table], q);
      if |path| > 2 {
        FailedTableSet(arr[i], path[2..], v, q[2..]);
      }
    }
  }

  // A failed set may have created tables on the way, but writes nothing at its path or
  // below it.
  lemma FailedSetWritesNothing(doc: Table, path: seq<Segment>, v: Value, q: seq<Segment>)
    requires !ApplySet(doc, path, v).ok && path <= q && |path| >= 2
    ensures Lookup(ApplySet(doc, path, v).table, q) == Lookup(doc, q)
  {
    if path[0].Field? {
      var section, tail := path[0].name, path[1..];
      if tail[0].Index? {
        if section in doc.entries ==> doc.entries[section].Tables? {
          FailedElementSet(doc, path, v, q);
        }
      } else if section in doc.entries ==> doc.entries[section].Sub? {
        var next := SetInTable(Below(doc, section), tail, v);
        LookupWith(doc, section, Sub(next.table), q);
        FailedTableSet(Below(doc, section), tail, v, q[1..]);
        LookupBelow(doc, q);
      }
    }
  }

  /* ---- Sets on incomparable paths commute ---- */

  lemma WithTwice(t: Table, a: string, x: Item, b: string, y: Item)
    ensures a != b ==> With(With(t, a, x), b, y) == With(With(t, b, y), a, x)
    ensures With(With(t, a, x), a, y) == With(t, a, y)
  {
  }

  // What a successful set leaves under the first name of its path.
  function EntryAfter(t: Table, path: seq<Segment>, v: Value): Item
    requires path != [] && path[0].Field?
  {
    if |path| == 1 then Leaf(v) else Sub(SetInTable(Below(t, path[0].name), path[1..], v).table)
  }

  // A set depends on, and changes, only what is under that name.
  lemma TableSetIsLocal(t: Table, path: seq<Segment>, v: Value, t': Table)
    requires SetInTable(t, path, v).ok && Below(t', path[0].name) == Below(t, path[0].name)
    requires path[0].name in t'.entries ==> |path| == 1 || t'.entries[path[0].name].Sub?
    ensures SetInTable(t', path, v) == Edit(With(t', path[0].name, EntryAfter(t, path, v)), true)
  {
  }

  lemma TableSetBelow(t: Table, name: string, below: Table, path: seq<Segment>, v: Value)
    requires |path| >= 2 && path[0] == Field(name)
    ensures var next := SetInTable(below, path[1..], v);
            SetInTable(With(t, name, Sub(below)), path, v) ==
            Edit(With(With(t, name, Sub(below)), name, Sub(next.table)), next.ok)
  {
  }

  lemma EntriesCommute(t: Table, p: seq<Segment>, v: Value, q: seq<Segment>, w: Value)
    requires SetInTable(t, p, v).ok && SetInTable(t, q, w).ok && p[0] != q[0]
    ensures var pq, qp := SetInTable(SetInTable(t, p, v).table, q, w), SetInTable(SetInTable(t, q, w).table, p, v);
            pq.ok && qp.ok && pq.table == qp.table
  {
    var a, b := p[0].name, q[0].name;
    var x, y := EntryAfter(t, p, v), EntryAfter(t, q, w);
    TableSetIsLocal(t, p, v, t);
    TableSetIsLocal(t, q, w, t);
    WithTwice(t, a, x, b, y);
    TableSetIsLocal(t, p, v, With(t, b, y));
    TableSetIsLocal(t, q, w, With(t, a, x));
  }

  lemma {:induction false} TableSetsCommute(t: Table, p: seq<Segment>, v: Value, q: seq<Segment>, w: Value)
    requires Incomparable(p, q) && SetInTable(t, p, v).ok && SetInTable(t, q, w).ok
    ensures var pq, qp := SetInTable(SetInTable(t, p, v).table, q, w), SetInTable(SetInTable(t, q, w).table, p, v);
            pq.ok && qp.ok && pq.table == qp.table
    decreases |p|
  {
    IncomparableTails(p, q);
    if p[0] != q[0] {
      EntriesCommute(t, p, v, q, w);
    } else {
      var a := p[0].name;
      var x, y := EntryAfter(t, p, v), EntryAfter(t, q, w);
      TableSetIsLocal(t, p, v, t);
      TableSetIsLocal(t, q, w, t);
      TableSetsCommute(Below(t, a), p[1..], v, q[1..], w);
      TableSetBelow(t, a, x.table, q, w);
      TableSetBelow(t, a, y.table, p, v);
      var pq := SetInTable(x.table, q[1..], w).table;
      WithTwice(t, a, x, a, Sub(pq));
      WithTwice(t, a, y, a, Sub(pq));
    }
  }

  lemma TablesCommute(doc: Table, p: seq<Segment>, v: Value, q: seq<Segment>, w: Value)
    requires Incomparable(p, q) && ApplySet(doc, p, v).ok && ApplySet(doc, q, w).ok
    requires |p| >= 2 && |q| >= 2 && p[0] == q[0] && p[1].Field?
    ensures var pq, qp := ApplySet(ApplySet(doc, p, v).table, q, w), ApplySet(ApplySet(doc, q, w).table, p, v);
            pq.ok && qp.ok && pq.table == qp.table
  {
    IncomparableTails(p, q);
    var section := p[0].name;
    var x, y := SetInTable(Below(doc, section), p[1..], v), SetInTable(Below(doc, section), q[1..], w);
    TableSetsCommute(Below(doc, section), p[1..], v, q[1..], w);
    var xy := SetInTable(x.table, q[1..], w);
    WithTwice(doc, section, Sub(x.table), section, Sub(xy.table));
    WithTwice(doc, section, Sub(y.table), section, Sub(xy.table));
  }

  // What a set does to its section, as a function of what is there.
  function SectionAfter(doc: Table, path: seq<Segment>, v: Value): Item
    requires ApplySet(doc, path, v).ok
  {
    ApplySet(doc, path, v).table.entries[path[0].name]
  }

  lemma SetIsLocal(doc: Table, path: seq<Segment>, v: Value, other: string, item: Item)
    requires ApplySet(doc, path, v).ok && path[0] != Field(other)
    ensures ApplySet(doc, path, v).table == With(doc, path[0].name, SectionAfter(doc, path, v))
    ensures ApplySet(With(doc, other, item), path, v).ok
    ensures SectionAfter(With(doc, other, item), path, v) == SectionAfter(doc, path, v)
    ensures ApplySet(With(doc, other, item), path, v).table ==
            With(With(doc, other, item), path[0].name, SectionAfter(doc, path, v))
  {
  }

  lemma SectionsCommute(doc: Table, p: seq<Segment>, v: Value, q: seq<Segment>, w: Value)
    requires ApplySet(doc, p, v).ok && ApplySet(doc, q, w).ok && p[0] != q[0]
    ensures var pq, qp := ApplySet(ApplySet(doc, p, v).table, q, w), ApplySet(ApplySet(doc, q, w).table, p, v);
            pq.ok && qp.ok && pq.table == qp.table
  {
    var x, y := SectionAfter(doc, p, v), SectionAfter(doc, q, w);
    SetIsLocal(doc, p, v, q[0].name, y);
    SetIsLocal(doc, q, w, p[0].name, x);
    WithTwice(doc, p[0].name, x, q[0].name, y);
  }

  lemma ElementsCommute(doc: Table, p: seq<Segment>, v: Value, q: seq<Segment>, w: Value)
    requires Incomparable(p, q) && ApplySet(doc, p, v).ok && ApplySet(doc, q, w).ok
    requires |p| >= 2 && |q| >= 2 && p[0] == q[0] && p[1].Index?
    ensures var pq, qp := ApplySet(ApplySet(doc, p, v).table, q, w), ApplySet(ApplySet(doc, q, w).table, p, v);
            pq.ok && qp.ok && pq.table == qp.table
  {
    var section, i := p[0].name, p[1].i;
    var arr := doc.entries[section].tables;
    assert q[1].Index?;
    var j := q[1].i;
    var x, y := SetInTable(arr[i], p[1..][1..], v), SetInTable(arr[j], q[1..][1..], w);
    var afterP, afterQ := arr[i := x.table], arr[j := y.table];
    if i == j {
      IncomparableTails(p, q);
      IncomparableTails(p[1..], q[1..]);
      TableSetsCommute(arr[i], p[1..][1..], v, q[1..][1..], w);
      var xy := SetInTable(x.table, q[1..][1..], w);
      WithTwice(doc, section, Tables(afterP), section, Tables(afterP[i := xy.table]));
      WithTwice(doc, section, Tables(afterQ), section, Tables(afterQ[i := xy.table]));
      assert afterP[i := xy.table] == afterQ[i := xy.table];
    } else {
      WithTwice(doc, section, Tables(afterP), section, Tables(afterP[j := y.table]));
      WithTwice(doc, section, Tables(afterQ), section, Tables(afterQ[i := x.table]));
      assert afterP[j := y.table] == afterQ[i := x.table];
    }
  }

  // Two sets on incomparable paths that each succeed also succeed after one another, and
  // leave the same document in either order.
  lemma SetsCommute(doc: Table, p: seq<Segment>, v: Value, q: seq<Segment>, w: Value)
    requires Incomparable(p, q) && ApplySet(doc, p, v).ok && ApplySet(doc, q, w).ok
    ensures var pq, qp := ApplySet(ApplySet(doc, p, v).table, q, w), ApplySet(ApplySet(doc, q, w).table, p, v);
            pq.ok && qp.ok && pq.table == qp.table
  {
    IncomparableTails(p, q);
    if p[0] != q[0] {
      SectionsCommute(doc, p, v, q, w);
    } else if p[1].Index? {
      ElementsCommute(doc, p, v, q, w);
    } else {
      TablesCommute(doc, p, v, q, w);
    }
  }
}

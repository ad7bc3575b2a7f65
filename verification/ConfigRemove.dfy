/** `zebrafish-config remove`: deleting an entry or an array element at a path. */
module ConfigRemove {
  import opened Prelude
  import opened KeyPath
  import opened ConfigTree
  import opened ConfigSet

  datatype ItemEdit = ItemEdit(item: Item, ok: bool)

  function DropAt<T>(s: seq<T>, i: nat): seq<T> {
    if i < |s| then s[..i] + s[i + 1..] else s
  }

  function Cut(t: Table, name: string): Table {
    Table(t.entries - {name})
  }

  // remove_in_item
  function RemoveInItem(item: Item, path: seq<Segment>): ItemEdit
    decreases |path|
  {
    if path == [] then ItemEdit(item, false)
    else if |path| == 1 then
      match path[0]
      case Field(name) => ItemEdit(if item.Sub? then Sub(Cut(item.table, name)) else item, true)
      case Index(i) =>
        if item.Tables? then ItemEdit(Tables(DropAt(item.tables, i)), true)
        else if item.Leaf? && item.value.Array? then ItemEdit(Leaf(Array(DropAt(item.value.elems, i))), true)
        else ItemEdit(item, true)
    else
      match path[0]
      case Field(name) =>
        if item.Sub? && name in item.table.entries then
          var next := RemoveInItem(item.table.entries[name], path[1..]);
          ItemEdit(Sub(With(item.table, name, next.item)), next.ok)
        else ItemEdit(item, true)
      case Index(_) => ItemEdit(item, false)
  }

  // remove_in_doc
  function RemoveInDoc(doc: Table, path: seq<Segment>): Edit {
    if path == [] || path[0].Index? then Edit(doc, false)
    else
      var section, tail := path[0].name, path[1..];
      if tail == [] then Edit(Cut(doc, section), true)
      else if section !in doc.entries then Edit(doc, true)
      else
        var next := RemoveInItem(doc.entries[section], tail);
        Edit(With(doc, section, next.item), next.ok)
  }

  method Remove(document: Document, path: seq<Segment>) returns (ok: bool)
    modifies document
    ensures Edit(document.root, ok) == RemoveInDoc(old(document.root), path)
  {
    if path == [] {
      return false;
    }
    if path[0].Index? {
      return false;
    }
    var section, tail := path[0].name, path[1..];
    if tail == [] {
      document.root := Cut(document.root, section);
      return true;
    }
    if section !in document.root.entries {
      return true;
    }
    var next := RemoveInItem(document.root.entries[section], tail);
    document.root := With(document.root, section, next.item);
    ok := next.ok;
  }

  /* ---- When a remove succeeds ---- */

  // Following ordinary tables by name arrives at an entry, and the path goes on below
  // it with an index.
  predicate IndexesInto(t: Table, path: seq<Segment>, n: nat) {
    1 <= n < |path| - 1 && path[n].Index? && ItemAt(t, path[..n]).Some?
  }

  lemma {:induction false} ItemRemoveSucceeds(t: Table, path: seq<Segment>)
    requires path != [] && path[0].Field?
    ensures RemoveInItem(Sub(t), path).ok <==> forall n: nat :: !IndexesInto(t, path, n)
    decreases |path|
  {
    var name := path[0].name;
    if |path| > 1 && name in t.entries {
      var below, tail := t.entries[name], path[1..];
      assert path[..1] == [path[0]];
      if tail[0].Index? {
        assert |path| > 2 ==> IndexesInto(t, path, 1);
        forall n: nat | n >= 2 ensures !IndexesInto(t, path, n) {
          if n < |path| {
            var front := path[..n];
            assert front[1..][0] == tail[0] && front[0] == path[0];
            assert below.Sub? ==> ItemAt(below.table, front[1..]) == None;
          }
        }
      } else if below.Sub? {
        ItemRemoveSucceeds(below.table, tail);
        forall n: nat | n >= 2 ensures IndexesInto(t, path, n) <==> IndexesInto(below.table, tail, n - 1) {
          if n < |path| {
            assert path[..n][1..] == tail[..n - 1];
          }
        }
        forall m: nat | IndexesInto(below.table, tail, m) ensures IndexesInto(t, path, m + 1) {
        }
      }
    }
  }

  // The document is edited as the ordinary table it is.
  lemma DocIsTable(doc: Table, path: seq<Segment>)
    requires path != [] && path[0].Field?
    ensures RemoveInItem(Sub(doc), path) == ItemEdit(Sub(RemoveInDoc(doc, path).table), RemoveInDoc(doc, path).ok)
  {
  }

  // A remove fails exactly when its path does not start with a name, or indexes into
  // an entry without ending there.
  lemma RemoveSucceedsExactlyWhen(doc: Table, path: seq<Segment>)
    ensures RemoveInDoc(doc, path).ok <==>
            path != [] && path[0].Field? && forall n: nat :: !IndexesInto(doc, path, n)
  {
    if path != [] && path[0].Field? {
      DocIsTable(doc, path);
      ItemRemoveSucceeds(doc, path);
    }
  }

  /* ---- Where a remove takes effect ---- */

  // Every proper prefix of the path leads to an ordinary table.
  predicate ThroughTables(item: Item, path: seq<Segment>)
    decreases |path|
  {
    if |path| <= 1 then item.Sub?
    else item.Sub? && path[0].Field? && path[0].name in item.table.entries &&
         ThroughTables(item.table.entries[path[0].name], path[1..])
  }

  lemma WalkCut(t: Table, name: string, path: seq<Segment>)
    requires path != []
    ensures Walk(path, ViewItem(Sub(Cut(t, name)))) ==
            if path[0] == Field(name) then None else Walk(path, ViewItem(Sub(t)))
  {
  }

  lemma WalkWith(t: Table, name: string, item: Item, path: seq<Segment>)
    requires path != []
    ensures Walk(path, ViewItem(Sub(With(t, name, item)))) ==
            if path[0] == Field(name) then Walk(path[1..], ViewItem(item)) else Walk(path, ViewItem(Sub(t)))
  {
    LookupWith(t, name, item, path);
  }

  lemma WalkEntry(t: Table, name: string, path: seq<Segment>)
    requires path != [] && path[0] == Field(name) && name in t.entries
    ensures Walk(path, ViewItem(Sub(t))) == Walk(path[1..], ViewItem(t.entries[name]))
  {
    LookupEntry(t, path);
  }

  lemma {:induction false} FieldRemoved(item: Item, path: seq<Segment>)
    requires path != [] && path[|path| - 1].Field? && RemoveInItem(item, path).ok
    ensures Walk(path, ViewItem(RemoveInItem(item, path).item)) ==
            if ThroughTables(item, path) then None else Walk(path, ViewItem(item))
    decreases |path|
  {
    if |path| == 1 {
      if item.Sub? {
        WalkCut(item.table, path[0].name, path);
      }
    } else if item.Sub? && path[0].name in item.table.entries {
      var name := path[0].name;
      var below := item.table.entries[name];
      assert path[1..][|path[1..]| - 1] == path[|path| - 1];
      FieldRemoved(below, path[1..]);
      WalkWith(item.table, name, RemoveInItem(below, path[1..]).item, path);
      WalkEntry(item.table, name, path);
    }
  }

  // After a successful remove of a named entry its path looks up nothing, exactly when
  // it did before or all tables on the way are ordinary ones. (Through an inline table
  // the command succeeds and removes nothing.)
  lemma RemovedIsAbsent(doc: Table, path: seq<Segment>)
    requires RemoveInDoc(doc, path).ok && path[|path| - 1].Field?
    ensures Lookup(RemoveInDoc(doc, path).table, path) == None <==>
            Lookup(doc, path) == None || ThroughTables(Sub(doc), path)
  {
    DocIsTable(doc, path);
    FieldRemoved(Sub(doc), path);
  }

  // It is so left: under an inline table the name, and all else, stays.
  lemma InlineTableKept(doc: Table, table: string, name: string, fields: map<string, Value>)
    requires table in doc.entries && doc.entries[table] == Leaf(Inline(fields)) && name in fields
    ensures var path := [Field(table), Field(name)];
            RemoveInDoc(doc, path) == Edit(doc, true) && Lookup(doc, path) == Some(ViewValue(fields[name]))
  {
    var path := [Field(table), Field(name)];
    LookupEntry(doc, path);
    assert path[1..] == [Field(name)] && path[1..][1..] == [];
    assert With(doc, table, doc.entries[table]) == doc;
  }

  /* ---- What a remove leaves alone ---- */

  // Paths a remove may touch: for an array element, all below its array.
  predicate Apart(path: seq<Segment>, q: seq<Segment>)
    requires path != []
  {
    Incomparable(path, q) && (path[|path| - 1].Index? ==> Incomparable(path[..|path| - 1], q))
  }

  lemma ApartTails(path: seq<Segment>, q: seq<Segment>)
    requires |path| >= 2 && Apart(path, q) && q != [] && path[0] == q[0]
    ensures Apart(path[1..], q[1..])
  {
    IncomparableTails(path, q);
    var n := |path| - 1;
    assert path[1..][..n - 1] == path[..n][1..];
    if path[n].Index? {
      IncomparableTails(path[..n], q);
    }
  }

  lemma {:induction false} RemoveElsewhereIn(item: Item, path: seq<Segment>, q: seq<Segment>)
    requires path != [] && Apart(path, q)
    ensures Walk(q, ViewItem(RemoveInItem(item, path).item)) == Walk(q, ViewItem(item))
    decreases |path|
  {
    IncomparableTails(path, q);
    if |path| == 1 {
      if path[0].Field? && item.Sub? {
        WalkCut(item.table, path[0].name, q);
      } else {
        assert path[..0] == [];
      }
    } else if path[0].Field? && item.Sub? && path[0].name in item.table.entries {
      var name := path[0].name;
      var below := item.table.entries[name];
      WalkWith(item.table, name, RemoveInItem(below, path[1..]).item, q);
      if q[0] == path[0] {
        ApartTails(path, q);
        RemoveElsewhereIn(below, path[1..], q[1..]);
        WalkEntry(item.table, name, q);
      }
    }
  }

  // A remove, successful or not, leaves every path apart from its own as it was.
  lemma RemoveElsewhere(doc: Table, path: seq<Segment>, q: seq<Segment>)
    requires path != [] && Apart(path, q)
    ensures Lookup(RemoveInDoc(doc, path).table, q) == Lookup(doc, q)
  {
    if path[0].Field? {
      DocIsTable(doc, path);
      RemoveElsewhereIn(Sub(doc), path, q);
    }
  }

  /* ---- Array elements ---- */

  lemma ViewDropTable(ts: seq<Table>, i: nat)
    ensures ViewItem(Tables(DropAt(ts, i))) == List(DropAt(ViewItem(Tables(ts)).elems, i))
  {
    var before, after := ViewItem(Tables(ts)).elems, ViewItem(Tables(DropAt(ts, i))).elems;
    assert |after| == |DropAt(before, i)|;
    assert forall j :: 0 <= j < |after| ==> after[j] == DropAt(before, i)[j];
  }

  lemma ViewDropValue(es: seq<Value>, i: nat)
    ensures ViewValue(Array(DropAt(es, i))) == List(DropAt(ViewValue(Array(es)).elems, i))
  {
    var before, after := ViewValue(Array(es)).elems, ViewValue(Array(DropAt(es, i))).elems;
    assert |after| == |DropAt(before, i)|;
    assert forall j :: 0 <= j < |after| ==> after[j] == DropAt(before, i)[j];
  }

  lemma ViewDropAt(item: Item, i: nat)
    requires item.Tables? || (item.Leaf? && item.value.Array?)
    ensures ViewItem(RemoveInItem(item, [Index(i)]).item) == List(DropAt(ViewItem(item).elems, i))
  {
    if item.Tables? {
      ViewDropTable(item.tables, i);
    } else {
      ViewDropValue(item.value.elems, i);
    }
  }

  lemma {:induction false} ElementRemoved(item: Item, parent: seq<Segment>, i: nat, elems: seq<Tree>)
    requires parent != [] && ThroughTables(item, parent) && parent[|parent| - 1].Field?
    requires Walk(parent, ViewItem(item)) == Some(List(elems))
    ensures var edit := RemoveInItem(item, parent + [Index(i)]);
            edit.ok && Walk(parent, ViewItem(edit.item)) == Some(List(DropAt(elems, i)))
    decreases |parent|
  {
    var path := parent + [Index(i)];
    var name := parent[0].name;
    WalkEntry(item.table, name, parent);
    var below := item.table.entries[name];
    assert path[1..] == parent[1..] + [Index(i)];
    if |parent| == 1 {
      assert parent[1..] + [Index(i)] == [Index(i)];
      ViewDropAt(below, i);
    } else {
      ElementRemoved(below, parent[1..], i, elems);
    }
    WalkWith(item.table, name, RemoveInItem(below, path[1..]).item, parent);
  }

  // Removing an element of a list reached through ordinary tables keeps the others in
  // order, later indices shifted down by one; an index out of range removes nothing.
  lemma ElementIsDropped(doc: Table, parent: seq<Segment>, i: nat, elems: seq<Tree>)
    requires parent != [] && parent[|parent| - 1].Field? && ThroughTables(Sub(doc), parent)
    requires Lookup(doc, parent) == Some(List(elems))
    ensures var edit := RemoveInDoc(doc, parent + [Index(i)]);
            edit.ok && Lookup(edit.table, parent) == Some(List(DropAt(elems, i)))
  {
    assert (parent + [Index(i)])[0] == parent[0];
    if |parent| == 1 {
      assert parent[0].Field?;
    }
    DocIsTable(doc, parent + [Index(i)]);
    ElementRemoved(Sub(doc), parent, i, elems);
  }

  lemma WalkElement(elems: seq<Tree>, j: nat, rest: seq<Segment>)
    ensures Walk([Index(j)] + rest, List(elems)) == if j < |elems| then Walk(rest, elems[j]) else None
  {
    assert ([Index(j)] + rest)[1..] == rest;
  }

  lemma ElementsShift(doc: Table, parent: seq<Segment>, i: nat, elems: seq<Tree>, j: nat, rest: seq<Segment>)
    requires parent != [] && parent[|parent| - 1].Field? && ThroughTables(Sub(doc), parent)
    requires Lookup(doc, parent) == Some(List(elems)) && i < |elems|
    ensures Lookup(RemoveInDoc(doc, parent + [Index(i)]).table, parent + ([Index(j)] + rest)) ==
            Lookup(doc, parent + ([Index(if j < i then j else j + 1)] + rest))
  {
    ElementIsDropped(doc, parent, i, elems);
    var after := RemoveInDoc(doc, parent + [Index(i)]).table;
    var j' := if j < i then j else j + 1;
    WalkAppend(parent, [Index(j)] + rest, ViewTable(after));
    WalkAppend(parent, [Index(j')] + rest, ViewTable(doc));
    WalkElement(DropAt(elems, i), j, rest);
    WalkElement(elems, j', rest);
  }

  // Under the same conditions, an index in range leaves one element less: those before it
  // where they were, those after it one place down.
  lemma OneElementGone(doc: Table, parent: seq<Segment>, i: nat, elems: seq<Tree>)
    requires parent != [] && parent[|parent| - 1].Field? && ThroughTables(Sub(doc), parent)
    requires Lookup(doc, parent) == Some(List(elems)) && i < |elems|
    ensures var after := Lookup(RemoveInDoc(doc, parent + [Index(i)]).table, parent);
            && RemoveInDoc(doc, parent + [Index(i)]).ok
            && after.Some? && after.value.List? && |after.value.elems| == |elems| - 1
            && forall j :: 0 <= j < |elems| - 1 ==> after.value.elems[j] == if j < i then elems[j] else elems[j + 1]
  {
    ElementIsDropped(doc, parent, i, elems);
  }

  // Ordinary tables lead to the entry, or to the array of the element.
  predicate Reaches(item: Item, path: seq<Segment>)
    decreases |path|
  {
    path != [] &&
    if |path| == 1 then item.Sub? || path[0].Index?
    else item.Sub? && path[0].Field? && path[0].name in item.table.entries &&
         Reaches(item.table.entries[path[0].name], path[1..])
  }

  lemma LastSegmentChanges(item: Item, segment: Segment)
    ensures RemoveInItem(item, [segment]).item != item <==>
            Walk([segment], ViewItem(item)).Some? && (item.Sub? || segment.Index?)
  {
    match segment
    case Field(name) =>
      if item.Sub? {
        LookupEntry(item.table, [segment]);
        if name in item.table.entries {
          assert name !in Cut(item.table, name).entries;
        } else {
          assert Cut(item.table, name) == item.table;
        }
      }
    case Index(i) =>
      if item.Tables? {
        assert i < |item.tables| ==> |DropAt(item.tables, i)| < |item.tables|;
      } else if item.Leaf? && item.value.Array? {
        assert i < |item.value.elems| ==> |DropAt(item.value.elems, i)| < |item.value.elems|;
      }
  }

  lemma {:induction false} ItemChanges(item: Item, path: seq<Segment>)
    requires path != [] && RemoveInItem(item, path).ok
    ensures RemoveInItem(item, path).item != item <==> Walk(path, ViewItem(item)).Some? && Reaches(item, path)
    decreases |path|
  {
    if |path| == 1 {
      LastSegmentChanges(item, path[0]);
    } else if item.Sub? && path[0].name in item.table.entries {
      var name := path[0].name;
      var below := item.table.entries[name];
      var next := RemoveInItem(below, path[1..]).item;
      ItemChanges(below, path[1..]);
      WalkEntry(item.table, name, path);
      assert With(item.table, name, next).entries[name] == next;
      assert next == below ==> With(item.table, name, next) == item.table;
    } else if item.Sub? {
      LookupEntry(item.table, path);
    }
  }

  // An index out of range leaves the document as it was.
  lemma OutOfRangeKeepsAll(doc: Table, parent: seq<Segment>, i: nat, elems: seq<Tree>)
    requires parent != [] && parent[|parent| - 1].Field? && ThroughTables(Sub(doc), parent)
    requires Lookup(doc, parent) == Some(List(elems)) && i >= |elems|
    ensures RemoveInDoc(doc, parent + [Index(i)]) == Edit(doc, true)
  {
    var path := parent + [Index(i)];
    ElementIsDropped(doc, parent, i, elems);
    WalkAppend(parent, [Index(i)], ViewTable(doc));
    assert path[0] == parent[0] && (|parent| > 1 ==> parent[0].Field?);
    DocIsTable(doc, path);
    ItemChanges(Sub(doc), path);
  }

  /* ---- What changes at all ---- */

  // A successful remove changes the document exactly when its path looked something up and
  // ordinary tables lead there.
  lemma RemoveChangesExactlyWhen(doc: Table, path: seq<Segment>)
    requires RemoveInDoc(doc, path).ok
    ensures RemoveInDoc(doc, path).table != doc <==> Lookup(doc, path).Some? && Reaches(Sub(doc), path)
  {
    DocIsTable(doc, path);
    ItemChanges(Sub(doc), path);
  }

  lemma {:induction false} FailedItemKept(item: Item, path: seq<Segment>)
    requires !RemoveInItem(item, path).ok
    ensures RemoveInItem(item, path).item == item
    decreases |path|
  {
    if |path| > 1 && path[0].Field? {
      var name := path[0].name;
      FailedItemKept(item.table.entries[name], path[1..]);
      assert With(item.table, name, item.table.entries[name]) == item.table;
    }
  }

  // A failed one never does.
  lemma FailedRemoveKeepsAll(doc: Table, path: seq<Segment>)
    requires !RemoveInDoc(doc, path).ok
    ensures RemoveInDoc(doc, path).table == doc
  {
    if path != [] && path[0].Field? {
      DocIsTable(doc, path);
      FailedItemKept(Sub(doc), path);
    }
  }

  /* ---- Set, then remove ---- */

  // Below one table: setting a fresh leaf under existing tables and removing it.
  lemma {:induction false} TableSetThenRemove(t: Table, path: seq<Segment>, v: Value)
    requires AllFields(path) && SetInTable(t, path, v).ok
    requires ThroughTables(Sub(t), path) && Lookup(t, path) == None
    ensures RemoveInItem(Sub(SetInTable(t, path, v).table), path) == ItemEdit(Sub(t), true)
    decreases |path|
  {
    var name := path[0].name;
    if |path| == 1 {
      LookupEntry(t, path);
      assert Cut(With(t, name, Leaf(v)), name) == t;
    } else {
      var below := t.entries[name].table;
      LookupEntry(t, path);
      TableSetThenRemove(below, path[1..], v);
      var next := SetInTable(below, path[1..], v).table;
      assert With(With(t, name, Sub(next)), name, Sub(below)) == t;
    }
  }

  // A set through ordinary tables only makes ordinary tables.
  lemma {:induction false} SetMakesTables(t: Table, path: seq<Segment>, v: Value)
    requires AllFields(path) && SetInTable(t, path, v).ok
    ensures ThroughTables(Sub(SetInTable(t, path, v).table), path)
    decreases |path|
  {
    if |path| > 1 {
      SetMakesTables(Below(t, path[0].name), path[1..], v);
    }
  }

  lemma {:induction false} RemoveKeepsTables(item: Item, path: seq<Segment>)
    requires path != [] && AllFields(path) && ThroughTables(item, path)
    ensures RemoveInItem(item, path).ok && ThroughTables(RemoveInItem(item, path).item, path)
    decreases |path|
  {
    if |path| > 1 {
      RemoveKeepsTables(item.table.entries[path[0].name], path[1..]);
    }
  }

  // On a named path apply_set is set_in_table of the document.
  lemma SetIsTableSet(doc: Table, path: seq<Segment>, v: Value)
    requires AllFields(path) && ApplySet(doc, path, v).ok
    ensures |path| >= 2 && SetInTable(doc, path, v) == ApplySet(doc, path, v)
  {
  }

  // Setting a value at a named path and removing it again restores the document exactly
  // when the path was absent under tables that all existed.
  lemma SetThenRemove(doc: Table, path: seq<Segment>, v: Value)
    requires AllFields(path) && ApplySet(doc, path, v).ok
    ensures RemoveInDoc(ApplySet(doc, path, v).table, path).ok
    ensures RemoveInDoc(ApplySet(doc, path, v).table, path).table == doc <==>
            ThroughTables(Sub(doc), path) && Lookup(doc, path) == None
  {
    SetIsTableSet(doc, path, v);
    var after := ApplySet(doc, path, v).table;
    SetMakesTables(doc, path, v);
    DocIsTable(after, path);
    RemoveKeepsTables(Sub(after), path);
    RemovedIsAbsent(after, path);
    if ThroughTables(Sub(doc), path) && Lookup(doc, path) == None {
      TableSetThenRemove(doc, path, v);
    }
  }
}

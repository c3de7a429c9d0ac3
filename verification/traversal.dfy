/**
 The plain depth-first walk over nested tables and arrays of tables. Because
 rendering never changes the tree, every walk from the same table visits the
 same sequence; the walk is modelled as that sequence of callback invocations.
 */
module Traversal {
  import opened Toml

  /**
   One invocation of the walk's callback: the table, the raw keys from the start
   table down to it, and whether it is a member of an array of tables.
   */
  datatype Visit = Visit(table: Table, path: seq<string>, isArray: bool)

  /** The table itself first, then, entry by entry, the walks of its nested tables. */
  function Walk(t: Table, path: seq<string>, isArray: bool): (r: seq<Visit>)
    ensures |r| >= 1 && r[0] == Visit(t, path, isArray)
    ensures forall i :: 1 <= i < |r| ==> |path| < |r[i].path| && r[i].path[..|path|] == path
    decreases t, 0
  {
    [Visit(t, path, isArray)] + ItemsWalk(t.items, path)
  }

  /** The walks below the entries of one table, in entry order; `path` is the table's own path. */
  function ItemsWalk(items: seq<KeyValue>, path: seq<string>): (r: seq<Visit>)
    ensures forall i :: 0 <= i < |r| ==> |path| < |r[i].path| && r[i].path[..|path|] == path
    decreases items
  {
    if |items| == 0 then [] else ItemWalk(items[0], path) + ItemsWalk(items[1..], path)
  }

  /**
   A nested table is walked as a plain table and each member of an array of
   tables as an array member, all under the entry's raw key; values and empty
   entries are not walked.
   */
  function ItemWalk(kv: KeyValue, path: seq<string>): (r: seq<Visit>)
    ensures forall i :: 0 <= i < |r| ==> |path| < |r[i].path| && r[i].path[..|path|] == path
    decreases kv
  {
    match kv.value
    case Table(t) =>
      assert kv decreases to kv.value;
      WalkUnder(t, path, kv.key.raw, false)
    case ArrayOfTables(ts) =>
      assert kv decreases to kv.value;
      MembersWalk(ts, path, kv.key.raw)
    case _ => []
  }

  /** The members of an array of tables, in stored order, each under the same key. */
  function MembersWalk(ts: seq<Table>, path: seq<string>, key: string): (r: seq<Visit>)
    ensures forall i :: 0 <= i < |r| ==> |path| < |r[i].path| && r[i].path[..|path|] == path
    decreases ts
  {
    if |ts| == 0 then [] else WalkUnder(ts[0], path, key, true) + MembersWalk(ts[1..], path, key)
  }

  /** Push `key`, walk `t`, pop. */
  function WalkUnder(t: Table, path: seq<string>, key: string, isArray: bool): (r: seq<Visit>)
    ensures forall i :: 0 <= i < |r| ==> |path| < |r[i].path| && r[i].path[..|path|] == path
    decreases t, 1
  {
    var r := Walk(t, path + [key], isArray);
    assert forall i :: 0 <= i < |r| ==> r[i].path[..|path|] == (path + [key])[..|path|] by {
      forall i | 0 <= i < |r|
        ensures r[i].path[..|path|] == (path + [key])[..|path|]
      {
        if i > 0 {
          assert r[i].path[..|path|] == r[i].path[..|path + [key]|][..|path|];
        }
      }
    }
    assert (path + [key])[..|path|] == path;
    r
  }

  /** The direct children of a table's entries, in entry order, as the walk visits them. */
  function Children(items: seq<KeyValue>, path: seq<string>): seq<Visit>
  {
    if |items| == 0 then [] else ChildrenOf(items[0], path) + Children(items[1..], path)
  }

  /**
   A nested table is one plain child; an array of tables gives one array-member
   child per member, in stored order, all under the same key; values and empty
   entries give none.
   */
  function ChildrenOf(kv: KeyValue, path: seq<string>): seq<Visit>
  {
    match kv.value
    case Table(t) => [Visit(t, path + [kv.key.raw], false)]
    case ArrayOfTables(ts) => seq(|ts|, j requires 0 <= j < |ts| => Visit(ts[j], path + [kv.key.raw], true))
    case _ => []
  }

  /** The walks from each of the given visits, one after the other. */
  function Walks(vs: seq<Visit>): seq<Visit>
  {
    if |vs| == 0 then [] else Walk(vs[0].table, vs[0].path, vs[0].isArray) + Walks(vs[1..])
  }

  lemma {:induction false} WalksAppend(a: seq<Visit>, b: seq<Visit>)
    ensures Walks(a + b) == Walks(a) + Walks(b)
  {
    if |a| > 0 {
      assert (a + b)[1..] == a[1..] + b;
      WalksAppend(a[1..], b);
    } else {
      assert a + b == b;
    }
  }

  /**
   Walk coverage: the walk of a table is the table itself followed by the walks
   of its direct children, in entry order, each array of tables contributing its
   members in stored order.
   */
  lemma WalkIsPreOrder(t: Table, path: seq<string>, isArray: bool)
    ensures Walk(t, path, isArray) == [Visit(t, path, isArray)] + Walks(Children(t.items, path))
  {
    ItemsWalkIsChildWalks(t.items, path);
  }

  lemma {:induction false} ItemsWalkIsChildWalks(items: seq<KeyValue>, path: seq<string>)
    ensures ItemsWalk(items, path) == Walks(Children(items, path))
  {
    if |items| > 0 {
      var kv := items[0];
      ItemsWalkIsChildWalks(items[1..], path);
      WalksAppend(ChildrenOf(kv, path), Children(items[1..], path));
      match kv.value {
        case Table(c) =>
          var cs := ChildrenOf(kv, path);
          assert cs == [Visit(c, path + [kv.key.raw], false)];
          assert cs[1..] == [];
          assert Walks(cs) == Walk(c, path + [kv.key.raw], false);
          assert ItemWalk(kv, path) == Walk(c, path + [kv.key.raw], false);
        case ArrayOfTables(ts) =>
          MembersWalkIsChildWalks(ts, path, kv.key.raw);
        case _ =>
      }
    }
  }

  lemma {:induction false} MembersWalkIsChildWalks(ts: seq<Table>, path: seq<string>, key: string)
    ensures MembersWalk(ts, path, key)
      == Walks(seq(|ts|, j requires 0 <= j < |ts| => Visit(ts[j], path + [key], true)))
  {
    var vs := seq(|ts|, j requires 0 <= j < |ts| => Visit(ts[j], path + [key], true));
    if |ts| > 0 {
      MembersWalkIsChildWalks(ts[1..], path, key);
      assert vs[1..] == seq(|ts[1..]|, j requires 0 <= j < |ts[1..]| => Visit(ts[1..][j], path + [key], true));
    }
  }

  /** `child` is reached from an entry `kv` of a table whose path is `path`. */
  ghost predicate Via(kv: KeyValue, path: seq<string>, child: Visit)
  {
    && child.path == path + [kv.key.raw]
    && (if child.isArray then kv.value.ArrayOfTables? && child.table in kv.value.tables
        else kv.value == Item.Table(child.table))
  }

  /** `child` is a nested table or array-of-tables member directly inside the table of `parent`. */
  ghost predicate ChildOf(parent: Visit, child: Visit)
  {
    exists kv :: kv in parent.table.items && Via(kv, parent.path, child)
  }

  /** The visit at index `i` is a direct child of a visit at an earlier index. */
  ghost predicate HasEarlierParent(w: seq<Visit>, i: int)
  {
    0 <= i < |w| && exists j :: 0 <= j < i && ChildOf(w[j], w[i])
  }

  lemma EarlierParentLeft(a: seq<Visit>, b: seq<Visit>, i: int)
    requires HasEarlierParent(a, i)
    ensures HasEarlierParent(a + b, i)
  {
    var j :| 0 <= j < i && ChildOf(a[j], a[i]);
    assert (a + b)[j] == a[j] && (a + b)[i] == a[i];
  }

  lemma EarlierParentRight(a: seq<Visit>, b: seq<Visit>, k: int)
    requires HasEarlierParent(b, k)
    ensures HasEarlierParent(a + b, |a| + k)
  {
    var j :| 0 <= j < k && ChildOf(b[j], b[k]);
    assert (a + b)[|a| + j] == b[j] && (a + b)[|a| + k] == b[k];
  }

  /**
   Parent before child: every table the walk reaches after the start table is
   a direct child of a table the walk reached earlier.
   */
  lemma {:induction false} WalkParentFirst(t: Table, path: seq<string>, isArray: bool)
    ensures forall i :: 0 < i < |Walk(t, path, isArray)| ==> HasEarlierParent(Walk(t, path, isArray), i)
    decreases t, 0
  {
    var w := Walk(t, path, isArray);
    var iw := ItemsWalk(t.items, path);
    assert w == [w[0]] + iw;
    ItemsWalkParentFirst(t.items, path);
    forall i | 0 < i < |w|
      ensures HasEarlierParent(w, i)
    {
      StartTableParent(t, path, isArray, iw, i - 1);
    }
  }

  lemma StartTableParent(t: Table, path: seq<string>, isArray: bool, iw: seq<Visit>, k: nat)
    requires EntryOrEarlierParent(t.items, path, iw, k)
    ensures HasEarlierParent([Visit(t, path, isArray)] + iw, k + 1)
  {
    var w := [Visit(t, path, isArray)] + iw;
    assert w[k + 1] == iw[k];
    if exists kv :: kv in t.items && Via(kv, path, iw[k]) {
      assert ChildOf(w[0], w[k + 1]);
    } else {
      EarlierParentRight([w[0]], iw, k);
    }
  }

  /** The visit at index `i` hangs directly off one of `items`, or off an earlier visit. */
  ghost predicate EntryOrEarlierParent(items: seq<KeyValue>, path: seq<string>, w: seq<Visit>, i: int)
  {
    0 <= i < |w| && ((exists kv :: kv in items && Via(kv, path, w[i])) || HasEarlierParent(w, i))
  }

  lemma {:induction false} ItemsWalkParentFirst(items: seq<KeyValue>, path: seq<string>)
    ensures forall i :: 0 <= i < |ItemsWalk(items, path)| ==>
      EntryOrEarlierParent(items, path, ItemsWalk(items, path), i)
    decreases items
  {
    if |items| > 0 {
      var a := ItemWalk(items[0], path);
      var b := ItemsWalk(items[1..], path);
      var w := a + b;
      assert w == ItemsWalk(items, path);
      ItemWalkParentFirst(items[0], path);
      ItemsWalkParentFirst(items[1..], path);
      forall i | 0 <= i < |w|
        ensures EntryOrEarlierParent(items, path, w, i)
      {
        if i < |a| {
          FirstEntryParent(items, path, a, b, i);
        } else {
          LaterEntriesParent(items, path, a, b, i - |a|);
        }
      }
    }
  }

  lemma FirstEntryParent(items: seq<KeyValue>, path: seq<string>, a: seq<Visit>, b: seq<Visit>, i: nat)
    requires |items| > 0 && i < |a|
    requires Via(items[0], path, a[i]) || HasEarlierParent(a, i)
    ensures EntryOrEarlierParent(items, path, a + b, i)
  {
    assert (a + b)[i] == a[i];
    if !Via(items[0], path, a[i]) {
      EarlierParentLeft(a, b, i);
    }
  }

  lemma LaterEntriesParent(items: seq<KeyValue>, path: seq<string>, a: seq<Visit>, b: seq<Visit>, k: nat)
    requires |items| > 0 && k < |b|
    requires EntryOrEarlierParent(items[1..], path, b, k)
    ensures EntryOrEarlierParent(items, path, a + b, |a| + k)
  {
    assert (a + b)[|a| + k] == b[k];
    if exists kv :: kv in items[1..] && Via(kv, path, b[k]) {
      var kv :| kv in items[1..] && Via(kv, path, b[k]);
      assert kv in items;
    } else {
      EarlierParentRight(a, b, k);
    }
  }

  lemma {:induction false} ItemWalkParentFirst(kv: KeyValue, path: seq<string>)
    ensures forall i :: 0 <= i < |ItemWalk(kv, path)| ==>
      Via(kv, path, ItemWalk(kv, path)[i]) || HasEarlierParent(ItemWalk(kv, path), i)
    decreases kv
  {
    match kv.value {
      case Table(c) =>
        assert kv decreases to kv.value;
        var w := Walk(c, path + [kv.key.raw], false);
        assert ItemWalk(kv, path) == w;
        WalkParentFirst(c, path + [kv.key.raw], false);
        assert Via(kv, path, w[0]);
      case ArrayOfTables(ts) =>
        assert kv decreases to kv.value;
        MembersWalkParentFirst(ts, path, kv.key.raw);
      case _ =>
    }
  }

  lemma {:induction false} MembersWalkParentFirst(ts: seq<Table>, path: seq<string>, key: string)
    ensures forall i :: 0 <= i < |MembersWalk(ts, path, key)| ==>
      (MembersWalk(ts, path, key)[i].path == path + [key]
       && MembersWalk(ts, path, key)[i].isArray
       && MembersWalk(ts, path, key)[i].table in ts)
      || HasEarlierParent(MembersWalk(ts, path, key), i)
    decreases ts
  {
    if |ts| > 0 {
      var a := WalkUnder(ts[0], path, key, true);
      var b := MembersWalk(ts[1..], path, key);
      var w := a + b;
      assert w == MembersWalk(ts, path, key);
      assert a == Walk(ts[0], path + [key], true);
      WalkParentFirst(ts[0], path + [key], true);
      MembersWalkParentFirst(ts[1..], path, key);
      forall i | 0 <= i < |w|
        ensures (w[i].path == path + [key] && w[i].isArray && w[i].table in ts) || HasEarlierParent(w, i)
      {
        if i == 0 {
          assert w[0] == Visit(ts[0], path + [key], true);
        } else if i < |a| {
          EarlierParentLeft(a, b, i);
        } else {
          var k := i - |a|;
          assert w[i] == b[k];
          if !(b[k].path == path + [key] && b[k].isArray && b[k].table in ts[1..]) {
            EarlierParentRight(a, b, k);
          }
        }
      }
    }
  }

  // ---------------------------------------------------------------------------
  // How many times the callback runs

  /** The number of tables nested (at any depth) inside the entries, counting each array member. */
  function NestedTables(items: seq<KeyValue>): nat
    decreases items
  {
    if |items| == 0 then 0 else NestedIn(items[0]) + NestedTables(items[1..])
  }

  /** Tables held by one entry: a nested table and everything under it, or every member of an array and everything under them. */
  function NestedIn(kv: KeyValue): nat
    decreases kv
  {
    match kv.value
    case Table(t) =>
      assert kv decreases to kv.value;
      1 + NestedTables(t.items)
    case ArrayOfTables(ts) =>
      assert kv decreases to kv.value;
      NestedMembers(ts)
    case _ => 0
  }

  function NestedMembers(ts: seq<Table>): nat
    decreases ts
  {
    if |ts| == 0 then 0 else 1 + NestedTables(ts[0].items) + NestedMembers(ts[1..])
  }

  /** The callback runs once for the start table and once for every table nested inside it. */
  lemma {:induction false} WalkLength(t: Table, path: seq<string>, isArray: bool)
    ensures |Walk(t, path, isArray)| == 1 + NestedTables(t.items)
    decreases t, 0
  {
    ItemsWalkLength(t.items, path);
  }

  lemma {:induction false} ItemsWalkLength(items: seq<KeyValue>, path: seq<string>)
    ensures |ItemsWalk(items, path)| == NestedTables(items)
    decreases items
  {
    if |items| > 0 {
      var kv := items[0];
      match kv.value {
        case Table(c) =>
          assert kv decreases to kv.value;
          WalkLength(c, path + [kv.key.raw], false);
          assert ItemWalk(kv, path) == Walk(c, path + [kv.key.raw], false);
          assert NestedIn(kv) == 1 + NestedTables(c.items);
        case ArrayOfTables(ts) =>
          assert kv decreases to kv.value;
          MembersWalkLength(ts, path, kv.key.raw);
          assert ItemWalk(kv, path) == MembersWalk(ts, path, kv.key.raw);
        case _ =>
      }
      ItemsWalkLength(items[1..], path);
      assert ItemsWalk(items, path) == ItemWalk(kv, path) + ItemsWalk(items[1..], path);
    }
  }

  lemma {:induction false} MembersWalkLength(ts: seq<Table>, path: seq<string>, key: string)
    ensures |MembersWalk(ts, path, key)| == NestedMembers(ts)
    decreases ts
  {
    if |ts| > 0 {
      WalkLength(ts[0], path + [key], true);
      MembersWalkLength(ts[1..], path, key);
    }
  }
}

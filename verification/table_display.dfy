/**
 Rendering of one table (its header line and its `key=value` lines) and the
 plain, structural-order rendering of a whole document.
 */
module TableDisplay {
  import opened Toml
  import opened Text
  import opened ValueDisplay
  import opened Traversal

  /**
   The header line of a table reached by `path`: none for the start table,
   `[[a.b]]` for an array member, `[a.b]` for a plain table unless the table is
   implicit and holds no plain values.
   */
  function Header(t: Table, path: seq<string>, isArray: bool): string
  {
    if |path| == 0 then ""
    else if isArray then t.decor.prefix + "[[" + Join(path, ".") + "]]" + t.decor.suffix + "\n"
    else if !(t.implicit && ValuesLen(t.items) == 0) then
      t.decor.prefix + "[" + Join(path, ".") + "]" + t.decor.suffix + "\n"
    else ""
  }

  /** One `key=value` line per entry bound to a plain value, in entry order. */
  function Body(items: seq<KeyValue>): string
  {
    Concat(Lines(ValueEntries(items)))
  }

  /** Each entry's `key=value` text ended by a newline. */
  function Lines(es: seq<(Key, Value)>): (r: seq<string>)
    ensures |r| == |es|
    ensures forall i :: 0 <= i < |es| ==> r[i] == EntryText(es[i]) + "\n"
  {
    seq(|es|, i requires 0 <= i < |es| => EntryText(es[i]) + "\n")
  }

  /** What the callback writes for one visited table. */
  function VisitTable(v: Visit): string
  {
    Header(v.table, v.path, v.isArray) + Body(v.table.items)
  }

  /** The callback's text for each visit, in order. */
  function VisitTexts(vs: seq<Visit>): (r: seq<string>)
    ensures |r| == |vs|
    ensures forall i :: 0 <= i < |vs| ==> r[i] == VisitTable(vs[i])
  {
    seq(|vs|, i requires 0 <= i < |vs| => VisitTable(vs[i]))
  }

  /** A table rendered in plain walk order, starting with an empty path. */
  function TableText(t: Table): string
  {
    Concat(VisitTexts(Walk(t, [], false)))
  }

  /** The plain rendering of a document: its root table, then its trailing text. */
  function DocumentText(d: Document): string
  {
    TableText(d.root) + d.trailing
  }

  /**
   A header line is written exactly when the table is not the start table and
   is either an array member or not an implicit table without plain values.
   */
  lemma HeaderWrittenIff(t: Table, path: seq<string>, isArray: bool)
    ensures Header(t, path, isArray) != ""
      <==> |path| > 0 && (isArray || !t.implicit || exists i :: 0 <= i < |t.items| && t.items[i].value.Value?)
  {
    NoValuesIff(t.items);
    var h := Header(t, path, isArray);
    if |path| > 0 && (isArray || !(t.implicit && ValuesLen(t.items) == 0)) {
      assert |h| > |t.decor.prefix|;
    }
  }

  /**
   A written header splits back into its parts: the decor prefix, one or two
   opening brackets, the dot-joined path verbatim, and then the matching closing
   brackets, the decor suffix and a newline.
   */
  lemma HeaderNamesPath(t: Table, path: seq<string>, isArray: bool)
    requires Header(t, path, isArray) != ""
    ensures var h := Header(t, path, isArray);
      var open := if isArray then "[[" else "[";
      var close := if isArray then "]]" else "]";
      var name := Join(path, ".");
      var o := |t.decor.prefix| + |open|;
      && |h| == o + |name| + |close| + |t.decor.suffix| + 1
      && h[..|t.decor.prefix|] == t.decor.prefix
      && h[|t.decor.prefix|..o] == open
      && h[o..o + |name|] == name
      && h[o + |name|..] == close + t.decor.suffix + "\n"
  {
    var open := if isArray then "[[" else "[";
    var close := if isArray then "]]" else "]";
    var name := Join(path, ".");
    var tail := close + t.decor.suffix + "\n";
    var front := t.decor.prefix + open + name;
    assert Header(t, path, isArray) == front + close + t.decor.suffix + "\n";
    AppendTail(front, close, t.decor.suffix);
    SplitFour(t.decor.prefix, open, name, tail);
  }

  lemma AppendTail(front: string, close: string, suffix: string)
    ensures front + close + suffix + "\n" == front + (close + suffix + "\n")
  {
  }

  /** Four pieces written one after the other can be read back by their lengths. */
  lemma SplitFour(a: string, b: string, c: string, d: string)
    ensures var s := a + b + c + d;
      && s[..|a|] == a
      && s[|a|..|a| + |b|] == b
      && s[|a| + |b|..|a| + |b| + |c|] == c
      && s[|a| + |b| + |c|..] == d
  {
  }

  /** The body holds exactly one line per plain-value entry: dropping other entries changes nothing. */
  lemma BodySkipsNonValues(items: seq<KeyValue>, i: nat, kv: KeyValue)
    requires i <= |items|
    requires !kv.value.Value?
    ensures Body(items[..i] + [kv] + items[i..]) == Body(items)
  {
    ValueEntriesSkipInsert(items, i, kv);
  }

  /** Appending a plain-value entry appends exactly its `key=value` line to the body. */
  lemma BodyAppendValue(items: seq<KeyValue>, k: Key, v: Value)
    ensures Body(items + [KeyValue(k, Value(v))]) == Body(items) + k.text + "=" + ValueText(v) + "\n"
  {
    var kv := KeyValue(k, Value(v));
    ValueEntriesAppend(items, [kv]);
    ValueEntriesSingle(kv);
    var es := ValueEntries(items);
    var lines := Lines(es + [(k, v)]);
    assert lines[..|lines| - 1] == Lines(es);
    assert Body(items + [kv]) == Concat(Lines(es)) + (EntryText((k, v)) + "\n");
    AppendLine(Body(items), k.text, ValueText(v));
  }

  lemma AppendLine(body: string, key: string, value: string)
    ensures body + (key + "=" + value + "\n") == body + key + "=" + value + "\n"
  {
  }

  /** The start table never gets a header: only its body is written. */
  lemma RootHasNoHeader(t: Table, isArray: bool)
    ensures VisitTable(Visit(t, [], isArray)) == Body(t.items)
  {
  }

  /**
   Implicit suppression: a plain (non-array) table that is implicit and has no
   plain-value entries writes nothing at all, in either rendering order.
   */
  lemma ImplicitTableWritesNothing(t: Table, path: seq<string>)
    requires t.implicit
    requires forall i :: 0 <= i < |t.items| ==> !t.items[i].value.Value?
    ensures VisitTable(Visit(t, path, false)) == ""
  {
    NoValuesIff(t.items);
  }

  /**
   In the plain rendering only the root is written without a header: every
   other visited table has a nonempty path.
   */
  lemma PlainRenderOnlyRootHeaderless(t: Table)
    ensures var w := Walk(t, [], false);
      && VisitTable(w[0]) == Body(t.items)
      && forall i :: 1 <= i < |w| ==> |w[i].path| > 0
  {
  }
}

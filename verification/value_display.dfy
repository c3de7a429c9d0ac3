/**
 Rendering of the leaves of the tree: decorated lexemes, values, arrays and
 inline tables. Nothing is re-derived: the raw text is written verbatim.
 */
module ValueDisplay {
  import opened Toml
  import opened Text

  /** A lexeme with its decor around it. */
  function ReprText(r: Repr): string
  {
    r.decor.prefix + r.rawValue + r.decor.suffix
  }

  /** A formatted value is written as its text; the parsed value plays no part. */
  function FormattedText<T>(f: Formatted<T>): string
  {
    ReprText(f.repr)
  }

  /** The external date/time library's text for the value. */
  function DateTimeText(d: DateTime): string
  {
    d.text
  }

  function ValueText(v: Value): string
    decreases v
  {
    match v
    case Integer(f) => FormattedText(f)
    case String(f) => FormattedText(f)
    case Float(f) => FormattedText(f)
    case Boolean(f) => FormattedText(f)
    case DateTime(f) => FormattedText(f)
    case Array(a) => ArrayText(a)
    case InlineTable(t) => InlineTableText(t)
  }

  /** The text of each value, in order. */
  function ValueTexts(vs: seq<Value>): (r: seq<string>)
    ensures |r| == |vs|
    ensures forall i :: 0 <= i < |vs| ==> r[i] == ValueText(vs[i])
    decreases vs
  {
    if |vs| == 0 then [] else [ValueText(vs[0])] + ValueTexts(vs[1..])
  }

  function ArrayText(a: Array): string
    decreases a
  {
    a.decor.prefix + "[" + Join(ValueTexts(a.values), ",")
    + (if a.trailingComma then "," else "")
    + a.trailing + "]" + a.decor.suffix
  }

  /** `key=value` for every entry bound to a plain value, in entry order; other entries are skipped. */
  function InlineEntryTexts(items: seq<KeyValue>): seq<string>
    decreases items
  {
    if |items| == 0 then []
    else
      var kv := items[0];
      (match kv.value
       case Value(v) =>
         assert kv.value decreases to v;
         assert kv decreases to kv.value;
         [kv.key.text + "=" + ValueText(v)]
       case _ => [])
      + InlineEntryTexts(items[1..])
  }

  function InlineTableText(t: InlineTable): string
    decreases t
  {
    t.decor.prefix + "{" + t.preamble + Join(InlineEntryTexts(t.items), ",") + "}" + t.decor.suffix
  }

  /** One `key=value` pair. */
  function EntryText(e: (Key, Value)): string
  {
    e.0.text + "=" + ValueText(e.1)
  }

  function EntryTexts(es: seq<(Key, Value)>): (r: seq<string>)
    ensures |r| == |es|
    ensures forall i :: 0 <= i < |es| ==> r[i] == EntryText(es[i])
  {
    seq(|es|, i requires 0 <= i < |es| => EntryText(es[i]))
  }

  /**
   The rendered text of a lexeme splits back into its three parts: the decor
   prefix, the raw value verbatim, and the decor suffix.
   */
  lemma ReprTextSplits(r: Repr)
    ensures var s := ReprText(r);
      && |s| == |r.decor.prefix| + |r.rawValue| + |r.decor.suffix|
      && s[..|r.decor.prefix|] == r.decor.prefix
      && s[|r.decor.prefix|..|s| - |r.decor.suffix|] == r.rawValue
      && s[|s| - |r.decor.suffix|..] == r.decor.suffix
  {
    var s := ReprText(r);
    var p, m := r.decor.prefix, r.rawValue;
    assert s == p + m + r.decor.suffix;
    assert s[..|p|] == p;
    assert s[|p|..|s| - |r.decor.suffix|] == m;
  }

  /** Two formatted values with the same representation render alike, whatever was parsed. */
  lemma FormattedIgnoresParsedValue<T>(f: Formatted<T>, g: Formatted<T>)
    requires f.repr == g.repr
    ensures FormattedText(f) == FormattedText(g)
    ensures FormattedText(f) == f.repr.decor.prefix + f.repr.rawValue + f.repr.decor.suffix
  {
  }

  /**
   Separator count of an array: n elements carry n - 1 separating commas, and a
   trailing comma adds exactly one more; everything else is the elements' own
   text, the brackets, the trailing text and the decor.
   */
  lemma ArrayTextLength(a: Array)
    ensures var n := |a.values|;
      |ArrayText(a)|
      == |a.decor.prefix| + 1 + |Concat(ValueTexts(a.values))|
         + (if n == 0 then 0 else n - 1) + (if a.trailingComma then 1 else 0)
         + |a.trailing| + 1 + |a.decor.suffix|
  {
    JoinLength(ValueTexts(a.values), ",");
  }

  /** Appending an element to a non-empty array writes one comma and the element's text before the tail. */
  lemma ArrayAppendElement(a: Array, v: Value)
    requires |a.values| > 0
    ensures
      var b := a.(values := a.values + [v]);
      ArrayText(b)
      == a.decor.prefix + "[" + Join(ValueTexts(a.values), ",") + "," + ValueText(v)
         + (if a.trailingComma then "," else "") + a.trailing + "]" + a.decor.suffix
  {
    var b := a.(values := a.values + [v]);
    ValueTextsSnoc(a.values, v);
    JoinSnoc(ValueTexts(a.values), ValueText(v), ",");
    var joined := Join(ValueTexts(a.values), ",");
    assert Join(ValueTexts(b.values), ",") == joined + "," + ValueText(v);
    SpliceThree(a.decor.prefix + "[", joined, ",", ValueText(v));
  }

  /** Writing three pieces at once or one after the other gives the same text. */
  lemma SpliceThree(front: string, x: string, y: string, z: string)
    ensures front + (x + y + z) == front + x + y + z
  {
  }

  lemma ValueTextsSnoc(vs: seq<Value>, v: Value)
    ensures ValueTexts(vs + [v]) == ValueTexts(vs) + [ValueText(v)]
  {
  }

  /** The inline renderer's entries are exactly the plain-value entries, in order. */
  lemma {:induction false} InlineEntriesAreValueEntries(items: seq<KeyValue>)
    ensures InlineEntryTexts(items) == EntryTexts(ValueEntries(items))
  {
    if |items| > 0 {
      InlineEntriesAreValueEntries(items[1..]);
    }
  }

  /**
   Commas are counted over written entries only: inserting an entry that is not
   a plain value anywhere in an inline table leaves its text unchanged, so no
   leading or doubled comma can arise.
   */
  lemma InlineTableSkipInsert(t: InlineTable, i: nat, kv: KeyValue)
    requires i <= |t.items|
    requires !kv.value.Value?
    ensures InlineTableText(t.(items := t.items[..i] + [kv] + t.items[i..])) == InlineTableText(t)
  {
    var items' := t.items[..i] + [kv] + t.items[i..];
    InlineEntriesAreValueEntries(items');
    InlineEntriesAreValueEntries(t.items);
    ValueEntriesSkipInsert(t.items, i, kv);
  }

  /**
   Three entries of which the middle one is not a plain value render as the
   two remaining `key=value` pairs joined by a single comma.
   */
  lemma InlineTableSkipsMiddle(t: InlineTable, k1: Key, v1: Value, mid: KeyValue, k3: Key, v3: Value)
    requires t.items == [KeyValue(k1, Value(v1)), mid, KeyValue(k3, Value(v3))]
    requires !mid.value.Value?
    ensures InlineTableText(t)
      == t.decor.prefix + "{" + t.preamble
         + k1.text + "=" + ValueText(v1) + "," + k3.text + "=" + ValueText(v3)
         + "}" + t.decor.suffix
  {
    var items := t.items;
    assert items[1..][1..][1..] == [];
    assert InlineEntryTexts(items[1..][1..]) == [k3.text + "=" + ValueText(v3)];
    assert InlineEntryTexts(items[1..]) == [k3.text + "=" + ValueText(v3)];
    assert InlineEntryTexts(items) == [k1.text + "=" + ValueText(v1), k3.text + "=" + ValueText(v3)];
    JoinTwo(k1.text + "=" + ValueText(v1), k3.text + "=" + ValueText(v3), ",");
    SpliceTwoEntries(t.decor.prefix + "{" + t.preamble, k1.text, ValueText(v1), k3.text, ValueText(v3));
  }

  lemma SpliceTwoEntries(front: string, k1: string, v1: string, k3: string, v3: string)
    ensures front + ((k1 + "=" + v1) + "," + (k3 + "=" + v3)) == front + k1 + "=" + v1 + "," + k3 + "=" + v3
  {
  }
}

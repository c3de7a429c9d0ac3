/**
 The immutable document tree the renderer reads. Every piece of formatting
 the parser saw (whitespace, comments, quoting, trailing commas) is kept as
 raw text next to the value it decorates, so rendering is concatenation.
 */
module Toml {
  import opened Wrappers

  /** Raw text around a syntactic element: leading and trailing whitespace and comments. */
  datatype Decor = Decor(prefix: string, suffix: string)

  /** A decorated lexeme: the exact source text of a scalar and its decor. */
  datatype Repr = Repr(decor: Decor, rawValue: string)

  /** A parsed value paired with the text it was parsed from. */
  datatype Formatted<T> = Formatted(value: T, repr: Repr)

  /**
   The four date/time kinds. Their textual form comes from an external date/time
   library; each carries that canonical text.
   */
  datatype DateTime =
    | OffsetDateTime(text: string)
    | LocalDateTime(text: string)
    | LocalDate(text: string)
    | LocalTime(text: string)

  /** A value that may appear on the right of `key=`. Exactly one variant is active. */
  datatype Value =
    | Integer(integer: Formatted<int>)
    | String(str: Formatted<string>)
    | Float(float: Formatted<real>)
    | Boolean(boolean: Formatted<bool>)
    | DateTime(dateTime: Formatted<DateTime>)
    | Array(array: Array)
    | InlineTable(inline: InlineTable)

  /**
   An array value: its elements, the decor around the brackets, the raw text
   before the closing bracket, and whether a comma follows the last element.
   */
  datatype Array = Array(values: seq<Value>, decor: Decor, trailing: string, trailingComma: bool)

  /** A `{ ... }` table value; `preamble` is the raw text right after the `{`. */
  datatype InlineTable = InlineTable(items: seq<KeyValue>, decor: Decor, preamble: string)

  /**
   A key. `raw` is the key's raw value, the fragment pushed on a table path;
   `text` is what the external key renderer prints for it (quoting included).
   */
  datatype Key = Key(raw: string, text: string)

  /** What a key is bound to inside a table. */
  datatype Item =
    | None
    | Value(val: Value)
    | Table(table: Table)
    | ArrayOfTables(tables: seq<Table>)

  datatype KeyValue = KeyValue(key: Key, value: Item)

  /**
   A table: its entries in insertion order, its header decor, whether it exists
   only because a deeper dotted path needed it, and the index at which its header
   appeared in the source (None for a table added after parsing).
   */
  datatype Table = Table(items: seq<KeyValue>, decor: Decor, implicit: bool, position: Option<nat>)

  /** A whole document: the headerless root table and the raw text after its last element. */
  datatype Document = Document(root: Table, trailing: string)

  /** The (key, value) pairs of the entries bound to a plain value, in entry order. */
  function ValueEntries(items: seq<KeyValue>): (r: seq<(Key, Value)>)
    ensures |r| <= |items|
    ensures forall e :: e in r ==> KeyValue(e.0, Value(e.1)) in items
  {
    if |items| == 0 then []
    else
      var head := if items[0].value.Value? then [(items[0].key, items[0].value.val)] else [];
      head + ValueEntries(items[1..])
  }

  /** The number of entries bound to a plain value (`values_len`). */
  function ValuesLen(items: seq<KeyValue>): nat
  {
    |ValueEntries(items)|
  }

  /** Filtering distributes over concatenation: entries are kept or dropped one at a time, in order. */
  lemma {:induction false} ValueEntriesAppend(a: seq<KeyValue>, b: seq<KeyValue>)
    ensures ValueEntries(a + b) == ValueEntries(a) + ValueEntries(b)
  {
    if |a| == 0 {
      assert a + b == b;
    } else {
      var head := if a[0].value.Value? then [(a[0].key, a[0].value.val)] else [];
      assert (a + b)[0] == a[0];
      assert (a + b)[1..] == a[1..] + b;
      ValueEntriesAppend(a[1..], b);
      var x, y := ValueEntries(a[1..]), ValueEntries(b);
      assert ValueEntries(a + b) == head + ValueEntries(a[1..] + b);
      assert ValueEntries(a) == head + x;
      assert head + (x + y) == (head + x) + y;
    }
  }

  /** A single entry is kept exactly when it is bound to a plain value. */
  lemma ValueEntriesSingle(kv: KeyValue)
    ensures ValueEntries([kv]) == if kv.value.Value? then [(kv.key, kv.value.val)] else []
  {
    assert [kv][1..] == [];
  }

  /** An entry that is not a plain value contributes nothing, wherever it is inserted. */
  lemma ValueEntriesSkipInsert(items: seq<KeyValue>, i: nat, kv: KeyValue)
    requires i <= |items|
    requires !kv.value.Value?
    ensures ValueEntries(items[..i] + [kv] + items[i..]) == ValueEntries(items)
  {
    var front, back := items[..i], items[i..];
    calc {
      ValueEntries(front + [kv] + back);
      { ValueEntriesAppend(front + [kv], back); }
      ValueEntries(front + [kv]) + ValueEntries(back);
      { ValueEntriesAppend(front, [kv]); ValueEntriesSingle(kv); }
      ValueEntries(front) + ValueEntries(back);
      { ValueEntriesAppend(front, back); }
      ValueEntries(front + back);
      { assert front + back == items; }
      ValueEntries(items);
    }
  }

  /** A table has no plain values exactly when none of its entries is bound to one. */
  lemma {:induction false} NoValuesIff(items: seq<KeyValue>)
    ensures ValuesLen(items) == 0 <==> forall i :: 0 <= i < |items| ==> !items[i].value.Value?
  {
    if |items| > 0 {
      NoValuesIff(items[1..]);
      assert forall i :: 1 <= i < |items| ==> items[i] == items[1..][i - 1];
    }
  }
}

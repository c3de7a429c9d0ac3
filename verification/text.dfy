/** String building blocks shared by every renderer. */
module Text {

  /** The parts written one after the other. */
  function Concat(parts: seq<string>): string
  {
    if |parts| == 0 then "" else Concat(parts[..|parts| - 1]) + parts[|parts| - 1]
  }

  /**
   The parts written one after the other with `sep` written before every part
   but the first, as the library's `join` helper and the standard library's
   slice `join` both do.
   */
  function Join(parts: seq<string>, sep: string): string
  {
    if |parts| == 0 then ""
    else if |parts| == 1 then parts[0]
    else Join(parts[..|parts| - 1], sep) + sep + parts[|parts| - 1]
  }

  /** Reading a join from the front: the first part, then a separator before each later part. */
  lemma {:induction false} JoinCons(p: string, ps: seq<string>, sep: string)
    ensures Join([p] + ps, sep) == if |ps| == 0 then p else p + sep + Join(ps, sep)
    decreases |ps|
  {
    if |ps| > 1 {
      var last := ps[|ps| - 1];
      assert ([p] + ps)[..|[p] + ps| - 1] == [p] + ps[..|ps| - 1];
      JoinCons(p, ps[..|ps| - 1], sep);
    } else if |ps| == 1 {
      assert ([p] + ps)[..1] == [p];
    }
  }

  /**
   n parts carry exactly n - 1 separators: the joined text is as long as the
   parts together plus n - 1 copies of the separator.
   */
  lemma {:induction false} JoinLength(parts: seq<string>, sep: string)
    ensures |parts| == 0 ==> |Join(parts, sep)| == 0
    ensures |parts| > 0 ==> |Join(parts, sep)| == |Concat(parts)| + (|parts| - 1) * |sep|
  {
    var n := |parts|;
    if n == 1 {
      assert parts[..0] == [];
    } else if n > 1 {
      var init := parts[..n - 1];
      JoinLength(init, sep);
      assert |Join(parts, sep)| == |Join(init, sep)| + |sep| + |parts[n - 1]|;
      assert |Concat(parts)| == |Concat(init)| + |parts[n - 1]|;
      assert (n - 2) * |sep| + |sep| == (n - 1) * |sep| by {
        MulStep(n - 2, |sep|);
      }
    }
  }

  lemma MulStep(k: nat, m: nat)
    ensures k * m + m == (k + 1) * m
  {
  }

  /** One more part after a nonempty join costs one more separator. */
  lemma JoinSnoc(parts: seq<string>, p: string, sep: string)
    requires |parts| > 0
    ensures Join(parts + [p], sep) == Join(parts, sep) + sep + p
  {
    assert (parts + [p])[..|parts|] == parts;
  }

  /** The separator appears between the parts and never before the first or after the last. */
  lemma JoinTwo(a: string, b: string, sep: string)
    ensures Join([a, b], sep) == a + sep + b
  {
    assert [a, b][..1] == [a];
  }

  /** The library's `join` loop: a separator before every element whose index is above zero. */
  method WriteJoined(parts: seq<string>, sep: string) returns (out: string)
    ensures out == Join(parts, sep)
    ensures |parts| > 0 ==> |out| == |Concat(parts)| + (|parts| - 1) * |sep|
  {
    out := "";
    var i := 0;
    while i < |parts|
      invariant 0 <= i <= |parts|
      invariant out == Join(parts[..i], sep)
    {
      if i > 0 {
        out := out + sep;
      }
      out := out + parts[i];
      assert parts[..i + 1][..i] == parts[..i];
      i := i + 1;
    }
    assert parts[..i] == parts;
    JoinLength(parts, sep);
  }
}

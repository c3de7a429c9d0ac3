/**
 Rendering tables in their original source order. The walk order is fixed,
 so the algorithm is a state machine run over the walk's visits again and
 again: a cursor into the sorted source positions, and a flag saying whether
 the tables being met are to be written. Visits are named by their index in
 the walk.
 */
module OriginalOrder {
  import opened Wrappers
  import opened Toml
  import opened Text
  import opened Traversal
  import opened TableDisplay
  import opened Sorting

  predicate Positioned(w: Visit)
  {
    w.table.position.Some?
  }

  /** The visit's source position, as a list of zero or one element. */
  function PositionList(w: Visit): seq<nat>
  {
    if Positioned(w) then [w.table.position.value] else []
  }

  /** The positions met by a walk, in walk order: what the first walk collects. */
  function PositionsOf(ws: seq<Visit>): seq<nat>
  {
    if |ws| == 0 then [] else PositionsOf(ws[..|ws| - 1]) + PositionList(ws[|ws| - 1])
  }

  predicate Indices(ws: seq<Visit>, idx: seq<nat>)
  {
    forall k :: 0 <= k < |idx| ==> idx[k] < |ws|
  }

  /** The positions of the visits named by `idx`, in the order of `idx`. */
  function PositionsAt(ws: seq<Visit>, idx: seq<nat>): seq<nat>
    requires Indices(ws, idx)
  {
    if |idx| == 0 then [] else PositionsAt(ws, idx[..|idx| - 1]) + PositionList(ws[idx[|idx| - 1]])
  }

  /** The visits named by `idx`, in the order of `idx`. */
  function Pick(ws: seq<Visit>, idx: seq<nat>): (r: seq<Visit>)
    requires Indices(ws, idx)
    ensures |r| == |idx|
    ensures forall k :: 0 <= k < |idx| ==> r[k] == ws[idx[k]]
  {
    seq(|idx|, k requires 0 <= k < |idx| => ws[idx[k]])
  }

  function Range(n: nat): (r: seq<nat>)
    ensures |r| == n
    ensures forall k :: 0 <= k < n ==> r[k] == k
  {
    seq(n, k requires 0 <= k < n => k)
  }

  lemma RangeSnoc(n: nat)
    requires n > 0
    ensures Range(n) == Range(n - 1) + [n - 1]
  {
  }

  /** The passes' emitted indices, one pass after the other. */
  function Flatten(ps: seq<seq<nat>>): seq<nat>
  {
    if |ps| == 0 then [] else ps[0] + Flatten(ps[1..])
  }

  /**
   The state carried from table to table and from pass to pass: `cursor` indexes
   the sorted schedule (the position still to be matched is `sched[cursor]`;
   none is left once `cursor == |sched|`), and `shouldPrint` is the flag.
   */
  datatype State = State(cursor: nat, shouldPrint: bool)

  /**
   The callback of one pass, for one visited table. Nothing happens once every
   position is matched and the flag is down. A positioned table raises the flag
   and advances the cursor when it holds the position to be matched, and lowers
   the flag otherwise; a table without a position leaves the state as it is.
   The table is written exactly when the flag is up afterwards.
   */
  function Step(sched: seq<nat>, s: State, w: Visit): State
  {
    if s.cursor >= |sched| && !s.shouldPrint then s
    else if Positioned(w) then
      if s.cursor < |sched| && w.table.position.value == sched[s.cursor] then State(s.cursor + 1, true)
      else State(s.cursor, false)
    else s
  }

  /** The state after the first `n` visits of a pass that began in `s0`. */
  function StateAt(sched: seq<nat>, ws: seq<Visit>, s0: State, n: nat): State
    requires n <= |ws|
  {
    if n == 0 then s0 else Step(sched, StateAt(sched, ws, s0, n - 1), ws[n - 1])
  }

  /** The indices, among the first `n` visits, that a pass beginning in `s0` writes. */
  function Printed(sched: seq<nat>, ws: seq<Visit>, s0: State, n: nat): seq<nat>
    requires n <= |ws|
  {
    if n == 0 then []
    else Printed(sched, ws, s0, n - 1) + (if StateAt(sched, ws, s0, n).shouldPrint then [n - 1] else [])
  }

  /** Every position still to be matched is held by some visited table. */
  predicate Scheduled(sched: seq<nat>, ws: seq<Visit>)
  {
    forall k :: 0 <= k < |sched| ==> sched[k] in PositionsOf(ws)
  }

  /**
   The passes run from state `s` until every position is matched; between
   passes the flag is lowered.
   */
  function Passes(sched: seq<nat>, ws: seq<Visit>, s: State): seq<seq<nat>>
    requires s.cursor <= |sched|
    requires Scheduled(sched, ws)
    decreases |sched| - s.cursor
  {
    if s.cursor == |sched| then []
    else
      PassAdvances(sched, ws, s);
      var e := StateAt(sched, ws, s, |ws|);
      [Printed(sched, ws, s, |ws|)] + Passes(sched, ws, State(e.cursor, false))
  }

  /** Collect and sort the positions, then run the passes with the flag initially up. */
  function Reconstruct(ws: seq<Visit>): seq<seq<nat>>
  {
    var sched := Sort(PositionsOf(ws));
    SortIsScheduled(ws);
    Passes(sched, ws, State(0, true))
  }

  // ---------------------------------------------------------------------------
  // Facts about the sequences of positions

  lemma {:induction false} PositionsOfAppend(a: seq<Visit>, b: seq<Visit>)
    ensures PositionsOf(a + b) == PositionsOf(a) + PositionsOf(b)
    decreases |b|
  {
    if |b| == 0 {
      assert a + b == a;
    } else {
      assert (a + b)[..|a + b| - 1] == a + b[..|b| - 1];
      PositionsOfAppend(a, b[..|b| - 1]);
    }
  }

  lemma {:induction false} PositionsAtAppend(ws: seq<Visit>, a: seq<nat>, b: seq<nat>)
    requires Indices(ws, a) && Indices(ws, b)
    ensures Indices(ws, a + b)
    ensures PositionsAt(ws, a + b) == PositionsAt(ws, a) + PositionsAt(ws, b)
    decreases |b|
  {
    if |b| == 0 {
      assert a + b == a;
    } else {
      assert (a + b)[..|a + b| - 1] == a + b[..|b| - 1];
      PositionsAtAppend(ws, a, b[..|b| - 1]);
    }
  }

  /** A collected position is the position of some visited table. */
  lemma {:induction false} PositionHeld(ws: seq<Visit>, x: nat)
    requires x in PositionsOf(ws)
    ensures exists j :: 0 <= j < |ws| && ws[j].table.position == Some(x)
  {
    var n := |ws|;
    if x in PositionsOf(ws[..n - 1]) {
      PositionHeld(ws[..n - 1], x);
      var j :| 0 <= j < n - 1 && ws[..n - 1][j].table.position == Some(x);
      assert ws[j] == ws[..n - 1][j];
    } else {
      assert ws[n - 1].table.position == Some(x);
    }
  }

  lemma SortIsScheduled(ws: seq<Visit>)
    ensures Scheduled(Sort(PositionsOf(ws)), ws)
  {
    var sched := Sort(PositionsOf(ws));
    forall k | 0 <= k < |sched|
      ensures sched[k] in PositionsOf(ws)
    {
      assert sched[k] in multiset(sched);
    }
  }

  // ---------------------------------------------------------------------------
  // One pass

  /**
   One step moves the cursor by at most one, and moves it exactly when the
   table holds the position to be matched; then the table is written.
   */
  lemma StepMoves(sched: seq<nat>, s: State, w: Visit)
    requires s.cursor <= |sched|
    ensures s.cursor <= Step(sched, s, w).cursor <= |sched|
    ensures Step(sched, s, w).cursor == s.cursor || Step(sched, s, w).cursor == s.cursor + 1
    ensures Step(sched, s, w).cursor == s.cursor + 1 <==>
      s.cursor < |sched| && Positioned(w) && w.table.position.value == sched[s.cursor]
    ensures Step(sched, s, w).cursor == s.cursor + 1 ==> Step(sched, s, w).shouldPrint
    ensures Step(sched, s, w).shouldPrint && Positioned(w) ==> Step(sched, s, w).cursor == s.cursor + 1
    ensures !Positioned(w) ==> Step(sched, s, w) == s
  {
  }

  /** Within a pass the cursor only moves forward and never past the schedule. */
  lemma {:induction false} CursorBounds(sched: seq<nat>, ws: seq<Visit>, s0: State, n: nat)
    requires s0.cursor <= |sched|
    requires n <= |ws|
    ensures s0.cursor <= StateAt(sched, ws, s0, n).cursor <= |sched|
  {
    if n > 0 {
      CursorBounds(sched, ws, s0, n - 1);
      StepMoves(sched, StateAt(sched, ws, s0, n - 1), ws[n - 1]);
    }
  }

  /** Indices below `n`, strictly increasing: each written at most once, in walk order. */
  predicate IncreasingBelow(p: seq<nat>, n: nat)
  {
    && (forall k :: 0 <= k < |p| ==> p[k] < n)
    && (forall k, l :: 0 <= k < l < |p| ==> p[k] < p[l])
  }

  lemma {:induction false} PrintedIncreasing(sched: seq<nat>, ws: seq<Visit>, s0: State, n: nat)
    requires n <= |ws|
    ensures IncreasingBelow(Printed(sched, ws, s0, n), n)
  {
    if n > 0 {
      PrintedIncreasing(sched, ws, s0, n - 1);
      var p0 := Printed(sched, ws, s0, n - 1);
      var p := Printed(sched, ws, s0, n);
      if p != p0 {
        assert p == p0 + [n - 1];
      }
    }
  }

  lemma PositionsAtSnoc(ws: seq<Visit>, p: seq<nat>, i: nat)
    requires Indices(ws, p) && i < |ws|
    ensures Indices(ws, p + [i])
    ensures PositionsAt(ws, p + [i]) == PositionsAt(ws, p) + PositionList(ws[i])
  {
    assert (p + [i])[..|p|] == p;
  }

  lemma SliceExtend(s: seq<nat>, a: nat, b: nat)
    requires a <= b < |s|
    ensures s[a..b + 1] == s[a..b] + [s[b]]
  {
  }

  /**
   The positioned tables a pass writes are exactly the schedule entries the
   cursor moved over, in schedule order.
   */
  lemma {:induction false} PassMatchesSchedule(sched: seq<nat>, ws: seq<Visit>, s0: State, n: nat)
    requires s0.cursor <= |sched|
    requires n <= |ws|
    ensures Indices(ws, Printed(sched, ws, s0, n))
    ensures s0.cursor <= StateAt(sched, ws, s0, n).cursor <= |sched|
    ensures PositionsAt(ws, Printed(sched, ws, s0, n)) == sched[s0.cursor..StateAt(sched, ws, s0, n).cursor]
  {
    if n > 0 {
      PassMatchesSchedule(sched, ws, s0, n - 1);
      var st0 := StateAt(sched, ws, s0, n - 1);
      var p0 := Printed(sched, ws, s0, n - 1);
      StepKeepsMatch(sched, ws, s0.cursor, p0, st0, n - 1);
      assert StateAt(sched, ws, s0, n) == Step(sched, st0, ws[n - 1]);
      assert Printed(sched, ws, s0, n) == p0 + (if Step(sched, st0, ws[n - 1]).shouldPrint then [n - 1] else []);
    }
  }

  /**
   One step of a pass keeps the correspondence between the written indices'
   positions and the stretch of schedule the cursor has moved over.
   */
  lemma StepKeepsMatch(sched: seq<nat>, ws: seq<Visit>, a: nat, p0: seq<nat>, st0: State, i: nat)
    requires i < |ws|
    requires a <= st0.cursor <= |sched|
    requires Indices(ws, p0)
    requires PositionsAt(ws, p0) == sched[a..st0.cursor]
    ensures Indices(ws, p0 + (if Step(sched, st0, ws[i]).shouldPrint then [i] else []))
    ensures st0.cursor <= Step(sched, st0, ws[i]).cursor <= |sched|
    ensures PositionsAt(ws, p0 + (if Step(sched, st0, ws[i]).shouldPrint then [i] else []))
      == sched[a..Step(sched, st0, ws[i]).cursor]
  {
    var st1 := Step(sched, st0, ws[i]);
    if st1.shouldPrint {
      if Positioned(ws[i]) {
        StepMoves(sched, st0, ws[i]);
        ExtendMatched(sched, ws, p0, a, st0.cursor, i);
      } else {
        ExtendUnpositioned(sched, ws, p0, a, st0.cursor, i);
      }
    } else {
      assert p0 + [] == p0;
      StepMoves(sched, st0, ws[i]);
    }
  }

  lemma ExtendMatched(sched: seq<nat>, ws: seq<Visit>, p0: seq<nat>, a: nat, c0: nat, i: nat)
    requires Indices(ws, p0) && i < |ws|
    requires a <= c0 < |sched|
    requires PositionsAt(ws, p0) == sched[a..c0]
    requires PositionList(ws[i]) == [sched[c0]]
    ensures Indices(ws, p0 + [i])
    ensures PositionsAt(ws, p0 + [i]) == sched[a..c0 + 1]
  {
    PositionsAtSnoc(ws, p0, i);
    SliceExtend(sched, a, c0);
  }

  lemma ExtendUnpositioned(sched: seq<nat>, ws: seq<Visit>, p0: seq<nat>, a: nat, c0: nat, i: nat)
    requires Indices(ws, p0) && i < |ws|
    requires a <= c0 <= |sched|
    requires PositionsAt(ws, p0) == sched[a..c0]
    requires !Positioned(ws[i])
    ensures Indices(ws, p0 + [i])
    ensures PositionsAt(ws, p0 + [i]) == sched[a..c0]
  {
    PositionsAtSnoc(ws, p0, i);
  }

  /** Once the table holding the position to be matched has been met, the cursor has moved. */
  lemma {:induction false} MatchedBy(sched: seq<nat>, ws: seq<Visit>, s0: State, n: nat)
    requires s0.cursor < |sched|
    requires n <= |ws|
    requires sched[s0.cursor] in PositionsOf(ws[..n])
    ensures StateAt(sched, ws, s0, n).cursor > s0.cursor
  {
    assert ws[..n] == ws[..n - 1] + [ws[n - 1]];
    assert ws[..n][..n - 1] == ws[..n - 1];
    PositionsOfAppend(ws[..n - 1], [ws[n - 1]]);
    CursorBounds(sched, ws, s0, n - 1);
    StepMoves(sched, StateAt(sched, ws, s0, n - 1), ws[n - 1]);
    if sched[s0.cursor] in PositionsOf(ws[..n - 1]) {
      MatchedBy(sched, ws, s0, n - 1);
    } else {
      assert PositionsOf([ws[n - 1]]) == PositionsOf([ws[n - 1]][..0]) + PositionList(ws[n - 1]);
      assert ws[n - 1].table.position == Some(sched[s0.cursor]);
    }
  }

  /**
   Each pass moves the cursor at least once: the position to be matched is held
   by some table, and the pass meets that table with the cursor still on it
   unless it moved earlier.
   */
  lemma PassAdvances(sched: seq<nat>, ws: seq<Visit>, s0: State)
    requires s0.cursor < |sched|
    requires Scheduled(sched, ws)
    ensures s0.cursor < StateAt(sched, ws, s0, |ws|).cursor <= |sched|
  {
    CursorBounds(sched, ws, s0, |ws|);
    assert ws[..|ws|] == ws;
    MatchedBy(sched, ws, s0, |ws|);
  }

  /** An index is written by a pass exactly when the flag is up after its step. */
  lemma {:induction false} PrintedMember(sched: seq<nat>, ws: seq<Visit>, s0: State, n: nat, i: int)
    requires n <= |ws|
    ensures i in Printed(sched, ws, s0, n) <==> 0 <= i < n && StateAt(sched, ws, s0, i + 1).shouldPrint
  {
    if n > 0 {
      PrintedMember(sched, ws, s0, n - 1, i);
    }
  }

  /** The nearest positioned visit at or before index `i`, if any. */
  function Owner(ws: seq<Visit>, i: nat): Option<nat>
    requires i < |ws|
  {
    if Positioned(ws[i]) then Some(i)
    else if i == 0 then Option.None
    else Owner(ws, i - 1)
  }

  lemma {:induction false} OwnerBounds(ws: seq<Visit>, i: nat)
    requires i < |ws|
    ensures Owner(ws, i).Some? ==> Owner(ws, i).value <= i && Positioned(ws[Owner(ws, i).value])
  {
    if !Positioned(ws[i]) && i > 0 {
      OwnerBounds(ws, i - 1);
    }
  }

  /**
   A table without a position inherits the state left by the nearest positioned
   table before it, or the pass's initial state when there is none.
   */
  lemma {:induction false} UnpositionedInherits(sched: seq<nat>, ws: seq<Visit>, s0: State, i: nat)
    requires i < |ws|
    requires !Positioned(ws[i])
    ensures Owner(ws, i).Some? ==> Owner(ws, i).value < i
    ensures StateAt(sched, ws, s0, i + 1)
      == if Owner(ws, i).Some? then StateAt(sched, ws, s0, Owner(ws, i).value + 1) else s0
  {
    assert StateAt(sched, ws, s0, i + 1) == StateAt(sched, ws, s0, i);
    if i > 0 && !Positioned(ws[i - 1]) {
      UnpositionedInherits(sched, ws, s0, i - 1);
    }
  }

  /**
   Within one pass, a table without a position is written exactly when the
   nearest positioned table before it is written, or, when there is none,
   exactly when the pass began with the flag up.
   */
  lemma PassFollowsOwner(sched: seq<nat>, ws: seq<Visit>, s0: State, i: nat)
    requires i < |ws|
    requires !Positioned(ws[i])
    ensures i in Printed(sched, ws, s0, |ws|)
      <==> if Owner(ws, i).Some? then Owner(ws, i).value in Printed(sched, ws, s0, |ws|) else s0.shouldPrint
  {
    UnpositionedInherits(sched, ws, s0, i);
    PrintedMember(sched, ws, s0, |ws|, i);
    if Owner(ws, i).Some? {
      PrintedMember(sched, ws, s0, |ws|, Owner(ws, i).value);
    }
  }

  // ---------------------------------------------------------------------------
  // All passes

  lemma FlattenCons(p: seq<nat>, ps: seq<seq<nat>>)
    ensures Flatten([p] + ps) == p + Flatten(ps)
  {
    assert ([p] + ps)[1..] == ps;
  }

  /** Each pass writes indices of the walk, in walk order. */
  lemma {:induction false} PassesIncreasing(sched: seq<nat>, ws: seq<Visit>, s: State)
    requires s.cursor <= |sched|
    requires Scheduled(sched, ws)
    ensures forall p :: 0 <= p < |Passes(sched, ws, s)| ==> IncreasingBelow(Passes(sched, ws, s)[p], |ws|)
    decreases |sched| - s.cursor
  {
    var ps := Passes(sched, ws, s);
    if s.cursor < |sched| {
      PassesUnfold(sched, ws, s);
      var e := StateAt(sched, ws, s, |ws|);
      var rest := Passes(sched, ws, State(e.cursor, false));
      PassesIncreasing(sched, ws, State(e.cursor, false));
      PrintedIncreasing(sched, ws, s, |ws|);
      forall p | 0 <= p < |ps|
        ensures IncreasingBelow(ps[p], |ws|)
      {
        if p > 0 {
          assert ps[p] == rest[p - 1];
        }
      }
    }
  }

  /** A pass's positions followed by the later passes' positions make up the remaining schedule. */
  lemma JoinPositions(sched: seq<nat>, ws: seq<Visit>, first: seq<nat>, later: seq<nat>, a: nat, b: nat)
    requires a <= b <= |sched|
    requires Indices(ws, first) && Indices(ws, later)
    requires PositionsAt(ws, first) == sched[a..b]
    requires PositionsAt(ws, later) == sched[b..]
    ensures Indices(ws, first + later)
    ensures PositionsAt(ws, first + later) == sched[a..]
  {
    PositionsAtAppend(ws, first, later);
    assert sched[a..] == sched[a..b] + sched[b..];
  }

  /**
   Across the passes from state `s`: the positioned tables written are the
   remaining schedule in order, and there are at most as many passes as
   schedule entries left, and at least one while any is left.
   */
  lemma {:induction false} PassesCoverSchedule(sched: seq<nat>, ws: seq<Visit>, s: State)
    requires s.cursor <= |sched|
    requires Scheduled(sched, ws)
    ensures Indices(ws, Flatten(Passes(sched, ws, s)))
    ensures PositionsAt(ws, Flatten(Passes(sched, ws, s))) == sched[s.cursor..]
    ensures |Passes(sched, ws, s)| <= |sched| - s.cursor
    ensures s.cursor < |sched| ==> |Passes(sched, ws, s)| >= 1
    decreases |sched| - s.cursor
  {
    if s.cursor < |sched| {
      PassesUnfold(sched, ws, s);
      var e := StateAt(sched, ws, s, |ws|);
      var first := Printed(sched, ws, s, |ws|);
      var rest := Passes(sched, ws, State(e.cursor, false));
      PassesCoverSchedule(sched, ws, State(e.cursor, false));
      PassMatchesSchedule(sched, ws, s, |ws|);
      FlattenCons(first, rest);
      JoinPositions(sched, ws, first, Flatten(rest), s.cursor, e.cursor);
    }
  }

  /**
   Index `i` is in the pass exactly when its owner is, or, when it has none,
   exactly when `noOwner` holds.
   */
  predicate WrittenWithOwner(ws: seq<Visit>, pass: seq<nat>, i: nat, noOwner: bool)
    requires i < |ws|
  {
    i in pass <==> if Owner(ws, i).Some? then Owner(ws, i).value in pass else noOwner
  }

  /** In every pass, `i` is written with its owner; without one, in the first pass only, and only if `first`. */
  predicate FollowsOwner(ws: seq<Visit>, ps: seq<seq<nat>>, i: nat, first: bool)
    requires i < |ws|
  {
    forall p :: 0 <= p < |ps| ==> WrittenWithOwner(ws, ps[p], i, p == 0 && first)
  }

  /**
   Across the passes from state `s`, a table without a position is written in a
   pass exactly when the nearest positioned table before it is written in that
   pass; with no positioned table before it, only in the first pass, and only
   if that pass began with the flag up.
   */
  lemma {:induction false} PassesFollowOwner(sched: seq<nat>, ws: seq<Visit>, s: State, i: nat)
    requires s.cursor <= |sched|
    requires Scheduled(sched, ws)
    requires i < |ws| && !Positioned(ws[i])
    ensures FollowsOwner(ws, Passes(sched, ws, s), i, s.shouldPrint)
    decreases |sched| - s.cursor
  {
    var ps := Passes(sched, ws, s);
    if s.cursor < |sched| {
      PassAdvances(sched, ws, s);
      var e := StateAt(sched, ws, s, |ws|);
      var rest := Passes(sched, ws, State(e.cursor, false));
      assert ps == [Printed(sched, ws, s, |ws|)] + rest;
      PassesFollowOwner(sched, ws, State(e.cursor, false), i);
      PassFollowsOwner(sched, ws, s, i);
      forall p | 0 <= p < |ps|
        ensures WrittenWithOwner(ws, ps[p], i, p == 0 && s.shouldPrint)
      {
        if p > 0 {
          assert ps[p] == rest[p - 1];
          assert WrittenWithOwner(ws, rest[p - 1], i, p - 1 == 0 && false);
        }
      }
    }
  }

  /**
   Original-order termination and ordering: the positioned tables reach the
   callback in ascending position order, every collected position exactly as
   often as it was collected; there are no more passes than positions, none at
   all when no table has a position, and at least one otherwise.
   */
  lemma ReconstructInPositionOrder(ws: seq<Visit>)
    ensures var ps := Reconstruct(ws);
      && (forall p :: 0 <= p < |ps| ==> IncreasingBelow(ps[p], |ws|))
      && Indices(ws, Flatten(ps))
      && PositionsAt(ws, Flatten(ps)) == Sort(PositionsOf(ws))
      && Sorted(PositionsAt(ws, Flatten(ps)))
      && multiset(PositionsAt(ws, Flatten(ps))) == multiset(PositionsOf(ws))
      && |ps| <= |PositionsOf(ws)|
      && (|ps| == 0 <==> |PositionsOf(ws)| == 0)
  {
    var sched := Sort(PositionsOf(ws));
    SortIsScheduled(ws);
    PassesIncreasing(sched, ws, State(0, true));
    PassesCoverSchedule(sched, ws, State(0, true));
    assert sched[0..] == sched;
    assert |sched| == |multiset(sched)| == |PositionsOf(ws)|;
  }

  /**
   A table without a position is written in exactly the passes in which the
   nearest positioned table before it in walk order is written; with no
   positioned table before it, in the first pass only.
   */
  lemma ReconstructFollowsOwner(ws: seq<Visit>, i: nat)
    requires i < |ws| && !Positioned(ws[i])
    ensures FollowsOwner(ws, Reconstruct(ws), i, true)
  {
    var sched := Sort(PositionsOf(ws));
    SortIsScheduled(ws);
    PassesFollowOwner(sched, ws, State(0, true), i);
  }

  // ---------------------------------------------------------------------------
  // Unpositioned tables come in a block after their owner

  /** The walk indices `lo`, `lo + 1`, ..., `hi - 1`. */
  function Span(lo: nat, hi: nat): (r: seq<nat>)
    requires lo <= hi
    ensures |r| == hi - lo
    ensures forall d :: 0 <= d < |r| ==> r[d] == lo + d
  {
    seq(hi - lo, d requires 0 <= d < hi - lo => lo + d)
  }

  /** Every table after the owner, up to and including `i`, has no position. */
  lemma {:induction false} OwnerGap(ws: seq<Visit>, i: nat, j: nat)
    requires i < |ws|
    requires Owner(ws, i).Some? && Owner(ws, i).value < j <= i
    ensures !Positioned(ws[j])
  {
    if j < i {
      OwnerGap(ws, i - 1, j);
    }
  }

  /**
   Whenever a written index is followed in the walk by a table without a
   position, that table is written right after it.
   */
  predicate ChainsUnpositioned(ws: seq<Visit>, order: seq<nat>)
  {
    forall k :: 0 <= k < |order| && order[k] + 1 < |ws| && !Positioned(ws[order[k] + 1]) ==>
      k + 1 < |order| && order[k + 1] == order[k] + 1
  }

  /** A pass's written indices up to one visit stay a prefix of those up to a later visit. */
  lemma {:induction false} PrintedPrefix(sched: seq<nat>, ws: seq<Visit>, s0: State, n: nat, m: nat)
    requires n <= m <= |ws|
    ensures |Printed(sched, ws, s0, n)| <= |Printed(sched, ws, s0, m)|
    ensures Printed(sched, ws, s0, m)[..|Printed(sched, ws, s0, n)|] == Printed(sched, ws, s0, n)
  {
    if n < m {
      PrintedPrefix(sched, ws, s0, n, m - 1);
      var p := Printed(sched, ws, s0, m - 1);
      var q := Printed(sched, ws, s0, m);
      assert q[..|p|] == p;
      assert q[..|p|][..|Printed(sched, ws, s0, n)|] == q[..|Printed(sched, ws, s0, n)|];
    }
  }

  /**
   Within a pass, the callback keeps writing while it meets tables without a
   position: the one after a written table, when unpositioned, is written next.
   */
  lemma PassSuccessor(sched: seq<nat>, ws: seq<Visit>, s0: State, k: nat)
    requires k < |Printed(sched, ws, s0, |ws|)|
    requires Printed(sched, ws, s0, |ws|)[k] + 1 < |ws|
    requires !Positioned(ws[Printed(sched, ws, s0, |ws|)[k] + 1])
    ensures k + 1 < |Printed(sched, ws, s0, |ws|)|
    ensures Printed(sched, ws, s0, |ws|)[k + 1] == Printed(sched, ws, s0, |ws|)[k] + 1
  {
    var pass := Printed(sched, ws, s0, |ws|);
    var j := pass[k];
    PrintedIncreasing(sched, ws, s0, |ws|);
    PrintedMember(sched, ws, s0, |ws|, j);
    var st := StateAt(sched, ws, s0, j + 1);
    assert Step(sched, st, ws[j + 1]) == st;
    assert StateAt(sched, ws, s0, j + 2) == st;
    var before := Printed(sched, ws, s0, j);
    assert Printed(sched, ws, s0, j + 1) == before + [j];
    assert Printed(sched, ws, s0, j + 2) == before + [j] + [j + 1];
    PrintedPrefix(sched, ws, s0, j + 2, |ws|);
    assert pass[|before|] == j;
    assert pass[|before| + 1] == j + 1;
  }

  lemma PassChains(sched: seq<nat>, ws: seq<Visit>, s0: State)
    ensures ChainsUnpositioned(ws, Printed(sched, ws, s0, |ws|))
  {
    var pass := Printed(sched, ws, s0, |ws|);
    forall k | 0 <= k < |pass| && pass[k] + 1 < |ws| && !Positioned(ws[pass[k] + 1])
      ensures k + 1 < |pass| && pass[k + 1] == pass[k] + 1
    {
      PassSuccessor(sched, ws, s0, k);
    }
  }

  /** Every pass from state `s` writes an unpositioned table right after the written table before it. */
  lemma {:induction false} PassesChain(sched: seq<nat>, ws: seq<Visit>, s: State)
    requires s.cursor <= |sched|
    requires Scheduled(sched, ws)
    ensures forall p :: 0 <= p < |Passes(sched, ws, s)| ==> ChainsUnpositioned(ws, Passes(sched, ws, s)[p])
    decreases |sched| - s.cursor
  {
    var ps := Passes(sched, ws, s);
    if s.cursor < |sched| {
      PassesUnfold(sched, ws, s);
      var e := StateAt(sched, ws, s, |ws|);
      var rest := Passes(sched, ws, State(e.cursor, false));
      PassesChain(sched, ws, State(e.cursor, false));
      PassChains(sched, ws, s);
      forall p | 0 <= p < |ps|
        ensures ChainsUnpositioned(ws, ps[p])
      {
        if p > 0 {
          assert ps[p] == rest[p - 1];
        }
      }
    }
  }

  /** Passes that each chain unpositioned tables still do so one after the other. */
  lemma {:induction false} FlattenChains(ws: seq<Visit>, ps: seq<seq<nat>>)
    requires forall p :: 0 <= p < |ps| ==> ChainsUnpositioned(ws, ps[p])
    ensures ChainsUnpositioned(ws, Flatten(ps))
  {
    if |ps| > 0 {
      forall p | 0 <= p < |ps[1..]|
        ensures ChainsUnpositioned(ws, ps[1..][p])
      {
        assert ps[1..][p] == ps[p + 1];
      }
      FlattenChains(ws, ps[1..]);
      FlattenCons(ps[0], ps[1..]);
      assert ps == [ps[0]] + ps[1..];
      ChainsAppend(ws, ps[0], Flatten(ps[1..]));
    }
  }

  lemma ChainsAppend(ws: seq<Visit>, a: seq<nat>, b: seq<nat>)
    requires ChainsUnpositioned(ws, a) && ChainsUnpositioned(ws, b)
    ensures ChainsUnpositioned(ws, a + b)
  {
    var f := a + b;
    forall k | 0 <= k < |f| && f[k] + 1 < |ws| && !Positioned(ws[f[k] + 1])
      ensures k + 1 < |f| && f[k + 1] == f[k] + 1
    {
      if k >= |a| {
        assert f[k] == b[k - |a|];
        assert f[k + 1] == b[k - |a| + 1];
      }
    }
  }

  /** From any written index, a chain reaches every following unpositioned index up to `i`. */
  lemma {:induction false} ChainBlock(ws: seq<Visit>, order: seq<nat>, k: nat, o: nat, i: nat)
    requires ChainsUnpositioned(ws, order)
    requires k < |order| && order[k] == o
    requires o <= i < |ws|
    requires forall j :: o < j <= i ==> !Positioned(ws[j])
    ensures k + (i - o) < |order|
    ensures order[k..k + (i - o) + 1] == Span(o, i + 1)
  {
    if i > o {
      ChainBlock(ws, order, k, o, i - 1);
      var m := k + (i - 1 - o);
      assert order[m] == (i - 1) by {
        assert order[k..k + (i - 1 - o) + 1][i - 1 - o] == Span(o, i)[i - 1 - o];
      }
      assert !Positioned(ws[order[m] + 1]);
      assert order[k..m + 2] == order[k..m + 1] + [order[m + 1]];
    }
  }

  /**
   The reconstruction writes a table without a position together with the
   unpositioned tables between it and its owner as one block, right after its
   owner: wherever the owner `o` is written, the next indices written are
   `o + 1`, ..., `i`, within the same pass.
   */
  lemma ReconstructWritesBlock(ws: seq<Visit>, i: nat, p: nat, k: nat)
    requires i < |ws| && !Positioned(ws[i]) && Owner(ws, i).Some?
    requires p < |Reconstruct(ws)|
    requires k < |Reconstruct(ws)[p]| && Reconstruct(ws)[p][k] == Owner(ws, i).value
    ensures var o := Owner(ws, i).value;
      && o < i
      && k + (i - o) < |Reconstruct(ws)[p]|
      && Reconstruct(ws)[p][k..k + (i - o) + 1] == Span(o, i + 1)
  {
    var sched := Sort(PositionsOf(ws));
    SortIsScheduled(ws);
    PassesChain(sched, ws, State(0, true));
    UnpositionedInherits(sched, ws, State(0, true), i);
    forall j | Owner(ws, i).value < j <= i
      ensures !Positioned(ws[j])
    {
      OwnerGap(ws, i, j);
    }
    ChainBlock(ws, Reconstruct(ws)[p], k, Owner(ws, i).value, i);
  }

  /**
   The same block in the order the callback receives the tables across all
   passes: wherever the owner appears, the unpositioned tables up to `i` follow
   it at once.
   */
  lemma ReconstructOrderHasBlock(ws: seq<Visit>, i: nat, k: nat)
    requires i < |ws| && !Positioned(ws[i]) && Owner(ws, i).Some?
    requires k < |Flatten(Reconstruct(ws))| && Flatten(Reconstruct(ws))[k] == Owner(ws, i).value
    ensures var o := Owner(ws, i).value;
      && o < i
      && k + (i - o) < |Flatten(Reconstruct(ws))|
      && Flatten(Reconstruct(ws))[k..k + (i - o) + 1] == Span(o, i + 1)
  {
    var sched := Sort(PositionsOf(ws));
    SortIsScheduled(ws);
    PassesChain(sched, ws, State(0, true));
    FlattenChains(ws, Reconstruct(ws));
    UnpositionedInherits(sched, ws, State(0, true), i);
    forall j | Owner(ws, i).value < j <= i
      ensures !Positioned(ws[j])
    {
      OwnerGap(ws, i, j);
    }
    ChainBlock(ws, Flatten(Reconstruct(ws)), k, Owner(ws, i).value, i);
  }

  // ---------------------------------------------------------------------------
  // Emit exactly once

  /** No two visited tables share a source position. */
  predicate DistinctPositions(ws: seq<Visit>)
  {
    forall i, j :: 0 <= i < j < |ws| && Positioned(ws[i]) && Positioned(ws[j]) ==>
      ws[i].table.position != ws[j].table.position
  }

  /** The number of passes that write index `i`. */
  function PassesWriting(ps: seq<seq<nat>>, i: nat): nat
  {
    if |ps| == 0 then 0 else (if i in ps[0] then 1 else 0) + PassesWriting(ps[1..], i)
  }

  lemma {:induction false} RangePositions(ws: seq<Visit>, n: nat)
    requires n <= |ws|
    ensures Indices(ws, Range(n))
    ensures PositionsAt(ws, Range(n)) == PositionsOf(ws[..n])
  {
    if n > 0 {
      RangePositions(ws, n - 1);
      assert Range(n)[..n - 1] == Range(n - 1);
      assert ws[..n][..n - 1] == ws[..n - 1];
    }
  }

  lemma {:induction false} RangeOnce(n: nat, o: nat)
    ensures multiset(Range(n))[o] == if o < n then 1 else 0
  {
    if n > 0 {
      RangeOnce(n - 1, o);
      assert Range(n) == Range(n - 1) + [n - 1];
    }
  }

  /**
   With distinct positions, how often a positioned index occurs in `idx` is how
   often its position occurs among the positions of `idx`.
   */
  lemma {:induction false} IndexCountIsPositionCount(ws: seq<Visit>, idx: seq<nat>, o: nat)
    requires Indices(ws, idx)
    requires DistinctPositions(ws)
    requires o < |ws| && Positioned(ws[o])
    ensures multiset(idx)[o] == multiset(PositionsAt(ws, idx))[ws[o].table.position.value]
  {
    if |idx| > 0 {
      var last := idx[|idx| - 1];
      IndexCountIsPositionCount(ws, idx[..|idx| - 1], o);
      assert idx == idx[..|idx| - 1] + [last];
      if last != o && Positioned(ws[last]) {
        assert ws[last].table.position != ws[o].table.position;
      }
    }
  }

  lemma IncreasingOnce(pass: seq<nat>, n: nat, i: nat)
    requires IncreasingBelow(pass, n)
    ensures multiset(pass)[i] == if i in pass then 1 else 0
  {
    if i in pass {
      var k :| 0 <= k < |pass| && pass[k] == i;
      assert pass == pass[..k] + [i] + pass[k + 1..];
      assert i !in pass[..k];
      assert i !in pass[k + 1..];
    }
  }

  lemma {:induction false} FlattenCount(ps: seq<seq<nat>>, n: nat, i: nat)
    requires forall p :: 0 <= p < |ps| ==> IncreasingBelow(ps[p], n)
    ensures multiset(Flatten(ps))[i] == PassesWriting(ps, i)
  {
    if |ps| > 0 {
      FlattenCount(ps[1..], n, i);
      IncreasingOnce(ps[0], n, i);
    }
  }

  lemma {:induction false} SamePasses(ps: seq<seq<nat>>, i: nat, o: nat)
    requires forall p :: 0 <= p < |ps| ==> (i in ps[p] <==> o in ps[p])
    ensures PassesWriting(ps, i) == PassesWriting(ps, o)
  {
    if |ps| > 0 {
      SamePasses(ps[1..], i, o);
    }
  }

  lemma {:induction false} FirstPassOnly(ps: seq<seq<nat>>, i: nat)
    requires |ps| > 0 && i in ps[0]
    requires forall p :: 1 <= p < |ps| ==> i !in ps[p]
    ensures PassesWriting(ps, i) == 1
  {
    NeverWritten(ps[1..], i);
  }

  lemma {:induction false} NeverWritten(ps: seq<seq<nat>>, i: nat)
    requires forall p :: 0 <= p < |ps| ==> i !in ps[p]
    ensures PassesWriting(ps, i) == 0
  {
    if |ps| > 0 {
      NeverWritten(ps[1..], i);
    }
  }

  /** A positioned table is written exactly once when positions are distinct. */
  lemma PositionedOnce(ws: seq<Visit>, o: nat)
    requires DistinctPositions(ws)
    requires o < |ws| && Positioned(ws[o])
    ensures multiset(Flatten(Reconstruct(ws)))[o] == 1
  {
    var f := Flatten(Reconstruct(ws));
    var x := ws[o].table.position.value;
    ReconstructInPositionOrder(ws);
    IndexCountIsPositionCount(ws, f, o);
    RangePositions(ws, |ws|);
    assert ws[..|ws|] == ws;
    IndexCountIsPositionCount(ws, Range(|ws|), o);
    RangeOnce(|ws|, o);
  }

  /**
   Emit exactly once: when at least one table has a position and no two share
   one, every visited table reaches the callback exactly once, so the
   original-order rendering is a reordering of the plain walk.
   */
  lemma ReconstructEmitsEachOnce(ws: seq<Visit>)
    requires DistinctPositions(ws)
    requires |PositionsOf(ws)| > 0
    ensures multiset(Flatten(Reconstruct(ws))) == multiset(Range(|ws|))
  {
    var f := Flatten(Reconstruct(ws));
    var mf: multiset<nat> := multiset(f);
    ReconstructIndices(ws);
    forall i: nat | i < |ws|
      ensures mf[i] == 1
    {
      if Positioned(ws[i]) {
        PositionedOnce(ws, i);
      } else {
        UnpositionedOnce(ws, i);
      }
    }
    OnceEachIsRange(f, |ws|);
  }

  /** Indices below `n`, each present exactly once, are a reordering of `0..n`. */
  lemma OnceEachIsRange(f: seq<nat>, n: nat)
    requires forall k :: 0 <= k < |f| ==> f[k] < n
    requires forall i: nat :: i < n ==> multiset(f)[i] == 1
    ensures multiset(f) == multiset(Range(n))
  {
    var mf: multiset<nat> := multiset(f);
    var mr: multiset<nat> := multiset(Range(n));
    forall x: nat
      ensures mf[x] == mr[x]
    {
      RangeOnce(n, x);
      if x >= n {
        assert x !in f;
      }
    }
  }

  lemma ReconstructIndices(ws: seq<Visit>)
    ensures Indices(ws, Flatten(Reconstruct(ws)))
  {
    ReconstructInPositionOrder(ws);
  }

  /** A table without a position is written exactly once: with its owner, or in the first pass. */
  lemma UnpositionedOnce(ws: seq<Visit>, i: nat)
    requires DistinctPositions(ws)
    requires |PositionsOf(ws)| > 0
    requires i < |ws| && !Positioned(ws[i])
    ensures multiset(Flatten(Reconstruct(ws)))[i] == 1
  {
    var ps := Reconstruct(ws);
    ReconstructInPositionOrder(ws);
    ReconstructFollowsOwner(ws, i);
    FlattenCount(ps, |ws|, i);
    if Owner(ws, i).Some? {
      var o := Owner(ws, i).value;
      OwnerBounds(ws, i);
      forall p | 0 <= p < |ps|
        ensures i in ps[p] <==> o in ps[p]
      {
        assert WrittenWithOwner(ws, ps[p], i, p == 0);
      }
      SamePasses(ps, i, o);
      FlattenCount(ps, |ws|, o);
      PositionedOnce(ws, o);
    } else {
      assert WrittenWithOwner(ws, ps[0], i, true);
      forall p | 1 <= p < |ps|
        ensures i !in ps[p]
      {
        assert WrittenWithOwner(ws, ps[p], i, false);
      }
      FirstPassOnly(ps, i);
    }
  }

  // ---------------------------------------------------------------------------
  // Documents whose positions are already in walk order

  lemma PositionsOfSnoc(ws: seq<Visit>, n: nat)
    requires 0 < n <= |ws|
    ensures PositionsOf(ws[..n]) == PositionsOf(ws[..n - 1]) + PositionList(ws[n - 1])
  {
    assert ws[..n][..n - 1] == ws[..n - 1];
  }

  lemma PositionsOfPrefix(ws: seq<Visit>, n: nat)
    requires n <= |ws|
    ensures PositionsOf(ws) == PositionsOf(ws[..n]) + PositionsOf(ws[n..])
  {
    assert ws == ws[..n] + ws[n..];
    PositionsOfAppend(ws[..n], ws[n..]);
  }

  /** With the flag up and the cursor on the table's own position, a step keeps writing. */
  lemma InOrderStep(sched: seq<nat>, c: nat, w: Visit)
    requires c + |PositionList(w)| <= |sched|
    requires Positioned(w) ==> sched[c] == w.table.position.value
    ensures Step(sched, State(c, true), w) == State(c + |PositionList(w)|, true)
  {
  }

  lemma {:induction false} InOrderState(ws: seq<Visit>, n: nat)
    requires Sorted(PositionsOf(ws))
    requires n <= |ws|
    ensures StateAt(Sort(PositionsOf(ws)), ws, State(0, true), n) == State(|PositionsOf(ws[..n])|, true)
  {
    var sched := Sort(PositionsOf(ws));
    if n == 0 {
      assert ws[..0] == [];
    } else {
      SortOfSorted(PositionsOf(ws));
      InOrderState(ws, n - 1);
      var c := |PositionsOf(ws[..n - 1])|;
      PositionsOfSnoc(ws, n);
      PositionsOfPrefix(ws, n);
      if Positioned(ws[n - 1]) {
        assert PositionsOf(ws[..n])[c] == ws[n - 1].table.position.value;
        assert sched[c] == PositionsOf(ws[..n])[c];
      }
      InOrderStep(sched, c, ws[n - 1]);
    }
  }

  lemma {:induction false} InOrderPrinted(ws: seq<Visit>, n: nat)
    requires Sorted(PositionsOf(ws))
    requires n <= |ws|
    ensures Printed(Sort(PositionsOf(ws)), ws, State(0, true), n) == Range(n)
  {
    if n > 0 {
      var sched := Sort(PositionsOf(ws));
      var s0 := State(0, true);
      InOrderPrinted(ws, n - 1);
      InOrderState(ws, n);
      assert StateAt(sched, ws, s0, n).shouldPrint;
      assert Printed(sched, ws, s0, n) == Printed(sched, ws, s0, n - 1) + [n - 1];
      RangeSnoc(n);
    }
  }

  /**
   A document whose tables meet their positions in ascending order during the
   walk (one that was never reordered) is written in a single pass, every table
   once, in walk order: original order and plain order agree.
   */
  lemma ReconstructUnmutated(ws: seq<Visit>)
    requires Sorted(PositionsOf(ws))
    requires |PositionsOf(ws)| > 0
    ensures Reconstruct(ws) == [Range(|ws|)]
    ensures Flatten(Reconstruct(ws)) == Range(|ws|)
  {
    var sched := PositionsOf(ws);
    SortOfSorted(sched);
    ReconstructWith(ws, sched);
    InOrderPrinted(ws, |ws|);
    InOrderState(ws, |ws|);
    assert ws[..|ws|] == ws;
    PassesUnfold(sched, ws, State(0, true));
    assert Passes(sched, ws, State(|sched|, false)) == [];
    assert Flatten([Range(|ws|)]) == Range(|ws|) + Flatten([]);
  }

  /**
   The walk of the reordered scenario below: with positions `a < b < c < d`, the
   walk meets `a`, `d`, `b`, `c`.
   */
  predicate ReorderedWalk(ws: seq<Visit>, a: nat, b: nat, c: nat, d: nat)
  {
    && a < b < c < d
    && |ws| == 4
    && ws[0].table.position == Some(a) && ws[1].table.position == Some(d)
    && ws[2].table.position == Some(b) && ws[3].table.position == Some(c)
  }

  lemma ScenarioPositions(ws: seq<Visit>, a: nat, b: nat, c: nat, d: nat)
    requires ReorderedWalk(ws, a, b, c, d)
    ensures PositionsOf(ws) == [a, d, b, c]
  {
    assert ws[..0] == [] && ws[..4] == ws;
    PositionsOfSnoc(ws, 1);
    PositionsOfSnoc(ws, 2);
    PositionsOfSnoc(ws, 3);
    PositionsOfSnoc(ws, 4);
  }

  lemma ScenarioSort(p: seq<nat>, a: nat, b: nat, c: nat, d: nat)
    requires a < b < c < d && p == [a, d, b, c]
    ensures Sort(p) == [a, b, c, d]
  {
    var sorted: seq<nat> := [a, b, c, d];
    assert multiset(p) == multiset(sorted);
    assert Sorted(sorted);
    SortIsUnique(p, sorted);
  }

  /** First pass: the root matches `a`, `d` lowers the flag, `b` and `c` are matched. */
  lemma ScenarioFirstPass(ws: seq<Visit>, a: nat, b: nat, c: nat, d: nat)
    requires ReorderedWalk(ws, a, b, c, d)
    ensures StateAt([a, b, c, d], ws, State(0, true), 4) == State(3, true)
    ensures Printed([a, b, c, d], ws, State(0, true), 4) == [0, 2, 3]
  {
    var sched: seq<nat> := [a, b, c, d];
    var s0 := State(0, true);
    assert StateAt(sched, ws, s0, 1) == State(1, true);
    assert StateAt(sched, ws, s0, 2) == State(1, false);
    assert StateAt(sched, ws, s0, 3) == State(2, true);
    assert StateAt(sched, ws, s0, 4) == State(3, true);
    assert Printed(sched, ws, s0, 1) == [0];
    assert Printed(sched, ws, s0, 2) == [0];
    assert Printed(sched, ws, s0, 3) == [0, 2];
  }

  /** Second pass: only `d` matches; after it every position is matched and the flag falls. */
  lemma ScenarioSecondPass(ws: seq<Visit>, a: nat, b: nat, c: nat, d: nat)
    requires ReorderedWalk(ws, a, b, c, d)
    ensures StateAt([a, b, c, d], ws, State(3, false), 4) == State(4, false)
    ensures Printed([a, b, c, d], ws, State(3, false), 4) == [1]
  {
    var sched: seq<nat> := [a, b, c, d];
    var s0 := State(3, false);
    assert StateAt(sched, ws, s0, 1) == State(3, false);
    assert StateAt(sched, ws, s0, 2) == State(4, true);
    assert StateAt(sched, ws, s0, 3) == State(4, false);
    assert StateAt(sched, ws, s0, 4) == State(4, false);
    assert Printed(sched, ws, s0, 1) == [];
    assert Printed(sched, ws, s0, 2) == [1];
    assert Printed(sched, ws, s0, 3) == [1];
  }

  lemma ScenarioPasses(ws: seq<Visit>, a: nat, b: nat, c: nat, d: nat)
    requires ReorderedWalk(ws, a, b, c, d)
    requires Scheduled([a, b, c, d], ws)
    ensures Passes([a, b, c, d], ws, State(0, true)) == [[0, 2, 3], [1]]
  {
    var sched: seq<nat> := [a, b, c, d];
    ScenarioFirstPass(ws, a, b, c, d);
    ScenarioSecondPass(ws, a, b, c, d);
    PassesUnfold(sched, ws, State(0, true));
    PassesUnfold(sched, ws, State(3, false));
    assert Passes(sched, ws, State(4, false)) == [];
  }

  /** The reconstruction runs its passes over the sorted positions, starting with the flag up. */
  lemma ReconstructWith(ws: seq<Visit>, sched: seq<nat>)
    requires Sort(PositionsOf(ws)) == sched
    ensures Scheduled(sched, ws)
    ensures Reconstruct(ws) == Passes(sched, ws, State(0, true))
  {
    SortIsScheduled(ws);
  }

  /**
   A reordered document: the root (position `a`) holds a table `d` that was
   moved ahead of table `b`, and `b` holds `b.c`; the walk meets positions
   `a`, `d`, `b`, `c`. The reconstruction takes two passes and writes the root,
   `b`, `b.c`, then `d`, as in the source file.
   */
  lemma ReorderedScenario(ws: seq<Visit>, a: nat, b: nat, c: nat, d: nat)
    requires ReorderedWalk(ws, a, b, c, d)
    ensures Reconstruct(ws) == [[0, 2, 3], [1]]
    ensures Flatten(Reconstruct(ws)) == [0, 2, 3, 1]
  {
    ScenarioSchedule(ws, a, b, c, d);
    ReconstructWith(ws, [a, b, c, d]);
    ScenarioPasses(ws, a, b, c, d);
    FlattenTwo([0, 2, 3], [1]);
  }

  lemma ScenarioSchedule(ws: seq<Visit>, a: nat, b: nat, c: nat, d: nat)
    requires ReorderedWalk(ws, a, b, c, d)
    ensures Sort(PositionsOf(ws)) == [a, b, c, d]
  {
    ScenarioPositions(ws, a, b, c, d);
    ScenarioSort(PositionsOf(ws), a, b, c, d);
  }

  lemma FlattenTwo(p: seq<nat>, q: seq<nat>)
    ensures Flatten([p, q]) == p + q
  {
    FlattenCons(p, [q]);
    FlattenCons(q, []);
  }

  // ---------------------------------------------------------------------------
  // The algorithm as the library runs it

  /** Passes from a state with a position left: one pass, then the rest from the state it ends in. */
  lemma PassesUnfold(sched: seq<nat>, ws: seq<Visit>, s: State)
    requires s.cursor < |sched|
    requires Scheduled(sched, ws)
    ensures s.cursor < StateAt(sched, ws, s, |ws|).cursor <= |sched|
    ensures Passes(sched, ws, s)
      == [Printed(sched, ws, s, |ws|)] + Passes(sched, ws, State(StateAt(sched, ws, s, |ws|).cursor, false))
  {
    PassAdvances(sched, ws, s);
  }

  /** The first walk: the positions of the visited tables, in walk order. */
  method CollectPositions(ws: seq<Visit>) returns (positions: seq<nat>)
    ensures positions == PositionsOf(ws)
    ensures forall x :: x in positions <==> exists j :: 0 <= j < |ws| && ws[j].table.position == Some(x)
  {
    positions := [];
    var i := 0;
    while i < |ws|
      invariant i <= |ws|
      invariant positions == PositionsOf(ws[..i])
    {
      if ws[i].table.position.Some? {
        positions := positions + [ws[i].table.position.value];
      }
      PositionsOfSnoc(ws, i + 1);
      i := i + 1;
    }
    assert ws[..i] == ws;
    forall x | x in positions
      ensures exists j :: 0 <= j < |ws| && ws[j].table.position == Some(x)
    {
      PositionHeld(ws, x);
    }
    forall x, j | 0 <= j < |ws| && ws[j].table.position == Some(x)
      ensures x in positions
    {
      PositionsOfPrefix(ws, j + 1);
      PositionsOfSnoc(ws, j + 1);
    }
  }

  /**
   One walk of the reconstruction: the callback's decisions for every visit,
   starting from `cursor` and `shouldPrint`. Returns the state after the walk and
   the indices written.
   */
  method RunPass(sched: seq<nat>, ws: seq<Visit>, cursor0: nat, shouldPrint0: bool)
    returns (cursor: nat, shouldPrint: bool, emitted: seq<nat>)
    requires cursor0 <= |sched|
    ensures State(cursor, shouldPrint) == StateAt(sched, ws, State(cursor0, shouldPrint0), |ws|)
    ensures emitted == Printed(sched, ws, State(cursor0, shouldPrint0), |ws|)
    ensures cursor0 <= cursor <= |sched|
    ensures Indices(ws, emitted)
    ensures PositionsAt(ws, emitted) == sched[cursor0..cursor]
  {
    ghost var start := State(cursor0, shouldPrint0);
    cursor, shouldPrint := cursor0, shouldPrint0;
    emitted := [];
    var j := 0;
    while j < |ws|
      invariant j <= |ws|
      invariant State(cursor, shouldPrint) == StateAt(sched, ws, start, j)
      invariant emitted == Printed(sched, ws, start, j)
    {
      var t := ws[j].table;
      if cursor >= |sched| && !shouldPrint {
        // every position matched and the flag down: the callback returns at once
      } else {
        if t.position.Some? {
          if cursor < |sched| && t.position.value == sched[cursor] {
            cursor := cursor + 1;
            shouldPrint := true;
          } else {
            shouldPrint := false;
          }
        }
        if shouldPrint {
          emitted := emitted + [j];
        }
      }
      j := j + 1;
    }
    PassMatchesSchedule(sched, ws, start, |ws|);
  }

  /**
   The reconstruction loop: one walk collects the positions, which are sorted;
   then walks repeat while a position is left to match, carrying the cursor and
   the flag from table to table and lowering the flag after each walk. Returns
   the walk indices in the order the callback receives them.
   */
  method VisitInOriginalOrder(ws: seq<Visit>) returns (order: seq<nat>)
    ensures order == Flatten(Reconstruct(ws))
    ensures Indices(ws, order)
    ensures PositionsAt(ws, order) == Sort(PositionsOf(ws))
    ensures PositionsOf(ws) == [] ==> order == []
  {
    var positions := CollectPositions(ws);
    var sched := Sort(positions);
    SortIsScheduled(ws);

    var cursor: nat := 0;
    var shouldPrint := true;
    order := [];
    while cursor < |sched|
      invariant cursor <= |sched|
      invariant shouldPrint ==> cursor == 0
      invariant order + Flatten(Passes(sched, ws, State(cursor, shouldPrint))) == Flatten(Reconstruct(ws))
      decreases |sched| - cursor
    {
      ghost var start := State(cursor, shouldPrint);
      var emitted;
      PassesUnfold(sched, ws, start);
      cursor, shouldPrint, emitted := RunPass(sched, ws, cursor, shouldPrint);
      FlattenCons(emitted, Passes(sched, ws, State(cursor, false)));
      order := order + emitted;
      shouldPrint := false;
    }
    ReconstructInPositionOrder(ws);
  }
}

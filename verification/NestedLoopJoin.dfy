/** The nested loop join (`src/executor/nested_loop_join.rs`): INNER, LEFT and
  * FULL, against a list definition of the joins.
  */
module NestedLoopJoin {
  import opened Options
  import opened Values
  import opened Rows
  import opened Streams
  import opened QueryBudget

  datatype Kind = Inner | Left | Full

  datatype Side = LeftSide | RightSide

  /** An output column: which input, which position. */
  datatype Column = Column(side: Side, index: nat)

  /** `test` is the ON predicate of a left and a right row. */
  datatype Join = Join(kind: Kind, test: (Row, Row) -> Truth, columns: seq<Column>)

  // ---------- output rows ----------

  function OutputRow(j: Join, left: Option<Row>, right: Option<Row>): Row {
    seq(|j.columns|, i requires 0 <= i < |j.columns| =>
      Cell(if j.columns[i].side == LeftSide then left else right, j.columns[i].index))
  }

  // ---------- the join as lists ----------

  /** The pairs of one left row with the right rows from position `from` on. */
  function Pairs(j: Join, left: Row, rights: seq<Row>, from: nat): Outcome
    decreases |rights| - from
  {
    if from >= |rights| then Outcome([], None)
    else match j.test(left, rights[from])
      case Holds => Prepend([OutputRow(j, Some(left), Some(rights[from]))], Pairs(j, left, rights, from + 1))
      case Fails => Pairs(j, left, rights, from + 1)
      case Errs => Outcome([], Some(PredicateFailed))
  }

  /** The right rows a left row matches; only FULL keeps track of them. */
  function Hits(j: Join, left: Row, rights: seq<Row>, from: nat): set<nat> {
    if j.kind != Full then {} else set i | from <= i < |rights| && j.test(left, rights[i]) == Holds
  }

  /** The single row that stands for an unmatched left row. */
  function Alone(j: Join, left: Row, matched: bool): seq<Row> {
    if j.kind != Inner && !matched then [OutputRow(j, Some(left), None)] else []
  }

  /** The right rows from `from` on that no left row matched. */
  function Leftovers(j: Join, rights: seq<Row>, matched: set<nat>, from: nat): seq<Row>
    decreases |rights| - from
  {
    if j.kind != Full || from >= |rights| then []
    else (if from in matched then [] else [OutputRow(j, None, Some(rights[from]))])
         + Leftovers(j, rights, matched, from + 1)
  }

  /** The rest of the join when `lefts` is still to come and `matched` right rows
    * have found a partner. */
  function Rest(j: Join, lefts: Outcome, rights: seq<Row>, matched: set<nat>, from: nat): Outcome
    decreases |lefts.rows|, 1
  {
    if lefts.rows == [] then
      if lefts.error.Some? then lefts else Outcome(Leftovers(j, rights, matched, from), None)
    else
      var left := lefts.rows[0];
      RestOfLeft(j, left, rights, matched, 0, false, Outcome(lefts.rows[1..], lefts.error), from)
  }

  /** The same in the middle of a left row, at right position `at`. */
  function RestOfLeft(j: Join, left: Row, rights: seq<Row>, matched: set<nat>, at: nat, hit: bool, lefts: Outcome,
                      from: nat): Outcome
    decreases |lefts.rows| + 1, 0
  {
    var pairs := Pairs(j, left, rights, at);
    if pairs.error.Some? then pairs
    else Prepend(pairs.rows + Alone(j, left, hit || pairs.rows != []),
                 Rest(j, lefts, rights, matched + Hits(j, left, rights, at), from))
  }

  /** The whole join of two inputs. */
  function Joined(j: Join, lefts: Outcome, rights: Outcome): Outcome {
    if rights.error.Some? then Outcome([], rights.error) else Rest(j, lefts, rights.rows, {}, 0)
  }

  // ---------- what the lists say ----------

  /** No predicate evaluation goes wrong. */
  ghost predicate TestsFine(j: Join, lefts: seq<Row>, rights: seq<Row>) {
    forall l, r :: l in lefts && r in rights ==> j.test(l, r) != Errs
  }

  /** The matches of a left row, in right order. */
  function Matching(j: Join, left: Row, rights: seq<Row>): seq<Row> {
    if rights == [] then []
    else (if j.test(left, rights[0]) == Holds then [OutputRow(j, Some(left), Some(rights[0]))] else [])
         + Matching(j, left, rights[1..])
  }

  /** Everything a left row gives rise to. */
  function LeftPart(j: Join, left: Row, rights: seq<Row>): seq<Row> {
    var m := Matching(j, left, rights);
    if m == [] && j.kind != Inner then [OutputRow(j, Some(left), None)] else m
  }

  function LeftParts(j: Join, lefts: seq<Row>, rights: seq<Row>): seq<Row> {
    if lefts == [] then [] else LeftPart(j, lefts[0], rights) + LeftParts(j, lefts[1..], rights)
  }

  ghost predicate HasPartner(j: Join, lefts: seq<Row>, right: Row) {
    exists l :: l in lefts && j.test(l, right) == Holds
  }

  /** For FULL, `matched` holds the right rows with a partner so far. */
  ghost predicate Tracks(j: Join, lefts: seq<Row>, rights: seq<Row>, matched: set<nat>) {
    j.kind == Full ==> forall i :: 0 <= i < |rights| ==> (i in matched <==> HasPartner(j, lefts, rights[i]))
  }

  /** The right rows without a partner, in right order. */
  ghost function RightPart(j: Join, lefts: seq<Row>, rights: seq<Row>): seq<Row> {
    if j.kind != Full || rights == [] then []
    else (if HasPartner(j, lefts, rights[0]) then [] else [OutputRow(j, None, Some(rights[0]))])
         + RightPart(j, lefts, rights[1..])
  }

  lemma {:induction false} PairsAreMatching(j: Join, left: Row, rights: seq<Row>, from: nat)
    requires from <= |rights| && TestsFine(j, [left], rights)
    ensures Pairs(j, left, rights, from) == Outcome(Matching(j, left, rights[from..]), None)
    decreases |rights| - from
  {
    if from < |rights| {
      assert left in [left] && rights[from] in rights;
      assert rights[from..][1..] == rights[from + 1..];
      PairsAreMatching(j, left, rights, from + 1);
    }
  }

  lemma {:induction false} LeftoversAreUnmatched(j: Join, lefts: seq<Row>, rights: seq<Row>, matched: set<nat>,
                                                 from: nat)
    requires from <= |rights|
    requires Tracks(j, lefts, rights, matched)
    ensures Leftovers(j, rights, matched, from) == RightPart(j, lefts, rights[from..])
    decreases |rights| - from
  {
    if from < |rights| && j.kind == Full {
      assert rights[from..][1..] == rights[from + 1..];
      LeftoversAreUnmatched(j, lefts, rights, matched, from + 1);
    }
  }

  lemma {:induction false} RestIsParts(j: Join, done: seq<Row>, lefts: seq<Row>, rights: seq<Row>, matched: set<nat>)
    requires TestsFine(j, lefts, rights)
    requires Tracks(j, done, rights, matched)
    ensures Rest(j, Outcome(lefts, None), rights, matched, 0)
            == Outcome(LeftParts(j, lefts, rights) + RightPart(j, done + lefts, rights), None)
    decreases |lefts|
  {
    LeftPartsStep(j, lefts, rights);
    hide *;
    if lefts == [] {
      NoLefts(j, done, rights, matched);
      assert done + lefts == done;
    } else {
      var left, tail := lefts[0], lefts[1..];
      var matched' := matched + Hits(j, left, rights, 0);
      HitsArePartners(j, done, left, rights, matched);
      FirstLeftPart(j, lefts, rights, matched);
      TestsFineTail(j, lefts, rights);
      RestIsParts(j, done + [left], tail, rights, matched');
      assert (done + [left]) + tail == done + lefts;
      Compose(Rest(j, Outcome(lefts, None), rights, matched, 0), Rest(j, Outcome(tail, None), rights, matched', 0),
              LeftPart(j, left, rights), LeftParts(j, tail, rights), RightPart(j, done + lefts, rights));
    }
  }

  lemma LeftPartsStep(j: Join, lefts: seq<Row>, rights: seq<Row>)
    ensures LeftParts(j, lefts, rights) ==
            if lefts == [] then [] else LeftPart(j, lefts[0], rights) + LeftParts(j, lefts[1..], rights)
  {
  }

  lemma Compose(whole: Outcome, rest: Outcome, a: seq<Row>, b: seq<Row>, c: seq<Row>)
    requires whole == Prepend(a, rest) && rest == Outcome(b + c, None)
    ensures whole == Outcome((a + b) + c, None)
  {
    assert a + (b + c) == (a + b) + c;
  }

  lemma NoLefts(j: Join, done: seq<Row>, rights: seq<Row>, matched: set<nat>)
    requires Tracks(j, done, rights, matched)
    ensures Rest(j, Outcome([], None), rights, matched, 0) == Outcome([] + RightPart(j, done, rights), None)
  {
    LeftoversAreUnmatched(j, done, rights, matched, 0);
    assert rights[0..] == rights;
  }

  lemma TestsFineTail(j: Join, lefts: seq<Row>, rights: seq<Row>)
    requires lefts != [] && TestsFine(j, lefts, rights)
    ensures TestsFine(j, lefts[1..], rights)
  {
  }

  lemma HitsArePartners(j: Join, done: seq<Row>, left: Row, rights: seq<Row>, matched: set<nat>)
    requires Tracks(j, done, rights, matched)
    ensures Tracks(j, done + [left], rights, matched + Hits(j, left, rights, 0))
  {
    forall i | 0 <= i < |rights| && j.kind == Full
      ensures i in matched + Hits(j, left, rights, 0) <==> HasPartner(j, done + [left], rights[i])
    {
      PartnerStep(j, done, left, rights[i]);
    }
  }

  lemma FirstLeftPart(j: Join, lefts: seq<Row>, rights: seq<Row>, matched: set<nat>)
    requires lefts != [] && TestsFine(j, lefts, rights)
    ensures Rest(j, Outcome(lefts, None), rights, matched, 0)
            == Prepend(LeftPart(j, lefts[0], rights),
                       Rest(j, Outcome(lefts[1..], None), rights, matched + Hits(j, lefts[0], rights, 0), 0))
  {
    assert TestsFine(j, [lefts[0]], rights);
    PairsAreMatching(j, lefts[0], rights, 0);
    assert rights[0..] == rights;
    hide Pairs, Matching, Hits, OutputRow;
  }

  lemma PartnerStep(j: Join, done: seq<Row>, left: Row, right: Row)
    ensures HasPartner(j, done + [left], right) <==> HasPartner(j, done, right) || j.test(left, right) == Holds
  {
    if HasPartner(j, done, right) {
      var l :| l in done && j.test(l, right) == Holds;
      assert l in done + [left];
    }
    if j.test(left, right) == Holds {
      assert left in done + [left];
    }
  }

  /** The outer joins are exact: each left row, in order, gives its matches in
    * right order or (LEFT, FULL) itself once with NULLs; then (FULL) each right
    * row without a partner comes once, in right order. */
  lemma JoinIsExact(j: Join, lefts: seq<Row>, rights: seq<Row>)
    requires TestsFine(j, lefts, rights)
    ensures Joined(j, Outcome(lefts, None), Outcome(rights, None))
            == Outcome(LeftParts(j, lefts, rights) + RightPart(j, lefts, rights), None)
  {
    RestIsParts(j, [], lefts, rights, {});
    assert [] + lefts == lefts;
  }

  // ---------- where each row comes from ----------

  /** The left and the right row behind an output row. */
  datatype Origin = Origin(left: Option<nat>, right: Option<nat>)

  /** A value of the row at a position; NULL without a row or a column. */
  predicate Takes(rows: seq<Row>, at: Option<nat>, index: nat, v: Value) {
    if at.Some? && at.value < |rows| && index < |rows[at.value]| then v == rows[at.value][index] else v == Null
  }

  predicate ColumnIs(column: Column, lefts: seq<Row>, rights: seq<Row>, o: Origin, v: Value) {
    match column.side
    case LeftSide => Takes(lefts, o.left, column.index, v)
    case RightSide => Takes(rights, o.right, column.index, v)
  }

  /** Every column is that of the side it names. */
  predicate Combines(j: Join, lefts: seq<Row>, rights: seq<Row>, o: Origin, out: Row) {
    |out| == |j.columns| && forall c :: 0 <= c < |out| ==> ColumnIs(j.columns[c], lefts, rights, o, out[c])
  }

  /** A pair that matches; a left row that matches nothing, for LEFT and FULL; a
    * right row that matches nothing, for FULL. */
  ghost predicate Belongs(j: Join, lefts: seq<Row>, rights: seq<Row>, o: Origin) {
    match o
    case Origin(Some(i), Some(k)) => i < |lefts| && k < |rights| && j.test(lefts[i], rights[k]) == Holds
    case Origin(Some(i), None) =>
      j.kind != Inner && i < |lefts| && forall k :: 0 <= k < |rights| ==> j.test(lefts[i], rights[k]) != Holds
    case Origin(None, Some(k)) =>
      j.kind == Full && k < |rights| && forall i :: 0 <= i < |lefts| ==> j.test(lefts[i], rights[k]) != Holds
    case Origin(None, None) => false
  }

  /** By left position, then right position; what has no left row comes last. */
  predicate Earlier(a: Origin, b: Origin) {
    if a.left.None? then b.left.None? && a.right.Some? && b.right.Some? && a.right.value < b.right.value
    else || b.left.None? || a.left.value < b.left.value
         || (a.left == b.left && a.right.Some? && b.right.Some? && a.right.value < b.right.value)
  }

  ghost predicate InOrder(os: seq<Origin>) {
    forall a, b :: 0 <= a < b < |os| ==> Earlier(os[a], os[b])
  }

  ghost predicate AllCombine(j: Join, lefts: seq<Row>, rights: seq<Row>, os: seq<Origin>, out: seq<Row>) {
    |os| == |out| && forall n :: 0 <= n < |os| ==> Combines(j, lefts, rights, os[n], out[n])
  }

  lemma OutputRowCombines(j: Join, lefts: seq<Row>, rights: seq<Row>, o: Origin)
    requires (o.left.Some? ==> o.left.value < |lefts|) && (o.right.Some? ==> o.right.value < |rights|)
    ensures Combines(j, lefts, rights, o,
                     OutputRow(j, if o.left.Some? then Some(lefts[o.left.value]) else None,
                               if o.right.Some? then Some(rights[o.right.value]) else None))
  {
  }

  lemma BothCombine(j: Join, lefts: seq<Row>, rights: seq<Row>, os: seq<Origin>, out: seq<Row>, os': seq<Origin>,
                    out': seq<Row>)
    requires AllCombine(j, lefts, rights, os, out) && AllCombine(j, lefts, rights, os', out')
    ensures AllCombine(j, lefts, rights, os + os', out + out')
  {
    hide Combines;
  }

  lemma BothInOrder(os: seq<Origin>, os': seq<Origin>)
    requires InOrder(os) && InOrder(os') && forall a, b :: a in os && b in os' ==> Earlier(a, b)
    ensures InOrder(os + os')
  {
  }

  function MatchOrigins(j: Join, lefts: seq<Row>, rights: seq<Row>, i: nat, from: nat): seq<Origin>
    requires i < |lefts|
    decreases |rights| - from
  {
    if from >= |rights| then []
    else (if j.test(lefts[i], rights[from]) == Holds then [Origin(Some(i), Some(from))] else [])
         + MatchOrigins(j, lefts, rights, i, from + 1)
  }

  lemma {:induction false} MatchesCombine(j: Join, lefts: seq<Row>, rights: seq<Row>, i: nat, from: nat)
    requires i < |lefts| && from <= |rights|
    ensures AllCombine(j, lefts, rights, MatchOrigins(j, lefts, rights, i, from),
                       Matching(j, lefts[i], rights[from..]))
    decreases |rights| - from
  {
    if from < |rights| {
      assert rights[from..][1..] == rights[from + 1..];
      MatchesCombine(j, lefts, rights, i, from + 1);
      var o := Origin(Some(i), Some(from));
      OutputRowCombines(j, lefts, rights, o);
      hide OutputRow, Combines;
      var hit := j.test(lefts[i], rights[from]) == Holds;
      var row := OutputRow(j, Some(lefts[i]), Some(rights[from]));
      BothCombine(j, lefts, rights, if hit then [o] else [], if hit then [row] else [],
                  MatchOrigins(j, lefts, rights, i, from + 1), Matching(j, lefts[i], rights[from + 1..]));
    }
  }

  lemma {:induction false} MatchOriginsAre(j: Join, lefts: seq<Row>, rights: seq<Row>, i: nat, from: nat)
    requires i < |lefts| && from <= |rights|
    ensures InOrder(MatchOrigins(j, lefts, rights, i, from))
    ensures forall o :: o in MatchOrigins(j, lefts, rights, i, from) <==>
              o.left == Some(i) && o.right.Some? && from <= o.right.value && Belongs(j, lefts, rights, o)
    decreases |rights| - from
  {
    if from < |rights| {
      MatchOriginsAre(j, lefts, rights, i, from + 1);
    }
  }

  function PartOrigins(j: Join, lefts: seq<Row>, rights: seq<Row>, i: nat): seq<Origin>
    requires i < |lefts|
  {
    var m := MatchOrigins(j, lefts, rights, i, 0);
    if m == [] && j.kind != Inner then [Origin(Some(i), None)] else m
  }

  lemma PartCombines(j: Join, lefts: seq<Row>, rights: seq<Row>, i: nat)
    requires i < |lefts|
    ensures AllCombine(j, lefts, rights, PartOrigins(j, lefts, rights, i), LeftPart(j, lefts[i], rights))
  {
    MatchesCombine(j, lefts, rights, i, 0);
    assert rights[0..] == rights;
    OutputRowCombines(j, lefts, rights, Origin(Some(i), None));
    hide Combines, OutputRow, Matching, MatchOrigins;
  }

  lemma PartOriginsAre(j: Join, lefts: seq<Row>, rights: seq<Row>, i: nat)
    requires i < |lefts|
    ensures InOrder(PartOrigins(j, lefts, rights, i))
    ensures forall o :: o in PartOrigins(j, lefts, rights, i) <==> o.left == Some(i) && Belongs(j, lefts, rights, o)
  {
    MatchOriginsAre(j, lefts, rights, i, 0);
    hide MatchOrigins;
    var m := MatchOrigins(j, lefts, rights, i, 0);
    if k :| 0 <= k < |rights| && j.test(lefts[i], rights[k]) == Holds {
      assert Belongs(j, lefts, rights, Origin(Some(i), Some(k)));
      assert Origin(Some(i), Some(k)) in m;
    } else {
      assert m != [] ==> Belongs(j, lefts, rights, m[0]);
    }
  }

  function LeftOrigins(j: Join, lefts: seq<Row>, rights: seq<Row>, i: nat): seq<Origin>
    decreases |lefts| - i
  {
    if i >= |lefts| then [] else PartOrigins(j, lefts, rights, i) + LeftOrigins(j, lefts, rights, i + 1)
  }

  lemma {:induction false} LeftOriginsAre(j: Join, lefts: seq<Row>, rights: seq<Row>, i: nat)
    requires i <= |lefts|
    ensures AllCombine(j, lefts, rights, LeftOrigins(j, lefts, rights, i), LeftParts(j, lefts[i..], rights))
    ensures InOrder(LeftOrigins(j, lefts, rights, i))
    ensures forall o :: o in LeftOrigins(j, lefts, rights, i) <==>
              o.left.Some? && i <= o.left.value && Belongs(j, lefts, rights, o)
    decreases |lefts| - i
  {
    if i < |lefts| {
      PartCombines(j, lefts, rights, i);
      PartOriginsAre(j, lefts, rights, i);
      assert lefts[i..][1..] == lefts[i + 1..];
      LeftOriginsAre(j, lefts, rights, i + 1);
      hide AllCombine, InOrder, Belongs, PartOrigins, LeftPart;
      var part, rest := PartOrigins(j, lefts, rights, i), LeftOrigins(j, lefts, rights, i + 1);
      BothCombine(j, lefts, rights, part, LeftPart(j, lefts[i], rights), rest, LeftParts(j, lefts[i + 1..], rights));
      BothInOrder(part, rest);
      assert LeftOrigins(j, lefts, rights, i) == part + rest;
    } else {
      NoOrigins(j, lefts, rights);
    }
  }

  lemma NoOrigins(j: Join, lefts: seq<Row>, rights: seq<Row>)
    ensures lefts[|lefts|..] == [] && LeftParts(j, [], rights) == []
    ensures AllCombine(j, lefts, rights, [], []) && InOrder([])
    ensures forall o: Origin :: o.left.Some? && |lefts| <= o.left.value ==> !Belongs(j, lefts, rights, o)
  {
  }

  function RightOrigins(j: Join, lefts: seq<Row>, rights: seq<Row>, from: nat): seq<Origin>
    decreases |rights| - from
  {
    if j.kind != Full || from >= |rights| then []
    else (if exists l :: l in lefts && j.test(l, rights[from]) == Holds then [] else [Origin(None, Some(from))])
         + RightOrigins(j, lefts, rights, from + 1)
  }

  lemma {:induction false} RightOriginsAre(j: Join, lefts: seq<Row>, rights: seq<Row>, from: nat)
    requires from <= |rights|
    ensures AllCombine(j, lefts, rights, RightOrigins(j, lefts, rights, from), RightPart(j, lefts, rights[from..]))
    ensures InOrder(RightOrigins(j, lefts, rights, from))
    ensures forall o :: o in RightOrigins(j, lefts, rights, from) <==>
              o.left.None? && o.right.Some? && from <= o.right.value && Belongs(j, lefts, rights, o)
    decreases |rights| - from
  {
    if from < |rights| && j.kind == Full {
      assert rights[from..][1..] == rights[from + 1..];
      RightOriginsAre(j, lefts, rights, from + 1);
      var o := Origin(None, Some(from));
      OutputRowCombines(j, lefts, rights, o);
      PartnerIsBelonging(j, lefts, rights, from);
      hide OutputRow, Combines, Belongs;
      var hit := HasPartner(j, lefts, rights[from]);
      var rest := RightOrigins(j, lefts, rights, from + 1);
      BothCombine(j, lefts, rights, if hit then [] else [o],
                  if hit then [] else [OutputRow(j, None, Some(rights[from]))],
                  rest, RightPart(j, lefts, rights[from + 1..]));
      BothInOrder(if hit then [] else [o], rest);
      assert RightOrigins(j, lefts, rights, from) == (if hit then [] else [o]) + rest;
    }
  }

  lemma PartnerIsBelonging(j: Join, lefts: seq<Row>, rights: seq<Row>, k: nat)
    requires j.kind == Full && k < |rights|
    ensures HasPartner(j, lefts, rights[k]) <==> !Belongs(j, lefts, rights, Origin(None, Some(k)))
  {
    if HasPartner(j, lefts, rights[k]) {
      var l :| l in lefts && j.test(l, rights[k]) == Holds;
      var i :| 0 <= i < |lefts| && lefts[i] == l;
    }
  }

  /** The join, row by row and column by column: its rows come from exactly the
    * pairs that match and, for the outer joins, the rows that match nothing; each
    * once, by left and then right position, leftover right rows last; and every
    * column is the one named of the side named, NULL where that row is missing. */
  lemma JoinOrigins(j: Join, lefts: seq<Row>, rights: seq<Row>) returns (os: seq<Origin>)
    requires TestsFine(j, lefts, rights)
    ensures AllCombine(j, lefts, rights, os, Joined(j, Outcome(lefts, None), Outcome(rights, None)).rows)
    ensures InOrder(os) && forall o :: o in os <==> Belongs(j, lefts, rights, o)
  {
    JoinIsExact(j, lefts, rights);
    LeftOriginsAre(j, lefts, rights, 0);
    RightOriginsAre(j, lefts, rights, 0);
    assert lefts[0..] == lefts && rights[0..] == rights;
    var a, b := LeftOrigins(j, lefts, rights, 0), RightOrigins(j, lefts, rights, 0);
    hide AllCombine, InOrder, Joined, LeftOrigins, RightOrigins, LeftParts, RightPart;
    os := a + b;
    BothCombine(j, lefts, rights, a, LeftParts(j, lefts, rights), b, RightPart(j, lefts, rights));
    BothInOrder(a, b);
    assert forall o :: o in os <==> o in a || o in b;
  }

  // ---------- errors ----------

  ghost predicate SomeTestErrs(j: Join, lefts: seq<Row>, rights: seq<Row>) {
    exists l, r :: l in lefts && r in rights && j.test(l, r) == Errs
  }

  lemma {:induction false} PairsErr(j: Join, left: Row, rights: seq<Row>, from: nat)
    ensures Pairs(j, left, rights, from).error ==
            if exists k :: from <= k < |rights| && j.test(left, rights[k]) == Errs then Some(PredicateFailed) else None
    decreases |rights| - from
  {
    if from < |rights| {
      PairsErr(j, left, rights, from + 1);
    }
  }

  lemma {:induction false} RestErrs(j: Join, lefts: Outcome, rights: seq<Row>, matched: set<nat>)
    ensures Rest(j, lefts, rights, matched, 0).error ==
            if SomeTestErrs(j, lefts.rows, rights) then Some(PredicateFailed) else lefts.error
    decreases |lefts.rows|
  {
    if lefts.rows != [] {
      var left, tail := lefts.rows[0], lefts.rows[1..];
      PairsErr(j, left, rights, 0);
      RestErrs(j, Outcome(tail, lefts.error), rights, matched + Hits(j, left, rights, 0));
      ErrsStep(j, lefts.rows, rights);
      hide Pairs, Hits, SomeTestErrs, Alone;
    }
  }

  lemma ErrsStep(j: Join, lefts: seq<Row>, rights: seq<Row>)
    requires lefts != []
    ensures SomeTestErrs(j, lefts, rights) <==>
            || (exists k :: 0 <= k < |rights| && j.test(lefts[0], rights[k]) == Errs)
            || SomeTestErrs(j, lefts[1..], rights)
  {
    if SomeTestErrs(j, lefts, rights) {
      var l, r :| l in lefts && r in rights && j.test(l, r) == Errs;
      if l !in lefts[1..] {
        assert l == lefts[0];
        var k :| 0 <= k < |rights| && rights[k] == r;
      }
    }
    if k :| 0 <= k < |rights| && j.test(lefts[0], rights[k]) == Errs {
      assert lefts[0] in lefts && rights[k] in rights;
    }
  }

  /** How a join ends: with the right input's error, else with a failed predicate on
    * any pair of rows read, else as the left input does. */
  lemma JoinError(j: Join, lefts: Outcome, rights: Outcome)
    ensures Joined(j, lefts, rights).error ==
            if rights.error.Some? then rights.error
            else if SomeTestErrs(j, lefts.rows, rights.rows) then Some(PredicateFailed)
            else lefts.error
  {
    if rights.error.None? {
      RestErrs(j, lefts, rights.rows, {});
    }
  }

  function Matches(j: Join, left: Row, rights: seq<Row>): nat {
    if rights == [] then 0 else (if j.test(left, rights[0]) == Holds then 1 else 0) + Matches(j, left, rights[1..])
  }

  /** Rows a left row contributes: its matches, or one for LEFT and FULL. */
  function LeftCount(j: Join, lefts: seq<Row>, rights: seq<Row>): nat {
    if lefts == [] then 0
    else
      var m := Matches(j, lefts[0], rights);
      (if m == 0 && j.kind != Inner then 1 else m) + LeftCount(j, lefts[1..], rights)
  }

  ghost function RightCount(j: Join, lefts: seq<Row>, rights: seq<Row>): nat {
    if j.kind != Full || rights == [] then 0
    else (if HasPartner(j, lefts, rights[0]) then 0 else 1) + RightCount(j, lefts, rights[1..])
  }

  lemma {:induction false} MatchingCount(j: Join, left: Row, rights: seq<Row>)
    ensures |Matching(j, left, rights)| == Matches(j, left, rights)
  {
    if rights != [] {
      MatchingCount(j, left, rights[1..]);
    }
  }

  lemma {:induction false} LeftPartsCount(j: Join, lefts: seq<Row>, rights: seq<Row>)
    ensures |LeftParts(j, lefts, rights)| == LeftCount(j, lefts, rights)
  {
    if lefts != [] {
      MatchingCount(j, lefts[0], rights);
      LeftPartsCount(j, lefts[1..], rights);
    }
  }

  lemma {:induction false} RightPartCount(j: Join, lefts: seq<Row>, rights: seq<Row>)
    ensures |RightPart(j, lefts, rights)| == RightCount(j, lefts, rights)
  {
    if rights != [] && j.kind == Full {
      RightPartCount(j, lefts, rights[1..]);
    }
  }

  /** The number of rows of a join. */
  lemma JoinCount(j: Join, lefts: seq<Row>, rights: seq<Row>)
    requires TestsFine(j, lefts, rights)
    ensures |Joined(j, Outcome(lefts, None), Outcome(rights, None)).rows|
            == LeftCount(j, lefts, rights) + RightCount(j, lefts, rights)
  {
    JoinIsExact(j, lefts, rights);
    LeftPartsCount(j, lefts, rights);
    RightPartCount(j, lefts, rights);
  }

  // ---------- one move at a time ----------

  lemma RightFails(j: Join, left: Row, rights: seq<Row>, matched: set<nat>, at: nat, hit: bool, lefts: Outcome,
                   from: nat)
    requires at < |rights| && j.test(left, rights[at]) == Fails
    ensures RestOfLeft(j, left, rights, matched, at, hit, lefts, from)
            == RestOfLeft(j, left, rights, matched, at + 1, hit, lefts, from)
  {
    assert Hits(j, left, rights, at) == Hits(j, left, rights, at + 1);
  }

  lemma RightHolds(j: Join, left: Row, rights: seq<Row>, matched: set<nat>, matched': set<nat>, at: nat, hit: bool,
                   lefts: Outcome, from: nat)
    requires at < |rights| && j.test(left, rights[at]) == Holds
    requires matched' == if j.kind == Full then matched + {at} else matched
    ensures var after := RestOfLeft(j, left, rights, matched', at + 1, true, lefts, from);
            var before := RestOfLeft(j, left, rights, matched, at, hit, lefts, from);
            before.rows != [] ==>
            before.rows[0] == OutputRow(j, Some(left), Some(rights[at])) &&
            after == Outcome(before.rows[1..], before.error)
    ensures RestOfLeft(j, left, rights, matched, at, hit, lefts, from).rows != []
  {
    var pairs, more := Pairs(j, left, rights, at), Pairs(j, left, rights, at + 1);
    assert pairs == Prepend([OutputRow(j, Some(left), Some(rights[at]))], more);
    assert matched + Hits(j, left, rights, at) == matched' + Hits(j, left, rights, at + 1);
    hide Pairs, Hits, OutputRow, Rest;
  }

  lemma RightErrs(j: Join, left: Row, rights: seq<Row>, matched: set<nat>, at: nat, hit: bool, lefts: Outcome,
                  from: nat)
    requires at < |rights| && j.test(left, rights[at]) == Errs
    ensures RestOfLeft(j, left, rights, matched, at, hit, lefts, from) == Outcome([], Some(PredicateFailed))
  {
  }

  lemma RightsExhausted(j: Join, left: Row, rights: seq<Row>, matched: set<nat>, hit: bool, lefts: Outcome, from: nat)
    ensures RestOfLeft(j, left, rights, matched, |rights|, hit, lefts, from)
            == Prepend(Alone(j, left, hit), Rest(j, lefts, rights, matched, from))
  {
    assert matched + Hits(j, left, rights, |rights|) == matched;
  }

  // ---------- the executor ----------

  class Executor {
    const join: Join
    const left: Source
    const right: Source
    const budget: Budget
    ghost const others: nat
    var rightRows: seq<Row>
    var materialized: bool
    var currentLeft: Option<Row>
    var rightIndex: nat
    var leftMatched: bool
    var rightMatched: seq<bool>
    var drainIndex: nat

    /** A limited budget has been charged exactly the right rows. */
    ghost predicate Valid()
      reads this, budget
    {
      && left != right && budget.Valid()
      && (budget.limit > 0 ==> budget.used == others + RowsBytes(rightRows))
      && (!materialized ==> currentLeft.None? && rightRows == [] && rightMatched == [] && drainIndex == 0)
      && (materialized && join.kind == Full ==> |rightMatched| == |rightRows|)
      && rightIndex <= |rightRows| && drainIndex <= |rightRows|
    }

    ghost function Marked(): set<nat>
      reads this
    {
      set i | 0 <= i < |rightMatched| && rightMatched[i]
    }

    /** Everything the executor will still produce. */
    ghost function Remaining(): Outcome
      reads this, left, right
    {
      if !materialized then Joined(join, RowsOf(left.items), RowsOf(right.items))
      else if currentLeft.Some? then
        RestOfLeft(join, currentLeft.value, rightRows, Marked(), rightIndex, leftMatched, RowsOf(left.items),
                   drainIndex)
      else Rest(join, RowsOf(left.items), rightRows, Marked(), drainIndex)
    }

    constructor (j: Join, lefts: Source, rights: Source, b: Budget)
      requires lefts != rights && b.Valid()
      ensures join == j && left == lefts && right == rights && budget == b && Valid() && !materialized
      ensures Remaining() == Joined(j, RowsOf(lefts.items), RowsOf(rights.items))
    {
      join, left, right, budget, others := j, lefts, rights, b, b.used;
      rightRows, rightMatched, materialized := [], [], false;
      currentLeft, rightIndex, leftMatched, drainIndex := None, 0, false, 0;
    }

    /** Read the right input to its end, charging every row. */
    method ReadRight() returns (rows: seq<Row>, error: Option<Error>)
      requires left != right && budget.Valid()
      modifies right, budget
      ensures left.items == old(left.items) && budget.Valid()
      ensures error.None? ==>
              && RowsOf(old(right.items)) == Outcome(rows, None)
              && (budget.limit > 0 ==> budget.used == old(budget.used) + RowsBytes(rows))
      ensures error.Some? ==>
              (error == Some(MemoryExceeded) && budget.limit > 0) || error == RowsOf(old(right.items)).error
    {
      rows := [];
      assert Continues(right.items, rows, right.items);
      hide Continues;
      while true
        invariant left.items == old(left.items) && budget.Valid()
        invariant budget.limit > 0 ==> budget.used == old(budget.used) + RowsBytes(rows)
        invariant Continues(old(right.items), rows, right.items)
        decreases |right.items|
      {
        ContinuesStep(old(right.items), rows, right.items);
        var pulled := right.Next();
        match pulled {
          case Exhausted =>
            return rows, None;
          case Got(OtherItem) =>
          case Got(FaultItem(e)) =>
            return rows, Some(e);
          case Got(RowItem(row)) =>
            RowsBytesSnoc(rows, row);
            var ok := budget.Charge(RowBytes(row));
            if !ok {
              return rows, Some(MemoryExceeded);
            }
            rows := rows + [row];
        }
      }
    }

    /** Take in the whole right input. */
    method Materialize() returns (error: Option<Error>)
      requires Valid() && !materialized
      modifies this, right, budget
      ensures error.None? ==> Valid() && materialized && Remaining() == old(Remaining())
      ensures error.Some? ==>
              (error == Some(MemoryExceeded) && budget.limit > 0) || old(Remaining()) == Outcome([], error)
    {
      materialized := true;
      var rows, failed := ReadRight();
      if failed.Some? {
        return failed;
      }
      rightRows := rows;
      if join.kind == Full {
        rightMatched := seq(|rightRows|, _ => false);
      }
      assert Marked() == {};
      return None;
    }

    /** `next_unmatched_right_row`, once the left input is exhausted. */
    method NextUnmatchedRight() returns (row: Option<Row>)
      requires Valid() && materialized && currentLeft.None? && left.items == []
      modifies this`drainIndex
      ensures Valid()
      ensures Peels(old(Remaining()), if row.Some? then Yield(row.value) else Finished, Remaining())
    {
      if join.kind != Full {
        return None;
      }
      while drainIndex < |rightRows|
        invariant Valid() && Remaining() == old(Remaining())
        invariant Remaining() == Outcome(Leftovers(join, rightRows, Marked(), drainIndex), None)
        decreases |rightRows| - drainIndex
      {
        var index := drainIndex;
        drainIndex := drainIndex + 1;
        assert index in Marked() <==> rightMatched[index];
        if rightMatched[index] {
          continue;
        }
        return Some(OutputRow(join, None, Some(rightRows[index])));
      }
      return None;
    }

    /** Try the current left row against the right rows that are left. */
    method Probe() returns (found: Option<Step>)
      requires Valid() && materialized && currentLeft.Some?
      modifies this`rightIndex, this`leftMatched, this`rightMatched
      ensures Valid()
      ensures found.Some? ==> !found.value.Finished? && Peels(old(Remaining()), found.value, Remaining())
      ensures found.None? ==>
              Remaining() == old(Remaining()) && rightIndex == |rightRows| && leftMatched == old(leftMatched)
    {
      hide RestOfLeft, OutputRow, Rest;
      var row := currentLeft.value;
      while rightIndex < |rightRows|
        invariant Valid() && Remaining() == old(Remaining()) && leftMatched == old(leftMatched)
        decreases |rightRows| - rightIndex
      {
        ghost var marked, lefts, at := Marked(), RowsOf(left.items), rightIndex;
        var right := rightRows[rightIndex];
        match join.test(row, right) {
          case Holds =>
            if join.kind == Full {
              rightMatched := rightMatched[rightIndex := true];
            }
            assert Marked() == if join.kind == Full then marked + {at} else marked;
            RightHolds(join, row, rightRows, marked, Marked(), at, leftMatched, lefts, drainIndex);
            rightIndex := rightIndex + 1;
            leftMatched := true;
            return Some(Yield(OutputRow(join, Some(row), Some(right))));
          case Fails =>
            RightFails(join, row, rightRows, marked, at, leftMatched, lefts, drainIndex);
            rightIndex := rightIndex + 1;
          case Errs =>
            RightErrs(join, row, rightRows, marked, at, leftMatched, lefts, drainIndex);
            return Some(Fault(PredicateFailed));
        }
      }
      return None;
    }

    /** Fetch the next left row, or end. */
    method LoadLeft() returns (ended: Option<Step>)
      requires Valid() && materialized && currentLeft.None?
      modifies this, left
      ensures ended.Some? ==> (ended.value.Fault? || Valid()) && Peels(old(Remaining()), ended.value, Remaining())
      ensures ended.None? ==> Valid() && materialized && currentLeft.Some? && Remaining() == old(Remaining())
      ensures ended.None? ==> |left.items| < |old(left.items)|
    {
      while true
        invariant Valid() && materialized && currentLeft.None? && Remaining() == old(Remaining())
        invariant |left.items| <= |old(left.items)|
        decreases |left.items|
      {
        var pulled := left.Next();
        match pulled {
          case Exhausted =>
            var last := NextUnmatchedRight();
            return Some(if last.Some? then Yield(last.value) else Finished);
          case Got(OtherItem) =>
          case Got(FaultItem(e)) =>
            return Some(Fault(e));
          case Got(RowItem(row)) =>
            currentLeft, rightIndex, leftMatched := Some(row), 0, false;
            return None;
        }
      }
    }

    /** Every right row has been tried: an unmatched left row stands alone. */
    method FinishLeft() returns (alone: Option<Step>)
      requires Valid() && materialized && currentLeft.Some? && rightIndex == |rightRows|
      modifies this`currentLeft, this`leftMatched
      ensures Valid()
      ensures alone.Some? ==> Peels(old(Remaining()), alone.value, Remaining())
      ensures alone.None? ==> currentLeft.None? && Remaining() == old(Remaining())
    {
      RightsExhausted(join, currentLeft.value, rightRows, Marked(), leftMatched, RowsOf(left.items), drainIndex);
      if join.kind != Inner && !leftMatched {
        leftMatched := true;
        RightsExhausted(join, currentLeft.value, rightRows, Marked(), leftMatched, RowsOf(left.items), drainIndex);
        return Some(Yield(OutputRow(join, currentLeft, None)));
      }
      currentLeft := None;
      return None;
    }

    /** `next` peels the join: draining it yields exactly the list definition. */
    method Next() returns (step: Step)
      requires Valid()
      modifies this, left, right, budget
      ensures step.Fault? || Valid()
      ensures (step == Fault(MemoryExceeded) && budget.limit > 0) || Peels(old(Remaining()), step, Remaining())
    {
      if !materialized {
        var error := Materialize();
        if error.Some? {
          return Fault(error.value);
        }
      }
      hide Remaining, Peels;
      var found: Option<Step> := None;
      while true
        invariant Valid() && materialized && Remaining() == old(Remaining())
        decreases |left.items|, currentLeft.Some?
      {
        if currentLeft.None? {
          found := LoadLeft();
          if found.Some? {
            return found.value;
          }
        }
        found := Probe();
        if found.Some? {
          return found.value;
        }
        found := FinishLeft();
        if found.Some? {
          return found.value;
        }
      }
    }
  }
}

/** Range search of a B-tree index (`src/storage/btree/index_manager.rs`).
  *
  * Duplicate keys may straddle a separator, so a subtree's keys lie in the
  * closed interval between its separators.  The stack-driven search skips
  * subtrees outside the bounds and still returns, in tree order, exactly the
  * entries whose keys are in range.
  */
module IndexTree {
  import opened Options
  import opened Values
  import opened KeyEncoding

  datatype Entry<T> = Entry(key: Bytes, row: T)

  datatype Tree<T> =
    | Leaf(entries: seq<Entry<T>>)
    | Node(leftmost: Tree<T>, branches: seq<Branch<T>>)

  datatype Branch<T> = Branch(separator: Bytes, child: Tree<T>)

  /** All entries, left to right. */
  ghost function Entries<T>(t: Tree<T>): seq<Entry<T>>
    decreases t, 0
  {
    match t
    case Leaf(entries) => entries
    case Node(leftmost, branches) => Entries(leftmost) + BranchEntries(branches)
  }

  ghost function BranchEntries<T>(branches: seq<Branch<T>>): seq<Entry<T>>
    decreases branches, 1
  {
    if branches == [] then [] else Entries(branches[0].child) + BranchEntries(branches[1..])
  }

  ghost predicate Within(key: Bytes, low: Option<Bytes>, high: Option<Bytes>) {
    && |key| == MAX_KEY_LEN
    && (low.Some? ==> !Before(key, low.value))
    && (high.Some? ==> !Before(high.value, key))
  }

  ghost predicate AllWithin<T>(entries: seq<Entry<T>>, low: Option<Bytes>, high: Option<Bytes>) {
    forall e :: e in entries ==> Within(e.key, low, high)
  }

  function FirstSeparator<T>(branches: seq<Branch<T>>): Option<Bytes> {
    if branches == [] then None else Some(branches[0].separator)
  }

  /** Every key of every subtree lies in the closed interval between the
    * separators on its two sides. */
  ghost predicate Valid<T>(t: Tree<T>)
    decreases t, 0
  {
    match t
    case Leaf(entries) => AllWithin(entries, None, None)
    case Node(leftmost, branches) =>
      && Valid(leftmost) && AllWithin(Entries(leftmost), None, FirstSeparator(branches))
      && ValidBranches(branches)
  }

  ghost predicate ValidBranches<T>(branches: seq<Branch<T>>)
    decreases branches, 1
  {
    branches == [] ||
    (&& |branches[0].separator| == MAX_KEY_LEN
     && Valid(branches[0].child)
     && AllWithin(Entries(branches[0].child), Some(branches[0].separator), FirstSeparator(branches[1..]))
     && ValidBranches(branches[1..]))
  }

  lemma {:induction false} ValidKeys<T>(t: Tree<T>)
    requires Valid(t)
    ensures AllWithin(Entries(t), None, None)
    decreases t, 0
  {
    if t.Node? {
      BranchKeys(t.branches);
    }
  }

  lemma {:induction false} BranchKeys<T>(branches: seq<Branch<T>>)
    requires ValidBranches(branches)
    ensures AllWithin(BranchEntries(branches), None, None)
    decreases branches, 1
  {
    if branches != [] {
      BranchKeys(branches[1..]);
    }
  }

  /** The rows of the entries in range, in order: what the search must return. */
  ghost function RowsInRange<T>(entries: seq<Entry<T>>, bounds: Bounds): seq<T> {
    if entries == [] then []
    else (if KeyInRange(entries[0].key, bounds) then [entries[0].row] else []) + RowsInRange(entries[1..], bounds)
  }

  lemma {:induction false} RowsInRangeConcat<T>(a: seq<Entry<T>>, b: seq<Entry<T>>, bounds: Bounds)
    ensures RowsInRange(a + b, bounds) == RowsInRange(a, bounds) + RowsInRange(b, bounds)
  {
    hide KeyInRange;
    if a == [] {
      assert a + b == b;
    } else {
      RowsInRangeConcat(a[1..], b, bounds);
      assert (a + b)[1..] == a[1..] + b;
    }
  }

  lemma {:induction false} NoneInRange<T>(entries: seq<Entry<T>>, bounds: Bounds)
    requires forall e :: e in entries ==> !KeyInRange(e.key, bounds)
    ensures RowsInRange(entries, bounds) == []
  {
    if entries != [] {
      NoneInRange(entries[1..], bounds);
    }
  }

  /** `subtree_overlaps`. */
  predicate SubtreeOverlaps(low: Option<Bytes>, high: Option<Bytes>, bounds: Bounds) {
    && (high.Some? && bounds.lower.Some? ==>
          !Before(high.value, bounds.lower.value.key)
          && (high.value == bounds.lower.value.key ==> bounds.lower.value.inclusive))
    && (low.Some? && bounds.upper.Some? ==>
          !Before(bounds.upper.value.key, low.value)
          && (low.value == bounds.upper.value.key ==> bounds.upper.value.inclusive))
  }

  ghost predicate FullBounds(bounds: Bounds) {
    && (bounds.lower.Some? ==> |bounds.lower.value.key| == MAX_KEY_LEN)
    && (bounds.upper.Some? ==> |bounds.upper.value.key| == MAX_KEY_LEN)
  }

  ghost predicate FullSeparators(low: Option<Bytes>, high: Option<Bytes>) {
    (low.Some? ==> |low.value| == MAX_KEY_LEN) && (high.Some? ==> |high.value| == MAX_KEY_LEN)
  }

  lemma OutsideKey(key: Bytes, low: Option<Bytes>, high: Option<Bytes>, bounds: Bounds)
    requires Within(key, low, high) && FullBounds(bounds) && FullSeparators(low, high)
    requires !SubtreeOverlaps(low, high, bounds)
    ensures !KeyInRange(key, bounds)
  {
    if high.Some? && bounds.lower.Some? {
      FixedTotal(key, high.value);
      if Before(high.value, bounds.lower.value.key) && Before(key, high.value) {
        BeforeTransitive(key, high.value, bounds.lower.value.key);
      }
    }
    if low.Some? && bounds.upper.Some? {
      FixedTotal(key, low.value);
      if Before(bounds.upper.value.key, low.value) && Before(low.value, key) {
        BeforeTransitive(bounds.upper.value.key, low.value, key);
      }
    }
  }

  /** A skipped subtree holds nothing in range. */
  lemma SkippedSubtree<T>(entries: seq<Entry<T>>, low: Option<Bytes>, high: Option<Bytes>, bounds: Bounds)
    requires AllWithin(entries, low, high) && FullBounds(bounds) && FullSeparators(low, high)
    requires !SubtreeOverlaps(low, high, bounds)
    ensures RowsInRange(entries, bounds) == []
  {
    forall e | e in entries ensures !KeyInRange(e.key, bounds) {
      OutsideKey(e.key, low, high, bounds);
    }
    NoneInRange(entries, bounds);
  }

  // ---------- the search ----------

  ghost function Size<T>(t: Tree<T>): nat
    decreases t, 0
  {
    match t
    case Leaf(_) => 1
    case Node(leftmost, branches) => 1 + Size(leftmost) + BranchSizes(branches)
  }

  ghost function BranchSizes<T>(branches: seq<Branch<T>>): nat
    decreases branches, 1
  {
    if branches == [] then 0 else Size(branches[0].child) + BranchSizes(branches[1..])
  }

  ghost function Sizes<T>(trees: seq<Tree<T>>): nat {
    if trees == [] then 0 else Size(trees[0]) + Sizes(trees[1..])
  }

  /** What a list of subtrees still has to yield, first to last. */
  ghost function Pending<T>(trees: seq<Tree<T>>, bounds: Bounds): seq<T> {
    if trees == [] then [] else RowsInRange(Entries(trees[0]), bounds) + Pending(trees[1..], bounds)
  }

  ghost predicate EachValid<T>(trees: seq<Tree<T>>) {
    forall t :: t in trees ==> Valid(t)
  }

  lemma {:induction false} PendingConcat<T>(a: seq<Tree<T>>, b: seq<Tree<T>>, bounds: Bounds)
    ensures Pending(a + b, bounds) == Pending(a, bounds) + Pending(b, bounds)
  {
    hide RowsInRange, Entries;
    if a == [] {
      assert a + b == b;
    } else {
      PendingConcat(a[1..], b, bounds);
      assert (a + b)[1..] == a[1..] + b;
      var head := RowsInRange(Entries(a[0]), bounds);
      assert Pending(a + b, bounds) == head + (Pending(a[1..], bounds) + Pending(b, bounds));
    }
  }

  lemma {:induction false} SizesConcat<T>(a: seq<Tree<T>>, b: seq<Tree<T>>)
    ensures Sizes(a + b) == Sizes(a) + Sizes(b)
  {
    hide Size;
    if a == [] {
      assert a + b == b;
    } else {
      SizesConcat(a[1..], b);
      assert (a + b)[1..] == a[1..] + b;
    }
  }

  lemma NoRows<T>(bounds: Bounds)
    ensures RowsInRange<T>([], bounds) == []
  {
  }

  /** The branches of a node worth visiting, left to right. */
  method OverlappingBranches<T>(branches: seq<Branch<T>>, bounds: Bounds) returns (children: seq<Tree<T>>)
    requires ValidBranches(branches) && FullBounds(bounds)
    ensures Pending(children, bounds) == RowsInRange(BranchEntries(branches), bounds)
    ensures Sizes(children) <= BranchSizes(branches) && EachValid(children)
  {
    hide RowsInRange, SubtreeOverlaps, AllWithin, Entries, Size;
    NoRows<T>(bounds);
    children := [];
    var i := 0;
    assert branches[0..] == branches;
    while i < |branches|
      invariant 0 <= i <= |branches|
      invariant ValidBranches(branches[i..])
      invariant Pending(children, bounds) + RowsInRange(BranchEntries(branches[i..]), bounds)
                == RowsInRange(BranchEntries(branches), bounds)
      invariant Sizes(children) + BranchSizes(branches[i..]) <= BranchSizes(branches)
      invariant EachValid(children)
    {
      var b := branches[i];
      ghost var rest := branches[i + 1..];
      assert branches[i..][1..] == rest;
      var next := if i + 1 < |branches| then Some(branches[i + 1].separator) else None;
      assert next == FirstSeparator(rest);
      RowsInRangeConcat(Entries(b.child), BranchEntries(rest), bounds);
      if SubtreeOverlaps(Some(b.separator), next, bounds) {
        PendingConcat(children, [b.child], bounds);
        SizesConcat(children, [b.child]);
        assert [b.child][1..] == [];
        children := children + [b.child];
      } else {
        SkippedSubtree(Entries(b.child), Some(b.separator), next, bounds);
      }
      i := i + 1;
    }
  }

  method OverlappingChildren<T>(t: Tree<T>, bounds: Bounds) returns (children: seq<Tree<T>>)
    requires t.Node? && Valid(t) && FullBounds(bounds)
    ensures Pending(children, bounds) == RowsInRange(Entries(t), bounds)
    ensures Sizes(children) < Size(t) && EachValid(children)
  {
    hide KeyInRange, SubtreeOverlaps, Within;
    var first := FirstSeparator(t.branches);
    children := OverlappingBranches(t.branches, bounds);
    RowsInRangeConcat(Entries(t.leftmost), BranchEntries(t.branches), bounds);
    if SubtreeOverlaps(None, first, bounds) {
      assert ([t.leftmost] + children)[1..] == children;
      children := [t.leftmost] + children;
    } else {
      SkippedSubtree(Entries(t.leftmost), None, first, bounds);
    }
  }

  method LeafRows<T>(entries: seq<Entry<T>>, bounds: Bounds) returns (rows: seq<T>)
    ensures rows == RowsInRange(entries, bounds)
  {
    rows := [];
    for i := 0 to |entries|
      invariant rows + RowsInRange(entries[i..], bounds) == RowsInRange(entries, bounds)
    {
      assert entries[i..][1..] == entries[i + 1..];
      if KeyInRange(entries[i].key, bounds) {
        rows := rows + [entries[i].row];
      }
    }
  }

  /** `scan_range`: a stack of subtrees, kept here with its top first. */
  method ScanRange<T>(root: Tree<T>, bounds: Bounds) returns (rows: seq<T>)
    requires Valid(root) && FullBounds(bounds)
    ensures rows == RowsInRange(Entries(root), bounds)
  {
    rows := [];
    if RangeIsEmpty(bounds) {
      NothingInEmptyRange(root, bounds);
      return;
    }
    var stack := [root];
    assert stack[1..] == [];
    while stack != []
      invariant EachValid(stack)
      invariant rows + Pending(stack, bounds) == RowsInRange(Entries(root), bounds)
      decreases Sizes(stack)
    {
      var t := stack[0];
      var below := stack[1..];
      match t
      case Leaf(entries) =>
        var found := LeafRows(entries, bounds);
        rows := rows + found;
        stack := below;
      case Node(_, _) =>
        var children := OverlappingChildren(t, bounds);
        PendingConcat(children, below, bounds);
        SizesConcat(children, below);
        stack := children + below;
    }
  }

  lemma NothingInEmptyRange<T>(root: Tree<T>, bounds: Bounds)
    requires Valid(root) && FullBounds(bounds) && RangeIsEmpty(bounds)
    ensures RowsInRange(Entries(root), bounds) == []
  {
    ValidKeys(root);
    forall e | e in Entries(root) ensures !KeyInRange(e.key, bounds) {
      EmptyRangeHasNoKey(bounds, e.key);
    }
    NoneInRange(Entries(root), bounds);
  }

  // ---------- key order ----------

  ghost predicate InOrder<T>(entries: seq<Entry<T>>) {
    forall i, j :: 0 <= i < j < |entries| ==> !Before(entries[j].key, entries[i].key)
  }

  /** Leaves are sorted, and separators do not decrease. */
  ghost predicate Sorted<T>(t: Tree<T>)
    decreases t, 0
  {
    match t
    case Leaf(entries) => InOrder(entries)
    case Node(leftmost, branches) => Sorted(leftmost) && SortedBranches(branches)
  }

  ghost predicate SortedBranches<T>(branches: seq<Branch<T>>)
    decreases branches, 1
  {
    branches == [] ||
    (&& Sorted(branches[0].child) && SortedBranches(branches[1..])
     && (|branches| > 1 ==> !Before(branches[1].separator, branches[0].separator)))
  }

  lemma NotAfterTransitive(a: Bytes, b: Bytes, c: Bytes)
    requires |a| == |b| == |c| && !Before(b, a) && !Before(c, b)
    ensures !Before(c, a)
  {
    FixedTotal(a, b);
    FixedTotal(b, c);
    if Before(c, a) {
      if a != b {
        BeforeTransitive(c, a, b);
      }
      if b != c {
        BeforeAsymmetric(b, c);
      }
    }
  }

  lemma InOrderConcat<T>(a: seq<Entry<T>>, b: seq<Entry<T>>, middle: Bytes)
    requires InOrder(a) && InOrder(b) && |middle| == MAX_KEY_LEN
    requires AllWithin(a, None, Some(middle)) && AllWithin(b, Some(middle), None)
    ensures InOrder(a + b)
  {
    forall i, j | 0 <= i < |a| && 0 <= j < |b| ensures !Before(b[j].key, a[i].key) {
      assert a[i] in a && b[j] in b;
      NotAfterTransitive(a[i].key, middle, b[j].key);
    }
  }

  lemma {:induction false} EntriesInOrder<T>(t: Tree<T>)
    requires Valid(t) && Sorted(t)
    ensures InOrder(Entries(t))
    decreases t, 0
  {
    if t.Node? {
      EntriesInOrder(t.leftmost);
      if t.branches == [] {
        assert Entries(t) == Entries(t.leftmost);
      } else {
        BranchesInOrder(t.branches);
        InOrderConcat(Entries(t.leftmost), BranchEntries(t.branches), t.branches[0].separator);
      }
    }
  }

  lemma {:induction false} BranchesInOrder<T>(branches: seq<Branch<T>>)
    requires branches != [] && ValidBranches(branches) && SortedBranches(branches)
    ensures InOrder(BranchEntries(branches))
    ensures AllWithin(BranchEntries(branches), Some(branches[0].separator), None)
    decreases branches, 1
  {
    var first, rest := branches[0], branches[1..];
    EntriesInOrder(first.child);
    if rest == [] {
      assert BranchEntries(branches) == Entries(first.child);
    } else {
      BranchesInOrder(rest);
      forall e | e in BranchEntries(rest) ensures Within(e.key, Some(first.separator), None) {
        NotAfterTransitive(first.separator, rest[0].separator, e.key);
      }
      InOrderConcat(Entries(first.child), BranchEntries(rest), rest[0].separator);
    }
  }

  /** The entries in range, with their keys. */
  ghost function EntriesInRange<T>(entries: seq<Entry<T>>, bounds: Bounds): seq<Entry<T>> {
    if entries == [] then []
    else (if KeyInRange(entries[0].key, bounds) then [entries[0]] else []) + EntriesInRange(entries[1..], bounds)
  }

  lemma {:induction false} EntriesInRangeInOrder<T>(entries: seq<Entry<T>>, bounds: Bounds)
    requires InOrder(entries)
    ensures InOrder(EntriesInRange(entries, bounds))
    ensures forall e :: e in EntriesInRange(entries, bounds) ==> e in entries && KeyInRange(e.key, bounds)
    ensures |RowsInRange(entries, bounds)| == |EntriesInRange(entries, bounds)|
    ensures forall i :: 0 <= i < |RowsInRange(entries, bounds)| ==>
              RowsInRange(entries, bounds)[i] == EntriesInRange(entries, bounds)[i].row
  {
    hide KeyInRange;
    if entries != [] {
      EntriesInRangeInOrder(entries[1..], bounds);
      var rest := EntriesInRange(entries[1..], bounds);
      forall i | 0 <= i < |rest| ensures !Before(rest[i].key, entries[0].key) {
        assert rest[i] in entries[1..];
      }
    }
  }

  /** Over a sorted tree the search returns the rows in key order. */
  lemma ScanIsInKeyOrder<T>(root: Tree<T>, bounds: Bounds)
    requires Valid(root) && Sorted(root)
    ensures var hits := EntriesInRange(Entries(root), bounds);
            && InOrder(hits) && |RowsInRange(Entries(root), bounds)| == |hits|
            && forall i :: 0 <= i < |hits| ==>
               RowsInRange(Entries(root), bounds)[i] == hits[i].row && KeyInRange(hits[i].key, bounds)
  {
    EntriesInOrder(root);
    EntriesInRangeInOrder(Entries(root), bounds);
    hide KeyInRange, InOrder, Entries, EntriesInRange, RowsInRange;
    var hits := EntriesInRange(Entries(root), bounds);
    assert forall i :: 0 <= i < |hits| ==> hits[i] in hits;
  }
}

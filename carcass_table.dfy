/**
 * The sortable list table: the two-field sort state, the row comparator handed to
 * `Array.prototype.sort`, the sorted copy of the rows, and the rule that flags a
 * legacy/predict cell pair as different.
 */
module CarcassTable {
  import opened Js

  datatype Direction = Asc | Desc

  function Flip(d: Direction): Direction
  {
    if d == Asc then Desc else Asc
  }

  // ---------------------------------------------------------------------------
  // Sort state

  datatype SortSpec = SortSpec(field: string, direction: Direction)

  const InitialSort := SortSpec("carcass_id", Asc)

  /** What a click on the header of `field` does to the sort state. */
  function Clicked(s: SortSpec, field: string): SortSpec
  {
    if field == s.field then SortSpec(s.field, Flip(s.direction)) else SortSpec(field, Asc)
  }

  /** After a click the table is always sorted by the clicked column. */
  lemma ClickedSortsByField(s: SortSpec, field: string)
    ensures Clicked(s, field).field == field
    ensures field != s.field ==> Clicked(s, field).direction == Asc
    ensures field == s.field ==> Clicked(s, field).direction != s.direction
  {
  }

  /** Clicking the same header twice restores the previous state. */
  lemma ClickTwiceRestores(s: SortSpec, field: string)
    requires field == s.field
    ensures Clicked(Clicked(s, field), field) == s
  {
  }

  /** Two clicks on a new column sort it descending. */
  lemma NewFieldTwiceIsDesc(s: SortSpec, field: string)
    requires field != s.field
    ensures Clicked(Clicked(s, field), field) == SortSpec(field, Desc)
  {
  }

  class SortState {
    var sortField: string
    var sortDirection: Direction

    function Spec(): SortSpec
      reads this
    {
      SortSpec(sortField, sortDirection)
    }

    constructor ()
      ensures Spec() == InitialSort
      ensures sortField == "carcass_id" && sortDirection == Asc
    {
      sortField := "carcass_id";
      sortDirection := Asc;
    }

    method HandleSort(field: string)
      modifies this
      ensures Spec() == Clicked(old(Spec()), field)
      ensures field == old(sortField) ==> sortField == old(sortField) && sortDirection == Flip(old(sortDirection))
      ensures field != old(sortField) ==> sortField == field && sortDirection == Asc
    {
      if field == sortField {
        sortDirection := if sortDirection == Asc then Desc else Asc;
      } else {
        sortField := field;
        sortDirection := Asc;
      }
    }

    /** The arrow shown beside a header: only the active column has one. */
    function SortIcon(field: string): (r: Option<Direction>)
      reads this
      ensures r.Some? <==> field == sortField
      ensures r.Some? ==> r.value == sortDirection
    {
      if field != sortField then None else Some(sortDirection)
    }
  }

  // ---------------------------------------------------------------------------
  // The comparator

  /** `aValue < bValue` once strings are lower-cased; mixed kinds compare false both ways. */
  predicate KeyLess(a: Value, b: Value)
  {
    match (a, b)
    case (Num(x), Num(y)) => x < y
    case (Str(x), Str(y)) => LexLess(Lower(x), Lower(y))
    case _ => false
  }

  /** The comparator passed to `sort`, with the sort direction as a parameter. */
  function Compare(dir: Direction, a: Value, b: Value): (r: int)
    ensures -1 <= r <= 1
  {
    if a.Null? then (if dir == Asc then 1 else -1)
    else if b.Null? then (if dir == Asc then -1 else 1)
    else if KeyLess(a, b) then (if dir == Asc then -1 else 1)
    else if KeyLess(b, a) then (if dir == Asc then 1 else -1)
    else 0
  }

  /** Keys of the same kind (or null) are the ones the comparator orders meaningfully. */
  predicate Comparable(a: Value, b: Value)
  {
    a.Null? || b.Null? || (a.Num? && b.Num?) || (a.Str? && b.Str?)
  }

  /** Keys that sort as equal: equal numbers, or strings equal once lower-cased. */
  predicate KeyEquivalent(a: Value, b: Value)
  {
    match (a, b)
    case (Num(x), Num(y)) => x == y
    case (Str(x), Str(y)) => Lower(x) == Lower(y)
    case _ => false
  }

  /** One null key goes after the other key ascending and before it descending;
      two null keys give 1 in both argument orders. */
  lemma CompareNullPlacement(a: Value, b: Value)
    requires a.Null?
    ensures !b.Null? ==> Compare(Asc, a, b) == 1 && Compare(Asc, b, a) == -1
    ensures !b.Null? ==> Compare(Desc, a, b) == -1 && Compare(Desc, b, a) == 1
    ensures b.Null? ==> Compare(Asc, a, b) == 1 && Compare(Asc, b, a) == 1
    ensures b.Null? ==> Compare(Desc, a, b) == -1 && Compare(Desc, b, a) == -1
  {
  }

  /** For two non-null keys descending is ascending negated. */
  lemma CompareDescNegatesAsc(a: Value, b: Value)
    requires !a.Null? && !b.Null?
    ensures Compare(Desc, a, b) == -Compare(Asc, a, b)
  {
  }

  lemma KeyLessAsymmetric(a: Value, b: Value)
    ensures KeyLess(a, b) ==> !KeyLess(b, a)
  {
    if a.Str? && b.Str? {
      LexLessAsymmetric(Lower(a.s), Lower(b.s));
    }
  }

  lemma KeyLessTrichotomy(a: Value, b: Value)
    requires !a.Null? && !b.Null? && Comparable(a, b)
    ensures KeyLess(a, b) || KeyLess(b, a) || KeyEquivalent(a, b)
    ensures KeyEquivalent(a, b) ==> !KeyLess(a, b) && !KeyLess(b, a)
  {
    if a.Str? {
      LexLessTotal(Lower(a.s), Lower(b.s));
      LexLessIrreflexive(Lower(a.s));
    }
  }

  /** Ascending returns -1, 0 or 1 exactly as the keys are less, equivalent or greater. */
  lemma CompareAscMeaning(a: Value, b: Value)
    requires !a.Null? && !b.Null? && Comparable(a, b)
    ensures Compare(Asc, a, b) == -1 <==> KeyLess(a, b)
    ensures Compare(Asc, a, b) == 1 <==> KeyLess(b, a)
    ensures Compare(Asc, a, b) == 0 <==> KeyEquivalent(a, b)
  {
    KeyLessAsymmetric(a, b);
    KeyLessTrichotomy(a, b);
  }

  /** On comparable keys that are not both null the comparator is antisymmetric. */
  lemma CompareAntisymmetric(dir: Direction, a: Value, b: Value)
    requires !(a.Null? && b.Null?) && Comparable(a, b)
    ensures Compare(dir, a, b) == -Compare(dir, b, a)
  {
    KeyLessAsymmetric(a, b);
  }

  // ---------------------------------------------------------------------------
  // The intended order and the sorted copy

  /** `a` belongs strictly before `b`: ascending puts nulls last, descending puts them first. */
  predicate Precedes(dir: Direction, a: Value, b: Value)
  {
    if dir == Asc then (!a.Null? && b.Null?) || (!a.Null? && !b.Null? && KeyLess(a, b))
    else (a.Null? && !b.Null?) || (!a.Null? && !b.Null? && KeyLess(b, a))
  }

  /** The comparator answers "negative" exactly for `Precedes`, except on two nulls. */
  lemma CompareNegativeIff(dir: Direction, a: Value, b: Value)
    requires !(a.Null? && b.Null?)
    ensures Compare(dir, a, b) < 0 <==> Precedes(dir, a, b)
  {
    KeyLessAsymmetric(a, b);
  }

  lemma KeyLessNegTransitive(a: Value, b: Value, c: Value)
    requires Comparable(a, b) && Comparable(b, c) && Comparable(a, c)
    requires !a.Null? && !b.Null? && !c.Null?
    requires KeyLess(a, c)
    ensures KeyLess(a, b) || KeyLess(b, c)
  {
    if a.Str? {
      var la, lb, lc := Lower(a.s), Lower(b.s), Lower(c.s);
      LexLessTotal(la, lb);
      if LexLess(lb, la) {
        LexLessTransitive(lb, la, lc);
      }
    }
  }

  /** "Not after" is transitive: `Precedes` is a strict weak order on comparable keys. */
  lemma NotPrecedesTransitive(dir: Direction, a: Value, b: Value, c: Value)
    requires Comparable(a, b) && Comparable(b, c) && Comparable(a, c)
    requires !Precedes(dir, b, a) && !Precedes(dir, c, b)
    ensures !Precedes(dir, c, a)
  {
    if !a.Null? && !b.Null? && !c.Null? {
      if dir == Asc {
        if KeyLess(c, a) { KeyLessNegTransitive(c, b, a); }
      } else {
        if KeyLess(a, c) { KeyLessNegTransitive(a, b, c); }
      }
    }
  }

  /** `row[field]`; a row without the column reads as null. */
  function Key(row: Record, field: string): Value
  {
    if field in row then row[field] else Null
  }

  /** Every pair of rows holds comparable keys in `field`. */
  predicate ColumnTyped(rows: multiset<Record>, field: string)
  {
    forall x, y | x in rows && y in rows :: Comparable(Key(x, field), Key(y, field))
  }

  predicate SortedOn(rows: seq<Record>, field: string, dir: Direction)
  {
    forall i, j :: 0 <= i < j < |rows| ==> !Precedes(dir, Key(rows[j], field), Key(rows[i], field))
  }

  /** Sorted up to `hi` inclusive, except that the element at `j` is not yet in place,
      and nothing between `j` and `hi` belongs before the element at `j`. */
  predicate Sinking(s: seq<Record>, hi: int, j: int, field: string, dir: Direction)
  {
    && 0 <= j <= hi < |s|
    && (forall k, l :: 0 <= k < l <= hi && k != j && l != j ==>
          !Precedes(dir, Key(s[l], field), Key(s[k], field)))
    && (forall l :: j < l <= hi ==> !Precedes(dir, Key(s[l], field), Key(s[j], field)))
  }

  lemma InMultiset(s: seq<Record>, k: int)
    requires 0 <= k < |s|
    ensures s[k] in multiset(s)
  {
    assert s[k] in s;
  }

  lemma SinkStart(s: seq<Record>, i: int, field: string, dir: Direction)
    requires 0 <= i < |s| && SortedOn(s[..i], field, dir)
    ensures Sinking(s, i, i, field, dir)
  {
    assert forall k :: 0 <= k < i ==> s[..i][k] == s[k];
  }

  /** One step of sinking the element at `j`: swapping it with a neighbour it precedes. */
  lemma SinkStep(s: seq<Record>, i: int, j: int, field: string, dir: Direction)
    requires 0 < j && Sinking(s, i, j, field, dir)
    requires Compare(dir, Key(s[j], field), Key(s[j - 1], field)) < 0
    ensures Sinking(Swapped(s, j), i, j - 1, field, dir)
  {
    SwapKeepsOrder(dir, Key(s[j], field), Key(s[j - 1], field));
  }

  /** Once the element at `j` stops sinking, the prefix up to `i` is sorted. */
  lemma SinkDone(s: seq<Record>, i: int, j: int, field: string, dir: Direction)
    requires ColumnTyped(multiset(s), field) && Sinking(s, i, j, field, dir)
    requires j == 0 || Compare(dir, Key(s[j], field), Key(s[j - 1], field)) >= 0
    ensures SortedOn(s[..i + 1], field, dir)
  {
    if j > 0 {
      StopKeepsOrder(dir, Key(s[j], field), Key(s[j - 1], field));
      forall k | 0 <= k < j - 1
        ensures !Precedes(dir, Key(s[j], field), Key(s[k], field))
      {
        InMultiset(s, j);
        InMultiset(s, j - 1);
        InMultiset(s, k);
        NotPrecedesTransitive(dir, Key(s[k], field), Key(s[j - 1], field), Key(s[j], field));
      }
    }
  }

  // ---------------------------------------------------------------------------
  // Provenance of the sorted rows, for stability

  /** `p[k]` is the index in `data` that the row at `k` of `s` came from. */
  predicate Tracks(s: seq<Record>, p: seq<int>, data: seq<Record>)
  {
    |p| == |s| && forall k :: 0 <= k < |s| ==> 0 <= p[k] < |data| && s[k] == data[p[k]]
  }

  predicate Distinct(p: seq<int>)
  {
    forall k, l :: 0 <= k < l < |p| ==> p[k] != p[l]
  }

  /** Two rows end up in the reverse of their original order only where the comparator,
      asked about the one now first and the one now second, answered negative. */
  predicate InversionsAsked(s: seq<Record>, p: seq<int>, field: string, dir: Direction)
  {
    |p| == |s|
    && forall k, l :: 0 <= k < l < |s| && p[k] > p[l] ==>
         Compare(dir, Key(s[k], field), Key(s[l], field)) < 0
  }

  /** Keys the comparator treats as equal: equivalent non-null keys, and two nulls
      ascending (where it answers 1 in both orders, so neither moves past the other). */
  predicate Tied(dir: Direction, x: Value, y: Value)
  {
    (!x.Null? && !y.Null? && KeyEquivalent(x, y)) || (dir == Asc && x.Null? && y.Null?)
  }

  /** Rows with tied keys keep their original relative order. */
  predicate StableOn(s: seq<Record>, p: seq<int>, field: string, dir: Direction)
  {
    |p| == |s|
    && forall k, l :: 0 <= k < l < |s| && Tied(dir, Key(s[k], field), Key(s[l], field)) ==> p[k] < p[l]
  }

  lemma TiedNeverNegative(dir: Direction, x: Value, y: Value)
    requires Tied(dir, x, y)
    ensures Compare(dir, x, y) >= 0
  {
    if x.Str? {
      LexLessIrreflexive(Lower(x.s));
    }
  }

  /** Inversions only where the comparator asked for them leave tied rows in order. */
  lemma InversionsAskedStable(s: seq<Record>, p: seq<int>, field: string, dir: Direction)
    requires InversionsAsked(s, p, field, dir) && Distinct(p)
    ensures StableOn(s, p, field, dir)
  {
    forall k, l | 0 <= k < l < |s| && Tied(dir, Key(s[k], field), Key(s[l], field))
      ensures p[k] < p[l]
    {
      TiedNeverNegative(dir, Key(s[k], field), Key(s[l], field));
    }
  }

  /** The position that the swap at `j` moves into position `k`. */
  function SwapSource(k: int, j: int): int
  {
    if k == j - 1 then j else if k == j then j - 1 else k
  }

  /** Swapping the neighbours at `j - 1` and `j`, in original order, where the comparator
      put the second first, keeps the provenance facts. */
  lemma SwapKeepsProvenance(s: seq<Record>, p: seq<int>, data: seq<Record>, j: int,
                            field: string, dir: Direction)
    requires 0 < j < |s| && Tracks(s, p, data) && Distinct(p) && InversionsAsked(s, p, field, dir)
    requires p[j - 1] < p[j] && Compare(dir, Key(s[j], field), Key(s[j - 1], field)) < 0
    ensures Tracks(Swapped(s, j), Swapped(p, j), data) && Distinct(Swapped(p, j))
    ensures InversionsAsked(Swapped(s, j), Swapped(p, j), field, dir)
  {
    SwapKeepsDistinct(p, j);
    SwapKeepsInversionsAsked(s, p, j, field, dir);
  }

  lemma SwapKeepsDistinct(p: seq<int>, j: int)
    requires 0 < j < |p| && Distinct(p)
    ensures Distinct(Swapped(p, j))
  {
    var q := Swapped(p, j);
    forall k, l | 0 <= k < l < |q|
      ensures q[k] != q[l]
    {
      assert q[k] == p[SwapSource(k, j)] && q[l] == p[SwapSource(l, j)];
    }
  }

  lemma SwapKeepsInversionsAsked(s: seq<Record>, p: seq<int>, j: int, field: string, dir: Direction)
    requires 0 < j < |s| && InversionsAsked(s, p, field, dir)
    requires p[j - 1] < p[j] && Compare(dir, Key(s[j], field), Key(s[j - 1], field)) < 0
    ensures InversionsAsked(Swapped(s, j), Swapped(p, j), field, dir)
  {
    var t, q := Swapped(s, j), Swapped(p, j);
    forall k, l | 0 <= k < l < |t| && q[k] > q[l]
      ensures Compare(dir, Key(t[k], field), Key(t[l], field)) < 0
    {
      var sk, sl := SwapSource(k, j), SwapSource(l, j);
      assert t[k] == s[sk] && q[k] == p[sk] && t[l] == s[sl] && q[l] == p[sl];
    }
  }

  /** Outer-loop state: the rows before `i` came from before `i`, the rest are untouched. */
  predicate Origins(s: seq<Record>, p: seq<int>, data: seq<Record>, i: int, field: string, dir: Direction)
  {
    && Tracks(s, p, data) && Distinct(p) && InversionsAsked(s, p, field, dir) && 0 <= i <= |s|
    && (forall k :: 0 <= k < i ==> p[k] < i)
    && (forall k :: i <= k < |s| ==> p[k] == k)
  }

  /** Inner-loop state: the row that started at `i` is now at `j`. */
  predicate SinkOrigins(s: seq<Record>, p: seq<int>, data: seq<Record>, i: int, j: int,
                        field: string, dir: Direction)
  {
    && Tracks(s, p, data) && Distinct(p) && InversionsAsked(s, p, field, dir) && 0 <= j <= i < |s|
    && p[j] == i && (forall k :: 0 <= k <= i && k != j ==> p[k] < i)
    && (forall k :: i < k < |s| ==> p[k] == k)
  }

  /** Before sorting every row is where it started. */
  lemma OriginsStart(data: seq<Record>, p: seq<int>, field: string, dir: Direction)
    requires p == seq(|data|, k => k)
    ensures Origins(data, p, data, 0, field, dir)
  {
    assert forall k :: 0 <= k < |p| ==> p[k] == k;
  }

  lemma SinkOriginsStart(s: seq<Record>, p: seq<int>, data: seq<Record>, i: int, field: string, dir: Direction)
    requires Origins(s, p, data, i, field, dir) && i < |s|
    ensures SinkOrigins(s, p, data, i, i, field, dir)
  {
  }

  lemma SinkOriginsStep(s: seq<Record>, p: seq<int>, data: seq<Record>, i: int, j: int,
                        field: string, dir: Direction)
    requires SinkOrigins(s, p, data, i, j, field, dir) && 0 < j
    requires Compare(dir, Key(s[j], field), Key(s[j - 1], field)) < 0
    ensures SinkOrigins(Swapped(s, j), Swapped(p, j), data, i, j - 1, field, dir)
  {
    SwapKeepsProvenance(s, p, data, j, field, dir);
  }

  lemma SinkOriginsDone(s: seq<Record>, p: seq<int>, data: seq<Record>, i: int, j: int,
                        field: string, dir: Direction)
    requires SinkOrigins(s, p, data, i, j, field, dir)
    ensures Origins(s, p, data, i + 1, field, dir)
  {
  }

  /**
   * `[...data].sort(cmp)`: the rows are copied into a fresh array, which is then sorted
   * in place by insertion, calling the comparator with the element being inserted first.
   * The result is a permutation of `data`, `p` giving each row's index in `data`; rows
   * change their relative order only where the comparator asked for it, so rows with
   * tied keys keep theirs; when the column is well typed the result is ordered by `Precedes`.
   */
  method SortedData(data: seq<Record>, field: string, dir: Direction) returns (r: seq<Record>, ghost p: seq<int>)
    ensures multiset(r) == multiset(data)
    ensures ColumnTyped(multiset(data), field) ==> SortedOn(r, field, dir)
    ensures |p| == |data| && Tracks(r, p, data) && Distinct(p)
    ensures InversionsAsked(r, p, field, dir) && StableOn(r, p, field, dir)
  {
    var a := CopyToArray(data);
    ghost var typed := ColumnTyped(multiset(data), field);
    p := seq(a.Length, k => k);
    OriginsStart(data, p, field, dir);
    var i := 0;
    while i < a.Length
      invariant 0 <= i <= a.Length
      invariant multiset(a[..]) == multiset(data)
      invariant typed ==> SortedOn(a[..i], field, dir)
      invariant Origins(a[..], p, data, i, field, dir)
    {
      p := Insert(a, i, field, dir, typed, data, p);
      i := i + 1;
    }
    r := a[..];
    SortedWhole(r, field, dir, typed);
    InversionsAskedStable(r, p, field, dir);
  }

  lemma SortedWhole(s: seq<Record>, field: string, dir: Direction, typed: bool)
    requires typed ==> SortedOn(s[..|s|], field, dir)
    ensures typed ==> SortedOn(s, field, dir)
  {
    assert s[..|s|] == s;
  }

  /** `[...data]`: a fresh array holding the rows. */
  method CopyToArray(data: seq<Record>) returns (a: array<Record>)
    ensures fresh(a) && a[..] == data
  {
    a := new Record[|data|](k requires 0 <= k < |data| => data[k]);
  }

  /** Sinks `a[i]` into the sorted prefix `a[..i]`, swapping it leftwards while the
      comparator, asked about it and its left neighbour, answers negative. */
  method Insert(a: array<Record>, i: int, field: string, dir: Direction, ghost typed: bool,
                ghost data: seq<Record>, ghost p0: seq<int>) returns (ghost p: seq<int>)
    requires 0 <= i < a.Length
    requires typed ==> ColumnTyped(multiset(a[..]), field) && SortedOn(a[..i], field, dir)
    requires Origins(a[..], p0, data, i, field, dir)
    modifies a
    ensures multiset(a[..]) == old(multiset(a[..]))
    ensures typed ==> SortedOn(a[..i + 1], field, dir)
    ensures Origins(a[..], p, data, i + 1, field, dir)
  {
    if typed {
      SinkStart(a[..], i, field, dir);
    }
    SinkOriginsStart(a[..], p0, data, i, field, dir);
    var j;
    j, p := Sink(a, i, field, dir, typed, data, p0);
    if typed {
      SinkDone(a[..], i, j, field, dir);
    }
    SinkOriginsDone(a[..], p, data, i, j, field, dir);
  }

  /** The loop of `Insert`: moves the element at `i` left to `j`, where the comparator no
      longer answers negative against its left neighbour. */
  method Sink(a: array<Record>, i: int, field: string, dir: Direction, ghost typed: bool,
              ghost data: seq<Record>, ghost p0: seq<int>) returns (j: int, ghost p: seq<int>)
    requires 0 <= i < a.Length
    requires typed ==> Sinking(a[..], i, i, field, dir)
    requires SinkOrigins(a[..], p0, data, i, i, field, dir)
    modifies a
    ensures 0 <= j <= i
    ensures j == 0 || Compare(dir, Key(a[j], field), Key(a[j - 1], field)) >= 0
    ensures multiset(a[..]) == old(multiset(a[..]))
    ensures typed ==> Sinking(a[..], i, j, field, dir)
    ensures SinkOrigins(a[..], p, data, i, j, field, dir)
  {
    p := p0;
    j := i;
    while j > 0 && Compare(dir, Key(a[j], field), Key(a[j - 1], field)) < 0
      invariant 0 <= j <= i
      invariant multiset(a[..]) == old(multiset(a[..]))
      invariant typed ==> Sinking(a[..], i, j, field, dir)
      invariant SinkOrigins(a[..], p, data, i, j, field, dir)
    {
      p := SwapDown(a, i, j, field, dir, typed, data, p);
      j := j - 1;
    }
  }

  /** Swaps `a[j]` with its left neighbour, and their origins in `p`. */
  method SwapDown(a: array<Record>, i: int, j: int, field: string, dir: Direction, ghost typed: bool,
                  ghost data: seq<Record>, ghost p: seq<int>) returns (ghost q: seq<int>)
    requires 0 < j <= i < a.Length
    requires Compare(dir, Key(a[j], field), Key(a[j - 1], field)) < 0
    requires typed ==> Sinking(a[..], i, j, field, dir)
    requires SinkOrigins(a[..], p, data, i, j, field, dir)
    modifies a
    ensures a[..] == Swapped(old(a[..]), j) && q == Swapped(p, j)
    ensures multiset(a[..]) == old(multiset(a[..]))
    ensures typed ==> Sinking(a[..], i, j - 1, field, dir)
    ensures SinkOrigins(a[..], q, data, i, j - 1, field, dir)
  {
    ghost var before := a[..];
    if typed {
      SinkStep(before, i, j, field, dir);
    }
    SwapSameMultiset(before, j);
    SinkOriginsStep(before, p, data, i, j, field, dir);
    a[j - 1], a[j] := a[j], a[j - 1];
    q := Swapped(p, j);
    assert a[..] == Swapped(before, j);
  }

  /** `s` with the elements at `j - 1` and `j` exchanged. */
  function Swapped<T>(s: seq<T>, j: int): (t: seq<T>)
    requires 0 < j < |s|
    ensures |t| == |s| && t[j - 1] == s[j] && t[j] == s[j - 1]
    ensures forall k :: 0 <= k < |s| && k != j - 1 && k != j ==> t[k] == s[k]
  {
    s[j - 1 := s[j]][j := s[j - 1]]
  }

  lemma SwapSameMultiset(s: seq<Record>, j: int)
    requires 0 < j < |s|
    ensures multiset(Swapped(s, j)) == multiset(s)
  {
    var u := s[j - 1 := s[j]];
    assert multiset(u) == multiset(s) - multiset{s[j - 1]} + multiset{s[j]};
    assert multiset(u[j := s[j - 1]]) == multiset(u) - multiset{s[j]} + multiset{s[j - 1]};
  }

  lemma SwapKeepsOrder(dir: Direction, x: Value, y: Value)
    requires Compare(dir, x, y) < 0
    ensures !Precedes(dir, y, x)
  {
    KeyLessAsymmetric(x, y);
  }

  lemma StopKeepsOrder(dir: Direction, x: Value, y: Value)
    requires Compare(dir, x, y) >= 0
    ensures !Precedes(dir, x, y)
  {
    KeyLessAsymmetric(x, y);
  }

  // ---------------------------------------------------------------------------
  // Difference flagging

  /** The numeric tolerance below which a legacy and a predicted number count as equal. */
  const Tolerance: real := 0.5

  function Abs(x: real): real
  {
    if x < 0.0 then -x else x
  }

  /** `isDifferent(legacy, predict)`. */
  predicate IsDifferent(legacy: Value, predict: Value)
  {
    if legacy.Null? || predict.Null? then false
    else if legacy.Num? && predict.Num? then Abs(legacy.n - predict.n) > Tolerance
    else legacy != predict
  }

  /** Null never differs; numbers differ beyond the tolerance; anything else on `!==`. */
  lemma IsDifferentMeaning(legacy: Value, predict: Value)
    ensures legacy.Null? || predict.Null? ==> !IsDifferent(legacy, predict)
    ensures legacy.Num? && predict.Num? ==>
      (IsDifferent(legacy, predict) <==> legacy.n - predict.n > 0.5 || predict.n - legacy.n > 0.5)
    ensures legacy.Str? && predict.Str? ==> (IsDifferent(legacy, predict) <==> legacy.s != predict.s)
    ensures legacy.Str? != predict.Str? && !legacy.Null? && !predict.Null? ==> IsDifferent(legacy, predict)
  {
  }

  /** A value never differs from itself, and the rule does not care which side is legacy. */
  lemma IsDifferentIrreflexiveSymmetric(a: Value, b: Value)
    ensures !IsDifferent(a, a)
    ensures IsDifferent(a, b) == IsDifferent(b, a)
  {
  }

  const HighlightClasses := "bg-yellow-50 font-medium text-yellow-800"

  /** `getComparisonStyle`: the highlight classes exactly when the pair differs. */
  function ComparisonStyle(legacy: Value, predict: Value): (r: string)
    ensures r != "" <==> IsDifferent(legacy, predict)
  {
    if IsDifferent(legacy, predict) then HighlightClasses else ""
  }
}

/** Rows of children, lists of edges, and the reversal of a graph. */
module EdgeLists {

  type Edge = (nat, nat)

  function RowAt(rows: seq<seq<nat>>, i: nat): seq<nat> {
    if i < |rows| then rows[i] else []
  }

  predicate RowBounded(row: seq<nat>, bound: nat) {
    forall j :: 0 <= j < |row| ==> row[j] < bound
  }

  predicate Bounded(rows: seq<seq<nat>>, bound: nat) {
    forall i :: 0 <= i < |rows| ==> RowBounded(rows[i], bound)
  }

  // ---------------------------------------------------------------- rows to edges

  function RowEdges(i: nat, row: seq<nat>): (edges: seq<Edge>)
    ensures |edges| == |row| && forall j :: 0 <= j < |row| ==> edges[j] == (i, row[j])
  {
    seq(|row|, j requires 0 <= j < |row| => (i, row[j]))
  }

  /** The edges of the first `k` rows, row by row. */
  function EdgesUpTo(rows: seq<seq<nat>>, k: nat): seq<Edge>
    requires k <= |rows|
  {
    if k == 0 then [] else EdgesUpTo(rows, k - 1) + RowEdges(k - 1, rows[k - 1])
  }

  function EdgeList(rows: seq<seq<nat>>): seq<Edge> {
    EdgesUpTo(rows, |rows|)
  }

  lemma {:induction false} EdgesUpToLength(rows: seq<seq<nat>>, j: nat, k: nat)
    requires j <= k <= |rows|
    ensures |EdgesUpTo(rows, j)| <= |EdgesUpTo(rows, k)|
  {
    if j < k {
      EdgesUpToLength(rows, j, k - 1);
    }
  }

  /** Counts the edges, then fills an array of that length. */
  method GetEdgesList(rows: seq<seq<nat>>) returns (edges: array<Edge>)
    ensures fresh(edges) && edges[..] == EdgeList(rows)
  {
    var l := 0;
    for i := 0 to |rows|
      invariant l == |EdgesUpTo(rows, i)|
    {
      l := l + |rows[i]|;
    }
    edges := new Edge[l](_ => (0, 0));
    l := 0;
    for i := 0 to |rows|
      invariant l == |EdgesUpTo(rows, i)| <= edges.Length == |EdgeList(rows)|
      invariant edges[..l] == EdgesUpTo(rows, i)
    {
      EdgesUpToLength(rows, i + 1, |rows|);
      var row := rows[i];
      ghost var start := l;
      for j := 0 to |row|
        invariant l == start + j && start + |row| <= edges.Length
        invariant edges[..l] == EdgesUpTo(rows, i) + RowEdges(i, row)[..j]
      {
        edges[l] := (i, row[j]);
        l := l + 1;
        assert RowEdges(i, row)[..j + 1] == RowEdges(i, row)[..j] + [(i, row[j])];
        assert edges[..l] == edges[..l - 1] + [(i, row[j])];
      }
      assert RowEdges(i, row)[..|row|] == RowEdges(i, row);
    }
  }

  // ---------------------------------------------------------------- edges to rows

  function MaxId(edges: seq<Edge>): nat {
    if edges == [] then 0
    else
      var e, m := edges[|edges| - 1], MaxId(edges[..|edges| - 1]);
      var n := if m < e.0 then e.0 else m;
      if n < e.1 then e.1 else n
  }

  lemma {:induction false} MaxIdBounds(edges: seq<Edge>, k: nat)
    requires k < |edges|
    ensures edges[k].0 <= MaxId(edges) && edges[k].1 <= MaxId(edges)
    decreases |edges|
  {
    if k < |edges| - 1 {
      MaxIdBounds(edges[..|edges| - 1], k);
    }
  }

  /** The largest id is one that occurs; it is 0 if there are no edges. */
  lemma {:induction false} MaxIdOccurs(edges: seq<Edge>)
    ensures if edges == [] then MaxId(edges) == 0
            else exists k :: 0 <= k < |edges| && (edges[k].0 == MaxId(edges) || edges[k].1 == MaxId(edges))
    decreases |edges|
  {
    if edges != [] {
      var last, shorter := |edges| - 1, edges[..|edges| - 1];
      MaxIdOccurs(shorter);
      if MaxId(edges) == MaxId(shorter) && shorter != [] {
        var k :| 0 <= k < |shorter| && (shorter[k].0 == MaxId(shorter) || shorter[k].1 == MaxId(shorter));
        assert edges[k] == shorter[k];
      } else {
        assert edges[last].0 == MaxId(edges) || edges[last].1 == MaxId(edges);
      }
    }
  }

  /** The targets of the edges that start at `i`, in the order of the list. */
  function Targets(edges: seq<Edge>, i: nat): seq<nat> {
    if edges == [] then []
    else
      var e := edges[|edges| - 1];
      Targets(edges[..|edges| - 1], i) + if e.0 == i then [e.1] else []
  }

  method GetGraphMapping(edges: seq<Edge>) returns (rows: seq<seq<nat>>)
    ensures |rows| == MaxId(edges) + 1
    ensures forall i :: 0 <= i < |rows| ==> rows[i] == Targets(edges, i)
    ensures edges == [] ==> |rows| == 1
    ensures edges != [] ==>
              exists k :: 0 <= k < |edges| && (|rows| == edges[k].0 + 1 || |rows| == edges[k].1 + 1)
  {
    MaxIdOccurs(edges);
    var n := 0;
    for k := 0 to |edges|
      invariant n == MaxId(edges[..k])
    {
      assert edges[..k + 1][..k] == edges[..k];
      n := if n < edges[k].0 then edges[k].0 else n;
      n := if n < edges[k].1 then edges[k].1 else n;
    }
    assert edges[..|edges|] == edges;
    n := n + 1;
    rows := seq(n, _ => []);
    for k := 0 to |edges|
      invariant |rows| == n
      invariant forall i :: 0 <= i < n ==> rows[i] == Targets(edges[..k], i)
    {
      assert edges[..k + 1][..k] == edges[..k];
      MaxIdBounds(edges, k);
      var e := edges[k];
      rows := rows[e.0 := rows[e.0] + [e.1]];
    }
  }

  lemma {:induction false} TargetsConcat(a: seq<Edge>, b: seq<Edge>, i: nat)
    ensures Targets(a + b, i) == Targets(a, i) + Targets(b, i)
    decreases |b|
  {
    if b == [] {
      assert a + b == a;
    } else {
      TargetsConcat(a, b[..|b| - 1], i);
      assert (a + b)[..|a + b| - 1] == a + b[..|b| - 1];
    }
  }

  lemma {:induction false} TargetsOfRow(k: nat, row: seq<nat>, i: nat)
    ensures Targets(RowEdges(k, row), i) == if i == k then row else []
    decreases |row|
  {
    if row != [] {
      var shorter := row[..|row| - 1];
      assert RowEdges(k, row)[..|row| - 1] == RowEdges(k, shorter);
      TargetsOfRow(k, shorter, i);
      assert row == shorter + [row[|row| - 1]];
    }
  }

  lemma TargetsStep(before: seq<Edge>, k: nat, row: seq<nat>, i: nat)
    ensures Targets(before + RowEdges(k, row), i) == Targets(before, i) + if i == k then row else []
  {
    TargetsConcat(before, RowEdges(k, row), i);
    TargetsOfRow(k, row, i);
  }

  lemma {:induction false} TargetsOfEdges(rows: seq<seq<nat>>, k: nat, i: nat)
    requires k <= |rows|
    ensures Targets(EdgesUpTo(rows, k), i) == if i < k then rows[i] else []
  {
    if k > 0 {
      TargetsOfEdges(rows, k - 1, i);
      TargetsStep(EdgesUpTo(rows, k - 1), k - 1, rows[k - 1], i);
    }
  }

  /** What `GetGraphMapping` returns. */
  predicate IsMapping(edges: seq<Edge>, rows: seq<seq<nat>>) {
    && |rows| == MaxId(edges) + 1
    && forall i :: 0 <= i < |rows| ==> rows[i] == Targets(edges, i)
  }

  lemma {:induction false} TargetsBeyond(edges: seq<Edge>, i: nat)
    requires i > MaxId(edges)
    ensures Targets(edges, i) == []
    decreases |edges|
  {
    if edges != [] {
      TargetsBeyond(edges[..|edges| - 1], i);
    }
  }

  /** From rows to edges and back: every row is restored, up to empty rows at the end. */
  lemma RowsRoundTrip(rows: seq<seq<nat>>, back: seq<seq<nat>>, i: nat)
    requires IsMapping(EdgeList(rows), back)
    ensures RowAt(back, i) == RowAt(rows, i)
  {
    TargetsOfEdges(rows, |rows|, i);
    if i >= |back| {
      TargetsBeyond(EdgeList(rows), i);
    }
  }

  // ---------------------------------------------------------------- from edges to rows and back

  predicate SortedBySource(edges: seq<Edge>) {
    forall i, j :: 0 <= i < j < |edges| ==> edges[i].0 <= edges[j].0
  }

  lemma {:induction false} EdgesSorted(rows: seq<seq<nat>>, k: nat)
    requires k <= |rows|
    ensures SortedBySource(EdgesUpTo(rows, k))
    ensures forall i :: 0 <= i < |EdgesUpTo(rows, k)| ==> EdgesUpTo(rows, k)[i].0 < k
  {
    if k > 0 {
      EdgesSorted(rows, k - 1);
    }
  }

  lemma {:induction false} CountByTargets(edges: seq<Edge>, i: nat, j: nat)
    ensures multiset(edges)[(i, j)] == multiset(Targets(edges, i))[j]
    decreases |edges|
  {
    if edges != [] {
      var last, shorter := edges[|edges| - 1], edges[..|edges| - 1];
      CountByTargets(shorter, i, j);
      assert edges == shorter + [last];
    }
  }

  /**
   From edges to rows and back: the result is the stable sort of the list by source.  It is sorted,
   has the same edges as often, and keeps the edges of each source in order.
   */
  lemma EdgesRoundTrip(edges: seq<Edge>, rows: seq<seq<nat>>)
    requires IsMapping(edges, rows)
    ensures SortedBySource(EdgeList(rows))
    ensures multiset(EdgeList(rows)) == multiset(edges)
    ensures forall i: nat :: Targets(EdgeList(rows), i) == Targets(edges, i)
  {
    EdgesSorted(rows, |rows|);
    forall i: nat
      ensures Targets(EdgeList(rows), i) == Targets(edges, i)
    {
      TargetsOfEdges(rows, |rows|, i);
      if i >= |rows| {
        TargetsBeyond(edges, i);
      }
    }
    forall e: Edge
      ensures multiset(EdgeList(rows))[e] == multiset(edges)[e]
    {
      CountByTargets(EdgeList(rows), e.0, e.1);
      CountByTargets(edges, e.0, e.1);
    }
  }

  // ---------------------------------------------------------------- reversal

  function Repeat(x: nat, k: nat): (s: seq<nat>)
    ensures |s| == k && forall i :: 0 <= i < k ==> s[i] == x
  {
    seq(k, _ => x)
  }

  /**
   The sources, among the first `k` rows, of the edges into `j`: in rising order, each as often as it has
   such an edge.
   */
  function Sources(rows: seq<seq<nat>>, j: nat, k: nat): seq<nat>
    requires k <= |rows|
  {
    if k == 0 then [] else Sources(rows, j, k - 1) + Repeat(k - 1, multiset(rows[k - 1])[j])
  }

  function Reversed(rows: seq<seq<nat>>): (r: seq<seq<nat>>)
    ensures |r| == |rows| && forall j :: 0 <= j < |rows| ==> r[j] == Sources(rows, j, |rows|)
  {
    seq(|rows|, j requires 0 <= j < |rows| => Sources(rows, j, |rows|))
  }

  method RevertGraphMapping(rows: seq<seq<nat>>) returns (reversed: seq<seq<nat>>)
    requires Bounded(rows, |rows|)
    ensures reversed == Reversed(rows)
  {
    reversed := seq(|rows|, _ => []);
    for i := 0 to |rows|
      invariant |reversed| == |rows|
      invariant forall j :: 0 <= j < |rows| ==> reversed[j] == Sources(rows, j, i)
    {
      assert RowBounded(rows[i], |rows|);
      reversed := AppendSource(reversed, rows[i], i);
    }
  }

  /** The inner loop of `RevertGraphMapping`. */
  method AppendSource(rows: seq<seq<nat>>, row: seq<nat>, source: nat) returns (longer: seq<seq<nat>>)
    requires RowBounded(row, |rows|)
    ensures |longer| == |rows|
    ensures forall j :: 0 <= j < |rows| ==> longer[j] == rows[j] + Repeat(source, multiset(row)[j])
  {
    longer := rows;
    for k := 0 to |row|
      invariant |longer| == |rows|
      invariant forall j :: 0 <= j < |rows| ==> longer[j] == rows[j] + Repeat(source, multiset(row[..k])[j])
    {
      assert row[..k + 1] == row[..k] + [row[k]];
      longer := longer[row[k] := longer[row[k]] + [source]];
    }
    assert row[..|row|] == row;
  }

  predicate Rising(s: seq<nat>) {
    forall i, j :: 0 <= i < j < |s| ==> s[i] <= s[j]
  }

  lemma RepeatCount(x: nat, k: nat, y: nat)
    ensures multiset(Repeat(x, k))[y] == if x == y then k else 0
    decreases k
  {
    if k > 0 {
      RepeatCount(x, k - 1, y);
      assert Repeat(x, k) == Repeat(x, k - 1) + [x];
    }
  }

  lemma {:induction false} SourcesRise(rows: seq<seq<nat>>, j: nat, k: nat)
    requires k <= |rows|
    ensures Rising(Sources(rows, j, k)) && RowBounded(Sources(rows, j, k), k)
  {
    if k > 0 {
      SourcesRise(rows, j, k - 1);
    }
  }

  lemma {:induction false} SourcesCount(rows: seq<seq<nat>>, j: nat, k: nat, i: nat)
    requires k <= |rows|
    ensures multiset(Sources(rows, j, k))[i] == if i < k then multiset(rows[i])[j] else 0
  {
    if k > 0 {
      SourcesCount(rows, j, k - 1, i);
      RepeatCount(k - 1, multiset(rows[k - 1])[j], i);
    }
  }

  /** Reversal gives rising rows, and row `j` holds `i` as often as row `i` held `j`. */
  lemma ReversedCharacterised(rows: seq<seq<nat>>, i: nat, j: nat)
    requires i < |rows| && j < |rows|
    ensures Rising(Reversed(rows)[j]) && RowBounded(Reversed(rows)[j], |rows|)
    ensures multiset(Reversed(rows)[j])[i] == multiset(rows[i])[j]
  {
    SourcesRise(rows, j, |rows|);
    SourcesCount(rows, j, |rows|, i);
  }

  lemma SameLast(s: seq<nat>, t: seq<nat>)
    requires Rising(s) && Rising(t) && multiset(s) == multiset(t) && s != []
    ensures t != [] && s[|s| - 1] <= t[|t| - 1]
  {
    assert s[|s| - 1] in multiset(t);
  }

  lemma WithoutLast(s: seq<nat>)
    requires s != []
    ensures multiset(s[..|s| - 1]) == multiset(s) - multiset{s[|s| - 1]}
  {
    assert s == s[..|s| - 1] + [s[|s| - 1]];
  }

  lemma {:induction false} RisingUnique(s: seq<nat>, t: seq<nat>)
    requires Rising(s) && Rising(t) && multiset(s) == multiset(t)
    ensures s == t
    decreases |s|
  {
    if s == [] {
      assert |multiset(t)| == 0;
    } else {
      SameLast(s, t);
      SameLast(t, s);
      WithoutLast(s);
      WithoutLast(t);
      RisingUnique(s[..|s| - 1], t[..|t| - 1]);
      assert s == s[..|s| - 1] + [s[|s| - 1]] && t == t[..|t| - 1] + [t[|t| - 1]];
    }
  }

  lemma RowOutOfBoundsCount(row: seq<nat>, bound: nat, x: nat)
    requires RowBounded(row, bound) && x >= bound
    ensures multiset(row)[x] == 0
  {
    assert x !in row;
  }

  /** Reversing twice sorts every row and loses or gains no edge. */
  lemma ReversedTwiceSorts(rows: seq<seq<nat>>, i: nat)
    requires Bounded(rows, |rows|) && i < |rows|
    ensures Rising(Reversed(Reversed(rows))[i])
    ensures multiset(Reversed(Reversed(rows))[i]) == multiset(rows[i])
  {
    var twice := Reversed(Reversed(rows));
    forall j: nat
      ensures multiset(twice[i])[j] == multiset(rows[i])[j]
    {
      if j < |rows| {
        ReversedCharacterised(Reversed(rows), j, i);
        ReversedCharacterised(rows, i, j);
      } else {
        ReversedCharacterised(Reversed(rows), 0, i);
        assert RowBounded(rows[i], |rows|);
        RowOutOfBoundsCount(rows[i], |rows|, j);
        RowOutOfBoundsCount(twice[i], |rows|, j);
      }
    }
    ReversedCharacterised(Reversed(rows), 0, i);
  }

  /** Reversing a third time gives what reversing once gave. */
  lemma ReversedThreeTimes(rows: seq<seq<nat>>)
    requires Bounded(rows, |rows|)
    ensures Reversed(Reversed(Reversed(rows))) == Reversed(rows)
  {
    var once := Reversed(rows);
    forall j: nat | j < |rows|
      ensures Reversed(Reversed(once))[j] == once[j]
    {
      assert Bounded(once, |once|) by {
        forall i: nat | i < |once| ensures RowBounded(once[i], |once|) {
          ReversedCharacterised(rows, 0, i);
        }
      }
      ReversedTwiceSorts(once, j);
      ReversedCharacterised(rows, 0, j);
      RisingUnique(Reversed(Reversed(once))[j], once[j]);
    }
  }

  /** One reversal turns every edge around, and as often as it was there. */
  lemma ReversedTransposesEdges(rows: seq<seq<nat>>, i: nat, j: nat)
    requires Bounded(rows, |rows|)
    ensures multiset(EdgeList(Reversed(rows)))[(j, i)] == multiset(EdgeList(rows))[(i, j)]
  {
    CountByTargets(EdgeList(rows), i, j);
    CountByTargets(EdgeList(Reversed(rows)), j, i);
    TargetsOfEdges(rows, |rows|, i);
    TargetsOfEdges(Reversed(rows), |rows|, j);
    if i < |rows| && j < |rows| {
      ReversedCharacterised(rows, i, j);
    } else if i < |rows| {
      assert RowBounded(rows[i], |rows|);
      RowOutOfBoundsCount(rows[i], |rows|, j);
    } else if j < |rows| {
      ReversedCharacterised(rows, 0, j);
      RowOutOfBoundsCount(Reversed(rows)[j], |rows|, i);
    }
  }
}

/** Maximum bipartite matching by augmenting paths, each left node tried once. */
module BipartiteMatching {

  /** An edge matrix between `|edge|` left nodes and `rhs` right nodes. */
  datatype Graph = Graph(edge: seq<seq<bool>>, rhs: nat) {
    predicate WellFormed() { forall l | 0 <= l < |edge| :: |edge[l]| == rhs }

    predicate HasEdge(l: int, r: int) { 0 <= l < |edge| && 0 <= r < |edge[l]| && edge[l][r] }
  }

  const UNUSED := -1

  // ---- Matchings as edge sets --------------------------------------------------------------------

  type Edge = (int, int)

  ghost predicate IsMatching(g: Graph, M: set<Edge>) {
    && (forall e | e in M :: g.HasEdge(e.0, e.1))
    && (forall e, f | e in M && f in M && (e.0 == f.0 || e.1 == f.1) :: e == f)
  }

  // ---- The two arrays ----------------------------------------------------------------------------

  /** Every used entry of `left` is an edge and is mirrored by `right`. */
  ghost predicate LeftOk(g: Graph, left: seq<int>, right: seq<int>) {
    && |left| == |g.edge| && |right| == g.rhs
    && forall l | 0 <= l < |left| && left[l] != UNUSED ::
        g.HasEdge(l, left[l]) && 0 <= left[l] < |right| && right[left[l]] == l
  }

  /** Every used entry of `right`, except possibly `hole`, is mirrored by `left`. */
  ghost predicate RightOk(left: seq<int>, right: seq<int>, hole: int) {
    forall r | 0 <= r < |right| && right[r] != UNUSED && r != hole :: 0 <= right[r] < |left| && left[right[r]] == r
  }

  ghost predicate Mirrored(g: Graph, left: seq<int>, right: seq<int>) {
    LeftOk(g, left, right) && RightOk(left, right, UNUSED)
  }

  /** Dead right nodes: all matched, and whoever is matched to one has only dead neighbours. */
  ghost predicate Dead(g: Graph, right: seq<int>, D: set<int>) {
    forall r | r in D :: 0 <= r < |right| && right[r] != UNUSED && forall r' | g.HasEdge(right[r], r') :: r' in D
  }

  ghost predicate Neighbours(g: Graph, l: int, D: set<int>) {
    forall r | g.HasEdge(l, r) :: r in D
  }

  /** What a successful search changes: `ilhs` and left nodes matched to nodes unseen at the start. */
  ghost predicate Augmented(ilhs: int, left: seq<int>, right: seq<int>, seen: seq<bool>, left': seq<int>,
                            right': seq<int>) {
    && |left'| == |left| && |right'| == |right|
    && 0 <= ilhs < |left'| && left'[ilhs] != UNUSED && 0 <= left'[ilhs] < |seen| && !seen[left'[ilhs]]
    && (forall l | 0 <= l < |left| && l != ilhs :: (left'[l] == UNUSED <==> left[l] == UNUSED))
    && (forall r | 0 <= r < |right| && right[r] != UNUSED :: right'[r] != UNUSED)
    && (forall r | 0 <= r < |right| && r < |seen| && seen[r] :: right'[r] == right[r])
  }

  /** Everything a successful search from `ilhs` promises; `D` is any set of dead nodes. */
  ghost predicate Success(g: Graph, ilhs: int, seen: seq<bool>, D: set<int>, left: seq<int>, right: seq<int>,
                          left': seq<int>, right': seq<int>) {
    && 0 <= ilhs < |left| && |right| == |seen|
    && LeftOk(g, left', right') && RightOk(left', right', left[ilhs])
    && Augmented(ilhs, left, right, seen, left', right')
    && (forall r | r in D && 0 <= r < |right| && |right'| == |right| && r != left[ilhs] :: right'[r] == right[r])
  }

  /** Everything a failed search promises. */
  ghost predicate Failure(g: Graph, ilhs: int, right: seq<int>, seen: seq<bool>, seen': seq<bool>) {
    && Grown(seen, seen')
    && (forall r | g.HasEdge(ilhs, r) :: 0 <= r < |seen'| && seen'[r])
    && (forall r | 0 <= r < |seen| && seen'[r] && !seen[r] :: Exhausted(g, right, seen', r))
  }

  /** Linking `ilhs` to a free right node. */
  lemma LinkFree(g: Graph, ilhs: int, irhs: int, seen: seq<bool>, D: set<int>, left: seq<int>, right: seq<int>)
    requires Mirrored(g, left, right) && Dead(g, right, D) && g.HasEdge(ilhs, irhs) && |seen| == |right|
             && g.WellFormed()
    requires !seen[irhs] && right[irhs] == UNUSED && (left[ilhs] != UNUSED ==> seen[left[ilhs]])
    ensures Success(g, ilhs, seen, D, left, right, left[ilhs := irhs], right[irhs := ilhs])
    ensures irhs !in D
  {
  }

  /** Linking `ilhs` to a right node whose former partner found another one. */
  lemma LinkFreed(g: Graph, ilhs: int, irhs: int, seen: seq<bool>, marked: seq<bool>, D: set<int>, left: seq<int>,
                  right: seq<int>, left1: seq<int>, right1: seq<int>)
    requires Mirrored(g, left, right) && g.HasEdge(ilhs, irhs) && |seen| == |right| && |left| == |g.edge|
             && g.WellFormed()
    requires !seen[irhs] && right[irhs] != UNUSED && (left[ilhs] != UNUSED ==> seen[left[ilhs]])
    requires Grown(seen, marked) && marked[irhs] && irhs !in D
    requires Success(g, right[irhs], marked, D, left, right, left1, right1)
    ensures Success(g, ilhs, seen, D, left, right, left1[ilhs := irhs], right1[irhs := ilhs])
  {
    var inner := right[irhs];
    assert left[inner] == irhs && inner != ilhs;
    var left2, right2 := left1[ilhs := irhs], right1[irhs := ilhs];
    assert right1[irhs] == inner;
    forall l | 0 <= l < |left2| && left2[l] != UNUSED
        ensures g.HasEdge(l, left2[l]) && 0 <= left2[l] < |right2| && right2[left2[l]] == l {
      if l != ilhs { assert left1[l] != irhs; }
    }
    forall r | 0 <= r < |right2| && right2[r] != UNUSED && r != left[ilhs]
        ensures 0 <= right2[r] < |left2| && left2[right2[r]] == r {
      if r != irhs {
        assert left1[right1[r]] == r;
      }
    }
  }

  lemma SuccessShape(g: Graph, ilhs: int, seen: seq<bool>, D: set<int>, left: seq<int>, right: seq<int>,
                     left': seq<int>, right': seq<int>)
    requires Success(g, ilhs, seen, D, left, right, left', right')
    ensures |left'| == |left| && |right'| == |right|
  {
  }

  lemma NoPath(g: Graph, ilhs: int, right: seq<int>, seen: seq<bool>, seen': seq<bool>)
    requires Grown(seen, seen') && g.WellFormed() && |seen| == g.rhs
    requires forall r | 0 <= r < g.rhs && g.HasEdge(ilhs, r) :: seen'[r]
    requires forall r | 0 <= r < |seen| && seen'[r] && !seen[r] :: Exhausted(g, right, seen', r)
    ensures Failure(g, ilhs, right, seen, seen')
  {
  }

  /** The partner of a dead node has only dead neighbours, so a search that enters `D` does not leave it. */
  lemma DeadPartner(g: Graph, right: seq<int>, D: set<int>, r: int)
    requires Dead(g, right, D) && r in D
    ensures 0 <= r < |right| && right[r] != UNUSED && Neighbours(g, right[r], D)
  {
  }

  /** One exhausted neighbour more. */
  lemma FailedEdge(g: Graph, right: seq<int>, seen: seq<bool>, before: seq<bool>, marked: seq<bool>, after: seq<bool>,
                   irhs: int)
    requires Grown(seen, before) && 0 <= irhs < |seen| && marked == before[irhs := true] && |right| == |seen|
             && right[irhs] != UNUSED
    requires forall r | 0 <= r < |seen| && before[r] && !seen[r] :: Exhausted(g, right, before, r)
    requires Failure(g, right[irhs], right, marked, after)
    ensures Grown(seen, after) && Grown(before, after) && after[irhs]
    ensures forall r | 0 <= r < |seen| && after[r] && !seen[r] :: Exhausted(g, right, after, r)
  {
    forall r | 0 <= r < |seen| && after[r] && !seen[r] ensures Exhausted(g, right, after, r) {
      if r != irhs {
        if before[r] { assert Exhausted(g, right, before, r); } else { assert Exhausted(g, right, after, r); }
      }
    }
  }

  function Count(seen: seq<bool>): nat {
    if seen == [] then 0 else (if seen[0] then 0 else 1) + Count(seen[1..])
  }

  lemma {:induction false} CountMark(seen: seq<bool>, r: nat)
    requires r < |seen| && !seen[r]
    ensures Count(seen[r := true]) < Count(seen)
  {
    if r == 0 {
      assert seen[0 := true][1..] == seen[1..];
    } else {
      CountMark(seen[1..], r - 1);
      assert seen[r := true][1..] == seen[1..][r - 1 := true];
    }
  }

  lemma {:induction false} CountGrow(seen: seq<bool>, seen': seq<bool>)
    requires |seen| == |seen'| && forall r | 0 <= r < |seen| && seen[r] :: seen'[r]
    ensures Count(seen') <= Count(seen)
  {
    if seen != [] {
      CountGrow(seen[1..], seen'[1..]);
    }
  }

  /** A right node the search marked: matched, and its partner's neighbours are all marked. */
  ghost predicate Exhausted(g: Graph, right: seq<int>, seen: seq<bool>, r: int) {
    && 0 <= r < |right| && right[r] != UNUSED
    && forall r' | g.HasEdge(right[r], r') :: 0 <= r' < |seen| && seen[r']
  }

  ghost predicate Grown(seen: seq<bool>, seen': seq<bool>) {
    |seen'| == |seen| && forall r | 0 <= r < |seen| && seen[r] :: seen'[r]
  }

  class MaxBipartiteMatchState {
    const graph: Graph
    var left: seq<int>
    var right: seq<int>

    constructor (graph: Graph)
      requires graph.WellFormed()
      ensures this.graph == graph && Mirrored(graph, left, right)
      ensures forall l | 0 <= l < |left| :: left[l] == UNUSED
      ensures forall r | 0 <= r < |right| :: right[r] == UNUSED
    {
      this.graph := graph;
      left := seq(|graph.edge|, _ => UNUSED);
      right := seq(graph.rhs, _ => UNUSED);
    }

    /** Depth-first search for an augmenting path from `ilhs`; `D` is any set of dead nodes. */
    method TryAugment(ilhs: nat, seen: seq<bool>, ghost D: set<int>) returns (found: bool, seen': seq<bool>)
      requires graph.WellFormed() && ilhs < |graph.edge| && |seen| == graph.rhs
      requires Mirrored(graph, left, right) && Dead(graph, right, D)
      requires left[ilhs] != UNUSED ==> seen[left[ilhs]]
      modifies this
      ensures !found ==> left == old(left) && right == old(right) && Failure(graph, ilhs, right, seen, seen')
      ensures found ==> Success(graph, ilhs, seen, D, old(left), old(right), left, right)
      ensures Neighbours(graph, ilhs, D) ==> !found
      decreases Count(seen)
    {
      hide Dead, Success, Exhausted, Count, Failure;
      seen' := seen;
      found := false;
      var irhs := 0;
      while irhs < graph.rhs
        invariant 0 <= irhs <= graph.rhs
        invariant left == old(left) && right == old(right) && Grown(seen, seen')
        invariant forall r | 0 <= r < irhs && graph.HasEdge(ilhs, r) :: seen'[r]
        invariant forall r | 0 <= r < |seen| && seen'[r] && !seen[r] :: Exhausted(graph, right, seen', r)
      {
        if !seen'[irhs] && graph.HasEdge(ilhs, irhs) {
          ghost var before := seen';
          seen' := seen'[irhs := true];
          if right[irhs] == UNUSED {
            LinkFree(graph, ilhs, irhs, seen, D, left, right);
            left, right := left[ilhs := irhs], right[irhs := ilhs];
            return true, seen';
          }
          CountGrow(seen, before);
          CountMark(before, irhs);
          ghost var marked := seen';
          if irhs in D { DeadPartner(graph, right, D, irhs); }
          found, seen' := TryAugment(right[irhs], seen', D);
          if found {
            LinkFreed(graph, ilhs, irhs, seen, marked, D, old(left), old(right), left, right);
            SuccessShape(graph, old(right)[irhs], marked, D, old(left), old(right), left, right);
            left, right := left[ilhs := irhs], right[irhs := ilhs];
            return true, seen';
          }
          FailedEdge(graph, right, seen, before, marked, seen', irhs);
        }
        irhs := irhs + 1;
      }
      NoPath(graph, ilhs, right, seen, seen');
    }

    /** Tries every left node once and returns the matched pairs. */
    method Compute() returns (result: seq<Edge>)
      requires graph.WellFormed() && Mirrored(graph, left, right)
      requires forall l | 0 <= l < |left| :: left[l] == UNUSED
      requires forall r | 0 <= r < |right| :: right[r] == UNUSED
      modifies this
      ensures IsMatching(graph, set e | e in result) && |set e | e in result| == |result|
      ensures forall M | IsMatching(graph, M) :: |M| <= |result|
    {
      hide Dead, Success, Failure, Mirrored;
      ghost var D: set<int> := {};
      NothingDead(graph, right);
      MirroredShape(graph, left, right);
      var ilhs := 0;
      while ilhs < |graph.edge|
        invariant 0 <= ilhs <= |graph.edge| == |left| && |right| == graph.rhs
        invariant Mirrored(graph, left, right) && Dead(graph, right, D)
        invariant forall l | 0 <= l < ilhs && left[l] == UNUSED :: Neighbours(graph, l, D)
        invariant forall l | ilhs <= l < |left| :: left[l] == UNUSED
      {
        hide Neighbours;
        var unseen := seq(graph.rhs, _ => false);
        ghost var left0, right0 := left, right;
        var found, seen := TryAugment(ilhs, unseen, D);
        if found {
          MatchedOneMore(graph, ilhs, unseen, D, left0, right0, left, right);
        } else {
          ghost var D' := D + set r | 0 <= r < |seen| && seen[r];
          DeadGrows(graph, ilhs, right, D, unseen, seen, D');
          forall l | 0 <= l < ilhs && left[l] == UNUSED ensures Neighbours(graph, l, D') {
            NeighboursGrow(graph, l, D, D');
          }
          D := D';
        }
        ilhs := ilhs + 1;
      }
      result := [];
      for l := 0 to |left|
        invariant Listed(left, l, result)
      {
        if left[l] != UNUSED {
          result := result + [(l, left[l])];
        }
      }
      ListedIsMatching(graph, left, right, result);
      forall M | IsMatching(graph, M) ensures |M| <= |result| {
        MatchingBound(graph, left, right, D, M, result);
      }
    }
  }

  // ---- The search state --------------------------------------------------------------------------

  lemma NothingDead(g: Graph, right: seq<int>)
    ensures Dead(g, right, {})
  {
  }

  lemma MirroredShape(g: Graph, left: seq<int>, right: seq<int>)
    requires Mirrored(g, left, right)
    ensures |left| == |g.edge| && |right| == g.rhs
  {
  }

  lemma MatchedOneMore(g: Graph, ilhs: int, seen: seq<bool>, D: set<int>, left: seq<int>, right: seq<int>,
                       left': seq<int>, right': seq<int>)
    requires Success(g, ilhs, seen, D, left, right, left', right') && left[ilhs] == UNUSED && Dead(g, right, D)
             && |left| == |g.edge| && |right| == g.rhs
    ensures Mirrored(g, left', right') && Dead(g, right', D) && |left'| == |left| && |right'| == |right|
            && left'[ilhs] != UNUSED
    ensures forall l | 0 <= l < |left| && l != ilhs :: left'[l] == UNUSED <==> left[l] == UNUSED
  {
  }

  lemma DeadGrows(g: Graph, ilhs: int, right: seq<int>, D: set<int>, unseen: seq<bool>, seen: seq<bool>, D': set<int>)
    requires Dead(g, right, D) && Failure(g, ilhs, right, unseen, seen) && forall r | 0 <= r < |unseen| :: !unseen[r]
    requires D' == D + set r | 0 <= r < |seen| && seen[r]
    ensures Dead(g, right, D') && Neighbours(g, ilhs, D')
  {
    forall r | r in D' ensures 0 <= r < |right| && right[r] != UNUSED && forall r' | g.HasEdge(right[r], r') ::
        r' in D' {
      if r !in D { assert Exhausted(g, right, seen, r); }
    }
  }

  lemma NeighboursGrow(g: Graph, l: int, D: set<int>, D': set<int>)
    requires Neighbours(g, l, D) && D <= D'
    ensures Neighbours(g, l, D')
  {
  }

  // ---- The result --------------------------------------------------------------------------------

  /** `result` lists the used left nodes below `n` with their partners, in order. */
  ghost predicate Listed(left: seq<int>, n: nat, result: seq<Edge>) {
    && n <= |left|
    && (forall x | 0 <= x < |result| :: 0 <= result[x].0 < n && left[result[x].0] != UNUSED
                                        && result[x].1 == left[result[x].0])
    && (forall x, y | 0 <= x < y < |result| :: result[x].0 < result[y].0)
    && (forall l | 0 <= l < n && left[l] != UNUSED :: (l, left[l]) in result)
  }

  lemma {:induction false} DistinctSize(s: seq<Edge>)
    requires forall x, y | 0 <= x < y < |s| :: s[x] != s[y]
    ensures |set e | e in s| == |s|
  {
    if s != [] {
      var n := |s| - 1;
      DistinctSize(s[..n]);
      assert (set e | e in s) == (set e | e in s[..n]) + {s[n]};
    }
  }

  lemma ListedIsMatching(g: Graph, left: seq<int>, right: seq<int>, result: seq<Edge>)
    requires Mirrored(g, left, right) && Listed(left, |left|, result)
    ensures IsMatching(g, set e | e in result) && |set e | e in result| == |result|
  {
    DistinctSize(result);
    var M := set e | e in result;
    forall e | e in M ensures g.HasEdge(e.0, e.1) && 0 <= e.0 < |left| && e.1 == left[e.0] && right[e.1] == e.0 {
      var x :| 0 <= x < |result| && result[x] == e;
    }
  }

  /** The edge of the result that accounts for an edge of another matching. */
  function Charge(left: seq<int>, right: seq<int>, D: set<int>, e: Edge): int {
    if e.1 in D && 0 <= e.1 < |right| then right[e.1] else e.0
  }

  /** An edge outside the dead nodes starts at a left node matched outside them. */
  lemma ChargeUsed(g: Graph, left: seq<int>, right: seq<int>, D: set<int>, e: Edge)
    requires Mirrored(g, left, right) && Dead(g, right, D) && g.HasEdge(e.0, e.1)
    requires forall l | 0 <= l < |left| && left[l] == UNUSED :: Neighbours(g, l, D)
    ensures var c := Charge(left, right, D, e);
            0 <= c < |left| && left[c] != UNUSED && (left[c] in D <==> e.1 in D) && (e.1 in D ==> left[c] == e.1)
  {
    var l := left[e.0];
    assert l != UNUSED ==> right[l] == e.0;
  }

  lemma {:induction false} ChargeInjective(g: Graph, left: seq<int>, right: seq<int>, D: set<int>, M: set<Edge>,
                                           U: set<int>)
    requires Mirrored(g, left, right) && Dead(g, right, D) && IsMatching(g, M)
    requires forall l | 0 <= l < |left| && left[l] == UNUSED :: Neighbours(g, l, D)
    requires forall e | e in M :: Charge(left, right, D, e) in U
    ensures |M| <= |U|
    decreases M
  {
    if M != {} {
      var e :| e in M;
      var c := Charge(left, right, D, e);
      forall f | f in M - {e} ensures Charge(left, right, D, f) in U - {c} {
        ChargeUsed(g, left, right, D, e);
        ChargeUsed(g, left, right, D, f);
      }
      ChargeInjective(g, left, right, D, M - {e}, U - {c});
    }
  }

  /** The matching found is a maximum one: every matching charges its edges to distinct edges of the result. */
  lemma MatchingBound(g: Graph, left: seq<int>, right: seq<int>, D: set<int>, M: set<Edge>, result: seq<Edge>)
    requires Mirrored(g, left, right) && Dead(g, right, D) && Listed(left, |left|, result) && IsMatching(g, M)
    requires forall l | 0 <= l < |left| && left[l] == UNUSED :: Neighbours(g, l, D)
    ensures |M| <= |result|
  {
    hide Dead, Mirrored, Neighbours;
    var U := Used(left, |left|);
    forall e | e in M ensures Charge(left, right, D, e) in U { ChargeUsed(g, left, right, D, e); }
    ChargeInjective(g, left, right, D, M, U);
    UsedCount(left, |left|, result);
  }

  lemma {:induction false} UsedCount(left: seq<int>, n: nat, result: seq<Edge>)
    requires Listed(left, n, result)
    ensures |Used(left, n)| <= |result|
    decreases |result|
  {
    if result == [] {
      assert Used(left, n) == {};
    } else {
      var r := |result| - 1;
      var last := result[r].0;
      ListedPrefix(left, n, result);
      UsedCount(left, last, result[..r]);
      UsedSplit(left, n, result);
    }
  }

  ghost function Used(left: seq<int>, n: nat): set<int>
    requires n <= |left|
  {
    set l | 0 <= l < n && left[l] != UNUSED
  }

  lemma ListedPrefix(left: seq<int>, n: nat, result: seq<Edge>)
    requires Listed(left, n, result) && result != []
    ensures Listed(left, result[|result| - 1].0, result[..|result| - 1])
  {
    var r := |result| - 1;
    var last, rest := result[r].0, result[..r];
    forall l | 0 <= l < last && left[l] != UNUSED ensures (l, left[l]) in rest {
      var x :| 0 <= x < |result| && result[x] == (l, left[l]);
      assert rest[x] == (l, left[l]);
    }
  }

  lemma UsedSplit(left: seq<int>, n: nat, result: seq<Edge>)
    requires Listed(left, n, result) && result != []
    ensures Used(left, n) == Used(left, result[|result| - 1].0) + {result[|result| - 1].0}
  {
    var last := result[|result| - 1].0;
    forall l | l in Used(left, n) ensures l <= last {
      var x :| 0 <= x < |result| && result[x] == (l, left[l]);
    }
  }
}

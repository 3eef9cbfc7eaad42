/** Topological sort by peeling off what depends on nothing. */
module Toposort {
  import opened Options

  type Node = int

  /** `i` depends on `j` when j in data[i]. */
  type Graph = map<Node, set<Node>>

  function Deps(data: Graph, x: Node): set<Node> { if x in data then data[x] else {} }

  ghost function Mentioned(data: Graph): set<Node> { set x, y | x in data && y in data[x] :: y }

  ghost function Nodes(data: Graph): set<Node> { data.Keys + Mentioned(data) }

  ghost predicate Walk(data: Graph, w: seq<Node>) {
    forall k :: 0 <= k < |w| - 1 ==> w[k] in data && w[k + 1] in data[w[k]]
  }

  ghost predicate IsCycle(data: Graph, w: seq<Node>) { |w| >= 2 && w[0] == w[|w| - 1] && Walk(data, w) }

  ghost predicate Cyclic(data: Graph) { exists w :: IsCycle(data, w) }

  ghost predicate Distinct(s: seq<Node>) { forall i, j :: 0 <= i < j < |s| ==> s[i] != s[j] }

  ghost function Elems(s: seq<Node>): set<Node> { set x | x in s }

  /** Every dependency of a listed node is listed before it. */
  ghost predicate InOrder(data: Graph, s: seq<Node>) {
    forall i :: 0 <= i < |s| && s[i] in data ==> data[s[i]] <= Elems(s[..i])
  }

  lemma ElemsConcat(a: seq<Node>, b: seq<Node>)
    ensures Elems(a + b) == Elems(a) + Elems(b)
  {
  }

  lemma EmptyIff(s: set<Node>)
    ensures (forall y :: y !in s) ==> s == {}
  {
    if forall y :: y !in s { assert s == {}; }
  }

  lemma Member(s: set<Node>) returns (x: Node)
    requires s != {}
    ensures x in s
  {
    EmptyIff(s);
    x :| x in s;
  }

  // ----- Cycles ---------------------------------------------------------------------------

  /** Along a walk inside an ordered list, positions fall. */
  lemma {:induction false} WalkFalls(data: Graph, s: seq<Node>, w: seq<Node>, p: nat) returns (q: nat)
    requires InOrder(data, s) && Distinct(s) && Walk(data, w) && |w| > 0 && p < |s| && s[p] == w[0]
    ensures q < |s| && s[q] == w[|w| - 1] && q <= p && (|w| > 1 ==> q < p)
    decreases |w|
  {
    if |w| == 1 {
      q := p;
    } else {
      assert w[1] in Elems(s[..p]);
      var r :| 0 <= r < p && s[r] == w[1];
      assert forall k :: 0 <= k < |w[1..]| - 1 ==> w[1..][k + 1] in Deps(data, w[1..][k]) by {
        forall k | 0 <= k < |w[1..]| - 1
          ensures w[1..][k + 1] in Deps(data, w[1..][k])
        {
          assert w[k + 2] in Deps(data, w[k + 1]);
        }
      }
      q := WalkFalls(data, s, w[1..], r);
    }
  }

  /** An ordered list of all nodes rules out cycles. */
  lemma OrderedIsAcyclic(data: Graph, s: seq<Node>)
    requires InOrder(data, s) && Distinct(s) && Elems(s) == Nodes(data)
    ensures !Cyclic(data)
  {
    if Cyclic(data) {
      var w :| IsCycle(data, w);
      assert w[0] in data by { assert w[1] in Deps(data, w[0]); }
      assert w[0] in Elems(s);
      var p :| 0 <= p < |s| && s[p] == w[0];
      var q := WalkFalls(data, s, w, p);
    }
  }

  /** Where everything left depends on something left, one can walk on for ever. */
  lemma {:induction false} LongWalk(data: Graph, left: set<Node>, n: nat) returns (w: seq<Node>)
    requires left != {} && forall x :: x in left ==> Deps(data, x) * left != {}
    ensures |w| == n + 1 && Walk(data, w) && Elems(w) <= left
  {
    if n == 0 {
      var x := Member(left);
      w := [x];
    } else {
      var v := LongWalk(data, left, n - 1);
      assert v[|v| - 1] in Elems(v);
      var y := Member(Deps(data, v[|v| - 1]) * left);
      w := v + [y];
    }
  }

  lemma {:induction false} Pigeonhole(s: seq<Node>, bag: set<Node>)
    requires Elems(s) <= bag && |s| > |bag|
    ensures !Distinct(s)
  {
    if |s| > 0 {
      var (x, t) := (s[|s| - 1], s[..|s| - 1]);
      assert x in Elems(s);
      if x !in t {
        assert Elems(t) <= bag - {x} by {
          forall y | y in Elems(t) ensures y in bag - {x} { assert y in s; }
        }
        Pigeonhole(t, bag - {x});
        var i, j :| 0 <= i < j < |t| && t[i] == t[j];
        assert s[i] == s[j];
      } else {
        var i :| 0 <= i < |t| && t[i] == x;
        assert s[i] == s[|s| - 1];
      }
    }
  }

  lemma LeftoverIsCyclic(data: Graph, left: set<Node>)
    requires left != {} && forall x :: x in left ==> Deps(data, x) * left != {}
    ensures Cyclic(data)
  {
    var w := LongWalk(data, left, |left|);
    Pigeonhole(w, left);
    var i, j :| 0 <= i < j < |w| && w[i] == w[j];
    var c := w[i..j + 1];
    forall k | 0 <= k < |c| - 1 ensures c[k + 1] in Deps(data, c[k]) { assert w[i + k + 1] in Deps(data, w[i + k]); }
    assert IsCycle(data, c);
  }

  // ----- The algorithm ----------------------------------------------------------------------

  ghost predicate Ascending(s: seq<Node>) { forall i, j :: 0 <= i < j < |s| ==> s[i] < s[j] }

  lemma {:induction false} Smallest(s: set<Node>) returns (m: Node)
    requires s != {}
    ensures m in s && forall x :: x in s ==> m <= x
    decreases |s|
  {
    m := Member(s);
    var rest := s - {m};
    if rest != {} {
      var k := Smallest(rest);
      assert forall x :: x in s ==> x == m || x in rest;
      m := if m < k then m else k;
    } else {
      assert forall x :: x in s ==> x == m by { forall x | x in s ensures x == m { assert x !in rest; } }
    }
  }

  /** r holds the smaller elements of s, ascending, and rest the others. */
  ghost predicate Split(s: set<Node>, r: seq<Node>, rest: set<Node>) {
    && Ascending(r) && Elems(r) + rest == s && Elems(r) * rest == {}
    && forall i, y :: 0 <= i < |r| && y in rest ==> r[i] < y
  }

  lemma TakeSmallest(s: set<Node>, r: seq<Node>, rest: set<Node>, m: Node)
    requires Split(s, r, rest) && m in rest && forall x :: x in rest ==> m <= x
    ensures Split(s, r + [m], rest - {m})
  {
    ElemsConcat(r, [m]);
    assert Elems([m]) == {m};
    hide Elems;
    var (a, b) := (Elems(r), rest - {m});
    assert rest == b + {m};
  }

  /** The elements of a set in ascending order. */
  method Sorted(s: set<Node>) returns (r: seq<Node>)
    ensures Ascending(r) && Elems(r) == s
  {
    r := [];
    var rest := s;
    assert Elems([]) == {};
    while rest != {}
      invariant Split(s, r, rest)
      decreases |rest|
    {
      hide Split;
      ghost var least := Smallest(rest);
      var m :| m in rest && forall x :: x in rest ==> m <= x;
      TakeSmallest(s, r, rest, m);
      r := r + [m];
      rest := rest - {m};
    }
  }

  /** What is left of the graph once `done` has been listed. */
  ghost predicate Rest(data: Graph, cur: Graph, done: seq<Node>) {
    && cur.Keys == Nodes(data) - Elems(done)
    && forall x :: x in cur ==> cur[x] == Deps(data, x) - Elems(done)
  }

  method Union(data: Graph) returns (r: set<Node>)
    ensures r == Mentioned(data)
  {
    r := set x, y | x in data && y in data[x] :: y;
  }

  ghost predicate Listed(data: Graph, done: seq<Node>) {
    Distinct(done) && InOrder(data, done) && Elems(done) <= Nodes(data)
  }

  /** A group joins the list: each of its members depends only on what was listed. */
  lemma GroupJoins(data: Graph, cur: Graph, done: seq<Node>, group: seq<Node>)
    requires Listed(data, done) && Rest(data, cur, done) && Ascending(group)
    requires forall x :: x in group <==> x in cur && cur[x] == {}
    ensures Listed(data, done + group)
  {
    var s := done + group;
    forall i | 0 <= i < |s| ensures Deps(data, s[i]) <= Elems(s[..i]) {
      if i < |done| {
        assert s[..i] == done[..i];
      } else {
        assert s[i] in group;
        assert cur[s[i]] == Deps(data, s[i]) - Elems(done) == {};
        forall x | x in Deps(data, s[i]) ensures x in Elems(done) { assert x !in cur[s[i]]; }
        assert s[..i][..|done|] == done;
        forall x | x in Elems(done) ensures x in Elems(s[..i]) {
          var k :| 0 <= k < |done| && done[k] == x;
          assert s[..i][k] == x;
        }
      }
    }
    forall i, j | 0 <= i < j < |s| ensures s[i] != s[j] {
      if i < |done| && j >= |done| {
        assert s[j] in group && s[i] in Elems(done);
        assert s[j] in cur;
      }
    }
    forall x | x in Elems(s) ensures x in Nodes(data) {
      if x !in done { assert x in group && x in cur; }
    }
  }

  /** The graph after a group has been taken out. */
  lemma RestAfter(data: Graph, cur: Graph, done: seq<Node>, ordered: set<Node>, next: Graph, group: seq<Node>)
    requires Rest(data, cur, done) && ordered <= cur.Keys && Elems(group) == ordered
    requires next.Keys == cur.Keys - ordered && forall x :: x in next ==> next[x] == cur[x] - ordered
    ensures Rest(data, next, done + group)
  {
    ElemsConcat(done, group);
    hide Nodes, Deps, Elems;
    forall x | x in next
      ensures next[x] == Deps(data, x) - Elems(done + group)
    {
      assert cur[x] == Deps(data, x) - Elems(done);
    }
  }

  /** One round: everything without dependencies left is listed and taken out. */
  method Round(data: Graph, cur: Graph, done: seq<Node>) returns (group: seq<Node>, next: Graph)
    requires Listed(data, done) && Rest(data, cur, done)
    ensures (group == [] <==> forall x :: x in cur ==> cur[x] != {})
    ensures Listed(data, done + group) && Rest(data, next, done + group)
    ensures group != [] ==> |next| < |cur|
    ensures group == [] ==> next == cur
  {
    group := Sorted(Free(cur));
    next := Peel(cur, Free(cur));
    RoundFacts(cur, group);
    GroupIsFree(cur, group);
    hide Free, Peel, Elems, Listed, Rest, Ascending;
    GroupJoins(data, cur, done, group);
    RestAfter(data, cur, done, Free(cur), next, group);
  }

  function Free(cur: Graph): (r: set<Node>)
    ensures r <= cur.Keys
  {
    set x | x in cur && cur[x] == {}
  }

  function Peel(cur: Graph, ordered: set<Node>): (r: Graph)
    ensures r.Keys == cur.Keys - ordered && forall x :: x in r ==> r[x] == cur[x] - ordered
  {
    map x | x in cur && x !in ordered :: cur[x] - ordered
  }

  lemma GroupIsFree(cur: Graph, group: seq<Node>)
    requires Elems(group) == Free(cur)
    ensures forall x :: x in group <==> x in cur && cur[x] == {}
  {
    assert forall x :: x in group <==> x in Elems(group);
  }

  lemma RoundFacts(cur: Graph, group: seq<Node>)
    requires Elems(group) == Free(cur)
    ensures group == [] <==> forall x :: x in cur ==> cur[x] != {}
    ensures group == [] ==> Peel(cur, Free(cur)) == cur
    ensures group != [] ==> |Peel(cur, Free(cur))| < |cur|
  {
    GroupIsFree(cur, group);
    if group != [] {
      assert group[0] in group;
      assert group[0] in Elems(group);
      hide Peel;
      Shrinks(cur, Peel(cur, Free(cur)), Free(cur), group[0]);
    } else {
      assert forall x :: x in cur ==> x !in group;
      assert Elems([]) == {};
      PeelNothing(cur);
    }
  }

  lemma PeelNothing(cur: Graph)
    ensures Peel(cur, {}) == cur
  {
    var r := Peel(cur, {});
    assert r.Keys == cur.Keys;
    forall x | x in cur ensures r[x] == cur[x] { assert cur[x] - {} == cur[x]; }
  }

  /** The graph with an empty entry for everything only mentioned. */
  method Completed(data: Graph) returns (cur: Graph)
    ensures Rest(data, cur, []) && Listed(data, [])
  {
    var mentioned := Union(data);
    var extra := mentioned - data.Keys;
    cur := map x | x in data.Keys + extra :: if x in data then data[x] else {};
    assert Elems([]) == {};
    assert cur.Keys == Nodes(data);
  }

  /** Lists every node once, each after all it depends on, or reports an error; and reports
      an error exactly when the graph has a cycle. */
  method Sort(data: Graph) returns (r: Option<seq<Node>>)
    ensures r.Some? ==> Distinct(r.value) && Elems(r.value) == Nodes(data) && InOrder(data, r.value)
    ensures r.None? <==> Cyclic(data)
  {
    if |data| == 0 {
      OrderedIsAcyclic(data, []);
      return Some([]);
    }
    var cur := Completed(data);
    var result: seq<Node> := [];
    var going := true;
    while going
      invariant Listed(data, result) && Rest(data, cur, result)
      invariant !going ==> forall x :: x in cur ==> cur[x] != {}
      decreases if going then |cur| + 1 else 0
    {
      hide Listed, Rest;
      var group;
      group, cur := Round(data, cur, result);
      going := group != [];
      assert group == [] ==> result + group == result;
      result := result + group;
    }
    if |cur| != 0 {
      LeftIsCyclic(data, cur, result);
      return None;
    }
    AllListed(data, cur, result);
    OrderedIsAcyclic(data, result);
    return Some(result);
  }

  lemma AllListed(data: Graph, cur: Graph, done: seq<Node>)
    requires Rest(data, cur, done) && Listed(data, done) && |cur| == 0
    ensures Elems(done) == Nodes(data)
  {
    assert cur.Keys == {};
  }

  lemma Shrinks(was: Graph, cur: Graph, ordered: set<Node>, x: Node)
    requires x in ordered && ordered <= was.Keys && cur.Keys == was.Keys - ordered
    ensures |cur| < |was|
  {
    assert cur.Keys <= was.Keys - {x};
    Smaller(cur.Keys, was.Keys - {x});
    assert |cur| == |cur.Keys| && |was| == |was.Keys|;
  }

  lemma {:induction false} Smaller(a: set<Node>, b: set<Node>)
    requires a <= b
    ensures |a| <= |b|
  {
    assert b == a + (b - a);
  }

  lemma LeftIsCyclic(data: Graph, cur: Graph, done: seq<Node>)
    requires Rest(data, cur, done) && |cur| != 0 && forall x :: x in cur ==> cur[x] != {}
    ensures Cyclic(data)
  {
    var left := cur.Keys;
    forall x | x in left ensures Deps(data, x) * left != {} {
      var y := Member(cur[x]);
      assert y in Deps(data, x) && y !in Elems(done);
      assert y in Nodes(data);
      assert y in Deps(data, x) * left;
    }
    LeftoverIsCyclic(data, left);
  }
}

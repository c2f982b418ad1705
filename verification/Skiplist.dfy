/** The run queue of proc.c: a skip list whose nodes are linked in both directions along
    each level, and from each level to the one below inside a process's tower. */
module Skiplist {
  import opened Seqs

  /** An address of kernel memory; zero is the null pointer. */
  type Ptr = nat

  datatype Node = Node(pid: int, deadline: int, prev: Ptr, next: Ptr, forward: Ptr)

  type Mem = map<Ptr, Node>

  /** The nodes of one process, lowest level first. The headers are the first tower. */
  datatype Tower = Tower(pid: int, deadline: int, nodes: seq<Ptr>)

  // ----- One doubly linked level -----

  /** Node `j` of the level points to its neighbours in `s`. */
  ghost predicate Placed(mem: Mem, s: seq<Ptr>, j: nat) {
    && j < |s| && s[j] in mem && s[j] != 0
    && mem[s[j]].next == (if j + 1 < |s| then s[j + 1] else 0)
    && mem[s[j]].prev == (if j > 0 then s[j - 1] else 0)
  }

  /** The nodes of `s`, in this order, form a doubly linked list. */
  ghost predicate Linked(mem: Mem, s: seq<Ptr>) {
    && (forall j: nat :: j < |s| ==> Placed(mem, s, j))
    && (forall j, k :: 0 <= j < k < |s| ==> s[j] != s[k])
  }

  lemma Neighbours(mem: Mem, s: seq<Ptr>, j: nat)
    requires Linked(mem, s) && j < |s|
    ensures Placed(mem, s, j) && (j + 1 < |s| ==> Placed(mem, s, j + 1)) && (j > 0 ==> Placed(mem, s, j - 1))
  {
  }

  /** Memory after `a` is linked in behind `prev` (proc.c:41-59). */
  function Spliced(mem: Mem, a: Ptr, pid: int, deadline: int, prev: Ptr, forward: Ptr): (m: Mem)
    requires prev in mem && (mem[prev].next == 0 || mem[prev].next in mem)
  {
    Written(mem, a, Node(pid, deadline, prev, mem[prev].next, forward))
  }

  /** The writes of insert_to_level for the new node `a`, whose successor was read before (proc.c:49-56). */
  function Written(mem: Mem, a: Ptr, node: Node): (m: Mem)
    requires node.prev in mem && (node.next == 0 || node.next in mem)
  {
    var m := mem[node.prev := mem[node.prev].(next := a)][a := node];
    if node.next != 0 then m[node.next := m[node.next].(prev := a)] else m
  }

  /** Linking `a` in between the nodes `k - 1` and `k` of a level, in terms of the changed links. */
  lemma LinkIn(mem: Mem, m: Mem, s: seq<Ptr>, k: nat, a: Ptr)
    requires Linked(mem, s) && 0 < k <= |s| && a != 0 && a !in s && a in m
    requires m[a].prev == s[k - 1] && m[a].next == if k < |s| then s[k] else 0
    requires forall x :: x in s ==> x in m && x in mem
    requires forall x :: x in s ==> m[x].next == if x == s[k - 1] then a else mem[x].next
    requires forall x :: x in s ==> m[x].prev == if k < |s| && x == s[k] then a else mem[x].prev
    ensures Linked(m, InsertAt(s, k, a))
  {
    hide InsertAt;
    var now := InsertAt(s, k, a);
    forall j: nat | j < |now| ensures Placed(m, now, j) {
      if j != k {
        var i := if j < k then j else j - 1;
        assert now[j] == s[i] && Placed(mem, s, i);
      }
    }
  }

  lemma SplicedLinked(mem: Mem, s: seq<Ptr>, k: nat, a: Ptr, pid: int, deadline: int, forward: Ptr)
    requires Linked(mem, s) && 0 < k <= |s| && a != 0 && a !in mem
    ensures s[k - 1] in mem && (mem[s[k - 1]].next == 0 || mem[s[k - 1]].next in mem)
    ensures Linked(Spliced(mem, a, pid, deadline, s[k - 1], forward), InsertAt(s, k, a))
    ensures forall x :: x in mem && x !in s ==>
              x in Spliced(mem, a, pid, deadline, s[k - 1], forward) && Spliced(mem, a, pid, deadline, s[k - 1], forward)[x] == mem[x]
  {
    hide Linked;
    Neighbours(mem, s, k - 1);
    InMemory(mem, s);
    LinkIn(mem, Spliced(mem, a, pid, deadline, s[k - 1], forward), s, k, a);
  }

  /** Two insertions behind one node that both read its successor before either writes: the level has the second node
      only, and the first is lost. Nothing in nicefork keeps them apart (proc.c:445-447). */
  lemma RacingInserts(mem: Mem, s: seq<Ptr>, k: nat, a: Ptr, p: Node, b: Ptr, q: Node)
    requires Linked(mem, s) && 0 < k <= |s| && a != 0 && b != 0 && a !in mem && b !in mem && a != b
    requires p.prev == q.prev == s[k - 1] && s[k - 1] in mem && p.next == q.next == mem[s[k - 1]].next
    ensures (p.next == 0 || p.next in mem) && b !in Written(mem, a, p)
    ensures var m := Written(Written(mem, a, p), b, q);
            Linked(m, InsertAt(s, k, b)) && a in m && a !in InsertAt(s, k, b)
  {
    hide Linked, InsertAt;
    Neighbours(mem, s, k - 1);
    InMemory(mem, s);
    LinkIn(mem, Written(Written(mem, a, p), b, q), s, k, b);
    InsertMembers(s, k, b);
  }

  /** One after the other, both are there. */
  lemma InsertsInTurn(mem: Mem, s: seq<Ptr>, k: nat, a: Ptr, p: Node, b: Ptr, q: Node)
    requires Linked(mem, s) && 0 < k <= |s| && a != 0 && b != 0 && a !in mem && b !in mem && a != b
    requires p.prev == q.prev == s[k - 1] && s[k - 1] in mem && p.next == mem[s[k - 1]].next && q.next == a
    ensures p.next == 0 || p.next in mem
    ensures Linked(Written(Written(mem, a, p), b, q), InsertAt(InsertAt(s, k, a), k, b))
  {
    hide Linked, InsertAt;
    Neighbours(mem, s, k - 1);
    InMemory(mem, s);
    var m1, s1 := Written(mem, a, p), InsertAt(s, k, a);
    LinkIn(mem, m1, s, k, a);
    InMemory(m1, s1);
    InsertMembers(s, k, a);
    LinkIn(m1, Written(m1, b, q), s1, k, b);
  }

  /** Memory after `a` is taken off its level and freed (proc.c:141-150). */
  function Cut(mem: Mem, a: Ptr): (m: Mem)
    requires a in mem && mem[a].prev in mem && (mem[a].next == 0 || mem[a].next in mem)
  {
    var Node(_, _, prev, next, _) := mem[a];
    var m := mem[prev := mem[prev].(next := next)];
    (if next != 0 then m[next := m[next].(prev := prev)] else m) - {a}
  }

  /** Taking node `k` off a level, in terms of the changed links. */
  lemma LinkOut(mem: Mem, m: Mem, s: seq<Ptr>, k: nat)
    requires Linked(mem, s) && 0 < k < |s|
    requires forall x :: x in s ==> x in mem && (x in m || x == s[k])
    requires forall x :: x in s && x != s[k] ==> m[x].next == if x == s[k - 1] then mem[s[k]].next else mem[x].next
    requires forall x :: x in s && x != s[k] ==> m[x].prev == if k + 1 < |s| && x == s[k + 1] then mem[s[k]].prev else mem[x].prev
    ensures Linked(m, RemoveAt(s, k))
  {
    hide RemoveAt;
    var now := RemoveAt(s, k);
    assert Placed(mem, s, k);
    forall j: nat | j < |now| ensures Placed(m, now, j) {
      var i := if j < k then j else j + 1;
      assert now[j] == s[i] && Placed(mem, s, i);
    }
  }

  lemma CutLinked(mem: Mem, s: seq<Ptr>, k: nat)
    requires Linked(mem, s) && 0 < k < |s|
    ensures s[k] in mem && mem[s[k]].prev in mem && (mem[s[k]].next == 0 || mem[s[k]].next in mem)
    ensures Linked(Cut(mem, s[k]), RemoveAt(s, k))
    ensures forall x :: x in mem && x !in s ==> x in Cut(mem, s[k]) && Cut(mem, s[k])[x] == mem[x]
  {
    hide Linked;
    Neighbours(mem, s, k);
    NoSelfLoop(mem, s, k);
    InMemory(mem, s);
    LinkOut(mem, Cut(mem, s[k]), s, k);
  }

  lemma LinkedFrame(mem: Mem, m: Mem, s: seq<Ptr>)
    requires Linked(mem, s) && forall x :: x in s ==> x in mem && x in m && m[x] == mem[x]
    ensures Linked(m, s)
  {
    forall j: nat | j < |s| ensures Placed(m, s, j) {
      assert Placed(mem, s, j);
    }
  }

  // ----- Towers -----

  /** The nodes of level `i`, in the order of the towers that reach it. */
  ghost function Level(ts: seq<Tower>, i: nat): (s: seq<Ptr>) {
    if ts == [] then []
    else (if i < |ts[0].nodes| then [ts[0].nodes[i]] else []) + Level(ts[1..], i)
  }

  lemma {:induction false} LevelSplit(s: seq<Tower>, t: seq<Tower>, i: nat)
    ensures Level(s + t, i) == Level(s, i) + Level(t, i)
  {
    if s == [] {
      assert s + t == t;
    } else {
      assert (s + t)[1..] == s[1..] + t;
      LevelSplit(s[1..], t, i);
    }
  }

  lemma LevelOne(t: Tower, i: nat)
    ensures Level([t], i) == if i < |t.nodes| then [t.nodes[i]] else []
  {
  }

  /** Every node of a level belongs to a tower. */
  lemma {:induction false} LevelOwner(ts: seq<Tower>, i: nat, j: nat) returns (k: nat)
    requires j < |Level(ts, i)|
    ensures k < |ts| && i < |ts[k].nodes| && Level(ts, i)[j] == ts[k].nodes[i]
  {
    if i < |ts[0].nodes| && j == 0 {
      k := 0;
    } else {
      k := LevelOwner(ts[1..], i, if i < |ts[0].nodes| then j - 1 else j);
      k := k + 1;
    }
  }

  lemma InLevel(ts: seq<Tower>, i: nat, k: nat)
    requires k < |ts| && i < |ts[k].nodes|
    ensures ts[k].nodes[i] in Level(ts, i)
  {
    assert ts == ts[..k] + [ts[k]] + ts[k + 1..];
    LevelSplit(ts[..k] + [ts[k]], ts[k + 1..], i);
    LevelSplit(ts[..k], [ts[k]], i);
    LevelOne(ts[k], i);
  }

  /** Towers are sorted by deadline and no node is in two places. */
  ghost predicate Ordered(ts: seq<Tower>, levels: nat) {
    && |ts| > 0 && |ts[0].nodes| == levels > 0 && ts[0].pid == -1 && ts[0].deadline == -1
    && (forall k :: 0 <= k < |ts| ==> 1 <= |ts[k].nodes| <= levels)
    && (forall k :: 0 < k < |ts| ==> ts[k].deadline > -1 && ts[k].pid != -1)
    && (forall k, m :: 0 <= k < m < |ts| ==> ts[k].deadline <= ts[m].deadline)
  }

  ghost predicate Apart(ts: seq<Tower>) {
    forall k, i, m, j ::
      (0 <= k < |ts| && 0 <= m < |ts| && 0 <= i < |ts[k].nodes| && 0 <= j < |ts[m].nodes|
       && ts[k].nodes[i] == ts[m].nodes[j]) ==> k == m && i == j
  }

  /** A node points to the next lower node of its tower, the lowest node to nothing. */
  ghost predicate PointsDown(mem: Mem, nodes: seq<Ptr>, i: nat) {
    i < |nodes| && nodes[i] in mem && mem[nodes[i]].forward == if i > 0 then nodes[i - 1] else 0
  }

  /** The nodes of a tower carry its process and key and point down to each other. */
  ghost predicate Stands(mem: Mem, t: Tower, header: bool) {
    && (forall i :: 0 <= i < |t.nodes| ==>
          && t.nodes[i] != 0 && t.nodes[i] in mem
          && mem[t.nodes[i]].pid == t.pid && mem[t.nodes[i]].deadline == t.deadline)
    && (forall i: nat :: i < |t.nodes| && (i > 0 || !header) ==> PointsDown(mem, t.nodes, i))
  }

  ghost predicate Built(mem: Mem, ts: seq<Tower>) {
    forall k :: 0 <= k < |ts| ==> Stands(mem, ts[k], k == 0)
  }

  ghost predicate AllLinked(mem: Mem, ts: seq<Tower>, levels: nat) {
    forall i: nat :: i < levels ==> Linked(mem, Level(ts, i))
  }

  /** Every node in memory is in a tower: none is lost. */
  ghost predicate NoLeak(mem: Mem, ts: seq<Tower>) {
    forall a :: a in mem ==> exists k :: 0 <= k < |ts| && a in ts[k].nodes
  }

  ghost predicate WellFormed(mem: Mem, ts: seq<Tower>, levels: nat) {
    Ordered(ts, levels) && Apart(ts) && Built(mem, ts) && AllLinked(mem, ts, levels) && NoLeak(mem, ts)
  }

  /** How many towers, the header among them, have a deadline of at most `d`. */
  ghost function Rank(ts: seq<Tower>, d: int): (p: nat)
    ensures p <= |ts|
  {
    if ts == [] || ts[0].deadline > d then 0 else 1 + Rank(ts[1..], d)
  }

  lemma {:induction false} RankSplits(ts: seq<Tower>, d: int)
    requires forall k, m :: 0 <= k < m < |ts| ==> ts[k].deadline <= ts[m].deadline
    ensures forall k :: 0 <= k < Rank(ts, d) ==> ts[k].deadline <= d
    ensures forall k :: Rank(ts, d) <= k < |ts| ==> ts[k].deadline > d
  {
    if ts != [] && ts[0].deadline <= d {
      RankSplits(ts[1..], d);
      assert forall k :: 0 < k < |ts| ==> ts[k] == ts[1..][k - 1];
    }
  }

  /** The nodes of level `i` that belong to the first `p` towers come first on that level. */
  lemma LevelPrefix(ts: seq<Tower>, p: nat, i: nat)
    requires p <= |ts|
    ensures |Level(ts[..p], i)| <= |Level(ts, i)|
    ensures Level(ts, i)[..|Level(ts[..p], i)|] == Level(ts[..p], i)
    ensures Level(ts, i)[|Level(ts[..p], i)|..] == Level(ts[p..], i)
  {
    assert ts == ts[..p] + ts[p..];
    LevelSplit(ts[..p], ts[p..], i);
  }

  /** A node of a level of some of the towers has the deadline of one of them. */
  lemma TowerOf(mem: Mem, ts: seq<Tower>, lo: nat, hi: nat, i: nat, j: nat) returns (k: nat)
    requires Built(mem, ts) && lo <= hi <= |ts| && j < |Level(ts[lo..hi], i)|
    ensures lo <= k < hi && Level(ts[lo..hi], i)[j] in mem && mem[Level(ts[lo..hi], i)[j]].deadline == ts[k].deadline
  {
    hide Level;
    var m := LevelOwner(ts[lo..hi], i, j);
    k := lo + m;
    assert ts[lo..hi][m] == ts[k];
    assert Stands(mem, ts[k], k == 0);
  }

  /** On every level the keys up to `d` come before those above it, at the rank of `d`. */
  lemma LevelRank(mem: Mem, ts: seq<Tower>, levels: nat, d: int, i: nat, j: nat)
    requires Ordered(ts, levels) && Built(mem, ts) && j < |Level(ts, i)|
    ensures Level(ts, i)[j] in mem
    ensures mem[Level(ts, i)[j]].deadline <= d <==> j < |Level(ts[..Rank(ts, d)], i)|
  {
    hide Level, Rank, Built;
    var p := Rank(ts, d);
    RankSplits(ts, d);
    LevelPrefix(ts, p, i);
    assert ts[0..p] == ts[..p] && ts[p..|ts|] == ts[p..];
    var n := |Level(ts[..p], i)|;
    if j < n {
      var k := TowerOf(mem, ts, 0, p, i, j);
      assert Level(ts, i)[..n][j] == Level(ts, i)[j];
    } else {
      var k := TowerOf(mem, ts, p, |ts|, i, j - n);
      assert Level(ts, i)[n..][j - n] == Level(ts, i)[j];
    }
  }

  /** Going down from a node of level `i` stays in the same tower. */
  lemma StepDown(mem: Mem, ts: seq<Tower>, i: nat, a: Ptr)
    requires Built(mem, ts) && a in Level(ts, i)
    ensures a in mem
    ensures i > 0 ==> mem[a].forward in mem && mem[a].forward in Level(ts, i - 1)
    ensures i > 0 ==> mem[mem[a].forward].deadline == mem[a].deadline && mem[mem[a].forward].pid == mem[a].pid
  {
    hide Level;
    var j :| 0 <= j < |Level(ts, i)| && Level(ts, i)[j] == a;
    var k := LevelOwner(ts, i, j);
    assert Stands(mem, ts[k], k == 0);
    assert ts[k].nodes[i] == a;
    if i > 0 {
      assert PointsDown(mem, ts[k].nodes, i);
      InLevel(ts, i - 1, k);
    }
  }

  lemma LevelsApart(ts: seq<Tower>, i: nat, j: nat, a: Ptr)
    requires Apart(ts) && a in Level(ts, i) && a in Level(ts, j)
    ensures i == j
  {
    var x :| 0 <= x < |Level(ts, i)| && Level(ts, i)[x] == a;
    var y :| 0 <= y < |Level(ts, j)| && Level(ts, j)[y] == a;
    var k := LevelOwner(ts, i, x);
    var m := LevelOwner(ts, j, y);
    assert ts[k].nodes[i] == ts[m].nodes[j];
  }

  lemma LevelInsert(ts: seq<Tower>, p: nat, t: Tower, i: nat)
    requires p <= |ts|
    ensures |Level(ts[..p], i)| <= |Level(ts, i)|
    ensures Level(InsertAt(ts, p, t), i) ==
            if i < |t.nodes| then InsertAt(Level(ts, i), |Level(ts[..p], i)|, t.nodes[i]) else Level(ts, i)
  {
    hide Level, InsertAt;
    assert ts == ts[..p] + ts[p..];
    InsertMiddle(ts[..p], ts[p..], t);
    LevelSplit(ts[..p], ts[p..], i);
    LevelSplit(ts[..p] + [t], ts[p..], i);
    LevelSplit(ts[..p], [t], i);
    LevelOne(t, i);
    if i < |t.nodes| {
      InsertMiddle(Level(ts[..p], i), Level(ts[p..], i), t.nodes[i]);
    } else {
      assert Level(ts[..p], i) + [] == Level(ts[..p], i);
    }
  }

  lemma LevelRemove(ts: seq<Tower>, p: nat, i: nat)
    requires p < |ts|
    ensures i < |ts[p].nodes| ==> |Level(ts[..p], i)| < |Level(ts, i)|
    ensures i < |ts[p].nodes| ==> Level(ts, i)[|Level(ts[..p], i)|] == ts[p].nodes[i]
    ensures Level(RemoveAt(ts, p), i) ==
            if i < |ts[p].nodes| then RemoveAt(Level(ts, i), |Level(ts[..p], i)|) else Level(ts, i)
  {
    hide Level, RemoveAt;
    assert ts == ts[..p] + [ts[p]] + ts[p + 1..];
    RemoveMiddle(ts[..p], ts[p + 1..], ts[p]);
    LevelSplit(ts[..p] + [ts[p]], ts[p + 1..], i);
    LevelSplit(ts[..p], [ts[p]], i);
    LevelSplit(ts[..p], ts[p + 1..], i);
    LevelOne(ts[p], i);
    if i < |ts[p].nodes| {
      RemoveMiddle(Level(ts[..p], i), Level(ts[p + 1..], i), ts[p].nodes[i]);
    } else {
      assert Level(ts[..p], i) + [] == Level(ts[..p], i);
    }
  }

  // ----- Insertion -----

  /** Where level `i` continues with nodes of towers behind the first `p`. */
  ghost function Pos(ts: seq<Tower>, p: nat, i: nat): (n: nat)
    requires p <= |ts|
    ensures n <= |Level(ts, i)|
  {
    LevelPrefix(ts, p, i);
    |Level(ts[..p], i)|
  }

  lemma HeaderFirst(ts: seq<Tower>, levels: nat, p: nat, i: nat)
    requires Ordered(ts, levels) && 0 < p <= |ts| && i < levels
    ensures 0 < Pos(ts, p, i) && Level(ts, i)[0] == ts[0].nodes[i]
  {
    assert ts[..p][0] == ts[0];
    LevelPrefix(ts, p, i);
  }

  /** Level `i` once the new tower `t` has been linked in on the levels below `l`. */
  ghost function LevelNow(ts: seq<Tower>, p: nat, t: Tower, l: nat, i: nat): (s: seq<Ptr>)
    requires p <= |ts| && l <= |t.nodes|
  {
    if i < l then InsertAt(Level(ts, i), Pos(ts, p, i), t.nodes[i]) else Level(ts, i)
  }

  /** Only links differ between the two memories. */
  ghost predicate SameNodes(m0: Mem, m: Mem) {
    forall x :: x in m0 ==> x in m && m[x].pid == m0[x].pid && m[x].deadline == m0[x].deadline && m[x].forward == m0[x].forward
  }

  /** The new nodes on the levels below `l`, and nothing else new. */
  ghost predicate NewNodes(m0: Mem, m: Mem, t: Tower, l: nat)
    requires l <= |t.nodes|
  {
    && SameNodes(m0, m)
    && (forall x :: x in m <==> x in m0 || x in t.nodes[..l])
    && (forall i :: 0 <= i < l ==>
          t.nodes[i] in m && m[t.nodes[i]].pid == t.pid && m[t.nodes[i]].deadline == t.deadline)
    && (forall i: nat :: i < l ==> PointsDown(m, t.nodes, i))
  }

  ghost predicate LinkedNow(m: Mem, ts: seq<Tower>, p: nat, t: Tower, l: nat, i: nat)
    requires p <= |ts| && l <= |t.nodes|
  {
    Linked(m, LevelNow(ts, p, t, l, i))
  }

  /** Memory `m` after the new tower `t` has been linked in on the levels below `l`. */
  ghost predicate Inserting(m0: Mem, m: Mem, ts: seq<Tower>, levels: nat, p: nat, t: Tower, l: nat)
    requires p <= |ts| && l <= |t.nodes|
  {
    && NewNodes(m0, m, t, l)
    && (forall i: nat :: i < levels ==> LinkedNow(m, ts, p, t, l, i))
  }

  /** Addresses that kalloc can return for a new tower. */
  ghost predicate Fresh(mem: Mem, nodes: seq<Ptr>) {
    && (forall i :: 0 <= i < |nodes| ==> nodes[i] != 0 && nodes[i] !in mem)
    && (forall i, j :: 0 <= i < j < |nodes| ==> nodes[i] != nodes[j])
  }

  lemma SplicedNodes(m: Mem, a: Ptr, pid: int, deadline: int, prev: Ptr, forward: Ptr)
    requires prev in m && (m[prev].next == 0 || m[prev].next in m) && a !in m
    ensures
      var after := Spliced(m, a, pid, deadline, prev, forward);
      && after.Keys == m.Keys + {a} && SameNodes(m, after)
      && after[a].pid == pid && after[a].deadline == deadline && after[a].forward == forward
  {
  }

  lemma NewNode(m0: Mem, m: Mem, t: Tower, l: nat, prev: Ptr)
    requires Fresh(m0, t.nodes) && l < |t.nodes| && NewNodes(m0, m, t, l)
    requires prev in m && (m[prev].next == 0 || m[prev].next in m)
    ensures
      var forward := if l > 0 then t.nodes[l - 1] else 0;
      NewNodes(m0, Spliced(m, t.nodes[l], t.pid, t.deadline, prev, forward), t, l + 1)
  {
    hide Spliced, Fresh;
    NotYet(m0, m, t, l);
    var forward := if l > 0 then t.nodes[l - 1] else 0;
    SplicedNodes(m, t.nodes[l], t.pid, t.deadline, prev, forward);
    assert t.nodes[..l + 1] == t.nodes[..l] + [t.nodes[l]];
    var after := Spliced(m, t.nodes[l], t.pid, t.deadline, prev, forward);
    forall i: nat | i <= l ensures PointsDown(after, t.nodes, i) {
      if i < l {
        assert PointsDown(m, t.nodes, i);
      }
    }
  }

  lemma InsertStep(m0: Mem, m: Mem, ts: seq<Tower>, levels: nat, p: nat, t: Tower, l: nat)
    requires Ordered(ts, levels) && Apart(ts) && Built(m0, ts) && 0 < p <= |ts|
    requires Fresh(m0, t.nodes) && l < |t.nodes| <= levels && Inserting(m0, m, ts, levels, p, t, l)
    ensures 0 < Pos(ts, p, l)
    ensures
      var prev := Level(ts, l)[Pos(ts, p, l) - 1];
      var forward := if l > 0 then t.nodes[l - 1] else 0;
      && prev in m && (m[prev].next == 0 || m[prev].next in m)
      && Inserting(m0, Spliced(m, t.nodes[l], t.pid, t.deadline, prev, forward), ts, levels, p, t, l + 1)
  {
    hide Spliced, Pos, Level, InsertAt, Linked, NewNodes, Apart, Built, Ordered;
    HeaderFirst(ts, levels, p, l);
    var k := Pos(ts, p, l);
    var a, forward := t.nodes[l], if l > 0 then t.nodes[l - 1] else 0;
    assert LinkedNow(m, ts, p, t, l, l);
    NotYet(m0, m, t, l);
    SplicedLinked(m, Level(ts, l), k, a, t.pid, t.deadline, forward);
    NewNode(m0, m, t, l, Level(ts, l)[k - 1]);
    var after := Spliced(m, a, t.pid, t.deadline, Level(ts, l)[k - 1], forward);
    var up := l + 1;
    forall i: nat | i < levels ensures LinkedNow(after, ts, p, t, up, i) {
      if i != l {
        var s := LevelNow(ts, p, t, l, i);
        assert LinkedNow(m, ts, p, t, l, i);
        InMemory(m, s);
        forall x | x in s ensures x in after && after[x] == m[x] {
          OtherLevel(m0, ts, p, t, l, i, x);
        }
        LinkedFrame(m, after, s);
      }
    }
  }

  lemma NotYet(m0: Mem, m: Mem, t: Tower, l: nat)
    requires Fresh(m0, t.nodes) && l < |t.nodes| && NewNodes(m0, m, t, l)
    ensures t.nodes[l] !in m
  {
  }

  lemma InMemory(m: Mem, s: seq<Ptr>)
    requires Linked(m, s)
    ensures forall x :: x in s ==> x in m
  {
    forall x | x in s ensures x in m {
      var j: nat :| j < |s| && s[j] == x;
      assert Placed(m, s, j);
    }
  }

  lemma OtherLevel(m0: Mem, ts: seq<Tower>, p: nat, t: Tower, l: nat, i: nat, x: Ptr)
    requires Apart(ts) && Built(m0, ts) && p <= |ts| && Fresh(m0, t.nodes) && l < |t.nodes| && i != l
    requires x in LevelNow(ts, p, t, l, i)
    ensures x !in Level(ts, l) && x != t.nodes[l]
  {
    if i < l && x == t.nodes[i] {
      if x in Level(ts, l) {
        StepDown(m0, ts, l, x);
      }
    } else {
      assert x in Level(ts, i);
      StepDown(m0, ts, i, x);
      if x in Level(ts, l) {
        LevelsApart(ts, i, l, x);
      }
    }
  }

  lemma InsertOrdered(ts: seq<Tower>, levels: nat, t: Tower)
    requires Ordered(ts, levels) && 1 <= |t.nodes| <= levels && t.deadline > -1 && t.pid != -1
    ensures 0 < Rank(ts, t.deadline) && Ordered(InsertAt(ts, Rank(ts, t.deadline), t), levels)
  {
    hide InsertAt;
    RankSplits(ts, t.deadline);
  }

  lemma InsertApart(m0: Mem, ts: seq<Tower>, p: nat, t: Tower)
    requires Apart(ts) && Built(m0, ts) && Fresh(m0, t.nodes) && p <= |ts|
    ensures Apart(InsertAt(ts, p, t))
  {
    hide InsertAt;
    var us := InsertAt(ts, p, t);
    forall k, i | 0 <= k < |ts| && 0 <= i < |ts[k].nodes| ensures ts[k].nodes[i] in m0 {
      assert Stands(m0, ts[k], k == 0);
    }
    forall k, i, m, j | 0 <= k < |us| && 0 <= m < |us| && 0 <= i < |us[k].nodes| && 0 <= j < |us[m].nodes|
      ensures us[k].nodes[i] == us[m].nodes[j] ==> k == m && i == j
    {
      if k != p && m != p {
        var k0, m0 := if k < p then k else k - 1, if m < p then m else m - 1;
        assert us[k] == ts[k0] && us[m] == ts[m0];
        assert ts[k0].nodes[i] == ts[m0].nodes[j] ==> k0 == m0 && i == j;
      }
    }
  }

  lemma SameStands(m0: Mem, m: Mem, t: Tower, header: bool)
    requires Stands(m0, t, header) && SameNodes(m0, m)
    ensures Stands(m, t, header)
  {
    forall i: nat | i < |t.nodes| && (i > 0 || !header) ensures PointsDown(m, t.nodes, i) {
      assert PointsDown(m0, t.nodes, i);
    }
  }

  lemma InsertBuilt(m0: Mem, m: Mem, ts: seq<Tower>, p: nat, t: Tower)
    requires Built(m0, ts) && 0 < p <= |ts| && Fresh(m0, t.nodes) && NewNodes(m0, m, t, |t.nodes|)
    ensures Built(m, InsertAt(ts, p, t))
  {
    hide InsertAt, Stands;
    var us := InsertAt(ts, p, t);
    forall k | 0 <= k < |us| ensures Stands(m, us[k], k == 0) {
      if k == p {
        NewStands(m0, m, t);
      } else {
        var k0 := if k < p then k else k - 1;
        assert Stands(m0, ts[k0], k0 == 0);
        SameStands(m0, m, ts[k0], k0 == 0);
      }
    }
  }

  lemma NewStands(m0: Mem, m: Mem, t: Tower)
    requires Fresh(m0, t.nodes) && NewNodes(m0, m, t, |t.nodes|)
    ensures Stands(m, t, false)
  {
  }

  lemma InsertNoLeak(m0: Mem, m: Mem, ts: seq<Tower>, p: nat, t: Tower)
    requires NoLeak(m0, ts) && p <= |ts| && NewNodes(m0, m, t, |t.nodes|)
    ensures NoLeak(m, InsertAt(ts, p, t))
  {
    var us := InsertAt(ts, p, t);
    forall a | a in m ensures exists k :: 0 <= k < |us| && a in us[k].nodes {
      if a in m0 {
        var k :| 0 <= k < |ts| && a in ts[k].nodes;
        assert a in us[if k < p then k else k + 1].nodes;
      } else {
        assert t.nodes[..|t.nodes|] == t.nodes;
        assert a in us[p].nodes;
      }
    }
  }

  /** A tower linked in on all its levels, at the rank of its deadline, leaves a skip list. */
  lemma InsertDone(m0: Mem, m: Mem, ts: seq<Tower>, levels: nat, t: Tower)
    requires WellFormed(m0, ts, levels) && Fresh(m0, t.nodes) && 1 <= |t.nodes| <= levels
    requires t.deadline > -1 && t.pid != -1
    requires Inserting(m0, m, ts, levels, Rank(ts, t.deadline), t, |t.nodes|)
    ensures WellFormed(m, InsertAt(ts, Rank(ts, t.deadline), t), levels)
  {
    hide InsertAt, Level, Linked, Rank, Built, Apart, Ordered, NoLeak, Pos, NewNodes, Fresh;
    var p := Rank(ts, t.deadline);
    InsertOrdered(ts, levels, t);
    InsertApart(m0, ts, p, t);
    InsertBuilt(m0, m, ts, p, t);
    InsertNoLeak(m0, m, ts, p, t);
    forall i: nat | i < levels ensures Linked(m, Level(InsertAt(ts, p, t), i)) {
      LevelInsertPos(ts, p, t, i);
      assert LinkedNow(m, ts, p, t, |t.nodes|, i);
    }
  }

  lemma LevelInsertPos(ts: seq<Tower>, p: nat, t: Tower, i: nat)
    requires p <= |ts|
    ensures Level(InsertAt(ts, p, t), i) == LevelNow(ts, p, t, |t.nodes|, i)
  {
    LevelInsert(ts, p, t, i);
  }

  // ----- Removal -----

  /** Level `i` once tower `k` has been cut off on the levels from `l` up. */
  ghost function LevelCut(ts: seq<Tower>, k: nat, l: nat, i: nat): (s: seq<Ptr>)
    requires k < |ts|
  {
    LevelRemove(ts, k, i);
    if l <= i < |ts[k].nodes| then RemoveAt(Level(ts, i), Pos(ts, k, i)) else Level(ts, i)
  }

  ghost predicate LinkedCut(m: Mem, ts: seq<Tower>, k: nat, l: nat, i: nat)
    requires k < |ts|
  {
    Linked(m, LevelCut(ts, k, l, i))
  }

  ghost predicate OldNodes(m0: Mem, m: Mem, t: Tower, l: nat)
    requires l <= |t.nodes|
  {
    && (forall x :: x in m <==> x in m0 && x !in t.nodes[l..])
    && SameNodes(m, m0)
  }

  /** Memory `m` after tower `k` has been cut off on the levels from `l` up. */
  ghost predicate Removing(m0: Mem, m: Mem, ts: seq<Tower>, levels: nat, k: nat, l: nat)
    requires k < |ts| && l <= |ts[k].nodes|
  {
    && OldNodes(m0, m, ts[k], l)
    && (forall i: nat :: i < levels ==> LinkedCut(m, ts, k, l, i))
  }

  lemma CutNodes(m: Mem, a: Ptr)
    requires a in m && m[a].prev in m && (m[a].next == 0 || m[a].next in m) && m[a].prev != a && m[a].next != a
    ensures SameNodes(Cut(m, a), m) && forall x :: x in Cut(m, a) <==> x in m && x != a
  {
  }

  lemma OldNode(m0: Mem, m: Mem, t: Tower, l: nat)
    requires l < |t.nodes| && OldNodes(m0, m, t, l + 1)
    requires t.nodes[l] in m && m[t.nodes[l]].prev in m && (m[t.nodes[l]].next == 0 || m[t.nodes[l]].next in m)
    requires m[t.nodes[l]].prev != t.nodes[l] && m[t.nodes[l]].next != t.nodes[l]
    ensures OldNodes(m0, Cut(m, t.nodes[l]), t, l)
  {
    hide Cut;
    CutNodes(m, t.nodes[l]);
    assert t.nodes[l..] == [t.nodes[l]] + t.nodes[l + 1..];
  }

  lemma CutOther(ts: seq<Tower>, k: nat, l: nat, i: nat, x: Ptr)
    requires Apart(ts) && k < |ts| && i != l && x in LevelCut(ts, k, l + 1, i)
    ensures x !in Level(ts, l)
  {
    hide Level, RemoveAt, Pos;
    assert x in Level(ts, i);
    if x in Level(ts, l) {
      LevelsApart(ts, i, l, x);
    }
  }

  lemma NoSelfLoop(m: Mem, s: seq<Ptr>, j: nat)
    requires Linked(m, s) && j < |s|
    ensures s[j] in m && m[s[j]].prev != s[j] && m[s[j]].next != s[j]
    ensures m[s[j]].prev == 0 || m[s[j]].prev != m[s[j]].next
  {
    assert Placed(m, s, j);
  }

  lemma RemoveStep(m0: Mem, m: Mem, ts: seq<Tower>, levels: nat, k: nat, l: nat)
    requires Ordered(ts, levels) && Apart(ts) && 0 < k < |ts|
    requires l < |ts[k].nodes| && Removing(m0, m, ts, levels, k, l + 1)
    ensures
      var a := ts[k].nodes[l];
      && a in m && m[a].prev in m && (m[a].next == 0 || m[a].next in m)
      && Removing(m0, Cut(m, a), ts, levels, k, l)
  {
    hide Cut, Pos, Level, RemoveAt, Linked, OldNodes, Apart;
    LevelRemovePos(ts, k, l);
    HeaderFirst(ts, levels, k, l);
    var a := ts[k].nodes[l];
    assert LinkedCut(m, ts, k, l + 1, l);
    CutLinked(m, Level(ts, l), Pos(ts, k, l));
    NoSelfLoop(m, Level(ts, l), Pos(ts, k, l));
    OldNode(m0, m, ts[k], l);
    var after := Cut(m, a);
    forall i: nat | i < levels ensures LinkedCut(after, ts, k, l, i) {
      if i != l {
        var s := LevelCut(ts, k, l + 1, i);
        assert LinkedCut(m, ts, k, l + 1, i);
        InMemory(m, s);
        forall x | x in s ensures x in after && after[x] == m[x] {
          CutOther(ts, k, l, i, x);
        }
        LinkedFrame(m, after, s);
      }
    }
  }

  lemma LevelRemovePos(ts: seq<Tower>, k: nat, i: nat)
    requires k < |ts|
    ensures Level(RemoveAt(ts, k), i) == LevelCut(ts, k, 0, i)
    ensures i < |ts[k].nodes| ==> Pos(ts, k, i) < |Level(ts, i)| && Level(ts, i)[Pos(ts, k, i)] == ts[k].nodes[i]
  {
    LevelRemove(ts, k, i);
  }

  /** A tower cut off on all its levels leaves a skip list. */
  lemma RemoveDone(m0: Mem, m: Mem, ts: seq<Tower>, levels: nat, k: nat)
    requires WellFormed(m0, ts, levels) && 0 < k < |ts| && Removing(m0, m, ts, levels, k, 0)
    ensures WellFormed(m, RemoveAt(ts, k), levels)
  {
    hide RemoveAt, Level, Linked, Built, Apart, NoLeak, Pos, OldNodes;
    RemoveApart(ts, k);
    RemoveBuilt(m0, m, ts, k);
    RemoveNoLeak(m0, m, ts, k);
    forall i: nat | i < levels ensures Linked(m, Level(RemoveAt(ts, k), i)) {
      LevelRemovePos(ts, k, i);
      assert LinkedCut(m, ts, k, 0, i);
    }
  }

  lemma RemoveApart(ts: seq<Tower>, k: nat)
    requires Apart(ts) && k < |ts|
    ensures Apart(RemoveAt(ts, k))
  {
    hide RemoveAt;
    var us := RemoveAt(ts, k);
    forall a, i, b, j | 0 <= a < |us| && 0 <= b < |us| && 0 <= i < |us[a].nodes| && 0 <= j < |us[b].nodes|
      ensures us[a].nodes[i] == us[b].nodes[j] ==> a == b && i == j
    {
      var a0, b0 := if a < k then a else a + 1, if b < k then b else b + 1;
      assert us[a] == ts[a0] && us[b] == ts[b0];
      assert ts[a0].nodes[i] == ts[b0].nodes[j] ==> a0 == b0 && i == j;
    }
  }

  lemma RemoveBuilt(m0: Mem, m: Mem, ts: seq<Tower>, k: nat)
    requires Built(m0, ts) && Apart(ts) && 0 < k < |ts| && OldNodes(m0, m, ts[k], 0)
    ensures Built(m, RemoveAt(ts, k))
  {
    hide RemoveAt;
    var us := RemoveAt(ts, k);
    assert ts[k].nodes[0..] == ts[k].nodes;
    forall j | 0 <= j < |us| ensures Stands(m, us[j], j == 0) {
      var j0 := if j < k then j else j + 1;
      assert us[j] == ts[j0] && Stands(m0, ts[j0], j0 == 0);
      forall i | 0 <= i < |ts[j0].nodes| ensures ts[j0].nodes[i] in m {
        assert ts[j0].nodes[i] in m0;
        assert ts[j0].nodes[i] !in ts[k].nodes;
      }
      KeptStands(m0, m, ts[j0], j0 == 0);
    }
  }

  lemma KeptStands(m0: Mem, m: Mem, t: Tower, header: bool)
    requires Stands(m0, t, header) && SameNodes(m, m0) && forall i :: 0 <= i < |t.nodes| ==> t.nodes[i] in m
    ensures Stands(m, t, header)
  {
    forall i: nat | i < |t.nodes| && (i > 0 || !header) ensures PointsDown(m, t.nodes, i) {
      assert PointsDown(m0, t.nodes, i);
    }
  }

  lemma RemoveNoLeak(m0: Mem, m: Mem, ts: seq<Tower>, k: nat)
    requires NoLeak(m0, ts) && k < |ts| && OldNodes(m0, m, ts[k], 0)
    ensures NoLeak(m, RemoveAt(ts, k))
  {
    hide RemoveAt;
    var us := RemoveAt(ts, k);
    assert ts[k].nodes[0..] == ts[k].nodes;
    forall a | a in m ensures exists j :: 0 <= j < |us| && a in us[j].nodes {
      var j :| 0 <= j < |ts| && a in ts[j].nodes;
      assert a in us[if j < k then j else j - 1].nodes;
    }
  }

  // ----- Searching for a process -----

  /** How many towers have a deadline below `d`. */
  ghost function Below(ts: seq<Tower>, d: int): (q: nat)
    ensures q <= |ts|
  {
    Rank(ts, d - 1)
  }

  /** A process ahead of tower `k` with the same deadline and a tower at least as tall hides it from the search. */
  ghost predicate Blocked(ts: seq<Tower>, k: nat)
    requires k < |ts|
  {
    exists m :: Below(ts, ts[k].deadline) <= m < k && |ts[m].nodes| >= |ts[k].nodes|
  }

  /** On level `l` the first node with a deadline of at least `d` is that of process `pid`. */
  ghost predicate Found(ts: seq<Tower>, l: nat, pid: int, d: int) {
    var n := Pos(ts, Below(ts, d), l);
    n < |Level(ts, l)| && exists k :: 0 <= k < |ts| && ts[k].pid == pid && l < |ts[k].nodes| && Level(ts, l)[n] == ts[k].nodes[l]
  }

  lemma {:induction false} LevelEmpty(ts: seq<Tower>, l: nat)
    requires forall k :: 0 <= k < |ts| ==> |ts[k].nodes| <= l
    ensures Level(ts, l) == []
  {
    if ts != [] {
      assert ts == [ts[0]] + ts[1..];
      LevelEmpty(ts[1..], l);
    }
  }

  lemma PosBetween(ts: seq<Tower>, q: nat, k: nat, l: nat)
    requires q <= k <= |ts|
    ensures Pos(ts, k, l) == Pos(ts, q, l) + |Level(ts[q..k], l)|
  {
    assert ts[..k] == ts[..q] + ts[q..k];
    LevelSplit(ts[..q], ts[q..k], l);
  }

  lemma NodesDiffer(mem: Mem, s: seq<Ptr>, i: nat, j: nat)
    requires Linked(mem, s) && i < j < |s|
    ensures s[i] != s[j]
  {
  }

  /** Process of tower `k` is found on level `l` exactly when none of its equals ahead of it reaches that level. */
  lemma FoundIff(mem: Mem, ts: seq<Tower>, levels: nat, k: nat, l: nat)
    requires Ordered(ts, levels) && Apart(ts) && 0 < k < |ts| && l < |ts[k].nodes| && Linked(mem, Level(ts, l))
    requires forall m :: 0 <= m < |ts| && ts[m].pid == ts[k].pid ==> m == k
    ensures Below(ts, ts[k].deadline) <= k
    ensures Found(ts, l, ts[k].pid, ts[k].deadline) <==>
            forall m :: Below(ts, ts[k].deadline) <= m < k ==> |ts[m].nodes| <= l
  {
    hide Level, Pos, Rank, Linked, Apart;
    var q := Below(ts, ts[k].deadline);
    RankSplits(ts, ts[k].deadline - 1);
    PosBetween(ts, q, k, l);
    LevelRemovePos(ts, k, l);
    if forall m :: q <= m < k ==> |ts[m].nodes| <= l {
      LevelEmpty(ts[q..k], l);
    } else {
      var m :| q <= m < k && |ts[m].nodes| > l;
      InLevel(ts[q..k], l, m - q);
      NodesDiffer(mem, Level(ts, l), Pos(ts, q, l), Pos(ts, k, l));
    }
  }

  // ----- The list in memory -----

  /** The first `i` headers are set up: unlinked, and each pointing to the one below. */
  ghost predicate HeadersSet(m: Mem, pages: seq<Ptr>, i: nat) {
    && i <= |pages|
    && (forall x :: x in m <==> x in pages[..i])
    && (forall j :: 0 <= j < i ==>
          && pages[j] in m && m[pages[j]].pid == -1 && m[pages[j]].deadline == -1
          && m[pages[j]].prev == 0 && m[pages[j]].next == 0)
    && (forall j: nat :: 0 < j < i ==> PointsDown(m, pages, j))
  }

  lemma NextHeader(m: Mem, pages: seq<Ptr>, i: nat, garbage: Ptr)
    requires HeadersSet(m, pages, i) && i < |pages| && Fresh(map[], pages)
    ensures HeadersSet(m[pages[i] := Node(-1, -1, 0, 0, if i > 0 then pages[i - 1] else garbage)], pages, i + 1)
  {
    var after := m[pages[i] := Node(-1, -1, 0, 0, if i > 0 then pages[i - 1] else garbage)];
    assert pages[..i + 1] == pages[..i] + [pages[i]];
    forall j: nat | 0 < j < i + 1 ensures PointsDown(after, pages, j) {
      if j < i {
        assert PointsDown(m, pages, j);
      }
    }
  }

  lemma EmptyList(m: Mem, pages: seq<Ptr>)
    requires HeadersSet(m, pages, |pages|) && Fresh(map[], pages) && |pages| > 0
    ensures WellFormed(m, [Tower(-1, -1, pages)], |pages|)
  {
    var t := Tower(-1, -1, pages);
    assert pages[..|pages|] == pages;
    assert Built(m, [t]) by {
      hide PointsDown;
      assert Stands(m, t, true);
    }
    assert AllLinked(m, [t], |pages|) by {
      hide PointsDown;
      forall i: nat | i < |pages| ensures Linked(m, Level([t], i)) {
        LevelOne(t, i);
      }
    }
    assert NoLeak(m, [t]) by {
      assert forall a :: a in m ==> a in [t][0].nodes;
    }
  }

  class SkipList {
    const levels: nat
    var mem: Mem
    var headers: seq<Ptr>
    ghost var towers: seq<Tower>

    ghost predicate Valid()
      reads this
    {
      WellFormed(mem, towers, levels) && headers == towers[0].nodes
    }

    // An empty list of `levels` headers at the given addresses; the lowest one's `forward` is not set (proc.c:19-37).
    constructor (levels: nat, pages: seq<Ptr>, garbage: Ptr)
      requires levels > 0 && |pages| == levels && Fresh(map[], pages)
      ensures Valid() && this.levels == levels && towers == [Tower(-1, -1, pages)]
    {
      hide PointsDown, WellFormed;
      this.levels := levels;
      var m: Mem := map[];
      var i := 0;
      while i < levels
        invariant i <= levels && HeadersSet(m, pages, i)
      {
        NextHeader(m, pages, i, garbage);
        m := m[pages[i] := Node(-1, -1, 0, 0, if i > 0 then pages[i - 1] else garbage)];
        i := i + 1;
      }
      EmptyList(m, pages);
      mem, headers := m, pages;
      towers := [Tower(-1, -1, pages)];
    }

    // Link a new node in behind `prev` (proc.c:41-59).
    method InsertToLevel(a: Ptr, pid: int, deadline: int, prev: Ptr, forward: Ptr)
      requires prev in mem && (mem[prev].next == 0 || mem[prev].next in mem)
      modifies this`mem
      ensures mem == Spliced(old(mem), a, pid, deadline, prev, forward)
    {
      var next := mem[prev].next;
      mem := mem[prev := mem[prev].(next := a)];
      mem := mem[a := Node(pid, deadline, prev, next, forward)];
      if next != 0 {
        mem := mem[next := mem[next].(prev := a)];
      }
    }

    // From a node of level `l` to the last one there with a deadline of at most `deadline` (proc.c:110-112).
    method LastUpTo(start: Ptr, l: nat, deadline: int) returns (current: Ptr)
      requires Valid() && l < levels && start in Level(towers, l) && start in mem && mem[start].deadline <= deadline
      ensures 0 < Pos(towers, Rank(towers, deadline), l)
      ensures current == Level(towers, l)[Pos(towers, Rank(towers, deadline), l) - 1]
      ensures current in mem && mem[current].deadline <= deadline
    {
      hide Pos, Rank, Built, Ordered, Level, Linked, Apart, NoLeak;
      ghost var s, n := Level(towers, l), Pos(towers, Rank(towers, deadline), l);
      ghost var j :| 0 <= j < |s| && s[j] == start;
      LevelRankPos(mem, towers, levels, deadline, l, j);
      Neighbours(mem, s, j);
      current := start;
      while mem[current].next != 0 && deadline >= mem[mem[current].next].deadline
        invariant 0 <= j < |s| && current == s[j] && current in mem && j < n
        invariant mem[current].next == if j + 1 < |s| then s[j + 1] else 0
        invariant j + 1 < |s| ==> s[j + 1] in mem && s[j + 1] != 0
        invariant mem[current].deadline <= deadline
        decreases |s| - j
      {
        current := mem[current].next;
        j := j + 1;
        LevelRankPos(mem, towers, levels, deadline, l, j);
        Neighbours(mem, s, j);
      }
      if j + 1 < |s| {
        LevelRankPos(mem, towers, levels, deadline, l, j + 1);
      }
    }

    // The last node with a deadline of at most `deadline` on each level up to `height` (proc.c:103-123).
    method FindPrevs(deadline: int, height: nat) returns (prevs: seq<Ptr>)
      requires Valid() && deadline > -1 && height < levels
      ensures |prevs| == height + 1
      ensures forall i: nat :: i <= height ==>
                0 < Pos(towers, Rank(towers, deadline), i)
                && prevs[i] == Level(towers, i)[Pos(towers, Rank(towers, deadline), i) - 1]
    {
      hide Pos, Rank, Level, Built, AllLinked, Apart, NoLeak;
      prevs := seq(height + 1, _ => 0);
      var currentLevel := levels - 1;
      var current := headers[currentLevel];
      HeaderNode(mem, towers, levels, currentLevel);
      while currentLevel >= 0
        invariant -1 <= currentLevel < levels && |prevs| == height + 1
        invariant currentLevel >= 0 ==>
          current in Level(towers, currentLevel) && current in mem && mem[current].deadline <= deadline
        invariant forall i: nat :: currentLevel < i <= height ==>
          0 < Pos(towers, Rank(towers, deadline), i)
          && prevs[i] == Level(towers, i)[Pos(towers, Rank(towers, deadline), i) - 1]
      {
        current := LastUpTo(current, currentLevel, deadline);
        if height >= currentLevel {
          prevs := prevs[currentLevel := current];
        }
        StepDown(mem, towers, currentLevel, current);
        current := mem[current].forward;
        currentLevel := currentLevel - 1;
      }
    }

    // Insert a tower for process `pid` behind all towers with an earlier or equal deadline (proc.c:97-135).
    method InsertNode(pid: int, deadline: int, height: nat, pages: seq<Ptr>)
      requires Valid() && pid != -1 && deadline > -1
      requires height < levels && |pages| == height + 1 && Fresh(mem, pages)
      modifies this`mem, this`towers
      ensures Valid()
      ensures towers == InsertAt(old(towers), Rank(old(towers), deadline), Tower(pid, deadline, pages))
    {
      hide Pos, Rank, Level, Built, AllLinked, Apart, NoLeak, Inserting, InsertAt, Fresh;
      ghost var m0, ts, t := mem, towers, Tower(pid, deadline, pages);
      ghost var p := Rank(ts, deadline);
      InsertOrdered(ts, levels, t);
      InsertStart(m0, ts, levels, p, t);
      var prevs := FindPrevs(deadline, height);
      var currentLevel := 0;
      var forward := 0;
      while currentLevel <= height
        invariant 0 <= currentLevel <= height + 1
        invariant forward == if currentLevel > 0 then pages[currentLevel - 1] else 0
        invariant Inserting(m0, mem, ts, levels, p, t, currentLevel)
      {
        InsertStep(m0, mem, ts, levels, p, t, currentLevel);
        InsertToLevel(pages[currentLevel], pid, deadline, prevs[currentLevel], forward);
        forward := pages[currentLevel];
        currentLevel := currentLevel + 1;
      }
      InsertDone(m0, mem, ts, levels, t);
      towers := InsertAt(ts, p, t);
    }

    // From a node of level `l` to the first one there that is not before `deadline`, or to the last (proc.c:164-169).
    method FirstFrom(start: Ptr, l: nat, pid: int, deadline: int) returns (current: Ptr, ghost j: nat)
      requires Valid() && l < levels && start in Level(towers, l) && start in mem && mem[start].deadline < deadline
      requires pid != -1 && forall k :: 0 <= k < |towers| && towers[k].pid == pid ==> towers[k].deadline == deadline
      ensures j < |Level(towers, l)| && current == Level(towers, l)[j] && current in mem
      ensures mem[current].deadline >= deadline ==> j == Pos(towers, Below(towers, deadline), l)
      ensures mem[current].deadline < deadline ==>
                j == |Level(towers, l)| - 1 && Pos(towers, Below(towers, deadline), l) == |Level(towers, l)|
    {
      hide Pos, Rank, Built, Ordered, Level, Linked, Apart, NoLeak;
      ghost var s, n := Level(towers, l), Pos(towers, Below(towers, deadline), l);
      j :| 0 <= j < |s| && s[j] == start;
      LevelRankPos(mem, towers, levels, deadline - 1, l, j);
      EarlierPid(mem, towers, l, j, pid, deadline);
      current := start;
      while mem[current].deadline < deadline && mem[current].pid != pid
        invariant 0 <= j < |s| && current == s[j] && current in mem && j <= n
        invariant mem[current].deadline < deadline <==> j < n
        invariant mem[current].deadline < deadline ==> mem[current].pid != pid
        decreases |s| - j
      {
        Neighbours(mem, s, j);
        if mem[current].deadline > deadline || mem[current].next == 0 {
          break;
        }
        current := mem[current].next;
        j := j + 1;
        LevelRankPos(mem, towers, levels, deadline - 1, l, j);
        EarlierPid(mem, towers, l, j, pid, deadline);
      }
    }

    // Back up to a node with an earlier deadline (proc.c:175-177). Address 0 stands for the null pointer that the
    // loop would follow from the header.
    method BackUp(start: Ptr, l: nat, deadline: int, ghost j0: nat) returns (current: Ptr)
      requires Valid() && l < levels && j0 < |Level(towers, l)| && start == Level(towers, l)[j0]
      ensures current == 0 <==> deadline <= -1
      ensures current != 0 ==> current in Level(towers, l) && current in mem && mem[current].deadline < deadline
    {
      hide Pos, Rank, Built, Ordered, Level, Linked, Apart, NoLeak;
      ghost var s := Level(towers, l);
      FirstIsHeader(mem, towers, levels, l);
      ghost var j: int := j0;
      Neighbours(mem, s, j0);
      current := start;
      while current != 0 && mem[current].deadline >= deadline
        invariant -1 <= j < |s| && (if j >= 0 then current == s[j] && current in mem && current != 0 else current == 0)
        invariant j < 0 ==> deadline <= -1
        decreases j
      {
        Neighbours(mem, s, j);
        if j > 0 {
          Neighbours(mem, s, j - 1);
        }
        current := mem[current].prev;
        j := j - 1;
      }
      if current != 0 {
        NotBeforeHeader(mem, towers, levels, l, j);
      }
    }

    // Cut off and free a node and all nodes below it in its tower (proc.c:137-154).
    method DeleteFromLevels(node: Ptr, ghost k: nat)
      requires Valid() && 0 < k < |towers| && node == towers[k].nodes[|towers[k].nodes| - 1]
      modifies this`mem, this`towers
      ensures Valid() && towers == RemoveAt(old(towers), k)
    {
      hide Pos, Rank, Level, AllLinked, Apart, NoLeak, Removing, RemoveAt;
      ghost var m0, ts := mem, towers;
      ghost var nodes := ts[k].nodes;
      ghost var l := |nodes|;
      RemoveStart(m0, ts, levels, k);
      var current := node;
      while current != 0
        invariant 0 <= l <= |nodes| && current == (if l > 0 then nodes[l - 1] else 0)
        invariant Removing(m0, mem, ts, levels, k, l)
        decreases l
      {
        RemoveStep(m0, mem, ts, levels, k, l - 1);
        RemoveForward(m0, mem, ts, levels, k, l);
        var nextToDelete := mem[current].forward;
        var next := mem[current].next;
        var prev := mem[current].prev;
        mem := mem[prev := mem[prev].(next := next)];
        if next != 0 {
          mem := mem[next := mem[next].(prev := prev)];
        }
        mem := mem - {current};
        current := nextToDelete;
        l := l - 1;
      }
      RemoveDone(m0, mem, ts, levels, k);
      towers := RemoveAt(ts, k);
    }

    // Remove the tower of process `pid`, whole or not at all (proc.c:156-187).
    method DeleteNode(pid: int, deadline: int)
      requires Valid() && pid != -1 && deadline > -1
      requires forall k :: 0 <= k < |towers| && towers[k].pid == pid ==> towers[k].deadline == deadline
      requires forall k, m :: 0 <= k < |towers| && 0 <= m < |towers| && towers[k].pid == towers[m].pid == pid ==> k == m
      modifies this`mem, this`towers
      ensures Valid()
      ensures (forall k :: 0 <= k < |old(towers)| ==> old(towers)[k].pid != pid) ==> mem == old(mem) && towers == old(towers)
      ensures forall k :: 0 <= k < |old(towers)| && old(towers)[k].pid == pid ==>
                if Blocked(old(towers), k) then mem == old(mem) && towers == old(towers) else towers == RemoveAt(old(towers), k)
    {
      hide Pos, Rank, Level, AllLinked, Apart, NoLeak, Built, RemoveAt, Found, Blocked;
      ghost var ts := towers;
      var currentLevel := levels - 1;
      var current := headers[currentLevel];
      HeaderNode(mem, towers, levels, currentLevel);
      while currentLevel >= 0
        invariant -1 <= currentLevel < levels && mem == old(mem) && towers == ts
        invariant currentLevel >= 0 ==>
          current in Level(ts, currentLevel) && current in mem && mem[current].deadline < deadline
        invariant forall l: nat :: currentLevel < l < levels ==> !Found(ts, l, pid, deadline)
      {
        ghost var j;
        current, j := FirstFrom(current, currentLevel, pid, deadline);
        IsFound(mem, ts, levels, currentLevel, j, pid, deadline);
        if mem[current].pid == pid && mem[current].deadline == deadline {
          ghost var k := LevelOwnerPid(mem, ts, currentLevel, j);
          AllOrNothing(mem, ts, levels, k, currentLevel);
          DeleteFromLevels(current, k);
          return;
        }
        current := BackUp(current, currentLevel, deadline, j);
        StepDown(mem, towers, currentLevel, current);
        current := mem[current].forward;
        currentLevel := currentLevel - 1;
      }
      forall k | 0 <= k < |ts| && ts[k].pid == pid ensures Blocked(ts, k) {
        NoneIsBlocked(mem, ts, levels, k);
      }
    }

    // The process with the earliest deadline, first come among equals; -69 if there is none (proc.c:189-195).
    method GetMinimum() returns (pid: int)
      requires Valid()
      ensures pid == if |towers| > 1 then towers[1].pid else -69
    {
      LowestLevel(mem, towers, levels);
      if mem[headers[0]].next != 0 {
        return mem[mem[headers[0]].next].pid;
      }
      return -69;
    }
  }

  /** The outcome of the search on one level. */
  lemma IsFound(mem: Mem, ts: seq<Tower>, levels: nat, l: nat, j: nat, pid: int, d: int)
    requires Ordered(ts, levels) && Built(mem, ts) && Apart(ts) && j < |Level(ts, l)|
    requires Level(ts, l)[j] in mem
    requires mem[Level(ts, l)[j]].deadline >= d ==> j == Pos(ts, Below(ts, d), l)
    requires mem[Level(ts, l)[j]].deadline < d ==> Pos(ts, Below(ts, d), l) == |Level(ts, l)|
    requires forall k :: 0 <= k < |ts| && ts[k].pid == pid ==> ts[k].deadline == d
    ensures Found(ts, l, pid, d) <==> mem[Level(ts, l)[j]].pid == pid && mem[Level(ts, l)[j]].deadline == d
  {
    hide Pos, Rank, Level;
    var k := LevelOwner(ts, l, j);
    assert Stands(mem, ts[k], k == 0);
    assert ts[k].nodes[l] == Level(ts, l)[j];
    if Found(ts, l, pid, d) {
      var n := Pos(ts, Below(ts, d), l);
      var m :| 0 <= m < |ts| && ts[m].pid == pid && l < |ts[m].nodes| && Level(ts, l)[n] == ts[m].nodes[l];
      assert ts[k].nodes[l] == ts[m].nodes[l];
    }
  }

  lemma LevelOwnerPid(mem: Mem, ts: seq<Tower>, l: nat, j: nat) returns (k: nat)
    requires Built(mem, ts) && j < |Level(ts, l)|
    ensures k < |ts| && l < |ts[k].nodes| && Level(ts, l)[j] == ts[k].nodes[l]
    ensures Level(ts, l)[j] in mem
    ensures ts[k].pid == mem[Level(ts, l)[j]].pid && ts[k].deadline == mem[Level(ts, l)[j]].deadline
  {
    hide Level;
    k := LevelOwner(ts, l, j);
    assert Stands(mem, ts[k], k == 0);
    assert Level(ts, l)[j] == ts[k].nodes[l];
  }

  /** The highest level on which a process is found is the top of its tower. */
  lemma AllOrNothing(mem: Mem, ts: seq<Tower>, levels: nat, k: nat, l: nat)
    requires Ordered(ts, levels) && Apart(ts) && AllLinked(mem, ts, levels) && 0 < k < |ts| && l < |ts[k].nodes|
    requires forall m :: 0 <= m < |ts| && ts[m].pid == ts[k].pid ==> m == k
    requires Found(ts, l, ts[k].pid, ts[k].deadline)
    requires forall i: nat :: l < i < levels ==> !Found(ts, i, ts[k].pid, ts[k].deadline)
    ensures l == |ts[k].nodes| - 1 && !Blocked(ts, k)
  {
    hide Pos, Rank, Level, Found, Linked, Apart;
    FoundIff(mem, ts, levels, k, l);
    if l < |ts[k].nodes| - 1 {
      FoundIff(mem, ts, levels, k, |ts[k].nodes| - 1);
    }
  }

  lemma NoneIsBlocked(mem: Mem, ts: seq<Tower>, levels: nat, k: nat)
    requires Ordered(ts, levels) && Apart(ts) && AllLinked(mem, ts, levels) && 0 < k < |ts|
    requires forall m :: 0 <= m < |ts| && ts[m].pid == ts[k].pid ==> m == k
    requires forall i: nat :: i < levels ==> !Found(ts, i, ts[k].pid, ts[k].deadline)
    ensures Blocked(ts, k)
  {
    hide Pos, Rank, Level, Found, Linked, Apart;
    FoundIff(mem, ts, levels, k, |ts[k].nodes| - 1);
  }

  lemma LowestLevel(mem: Mem, ts: seq<Tower>, levels: nat)
    requires WellFormed(mem, ts, levels)
    ensures ts[0].nodes[0] in mem
    ensures var a := mem[ts[0].nodes[0]].next;
            if |ts| > 1 then a != 0 && a in mem && mem[a].pid == ts[1].pid else a == 0
  {
    assert Linked(mem, Level(ts, 0));
    assert Level(ts, 0)[0] == ts[0].nodes[0];
    if |ts| > 1 {
      assert ts[1..][0] == ts[1];
      assert Level(ts, 0)[1] == ts[1].nodes[0];
      assert Stands(mem, ts[1], false);
    } else {
      LevelOne(ts[0], 0);
    }
    Neighbours(mem, Level(ts, 0), 0);
  }

  lemma EarlierPid(mem: Mem, ts: seq<Tower>, l: nat, j: nat, pid: int, deadline: int)
    requires Built(mem, ts) && j < |Level(ts, l)|
    requires forall k :: 0 <= k < |ts| && ts[k].pid == pid ==> ts[k].deadline == deadline
    ensures Level(ts, l)[j] in mem
    ensures mem[Level(ts, l)[j]].pid == pid ==> mem[Level(ts, l)[j]].deadline == deadline
  {
    hide Level;
    var k := LevelOwner(ts, l, j);
    assert Stands(mem, ts[k], k == 0);
    assert Level(ts, l)[j] == ts[k].nodes[l];
  }

  lemma FirstIsHeader(mem: Mem, ts: seq<Tower>, levels: nat, l: nat)
    requires Ordered(ts, levels) && Built(mem, ts) && l < levels
    ensures |Level(ts, l)| > 0 && Level(ts, l)[0] in mem && mem[Level(ts, l)[0]].deadline == -1
  {
    assert ts == [ts[0]] + ts[1..];
    assert Stands(mem, ts[0], true);
    assert ts[0].nodes[l] == Level(ts, l)[0];
  }

  lemma NotBeforeHeader(mem: Mem, ts: seq<Tower>, levels: nat, l: nat, j: nat)
    requires Ordered(ts, levels) && Built(mem, ts) && j < |Level(ts, l)|
    ensures Level(ts, l)[j] in mem && mem[Level(ts, l)[j]].deadline >= -1
  {
    hide Level;
    LevelRank(mem, ts, levels, -2, l, j);
    RankSplits(ts, -2);
    assert ts[..0] == [];
    NoTowers(l);
  }

  lemma NoTowers(l: nat)
    ensures Level([], l) == []
  {
  }

  lemma RemoveStart(m0: Mem, ts: seq<Tower>, levels: nat, k: nat)
    requires AllLinked(m0, ts, levels) && k < |ts|
    ensures Removing(m0, m0, ts, levels, k, |ts[k].nodes|)
  {
  }

  lemma RemoveForward(m0: Mem, m: Mem, ts: seq<Tower>, levels: nat, k: nat, l: nat)
    requires Built(m0, ts) && 0 < k < |ts| && 0 < l <= |ts[k].nodes| && Removing(m0, m, ts, levels, k, l)
    requires ts[k].nodes[l - 1] in m
    ensures ts[k].nodes[l - 1] != 0
    ensures m[ts[k].nodes[l - 1]].forward == if l > 1 then ts[k].nodes[l - 2] else 0
  {
    assert Stands(m0, ts[k], false);
    assert PointsDown(m0, ts[k].nodes, l - 1);
  }

  lemma HeaderNode(mem: Mem, ts: seq<Tower>, levels: nat, i: nat)
    requires Ordered(ts, levels) && Built(mem, ts) && i < levels
    ensures ts[0].nodes[i] in Level(ts, i) && ts[0].nodes[i] in mem
    ensures mem[ts[0].nodes[i]].deadline == -1 && mem[ts[0].nodes[i]].pid == -1
  {
    InLevel(ts, i, 0);
    assert Stands(mem, ts[0], true);
  }

  lemma InsertStart(m0: Mem, ts: seq<Tower>, levels: nat, p: nat, t: Tower)
    requires AllLinked(m0, ts, levels) && p <= |ts|
    ensures Inserting(m0, m0, ts, levels, p, t, 0)
  {
  }

  lemma LevelRankPos(mem: Mem, ts: seq<Tower>, levels: nat, d: int, i: nat, j: nat)
    requires Ordered(ts, levels) && Built(mem, ts) && j < |Level(ts, i)|
    ensures Level(ts, i)[j] in mem
    ensures mem[Level(ts, i)[j]].deadline <= d <==> j < Pos(ts, Rank(ts, d), i)
  {
    LevelRank(mem, ts, levels, d, i, j);
  }

  // ----- A process that is not deleted -----

  lemma RankOfEqual(ts: seq<Tower>, d: int)
    requires |ts| > 0 && ts[0].deadline <= d
    ensures Rank(ts, d) == 1 + Rank(ts[1..], d)
  {
  }

  /** Two processes with one deadline, the first under a tower at least as tall: the second is blocked. */
  lemma SecondIsBlocked(h: Tower, p: Tower, q: Tower)
    requires h.deadline < p.deadline == q.deadline && |p.nodes| >= |q.nodes|
    ensures Blocked([h, p, q], 2)
  {
    var ts := [h, p, q];
    RankOfEqual(ts, p.deadline - 1);
    assert ts[1..] == [p, q];
    assert Below(ts, p.deadline) == 1;
    assert |ts[1].nodes| >= |ts[2].nodes|;
  }

  /** Pages that no tower has can be allocated. */
  lemma NotUsed(mem: Mem, ts: seq<Tower>, levels: nat, pages: seq<Ptr>)
    requires WellFormed(mem, ts, levels) && Fresh(map[], pages)
    requires forall k, a :: 0 <= k < |ts| && a in pages ==> a !in ts[k].nodes
    ensures Fresh(mem, pages)
  {
    assert NoLeak(mem, ts);
    assert forall i :: 0 <= i < |pages| ==> pages[i] in pages;
  }

  // Insert two processes with one deadline, the first under a tower at least as tall; deleting the second does nothing.
  method EqualNotDeleted(pages: seq<Ptr>, p: Tower, q: Tower) returns (list: SkipList)
    requires p.pid != -1 && q.pid != -1 && p.pid != q.pid && p.deadline == q.deadline > -1
    requires 0 < |q.nodes| <= |p.nodes| <= |pages| && Fresh(map[], pages) && Fresh(map[], p.nodes) && Fresh(map[], q.nodes)
    requires forall a :: a in p.nodes || a in q.nodes ==> a !in pages
    requires forall a :: a in q.nodes ==> a !in p.nodes
    ensures list.Valid() && fresh(list) && list.towers == [Tower(-1, -1, pages), p, q]
  {
    hide WellFormed, Blocked, Below;
    var h, d := Tower(-1, -1, pages), p.deadline;
    list := new SkipList(|pages|, pages, 0);
    NotUsed(list.mem, list.towers, list.levels, p.nodes);
    RankOfEqual(list.towers, d);
    list.InsertNode(p.pid, d, |p.nodes| - 1, p.nodes);
    assert list.towers == [h, p];
    NotUsed(list.mem, list.towers, list.levels, q.nodes);
    RankOfEqual(list.towers, d);
    RankOfEqual([p], d);
    assert list.towers[1..] == [p];
    list.InsertNode(q.pid, d, |q.nodes| - 1, q.nodes);
    ghost var ts := list.towers;
    assert ts == [h, p, q];
    SecondIsBlocked(h, p, q);
    list.DeleteNode(q.pid, d);
    assert ts[2].pid == q.pid;
  }
}

/** The friendship graph as both stores see it: each user name mapped to
    the set of names it lists as friends. Breadth-first search for the
    degrees of separation and the two-hop count of mutual friends. */
module Graph {
  import opened Seqs

  type Graph = map<string, set<string>>

  /** Every listed friend is itself a user. */
  ghost predicate Closed(g: Graph) {
    forall u, v :: u in g && v in g[u] ==> v in g
  }

  /** Friendship goes both ways. */
  ghost predicate Symmetric(g: Graph) {
    forall u, v :: u in g && v in g[u] ==> v in g && u in g[v]
  }

  // ---------------------------------------------------------------------
  // Hops and paths

  /** The friends of the users in `s`. */
  ghost function Step(g: Graph, s: set<string>): set<string> {
    set u, v | u in s && u in g && v in g[u] :: v
  }

  /** The users at most `n` friendship hops away from `a`. */
  ghost function Within(g: Graph, a: string, n: nat): set<string> {
    if n == 0 then {a} else Within(g, a, n - 1) + Step(g, Within(g, a, n - 1))
  }

  /** `b` is exactly `d` hops away from `a`: within `d` hops, not within fewer. */
  ghost predicate IsDistance(g: Graph, a: string, b: string, d: nat) {
    b in Within(g, a, d) && (d == 0 || b !in Within(g, a, d - 1))
  }

  /** No number of hops reaches `b` from `a`. */
  ghost predicate Unreachable(g: Graph, a: string, b: string) {
    forall n: nat :: b !in Within(g, a, n)
  }

  /** A friendship path: each user lists the next one as a friend. */
  ghost predicate IsPath(g: Graph, p: seq<string>, a: string, b: string) {
    && |p| >= 1 && p[0] == a && p[|p| - 1] == b
    && forall i :: 0 <= i < |p| - 1 ==> p[i] in g && p[i + 1] in g[p[i]]
  }

  lemma {:induction false} WithinMonotone(g: Graph, a: string, n: nat, m: nat)
    requires n <= m
    ensures Within(g, a, n) <= Within(g, a, m)
  {
    if n < m {
      WithinMonotone(g, a, n, m - 1);
    }
  }

  /** A user one hop beyond `Within(n)` is within `n + 1` hops. */
  lemma WithinGrows(g: Graph, a: string, n: nat, u: string, v: string)
    requires u in Within(g, a, n) && u in g && v in g[u]
    ensures v in Within(g, a, n + 1)
  {
    assert v in Step(g, Within(g, a, n));
  }

  /** A user within `n + 1` hops but not within `n` is a friend of someone
      within `n`. */
  lemma WithinPredecessor(g: Graph, a: string, n: nat, v: string) returns (u: string)
    requires v in Within(g, a, n + 1) && v !in Within(g, a, n)
    ensures u in Within(g, a, n) && u in g && v in g[u]
  {
    assert v in Step(g, Within(g, a, n));
    u :| u in Within(g, a, n) && u in g && v in g[u];
  }

  /** A set that holds `a` and every friend of each of its members holds
      every user reachable from `a`. */
  lemma {:induction false} ClosedSetHoldsWithin(g: Graph, a: string, s: set<string>, n: nat)
    requires a in s
    requires forall u :: u in s && u in g ==> g[u] <= s
    ensures Within(g, a, n) <= s
  {
    if n > 0 {
      ClosedSetHoldsWithin(g, a, s, n - 1);
    }
  }

  /** Within `n` hops means: along a path of at most `n` hops. */
  lemma {:induction false} WithinHasPath(g: Graph, a: string, b: string, n: nat) returns (p: seq<string>)
    requires b in Within(g, a, n)
    ensures IsPath(g, p, a, b) && |p| <= n + 1
    decreases n
  {
    if n == 0 || b in Within(g, a, n - 1) {
      if n == 0 {
        p := [a];
      } else {
        p := WithinHasPath(g, a, b, n - 1);
      }
    } else {
      var u := WithinPredecessor(g, a, n - 1, b);
      var q := WithinHasPath(g, a, u, n - 1);
      p := q + [b];
      assert forall i :: 0 <= i < |q| ==> p[i] == q[i];
    }
  }

  lemma {:induction false} PathInWithin(g: Graph, p: seq<string>, a: string, b: string)
    requires IsPath(g, p, a, b)
    ensures b in Within(g, a, |p| - 1)
  {
    if |p| > 1 {
      var q := p[..|p| - 1];
      assert IsPath(g, q, a, p[|p| - 2]);
      PathInWithin(g, q, a, p[|p| - 2]);
      WithinGrows(g, a, |p| - 2, p[|p| - 2], b);
    }
  }

  /** The degrees of separation are the hops of a shortest friendship path. */
  lemma DistanceIsShortestPath(g: Graph, a: string, b: string, d: nat)
    requires IsDistance(g, a, b, d)
    ensures exists p :: IsPath(g, p, a, b) && |p| == d + 1
    ensures forall p :: IsPath(g, p, a, b) ==> |p| >= d + 1
  {
    var p := WithinHasPath(g, a, b, d);
    if |p| < d + 1 {
      PathInWithin(g, p, a, b);
      WithinMonotone(g, a, |p| - 1, d - 1);
      assert false;
    }
    forall q | IsPath(g, q, a, b) ensures |q| >= d + 1 {
      PathInWithin(g, q, a, b);
      if |q| < d + 1 {
        WithinMonotone(g, a, |q| - 1, d - 1);
      }
    }
  }

  /** No friendship path at all: unreachable. */
  lemma UnreachableHasNoPath(g: Graph, a: string, b: string)
    requires Unreachable(g, a, b)
    ensures forall p :: !IsPath(g, p, a, b)
  {
    forall p | IsPath(g, p, a, b) ensures false {
      PathInWithin(g, p, a, b);
    }
  }

  /** The distance in hops is unique. */
  lemma DistanceUnique(g: Graph, a: string, b: string, d1: nat, d2: nat)
    requires IsDistance(g, a, b, d1) && IsDistance(g, a, b, d2)
    ensures d1 == d2
  {
    if d1 < d2 {
      WithinMonotone(g, a, d1, d2 - 1);
    } else if d2 < d1 {
      WithinMonotone(g, a, d2, d1 - 1);
    }
  }

  /** In a symmetric graph a path read backwards is a path. */
  lemma ReversedPath(g: Graph, p: seq<string>, a: string, b: string)
    requires Symmetric(g) && IsPath(g, p, a, b)
    ensures IsPath(g, Reverse(p), b, a)
  {
    var r := Reverse(p);
    forall i | 0 <= i < |r| - 1 ensures r[i] in g && r[i + 1] in g[r[i]] {
      var j := |p| - 2 - i;
      assert r[i] == p[j + 1] && r[i + 1] == p[j];
    }
  }

  /** With symmetric friendship, `b` within `n` hops of `a` puts `a` within
      `n` hops of `b`. */
  lemma WithinSymmetric(g: Graph, a: string, b: string, n: nat)
    requires Symmetric(g) && b in Within(g, a, n)
    ensures a in Within(g, b, n)
  {
    var p := WithinHasPath(g, a, b, n);
    ReversedPath(g, p, a, b);
    PathInWithin(g, Reverse(p), b, a);
    WithinMonotone(g, b, |p| - 1, n);
  }

  /** With symmetric friendship, `b` is `d` hops from `a` exactly when `a`
      is `d` hops from `b`. */
  lemma DistanceSymmetric(g: Graph, a: string, b: string, d: nat)
    requires Symmetric(g) && IsDistance(g, a, b, d)
    ensures IsDistance(g, b, a, d)
  {
    WithinSymmetric(g, a, b, d);
    if d > 0 && a in Within(g, b, d - 1) {
      WithinSymmetric(g, b, a, d - 1);
    }
  }

  // ---------------------------------------------------------------------
  // Breadth-first search

  /** The names held in a BFS queue. */
  ghost function QueueNames(q: seq<(string, nat)>): set<string> {
    set i | 0 <= i < |q| :: q[i].0
  }

  /** The names held in a BFS queue, in queue order. */
  ghost function QueueOrder(q: seq<(string, nat)>): seq<string> {
    seq(|q|, i requires 0 <= i < |q| => q[i].0)
  }

  lemma QueueNamesConcat(x: seq<(string, nat)>, y: seq<(string, nat)>)
    ensures QueueNames(x + y) == QueueNames(x) + QueueNames(y)
  {
    forall n | n in QueueNames(x + y) ensures n in QueueNames(x) + QueueNames(y) {
      var i :| 0 <= i < |x + y| && (x + y)[i].0 == n;
      if i >= |x| {
        assert y[i - |x|] == (x + y)[i];
      }
    }
    forall n | n in QueueNames(y) ensures n in QueueNames(x + y) {
      var i :| 0 <= i < |y| && y[i].0 == n;
      assert (x + y)[|x| + i] == y[i];
    }
    forall n | n in QueueNames(x) ensures n in QueueNames(x + y) {
      var i :| 0 <= i < |x| && x[i].0 == n;
      assert (x + y)[i] == x[i];
    }
  }

  /** No name occurs twice. */
  ghost predicate Distinct(s: seq<string>) {
    forall i, j :: 0 <= i < j < |s| ==> s[i] != s[j]
  }

  /** The invariant of the BFS loop: `a` is visited and `b` is not; the
      visited users are the finished ones and the queued ones; a finished
      user has all its friends visited; each queued user carries its exact
      hop count, the counts along the queue rise by at most one from the
      head; and every user within the head's hop count has been visited. */
  ghost predicate BfsInv(g: Graph, a: string, b: string, q: seq<(string, nat)>,
                         visited: set<string>, done: set<string>) {
    && a in visited && visited <= g.Keys && b !in visited
    && visited == done + QueueNames(q)
    && (forall u :: u in done ==> u in g && g[u] <= visited)
    && (forall i :: 0 <= i < |q| ==> IsDistance(g, a, q[i].0, q[i].1))
    && (forall i, j :: 0 <= i <= j < |q| ==> q[i].1 <= q[j].1 <= q[i].1 + 1)
    && (q != [] ==> Within(g, a, q[0].1) <= visited)
  }

  /** `degrees_of_separation` for two distinct users: a queue of (user,
      hops) pairs seeded with `a`, a visited set, and for each dequeued user
      a pass over its friends (`ScanFriends`). Returns the distance, or -1
      when the queue runs dry. Each user is enqueued at most once:
      `enqueued` lists them in order. */
  method Bfs(g: Graph, a: string, b: string) returns (d: int, ghost enqueued: seq<string>)
    requires Closed(g) && a in g && b in g && a != b
    ensures d == -1 || d >= 1
    ensures d == -1 <==> Unreachable(g, a, b)
    ensures d >= 1 ==> IsDistance(g, a, b, d)
    ensures Distinct(enqueued)
  {
    var q: seq<(string, nat)> := [(a, 0)];
    var visited := {a};
    ghost var done: set<string> := {};
    enqueued := [a];
    assert Within(g, a, 0) == {a};
    assert q[0].0 == a;
    assert QueueNames(q) == {a};
    while q != []
      invariant BfsInv(g, a, b, q, visited, done)
      invariant Distinct(enqueued) && forall u :: u in visited <==> u in enqueued
      decreases g.Keys - visited, |q|
    {
      var found, hops;
      ghost var visited0 := visited;
      found, hops, q, visited, done, enqueued := BfsRound(g, a, b, q, visited, done, enqueued);
      if found {
        return hops, enqueued;
      }
      assert visited != visited0 ==> g.Keys - visited < g.Keys - visited0;
    }
    assert visited == done;
    forall n: nat ensures b !in Within(g, a, n) {
      ClosedSetHoldsWithin(g, a, visited, n);
    }
    d := -1;
  }

  /** One round of the BFS loop: dequeues the head and scans its friends.
      Either `b` is found, `hops` hops from `a`, or the loop invariant
      holds again and either more users are visited or the queue is
      shorter. */
  method BfsRound(g: Graph, a: string, b: string, q: seq<(string, nat)>, visited: set<string>,
                  ghost done: set<string>, ghost enqueued: seq<string>)
    returns (found: bool, hops: nat, q': seq<(string, nat)>, visited': set<string>,
             ghost done': set<string>, ghost enqueued': seq<string>)
    requires Closed(g) && q != [] && BfsInv(g, a, b, q, visited, done)
    requires Distinct(enqueued) && forall u :: u in visited <==> u in enqueued
    ensures found ==> hops >= 1 && IsDistance(g, a, b, hops)
    ensures !found ==> BfsInv(g, a, b, q', visited', done')
    ensures !found ==> visited <= visited' && (visited' == visited ==> |q'| < |q|)
    ensures |q'| >= |q| - 1 && enqueued' == enqueued + QueueOrder(q'[|q| - 1..])
    ensures Distinct(enqueued') && forall u :: u in visited' <==> u in enqueued'
  {
    var cur, dist := q[0].0, q[0].1;
    ghost var near, next := Within(g, a, dist), Within(g, a, dist + 1);
    BfsHead(g, a, b, q, visited, done);
    found, q', visited', enqueued' := ScanFriends(g, a, b, cur, dist, q[1..], visited, enqueued, near, next);
    assert |q[1..]| == |q| - 1;
    hops, done' := dist + 1, done + {cur};
    if found {
      BfsFound(g, a, b, dist, cur, visited);
      return;
    }
    BfsStep(g, a, b, q, q', visited, visited', done);
  }

  /** The head of the queue is a user within its own hop count, and the
      users one hop further include every friend of those within it. */
  lemma BfsHead(g: Graph, a: string, b: string, q: seq<(string, nat)>,
                visited: set<string>, done: set<string>)
    requires Closed(g) && q != [] && BfsInv(g, a, b, q, visited, done)
    ensures q[0].0 in g && visited <= g.Keys && b !in visited
    ensures q[0].0 in Within(g, a, q[0].1) && Within(g, a, q[0].1) <= visited
    ensures Step(g, Within(g, a, q[0].1)) <= Within(g, a, q[0].1 + 1)
  {
    assert q[0].0 in QueueNames(q);
    assert IsDistance(g, a, q[0].0, q[0].1);
  }

  /** A friend of a user `dist` hops from `a` that is not within `dist`
      hops is exactly `dist + 1` hops away. */
  lemma BfsFound(g: Graph, a: string, b: string, dist: nat, cur: string, visited: set<string>)
    requires cur in Within(g, a, dist) && cur in g && b in g[cur]
    requires Within(g, a, dist) <= visited && b !in visited
    ensures IsDistance(g, a, b, dist + 1)
  {
    WithinGrows(g, a, dist, cur, b);
    LayerDistance(g, a, b, dist);
  }

  /** One round of the BFS loop keeps its invariant. */
  lemma BfsStep(g: Graph, a: string, b: string, q0: seq<(string, nat)>, q: seq<(string, nat)>,
                visited0: set<string>, visited: set<string>, done: set<string>)
    requires q0 != [] && BfsInv(g, a, b, q0, visited0, done)
    requires q0[0].0 in g && g[q0[0].0] <= visited
    requires visited0 <= visited <= g.Keys && b !in visited
    requires |q| >= |q0| - 1 && q[..|q0| - 1] == q0[1..]
    requires visited == visited0 + QueueNames(q[|q0| - 1..])
    requires forall i :: |q0| - 1 <= i < |q| ==>
               q[i].1 == q0[0].1 + 1 && q[i].0 in Within(g, a, q0[0].1 + 1) && q[i].0 !in Within(g, a, q0[0].1)
    ensures BfsInv(g, a, b, q, visited, done + {q0[0].0})
  {
    var cur, dist := q0[0].0, q0[0].1;
    BfsStepNames(q0, q, visited0, visited, done);
    BfsQueueDistances(g, a, q0, q);
    BfsQueueSorted(q0, q);
    // The new head's hop count is the old one or one more; either way
    // every user within it has been visited.
    if q != [] {
      if q[0].1 != dist {
        BfsFrontier(g, a, dist, cur, q, done, visited);
      }
      HeadWithin(g, a, dist, q[0].1, visited);
    }
  }

  /** The users within `h` hops, for `h` either `dist` or `dist + 1`, are
      visited when those within both of these are. */
  lemma HeadWithin(g: Graph, a: string, dist: nat, h: nat, visited: set<string>)
    requires h == dist || h == dist + 1
    requires Within(g, a, dist) <= visited
    requires h == dist + 1 ==> Within(g, a, dist + 1) <= visited
    ensures Within(g, a, h) <= visited
  {
  }

  /** The pass of `degrees_of_separation` over the friends of `cur`, found
      `dist` hops from `a`: reports `b` as soon as it is a friend, and
      otherwise marks each friend not yet visited and appends it to the
      queue at `dist + 1` hops. The frontend.py loop tests for `b` first;
      code.cpp tests the visited mark first, which gives the same result as
      `b` is never visited. `near` and `next` stand for the users within
      `dist` and `dist + 1` hops. */
  method ScanFriends(g: Graph, a: string, b: string, cur: string, dist: nat, q: seq<(string, nat)>,
                     visited: set<string>, ghost enqueued: seq<string>,
                     ghost near: set<string>, ghost next: set<string>)
    returns (found: bool, q': seq<(string, nat)>, visited': set<string>, ghost enqueued': seq<string>)
    requires cur in g && visited <= g.Keys && b !in visited && Closed(g)
    requires cur in near && near <= visited && Step(g, near) <= next
    requires Distinct(enqueued) && forall u :: u in visited <==> u in enqueued
    ensures found ==> b in g[cur]
    ensures !found ==> g[cur] <= visited'
    ensures visited <= visited' <= g.Keys && b !in visited'
    ensures |q'| >= |q| && q'[..|q|] == q
    ensures visited' == visited + QueueNames(q'[|q|..])
    ensures visited' == visited ==> |q'| == |q|
    ensures forall i :: |q| <= i < |q'| ==> q'[i].1 == dist + 1 && q'[i].0 in next && q'[i].0 !in near
    ensures QueueNames(q'[|q|..]) <= g[cur] && QueueNames(q'[|q|..]) !! visited
    ensures !found ==> QueueNames(q'[|q|..]) == g[cur] - visited
    ensures enqueued' == enqueued + QueueOrder(q'[|q|..])
    ensures Distinct(enqueued') && forall u :: u in visited' <==> u in enqueued'
  {
    found, q', visited', enqueued' := false, q, visited, enqueued;
    ghost var added: seq<(string, nat)> := [];
    var rest := g[cur];
    while rest != {}
      invariant rest <= g[cur]
      invariant q' == q + added
      invariant visited' == visited + QueueNames(added)
      invariant QueueNames(added) == (g[cur] - rest) - visited
      invariant visited' <= g.Keys && b !in visited'
      invariant visited' == visited ==> added == []
      invariant NewEntries(added, dist + 1, next, near)
      invariant enqueued' == enqueued + QueueOrder(added)
      invariant Distinct(enqueued')
      decreases rest
    {
      var fr :| fr in rest;
      rest := rest - {fr};
      if fr == b {
        found := true;
        break;
      }
      if fr !in visited' {
        assert fr in Step(g, near);
        ScanAddNames(g[cur], rest, fr, dist + 1, visited, visited', added);
        ScanAddEntry(q, added, (fr, dist + 1), next, near);
        ScanAddOrder(enqueued, visited, added, fr);
        added := added + [(fr, dist + 1)];
        q' := q' + [(fr, dist + 1)];
        visited' := visited' + {fr};
        enqueued' := enqueued' + [fr];
      } else {
        ScanSkipNames(g[cur], rest, fr, visited, added);
      }
    }
    assert q'[|q|..] == added;
    ScanOrderNames(enqueued, visited, added);
  }

  /** Queueing a friend `fr` not yet visited extends the queued names by `fr`
      and the queue order by `fr`. */
  lemma ScanAddNames(friends: set<string>, rest: set<string>, fr: string, d: nat,
                     visited: set<string>, visited': set<string>, added: seq<(string, nat)>)
    requires fr !in rest && fr in friends && fr !in visited'
    requires visited' == visited + QueueNames(added)
    requires QueueNames(added) == (friends - (rest + {fr})) - visited
    ensures QueueNames(added + [(fr, d)]) == (friends - rest) - visited
    ensures visited' + {fr} == visited + QueueNames(added + [(fr, d)])
    ensures QueueOrder(added + [(fr, d)]) == QueueOrder(added) + [fr]
  {
    QueueNamesConcat(added, [(fr, d)]);
    assert QueueNames([(fr, d)]) == {fr} by {
      assert [(fr, d)][0].0 == fr;
    }
    assert QueueOrder(added + [(fr, d)]) == QueueOrder(added) + [fr];
  }

  /** A friend already visited is one visited before the scan began, so
      passing it over keeps the queued names as they were. */
  lemma ScanSkipNames(friends: set<string>, rest: set<string>, fr: string,
                      visited: set<string>, added: seq<(string, nat)>)
    requires fr !in rest && fr in friends && fr in visited + QueueNames(added)
    requires QueueNames(added) == (friends - (rest + {fr})) - visited
    ensures QueueNames(added) == (friends - rest) - visited
  {
  }

  /** The entries a scan queues: friends of the finished frontier, not in
      it, at the next hop count. */
  ghost predicate NewEntries(added: seq<(string, nat)>, d: nat, next: set<string>, near: set<string>) {
    forall i :: 0 <= i < |added| ==> added[i].1 == d && added[i].0 in next && added[i].0 !in near
  }

  /** Queueing one more such entry keeps the queue the old one followed by
      the added entries. */
  lemma ScanAddEntry(q: seq<(string, nat)>, added: seq<(string, nat)>, e: (string, nat),
                     next: set<string>, near: set<string>)
    requires NewEntries(added, e.1, next, near) && e.0 in next && e.0 !in near
    ensures NewEntries(added + [e], e.1, next, near)
    ensures (q + added) + [e] == q + (added + [e])
  {
  }

  /** The names of the queued entries, taken in order or as a set, agree. */
  lemma QueueOrderNames(added: seq<(string, nat)>)
    ensures forall u :: u in QueueOrder(added) <==> u in QueueNames(added)
  {
    forall u | u in QueueOrder(added) ensures u in QueueNames(added) {
      var i :| 0 <= i < |added| && QueueOrder(added)[i] == u;
      assert added[i].0 == u;
    }
    forall u | u in QueueNames(added) ensures u in QueueOrder(added) {
      var i :| 0 <= i < |added| && added[i].0 == u;
      assert QueueOrder(added)[i] == u;
    }
  }

  /** Logging a user neither visited before the scan nor queued by it keeps
      the log free of repeats. */
  lemma ScanAddOrder(enqueued: seq<string>, visited: set<string>, added: seq<(string, nat)>, fr: string)
    requires Distinct(enqueued + QueueOrder(added)) && forall u :: u in visited <==> u in enqueued
    requires fr !in visited + QueueNames(added)
    ensures Distinct(enqueued + QueueOrder(added) + [fr])
  {
    QueueOrderNames(added);
    assert fr !in enqueued + QueueOrder(added);
  }

  /** After a scan the log and the visited set still hold the same users. */
  lemma ScanOrderNames(enqueued: seq<string>, visited: set<string>, added: seq<(string, nat)>)
    requires forall u :: u in visited <==> u in enqueued
    ensures forall u :: u in visited + QueueNames(added) <==> u in enqueued + QueueOrder(added)
  {
    QueueOrderNames(added);
  }

  /** The visited users after a round: the finished ones, the user just
      finished, and the queue. */
  lemma BfsStepNames(q0: seq<(string, nat)>, q: seq<(string, nat)>,
                     visited0: set<string>, visited: set<string>, done: set<string>)
    requires q0 != [] && visited0 == done + QueueNames(q0)
    requires |q| >= |q0| - 1 && q[..|q0| - 1] == q0[1..]
    requires visited == visited0 + QueueNames(q[|q0| - 1..])
    ensures visited == (done + {q0[0].0}) + QueueNames(q)
  {
    assert q == q0[1..] + q[|q0| - 1..];
    QueueNamesConcat(q0[1..], q[|q0| - 1..]);
    assert q0 == [q0[0]] + q0[1..];
    QueueNamesConcat([q0[0]], q0[1..]);
    assert QueueNames([q0[0]]) == {q0[0].0} by {
      assert [q0[0]][0].0 == q0[0].0;
    }
  }

  /** The queue after a pass keeps the exact hop count of every entry. */
  lemma BfsQueueDistances(g: Graph, a: string, q0: seq<(string, nat)>, q: seq<(string, nat)>)
    requires q0 != [] && |q| >= |q0| - 1 && q[..|q0| - 1] == q0[1..]
    requires forall i :: 0 <= i < |q0| ==> IsDistance(g, a, q0[i].0, q0[i].1)
    requires forall i :: |q0| - 1 <= i < |q| ==>
               q[i].1 == q0[0].1 + 1 && q[i].0 in Within(g, a, q0[0].1 + 1) && q[i].0 !in Within(g, a, q0[0].1)
    ensures forall i :: 0 <= i < |q| ==> IsDistance(g, a, q[i].0, q[i].1)
  {
    forall i | |q0| - 1 <= i < |q| ensures IsDistance(g, a, q[i].0, q[i].1) {
      LayerDistance(g, a, q[i].0, q0[0].1);
    }
    forall i | 0 <= i < |q0| - 1 ensures IsDistance(g, a, q[i].0, q[i].1) {
      assert q[i] == q0[1..][i] == q0[i + 1];
    }
  }

  /** A user within `dist + 1` hops but not within `dist` is exactly
      `dist + 1` hops away. */
  lemma LayerDistance(g: Graph, a: string, x: string, dist: nat)
    requires x in Within(g, a, dist + 1) && x !in Within(g, a, dist)
    ensures IsDistance(g, a, x, dist + 1)
  {
  }

  /** Dropping the head of a queue whose hop counts lie within one of each
      other and appending entries one hop beyond the old head keeps them so,
      and the new head is at most one hop beyond the old. */
  lemma BfsQueueSorted(q0: seq<(string, nat)>, q: seq<(string, nat)>)
    requires q0 != [] && |q| >= |q0| - 1 && q[..|q0| - 1] == q0[1..]
    requires forall i, j :: 0 <= i <= j < |q0| ==> q0[i].1 <= q0[j].1 <= q0[i].1 + 1
    requires forall i :: |q0| - 1 <= i < |q| ==> q[i].1 == q0[0].1 + 1
    ensures forall i, j :: 0 <= i <= j < |q| ==> q[i].1 <= q[j].1 <= q[i].1 + 1
    ensures forall i :: 0 <= i < |q| ==> q0[0].1 <= q[i].1 <= q0[0].1 + 1
  {
    var dist := q0[0].1;
    assert forall i :: 0 <= i < |q0| - 1 ==> q[i] == q0[i + 1];
    forall i | 0 <= i < |q| ensures dist <= q[i].1 <= dist + 1 {
      if i < |q0| - 1 {
        assert q[i] == q0[i + 1];
      }
    }
    forall i, j | 0 <= i <= j < |q| ensures q[i].1 <= q[j].1 <= q[i].1 + 1 {
      if j < |q0| - 1 {
        assert q[i] == q0[i + 1] && q[j] == q0[j + 1];
      }
    }
  }

  /** Once a user at hop count `dist` has had all its friends visited, and
      every queued user has its exact hop count, at least `dist + 1` when
      the head has moved on: every user within the new head's hop count has
      been visited. */
  lemma BfsFrontier(g: Graph, a: string, dist: nat, cur: string, q: seq<(string, nat)>,
                    done: set<string>, visited: set<string>)
    requires Within(g, a, dist) <= visited
    requires forall u :: u in done ==> u in g && g[u] <= visited
    requires cur in g && g[cur] <= visited
    requires visited <= done + {cur} + QueueNames(q)
    requires q != [] && forall i :: 0 <= i < |q| ==> IsDistance(g, a, q[i].0, q[i].1)
    requires forall i :: 0 <= i < |q| ==> q[0].1 <= q[i].1 && dist <= q[i].1 <= dist + 1
    requires q[0].1 == dist + 1
    ensures Within(g, a, dist + 1) <= visited
  {
    forall v | v in Within(g, a, dist + 1) ensures v in visited {
      if v !in Within(g, a, dist) {
        var u := WithinPredecessor(g, a, dist, v);
        if u in done {
          assert g[u] <= visited;
        } else if u != cur {
          assert u in QueueNames(q);
          var i :| 0 <= i < |q| && q[i].0 == u;
          WithinMonotone(g, a, dist, q[i].1 - 1);
          assert false;
        }
      }
    }
  }

  // ---------------------------------------------------------------------
  // Mutual friends

  /** The friends of `u` who list `v` as a friend. */
  ghost function Mutuals(g: Graph, u: string, v: string): set<string>
    requires u in g
  {
    set f | f in g[u] && f in g && v in g[f]
  }

  /** The friends of friends of `u` that are neither `u` nor a friend of `u`. */
  ghost function Candidates(g: Graph, u: string): set<string>
    requires u in g
  {
    set f, v | f in g[u] && f in g && v in g[f] && v != u && v !in g[u] :: v
  }

  /** The mutual friends among a subset `p` of the friends. */
  ghost function MutualsIn(g: Graph, p: set<string>, v: string): set<string> {
    set f | f in p && f in g && v in g[f]
  }

  /** The candidates reached through a subset `p` of the friends. */
  ghost function CandidatesVia(g: Graph, u: string, p: set<string>): set<string>
    requires u in g
  {
    set f, v | f in p && f in g && v in g[f] && v != u && v !in g[u] :: v
  }

  /** The count map of `suggest_friends` (both stores): for each friend `f`
      of `u` that is a user, each friend `v` of `f` other than `u` and not
      already a friend of `u` gets one more. The result counts, for each
      candidate, the friends of `u` that `v` is friends with, and holds no
      other name. */
  method MutualCounts(g: Graph, u: string) returns (m: map<string, nat>)
    requires u in g
    ensures m.Keys == Candidates(g, u)
    ensures forall v :: v in m ==> m[v] == |Mutuals(g, u, v)| && m[v] >= 1
  {
    m := map[];
    var rest := g[u];
    while rest != {}
      invariant rest <= g[u]
      invariant m.Keys == CandidatesVia(g, u, g[u] - rest)
      invariant forall v :: v in m ==> m[v] == |MutualsIn(g, g[u] - rest, v)|
      decreases rest
    {
      var f :| f in rest;
      ghost var p := g[u] - rest;
      rest := rest - {f};
      assert g[u] - rest == p + {f};
      if f in g {
        ghost var m0 := m;
        m := CountFriendsOf(g, u, f, m);
        forall v | v in m ensures m[v] == |MutualsIn(g, p, v)| + (if v in g[f] && v != u && v !in g[u] then 1 else 0) {
          if v !in m0 {
            assert v !in CandidatesVia(g, u, p);
            assert MutualsIn(g, p, v) == {};
          }
        }
        forall v | v in m ensures m[v] == |MutualsIn(g, g[u] - rest, v)| {
          MutualsAddOne(g, p, f, v);
        }
        CandidatesViaAddOne(g, u, p, f);
      } else {
        forall v | v in m ensures m[v] == |MutualsIn(g, g[u] - rest, v)| {
          assert MutualsIn(g, g[u] - rest, v) == MutualsIn(g, p, v);
        }
        assert CandidatesVia(g, u, g[u] - rest) == CandidatesVia(g, u, p);
      }
    }
    assert g[u] - rest == g[u];
    forall v | v in m ensures m[v] == |Mutuals(g, u, v)| && m[v] >= 1 {
      assert MutualsIn(g, g[u], v) == Mutuals(g, u, v);
      var f, w :| f in g[u] && f in g && w in g[f] && w != u && w !in g[u] && w == v;
      assert f in Mutuals(g, u, v);
    }
    assert CandidatesVia(g, u, g[u]) == Candidates(g, u);
  }

  /** The inner loop of the count: each friend `v` of `f` other than `u`
      and not already a friend of `u` gets one more, starting from zero
      when it has no count yet; no other count changes. */
  method CountFriendsOf(g: Graph, u: string, f: string, m: map<string, nat>) returns (m': map<string, nat>)
    requires u in g && f in g
    ensures m'.Keys == m.Keys + set v | v in g[f] && v != u && v !in g[u]
    ensures forall v :: v in m' ==>
              m'[v] == (if v in m then m[v] else 0) + (if v in g[f] && v != u && v !in g[u] then 1 else 0)
  {
    m' := m;
    var fofs := g[f];
    while fofs != {}
      invariant fofs <= g[f]
      invariant m'.Keys == m.Keys + set v | v in g[f] - fofs && v != u && v !in g[u]
      invariant forall v :: v in m' ==>
                  m'[v] == (if v in m then m[v] else 0) + (if v in g[f] - fofs && v != u && v !in g[u] then 1 else 0)
      decreases fofs
    {
      var fof :| fof in fofs;
      fofs := fofs - {fof};
      if fof != u && fof !in g[u] {
        m' := m'[fof := if fof in m' then m'[fof] + 1 else 1];
      }
    }
  }

  lemma MutualsAddOne(g: Graph, p: set<string>, f: string, v: string)
    requires f !in p && f in g
    ensures |MutualsIn(g, p + {f}, v)| == |MutualsIn(g, p, v)| + (if v in g[f] then 1 else 0)
  {
    if v in g[f] {
      assert MutualsIn(g, p + {f}, v) == MutualsIn(g, p, v) + {f};
    } else {
      assert MutualsIn(g, p + {f}, v) == MutualsIn(g, p, v);
    }
  }

  lemma CandidatesViaAddOne(g: Graph, u: string, p: set<string>, f: string)
    requires u in g && f in g
    ensures CandidatesVia(g, u, p + {f}) == CandidatesVia(g, u, p) + set v | v in g[f] && v != u && v !in g[u]
  {
  }
}

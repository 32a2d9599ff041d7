/** The social graph store of frontend.py and of code.cpp: a map from user
    name to user record (friend set and post tree) and a global post
    counter. Each source becomes a class; the graph algorithms, the post
    index and the rankings they share live in their own modules. */
module Network {
  import opened Strings
  import opened Sorting
  import opened Avl
  import opened Graph
  import opened Ranking

  /** `UserNode`: the names the user lists as friends and the post tree.
      The record's own name is its key in the store. */
  datatype User = User(friends: set<string>, posts: Tree)

  /** The outcome of an operation, in place of the message text. */
  datatype Status = Ok | EmptyName | AlreadyExists | NoSuchUser | SelfFriend

  /** The friendship graph of a store. */
  function FriendGraph(users: map<string, User>): (g: Graph)
    ensures g.Keys == users.Keys
    ensures forall u :: u in users ==> g[u] == users[u].friends
  {
    map u | u in users :: users[u].friends
  }

  // ---------------------------------------------------------------------
  // Store invariants

  /** Every post tree is an AVL tree whose keys are earlier post times. */
  ghost predicate PostsOk(users: map<string, User>, addtime: int) {
    && 0 <= addtime
    && forall u :: u in users ==>
         IsAvl(users[u].posts) && forall t :: t in Keys(users[u].posts) ==> 0 <= t < addtime
  }

  /** The invariant both stores keep: friendship is symmetric between
      users, and the post trees are sound. */
  ghost predicate StoreOk(users: map<string, User>, addtime: int) {
    Symmetric(FriendGraph(users)) && PostsOk(users, addtime)
  }

  /** What frontend.py adds: every name is stripped and non-empty, and no
      user is its own friend. */
  ghost predicate PyNamesOk(users: map<string, User>) {
    forall u :: u in users ==> Stripped(u) && u !in users[u].friends
  }

  /** A non-empty name with no whitespace at either end, as `strip()`
      leaves it. */
  predicate Stripped(u: string) {
    u != [] && !IsSpace(u[0]) && !IsSpace(u[|u| - 1])
  }

  /** Adds each of `x` and `y` to the other's friend set, `users[user1]`
      first. */
  function Link(users: map<string, User>, x: string, y: string): (r: map<string, User>)
    requires x in users && y in users
    ensures r.Keys == users.Keys
    ensures forall u :: u in users ==>
              && r[u].posts == users[u].posts
              && r[u].friends == users[u].friends + (if u == x then {y} else {}) + (if u == y then {x} else {})
  {
    var r1 := users[x := users[x].(friends := users[x].friends + {y})];
    r1[y := r1[y].(friends := r1[y].friends + {x})]
  }

  /** Adding the same friendship twice is adding it once. */
  lemma LinkIdempotent(users: map<string, User>, x: string, y: string)
    requires x in users && y in users
    ensures Link(Link(users, x, y), x, y) == Link(users, x, y)
  {
    var r1 := Link(users, x, y);
    var r2 := Link(r1, x, y);
    assert forall u :: u in r2 ==> r2[u] == r1[u];
  }

  /** Linking two users keeps the store invariant. */
  lemma LinkKeepsStore(users: map<string, User>, addtime: int, x: string, y: string)
    requires StoreOk(users, addtime) && x in users && y in users
    ensures StoreOk(Link(users, x, y), addtime)
    ensures x in Link(users, x, y)[y].friends && y in Link(users, x, y)[x].friends
  {
    var r := Link(users, x, y);
    LinkSymmetric(users, x, y);
    assert PostsOk(r, addtime) by {
      forall u | u in r ensures r[u].posts == users[u].posts {
      }
    }
  }

  /** Linking two users keeps friendship symmetric. */
  lemma LinkSymmetric(users: map<string, User>, x: string, y: string)
    requires Symmetric(FriendGraph(users)) && x in users && y in users
    ensures Symmetric(FriendGraph(Link(users, x, y)))
  {
    var r := Link(users, x, y);
    var g, g' := FriendGraph(users), FriendGraph(r);
    forall w | w in g ensures g'[w] == g[w] + (if w == x then {y} else {}) + (if w == y then {x} else {}) {
      assert g'[w] == r[w].friends;
    }
    AddEdgeSymmetric(g, g', x, y);
  }

  /** Adding the edge between `x` and `y` in both directions keeps a graph
      symmetric. */
  lemma AddEdgeSymmetric(g: Graph, g': Graph, x: string, y: string)
    requires Symmetric(g) && x in g && y in g && g'.Keys == g.Keys
    requires forall w :: w in g ==> g'[w] == g[w] + (if w == x then {y} else {}) + (if w == y then {x} else {})
    ensures Symmetric(g')
  {
    forall u, v | u in g' && v in g'[u] ensures v in g' && u in g'[v] {
      if v in g[u] {
        assert u in g[v];
      }
    }
  }

  /** A new user with no friends and no posts keeps the store invariant. */
  lemma AddUserKeepsStore(users: map<string, User>, addtime: int, n: string)
    requires StoreOk(users, addtime) && n !in users
    ensures StoreOk(users[n := User({}, Leaf)], addtime)
  {
    var r := users[n := User({}, Leaf)];
    var g, g' := FriendGraph(users), FriendGraph(r);
    forall u, v | u in g' && v in g'[u] ensures v in g' && u in g'[v] {
      assert u in g && v in g[u];
    }
  }

  /** The tree of user `n` after a post at time `addtime`. */
  function WithPost(users: map<string, User>, n: string, time: int, content: string, policy: DupPolicy):
    (r: map<string, User>)
    requires n in users
    ensures r.Keys == users.Keys
    ensures forall u :: u in users && u != n ==> r[u] == users[u]
    ensures r[n].friends == users[n].friends
  {
    users[n := users[n].(posts := Insert(users[n].posts, time, content, policy))]
  }

  /** A post at the current counter value keeps the store invariant once
      the counter moves on by one, and lands first in the walk order of the
      poster's tree: it is the newest post. The key is always fresh, so the
      duplicate policy never comes into play. */
  lemma PostKeepsStore(users: map<string, User>, addtime: int, n: string, content: string, policy: DupPolicy)
    requires StoreOk(users, addtime) && n in users
    ensures StoreOk(WithPost(users, n, addtime, content, policy), addtime + 1)
    ensures FriendGraph(WithPost(users, n, addtime, content, policy)) == FriendGraph(users)
    ensures Desc(WithPost(users, n, addtime, content, policy)[n].posts) == [(addtime, content)] + Desc(users[n].posts)
    ensures WithPost(users, n, addtime, content, Merge) == WithPost(users, n, addtime, content, Ignore)
  {
    var t := users[n].posts;
    PostKeepsPosts(users, addtime, n, content, policy);
    var r := WithPost(users, n, addtime, content, policy);
    assert FriendGraph(r) == FriendGraph(users);
    InsertNewest(t, addtime, content, policy);
    InsertFreshAgrees(t, addtime, content);
  }

  lemma PostKeepsPosts(users: map<string, User>, addtime: int, n: string, content: string, policy: DupPolicy)
    requires PostsOk(users, addtime) && n in users
    ensures PostsOk(WithPost(users, n, addtime, content, policy), addtime + 1)
  {
    InsertKeepsAvl(users[n].posts, addtime, content, policy);
  }

  /** The names of frontend.py stay stripped, non-empty and free of
      self-friendship when a stripped non-empty name is added. */
  lemma PyAddUserNames(users: map<string, User>, n: string)
    requires PyNamesOk(users) && Stripped(n)
    ensures PyNamesOk(users[n := User({}, Leaf)])
  {
  }

  /** ... and when two different users become friends. */
  lemma PyLinkNames(users: map<string, User>, x: string, y: string)
    requires PyNamesOk(users) && x in users && y in users && x != y
    ensures PyNamesOk(Link(users, x, y))
  {
  }

  /** A name that is a user of a symmetric store has a graph where BFS
      may run. */
  lemma StoreGraphClosed(users: map<string, User>, addtime: int)
    requires StoreOk(users, addtime)
    ensures Closed(FriendGraph(users))
  {
  }

  // ---------------------------------------------------------------------
  // Suggestions

  /** The (name, count) items `suggest_friends` ranks: each candidate with
      the number of the user's friends it is friends with. */
  ghost function Suggestions(g: Graph, u: string): set<(string, int)>
    requires u in g
  {
    set v | v in Candidates(g, u) :: (v, |Mutuals(g, u, v)|)
  }

  /** A suggestion is never the user nor one of the user's friends, and
      has at least one mutual friend. */
  lemma SuggestionsExclude(g: Graph, u: string, p: (string, int))
    requires u in g && p in Suggestions(g, u)
    ensures p.0 != u && p.0 !in g[u] && p.1 >= 1
  {
    var f :| f in g[u] && f in g && p.0 in g[f] && p.0 != u && p.0 !in g[u];
    assert f in Mutuals(g, u, p.0);
  }

  /** The items of the count map are the suggestions. */
  lemma CountItems(g: Graph, u: string, m: map<string, nat>)
    requires u in g && m.Keys == Candidates(g, u)
    requires forall v :: v in m ==> m[v] == |Mutuals(g, u, v)|
    ensures (set v | v in m :: (v, m[v] as int)) == Suggestions(g, u)
  {
  }

  /** The key code.cpp sorts a candidate by: (negated count, name). */
  ghost function CppKey(g: Graph, u: string, v: string): (int, string)
    requires u in g
  {
    (-|Mutuals(g, u, v)|, v)
  }

  ghost function CppSuggestions(g: Graph, u: string): set<(int, string)>
    requires u in g
  {
    set v | v in Candidates(g, u) :: CppKey(g, u, v)
  }

  /** The items of the count map as code.cpp pushes them. */
  lemma CppCountItems(g: Graph, u: string, m: map<string, nat>)
    requires u in g && m.Keys == Candidates(g, u)
    requires forall v :: v in m ==> m[v] == |Mutuals(g, u, v)|
    ensures (set v | v in m :: (-(m[v] as int), v)) == CppSuggestions(g, u)
  {
  }

  /** The best-ranked keys, by name: the names are candidates, in `compare`
      order of their keys, and every candidate left out ranks below every
      one listed. */
  lemma CppTopNames(g: Graph, u: string, p: seq<(int, string)>, r: seq<string>)
    requires u in g && IsTopOf(Compare, CppSuggestions(g, u), p) && r == Names(p)
    ensures forall i :: 0 <= i < |r| ==> r[i] in Candidates(g, u)
    ensures forall i, j :: 0 <= i < j < |r| ==> Compare(CppKey(g, u, r[i]), CppKey(g, u, r[j]))
    ensures forall v, i :: v in Candidates(g, u) && v !in r && 0 <= i < |r| ==>
              Compare(CppKey(g, u, r[i]), CppKey(g, u, v))
  {
    var key := v => CppKey(g, u, v);
    assert CppSuggestions(g, u) == set v | v in Candidates(g, u) :: key(v);
    TopNames(key, Candidates(g, u), p);
    forall i, j | 0 <= i < j < |r| ensures Compare(CppKey(g, u, r[i]), CppKey(g, u, r[j])) {
      assert Compare(key(r[i]), key(r[j]));
    }
    forall v, i | v in Candidates(g, u) && v !in r && 0 <= i < |r|
      ensures Compare(CppKey(g, u, r[i]), CppKey(g, u, v))
    {
      assert Compare(key(r[i]), key(v));
    }
  }

  /** The names the emit loop prints from the sorted keys of the
      candidates: candidates, in `compare` order, outranking every one left
      out, and as many as `k` asks for. */
  lemma CppEmitIsTop(g: Graph, u: string, sorted: seq<(int, string)>, k: int, r: seq<string>)
    requires u in g
    requires SortedBy(Compare, sorted) && multiset(sorted) == multiset(CppSuggestions(g, u))
    requires r == Names(sorted)[..CppEmitCount(|sorted|, k)]
    ensures forall i :: 0 <= i < |r| ==> r[i] in Candidates(g, u)
    ensures forall i, j :: 0 <= i < j < |r| ==> Compare(CppKey(g, u, r[i]), CppKey(g, u, r[j]))
    ensures forall v, i :: v in Candidates(g, u) && v !in r && 0 <= i < |r| ==>
              Compare(CppKey(g, u, r[i]), CppKey(g, u, v))
    ensures 1 <= k <= |Candidates(g, u)| ==> |r| == k
    ensures (k <= 0 || |Candidates(g, u)| < k) ==> |r| == |Candidates(g, u)|
  {
    CompareOrder();
    var c := CppEmitCount(|sorted|, k);
    var p := sorted[..c];
    PrefixIsTop(Compare, CppSuggestions(g, u), sorted, c);
    NamesPrefix(sorted, c);
    CppTopNames(g, u, p, r);
    SuggestionCount(g, u);
  }

  // ---------------------------------------------------------------------
  // frontend.py

  /** The store of frontend.py (`st.session_state`'s `users` and
      `addtime`). */
  class PyNetwork {
    var users: map<string, User>
    var addtime: int

    ghost predicate Valid()
      reads this
    {
      StoreOk(users, addtime) && PyNamesOk(users)
    }

    /** The empty store `get_state` starts from. */
    constructor()
      ensures Valid() && users == map[] && addtime == 0
    {
      users, addtime := map[], 0;
    }

    /** The reset button: clears the users and the counter. */
    method Reset()
      modifies this
      ensures Valid() && users == map[] && addtime == 0
    {
      users, addtime := map[], 0;
    }

    /** `add_user`: strips the name, rejects an empty or existing name
        without change, and otherwise adds one user with no friends and no
        posts. */
    method AddUser(name: string) returns (st: Status)
      requires Valid()
      modifies this
      ensures Valid() && addtime == old(addtime)
      ensures Trim(name) == [] ==> st == EmptyName && users == old(users)
      ensures Trim(name) != [] && Trim(name) in old(users) ==> st == AlreadyExists && users == old(users)
      ensures Trim(name) != [] && Trim(name) !in old(users) ==>
                st == Ok && users == old(users)[Trim(name) := User({}, Leaf)]
    {
      var n := Trim(name);
      if n == [] {
        return EmptyName;
      }
      if n in users {
        return AlreadyExists;
      }
      AddUserKeepsStore(users, addtime, n);
      PyAddUserNames(users, n);
      users := users[n := User({}, Leaf)];
      st := Ok;
    }

    /** `add_friends`: strips both names, rejects an unknown user or a
        self-friendship without change, and otherwise adds each user to the
        other's friend set. */
    method AddFriends(user1: string, user2: string) returns (st: Status)
      requires Valid()
      modifies this
      ensures Valid() && addtime == old(addtime)
      ensures (Trim(user1) !in old(users) || Trim(user2) !in old(users)) ==>
                st == NoSuchUser && users == old(users)
      ensures Trim(user1) in old(users) && Trim(user2) in old(users) && Trim(user1) == Trim(user2) ==>
                st == SelfFriend && users == old(users)
      ensures Trim(user1) in old(users) && Trim(user2) in old(users) && Trim(user1) != Trim(user2) ==>
                st == Ok && users == Link(old(users), Trim(user1), Trim(user2))
    {
      var x, y := Trim(user1), Trim(user2);
      if x !in users || y !in users {
        return NoSuchUser;
      }
      if x == y {
        return SelfFriend;
      }
      LinkKeepsStore(users, addtime, x, y);
      PyLinkNames(users, x, y);
      users := Link(users, x, y);
      st := Ok;
    }

    /** `list_friends`: the friend set in name order, or nothing for an
        unknown name. The name is looked up as given, without stripping. */
    method ListFriends(name: string) returns (r: seq<string>)
      requires Valid()
      ensures name !in users ==> r == []
      ensures name in users ==> SortedBy(StrLess, r) && multiset(r) == multiset(users[name].friends)
    {
      if name !in users {
        return [];
      }
      NameOrder();
      r := SortSet(StrLess, users[name].friends);
    }

    /** `add_post`: strips the name; for a user, inserts the post under
        the current counter value and moves the counter on by one. Only
        that user's tree changes. */
    method AddPost(name: string, content: string) returns (st: Status)
      requires Valid()
      modifies this
      ensures Valid()
      ensures Trim(name) !in old(users) ==> st == NoSuchUser && users == old(users) && addtime == old(addtime)
      ensures Trim(name) in old(users) ==>
                && st == Ok && addtime == old(addtime) + 1
                && users == WithPost(old(users), Trim(name), old(addtime), content, Merge)
                && Desc(users[Trim(name)].posts) == [(old(addtime), content)] + Desc(old(users)[Trim(name)].posts)
    {
      var n := Trim(name);
      if n !in users {
        return NoSuchUser;
      }
      var t := addtime;
      PostKeepsStore(users, t, n, content, Merge);
      addtime := addtime + 1;
      users := WithPost(users, n, t, content, Merge);
      st := Ok;
    }

    /** `output_posts`: strips the name; the texts of the user's `n`
        newest posts, newest first, or nothing for an unknown name. */
    method OutputPosts(name: string, n: int) returns (r: seq<string>)
      requires Valid()
      ensures Trim(name) !in users ==> r == []
      ensures Trim(name) in users ==> r == Datas(Latest(Desc(users[Trim(name)].posts), n))
    {
      var x := Trim(name);
      if x !in users {
        return [];
      }
      r := PyLatestK(users[x].posts, n);
    }

    /** `degrees_of_separation`: strips both names; -1 for an unknown user,
        0 for the same user, and otherwise the BFS distance in the
        friendship graph, -1 when no path exists. */
    method DegreesOfSeparation(user1: string, user2: string) returns (d: int)
      requires Valid()
      ensures Trim(user1) !in users || Trim(user2) !in users ==> d == -1
      ensures Trim(user1) in users && Trim(user2) in users && Trim(user1) == Trim(user2) ==> d == 0
      ensures Trim(user1) in users && Trim(user2) in users && Trim(user1) != Trim(user2) ==>
                && (d == -1 || d >= 1)
                && (d == -1 <==> Unreachable(FriendGraph(users), Trim(user1), Trim(user2)))
                && (d >= 1 ==> IsDistance(FriendGraph(users), Trim(user1), Trim(user2), d))
    {
      var x, y := Trim(user1), Trim(user2);
      if x !in users || y !in users {
        return -1;
      }
      if x == y {
        return 0;
      }
      StoreGraphClosed(users, addtime);
      ghost var order;
      d, order := Bfs(FriendGraph(users), x, y);
    }

    /** `suggest_friends`: strips the name; for a user, the (name, count)
        suggestions ranked by higher count then smaller name, cut to
        `sorted_sugg[:k]`; nothing for an unknown name. */
    method SuggestFriends(name: string, k: int) returns (r: seq<(string, int)>)
      requires Valid()
      ensures Trim(name) !in users ==> r == []
      ensures Trim(name) in users ==>
                && IsTopOf(PyKeyLess, Suggestions(FriendGraph(users), Trim(name)), r)
                && (0 <= k ==> |r| == if k < |Candidates(FriendGraph(users), Trim(name))| then k
                                        else |Candidates(FriendGraph(users), Trim(name))|)
                && (k < 0 ==> |r| == if -k < |Candidates(FriendGraph(users), Trim(name))|
                                       then |Candidates(FriendGraph(users), Trim(name))| + k else 0)
    {
      var x := Trim(name);
      if x !in users {
        return [];
      }
      var g := FriendGraph(users);
      var m := MutualCounts(g, x);
      var items := set v | v in m :: (v, m[v] as int);
      CountItems(g, x, m);
      PyKeyOrder();
      var sorted := SortSet(PyKeyLess, items);
      r := PyTake(sorted, k);
      PrefixIsTop(PyKeyLess, items, sorted, |r|);
      SuggestionCount(g, x);
    }
  }

  /** There are as many suggestions as candidates. */
  lemma SuggestionCount(g: Graph, u: string)
    requires u in g
    ensures |Suggestions(g, u)| == |Candidates(g, u)|
    ensures |CppSuggestions(g, u)| == |Candidates(g, u)|
  {
    InjectiveImage(Candidates(g, u), Suggestions(g, u), v => (v, |Mutuals(g, u, v)|), (p: (string, int)) => p.0);
    InjectiveImage(Candidates(g, u), CppSuggestions(g, u), v => CppKey(g, u, v), (p: (int, string)) => p.1);
  }

  /** A set and its image under a map that another map undoes have the
      same size. */
  lemma {:induction false} InjectiveImage<A, B>(s: set<A>, t: set<B>, f: A -> B, back: B -> A)
    requires forall x :: x in s ==> back(f(x)) == x
    requires t == set x | x in s :: f(x)
    ensures |t| == |s|
    decreases s
  {
    if s != {} {
      var x :| x in s;
      var s' := s - {x};
      var t' := set y | y in s' :: f(y);
      InjectiveImage(s', t', f, back);
      assert t == t' + {f(x)};
      forall y | y in s' ensures f(y) != f(x) {
        assert back(f(y)) == y && back(f(x)) == x;
      }
    }
  }

  // ---------------------------------------------------------------------
  // code.cpp

  /** The store of code.cpp: the global `users` map and `addtime`
      counter. */
  class CppNetwork {
    var users: map<string, User>
    var addtime: int

    ghost predicate Valid()
      reads this
    {
      StoreOk(users, addtime)
    }

    constructor()
      ensures Valid() && users == map[] && addtime == 0
    {
      users, addtime := map[], 0;
    }

    /** `add_user`: rejects an existing name without change, and otherwise
        adds one user with no friends and no posts. The name is used as
        given. */
    method AddUser(name: string) returns (st: Status)
      requires Valid()
      modifies this
      ensures Valid() && addtime == old(addtime)
      ensures name in old(users) ==> st == AlreadyExists && users == old(users)
      ensures name !in old(users) ==> st == Ok && users == old(users)[name := User({}, Leaf)]
    {
      if name in users {
        return AlreadyExists;
      }
      AddUserKeepsStore(users, addtime, name);
      users := users[name := User({}, Leaf)];
      st := Ok;
    }

    /** `add_friends`: when both users exist, adds each to the other's
        friend set, a user to its own set when the two names are equal;
        otherwise changes nothing. */
    method AddFriends(user1: string, user2: string) returns (st: Status)
      requires Valid()
      modifies this
      ensures Valid() && addtime == old(addtime)
      ensures user1 in old(users) && user2 in old(users) ==> st == Ok && users == Link(old(users), user1, user2)
      ensures !(user1 in old(users) && user2 in old(users)) ==> st == NoSuchUser && users == old(users)
    {
      if user1 in users && user2 in users {
        LinkKeepsStore(users, addtime, user1, user2);
        users := Link(users, user1, user2);
        return Ok;
      }
      st := NoSuchUser;
    }

    /** `list_friends`: the friend set in the ascending order `std::set`
        iterates it; an unknown user is reported as such. */
    method ListFriends(name: string) returns (st: Status, r: seq<string>)
      requires Valid()
      ensures name !in users ==> st == NoSuchUser && r == []
      ensures name in users ==> st == Ok && SortedBy(StrLess, r) && multiset(r) == multiset(users[name].friends)
    {
      if name !in users {
        return NoSuchUser, [];
      }
      NameOrder();
      r := SortSet(StrLess, users[name].friends);
      st := Ok;
    }

    /** `add_post`: for a user, inserts the post under `addtime++`; only
        that user's tree changes. */
    method AddPost(name: string, content: string) returns (st: Status)
      requires Valid()
      modifies this
      ensures Valid()
      ensures name !in old(users) ==> st == NoSuchUser && users == old(users) && addtime == old(addtime)
      ensures name in old(users) ==>
                && st == Ok && addtime == old(addtime) + 1
                && users == WithPost(old(users), name, old(addtime), content, Ignore)
                && Desc(users[name].posts) == [(old(addtime), content)] + Desc(old(users)[name].posts)
    {
      if name !in users {
        return NoSuchUser;
      }
      var t := addtime;
      PostKeepsStore(users, t, name, content, Ignore);
      addtime := addtime + 1;
      users := WithPost(users, name, t, content, Ignore);
      st := Ok;
    }

    /** `output_posts`: the lines `print_rev_inorder(n)` prints for a user;
        an unknown user is reported as such. */
    method OutputPosts(name: string, n: int) returns (st: Status, r: seq<string>)
      requires Valid()
      ensures name !in users ==> st == NoSuchUser && r == []
      ensures name in users ==> st == Ok && r == Datas(Latest(Desc(users[name].posts), n))
    {
      if name !in users {
        return NoSuchUser, [];
      }
      r := CppPrintRevInorder(users[name].posts, n);
      st := Ok;
    }

    /** `degrees_of_separation`: -1 for an unknown user, 0 for the same
        user, and otherwise the BFS distance, -1 when no path exists. */
    method DegreesOfSeparation(user1: string, user2: string) returns (d: int)
      requires Valid()
      ensures user1 !in users || user2 !in users ==> d == -1
      ensures user1 in users && user2 in users && user1 == user2 ==> d == 0
      ensures user1 in users && user2 in users && user1 != user2 ==>
                && (d == -1 || d >= 1)
                && (d == -1 <==> Unreachable(FriendGraph(users), user1, user2))
                && (d >= 1 ==> IsDistance(FriendGraph(users), user1, user2, d))
    {
      if user1 !in users || user2 !in users {
        return -1;
      }
      if user1 == user2 {
        return 0;
      }
      StoreGraphClosed(users, addtime);
      ghost var order;
      d, order := Bfs(FriendGraph(users), user1, user2);
    }

    /** `suggest_friends` for an existing user: the candidate names in
        `compare` order of (negated count, name), as many as the emit loop
        prints for `k`. */
    method SuggestFriends(name: string, k: int) returns (r: seq<string>)
      requires Valid() && name in users
      ensures forall i :: 0 <= i < |r| ==> r[i] in Candidates(FriendGraph(users), name)
      ensures forall i, j :: 0 <= i < j < |r| ==>
                Compare(CppKey(FriendGraph(users), name, r[i]), CppKey(FriendGraph(users), name, r[j]))
      ensures forall v, i :: v in Candidates(FriendGraph(users), name) && v !in r && 0 <= i < |r| ==>
                Compare(CppKey(FriendGraph(users), name, r[i]), CppKey(FriendGraph(users), name, v))
      ensures 1 <= k <= |Candidates(FriendGraph(users), name)| ==> |r| == k
      ensures (k <= 0 || |Candidates(FriendGraph(users), name)| < k) ==> |r| == |Candidates(FriendGraph(users), name)|
    {
      var g := FriendGraph(users);
      var m := MutualCounts(g, name);
      var items := set v | v in m :: (-(m[v] as int), v);
      CppCountItems(g, name, m);
      CompareOrder();
      var sorted := SortSet(Compare, items);
      r := CppEmit(sorted, k);
      CppEmitIsTop(g, name, sorted, k, r);
    }
  }
}

# Social network store with AVL post timelines — a Dafny model

The system is a small social network kept in memory, in two versions:
a Python back end behind a Streamlit page (`frontend.py`) and a C++
command-line program (`code.cpp`). Both keep a table from user names to
users. Each user has a set of friend names and an AVL tree of posts keyed
by a global, ever-increasing post counter (`addtime`). The operations are
the same in both versions:

- add a user;
- make two users friends;
- list a user's friends in name order;
- add a post;
- output a user's latest `k` posts, newest first;
- compute the degrees of separation between two users by breadth-first search;
- suggest friends of friends, ranked by the number of mutual friends.

The C++ program also has two helpers that tokenise a command line: `split`
and `convert_to_lowercase`.

The model has eight modules:

- `Seqs`: sequence reversal, shared by the tree walks and the graph paths.
- `Strings`: Python's `str.strip()` whitespace and trimming, and the
  lexicographic order on names.
- `Sorting`: strict orders, sorted sequences, and an insertion sort
  (`SortSet`) that stands in for the library sorts.
- `Avl`: the post tree as a value datatype with cached heights, and its
  operations:
  - the rotations and the rebalancing insert, with the Python merge on a
    duplicate key and the C++ "ignore" on one;
  - the two reverse in-order walks that collect the latest `k` posts;
  - the C++ left rotation as written, which caches a stale height.
- `Graph`: the friendship graph, hop distances (`Within`, `IsDistance`,
  `Unreachable`), the BFS loop, and the mutual-friend counting loop.
- `Ranking`: the suggestion orders, Python's `[:k]` slice, and the C++
  emit loop.
- `Network`: the two stores as classes `PyNetwork` and `CppNetwork`. Each
  has a `users` map and an `addtime` counter. The invariant `Valid` holds
  that friendship is symmetric, each tree is AVL, and every post key is
  below `addtime`. `PyNetwork` also requires every name to be stripped and
  no user to be its own friend.
- `Command`: `split` (three loops over one index) and `convert_to_lowercase`
  (in place over a character array).

Where the two versions behave differently, the model keeps the difference:

- Python strips names. C++ lowercases whole commands in `main`, which is
  not part of this model.
- Python refuses self-friendship. C++ allows it.
- A duplicate post key merges in Python and is ignored in C++. With the
  corrected `leftRotate` (see Findings), a fresh key makes the two inserts
  equal, and `add_post` always uses a fresh key. As written, the C++
  rotation caches wrong heights. `insertHelper` then rebalances according
  to those heights: inserting the keys 0 to 6 in turn rotates the root
  although it is balanced, and leaves a root over subtrees of true heights
  3 and 1, which is not an AVL tree. The in-order sequence is still that
  of the corrected insert (`Avl.CppInsertSameInorder`), so the C++ program
  prints the same posts in the same order.
- Python returns `(name, count)` pairs sliced with `[:k]`. C++ prints the
  names and stops when its countdown reaches zero.
- Python's `suggest_friends` skips a friend who is not a user
  (frontend.py:194-195); C++ has no such test. `Graph.MutualCounts` models
  the test directly (`if f in g`), and `Network.StoreGraphClosed` shows
  that in a sound store it never skips anyone, so the two agree.

## Model

| member | source | states |
|---|---|---|
| Strings.TrimLeft | frontend.py:115 | the result is a suffix of the input and does not start with whitespace |
| Strings.TrimLeftDropsSpaces | frontend.py:115 | every character that the left trim removes is whitespace |
| Strings.TrimRight | frontend.py:115 | the result is a prefix of the input and does not end with whitespace |
| Strings.TrimRightDropsSpaces | frontend.py:115 | every character that the right trim removes is whitespace |
| Strings.Trim | frontend.py:115 | a non-empty stripped name starts and ends with a non-space |
| Strings.TrimDecomposes | frontend.py:115 | the input is all-whitespace prefix + stripped text + all-whitespace suffix |
| Strings.TrimEmpty | frontend.py:115-117 | the stripped name is empty exactly when the input is all whitespace (the "cannot be empty" case) |
| Strings.TrimIdempotent | frontend.py:115 | stripping twice is stripping once |
| Strings.StrLessIrreflexive | frontend.py:141 | no name sorts before itself |
| Strings.StrLessTransitive | frontend.py:141 | the name order is transitive |
| Strings.StrLessTotal | frontend.py:141 | any two distinct names are ordered one way or the other |
| Sorting.InsertSorted | frontend.py:141 | inserting a new element into a sorted sequence keeps it sorted and adds exactly that element |
| Sorting.SortSet | frontend.py:141 | the result is strictly sorted and is a permutation of the set |
| Sorting.SortedHasSetSize | frontend.py:141 | a sorted permutation of a set has the set's size and the same members |
| Sorting.SortedUnique | code.cpp:277 | two strictly sorted permutations of the same elements are equal, so the sort result is determined |
| Sorting.PrefixIsTop | frontend.py:203-204 | any prefix of the sorted suggestions is sorted, is drawn from the set, and outranks everything it leaves out |
| Ranking.NameOrder | code.cpp:189-191 | name comparison is a strict total order (the `std::set` / `sorted` order of friend lists) |
| Ranking.CompareOrder | code.cpp:231-234 | `compare` on (negated count, name) is a strict total order |
| Ranking.PyKeyOrder | frontend.py:203 | the key `(-count, name)` induces a strict total order on items |
| Ranking.PyKeyMeaning | frontend.py:203 | an item ranks first exactly when its count is higher, or the counts tie and its name is smaller |
| Ranking.CppEmit | code.cpp:278-282 | the loop's output is the first `CppEmitCount(n, k)` names of the sorted pairs |
| Ranking.TopNames | code.cpp:273-282 | names read back from a top prefix of keyed candidates are candidates, in `compare` order, and outrank every candidate left out |
| Avl.RotationOrdered | frontend.py:25-40 | each rotation takes an ordered tree to an ordered tree |
| Avl.RotateRight | frontend.py:25-32 | a right rotation keeps the in-order sequence and key set, keeps order, and leaves correct cached heights |
| Avl.RotateLeft | frontend.py:34-40 | a left rotation keeps the in-order sequence and key set, keeps order, and leaves correct cached heights |
| Avl.Rebalance | frontend.py:62-76 | the four rotation cases keep the in-order sequence, the key set and the order |
| Avl.Insert | frontend.py:50-76 | the key set becomes old keys + {time}, and the order is kept |
| Avl.InsertInorder | frontend.py:50-60 | after insert, the in-order sequence is the keys below `time`, then the new or merged entry, then the keys above |
| Avl.RebalanceNoop | frontend.py:63-76 | a node whose balance is within one is returned unchanged |
| Avl.RebalanceLeftHeavy | frontend.py:65-71 | the left-left and left-right cases restore AVL balance, with correct heights, at the old height |
| Avl.RebalanceRightHeavy | frontend.py:67-74 | the right-right and right-left cases restore AVL balance, with correct heights, at the old height |
| Avl.InsertBalancedLeft | frontend.py:54-55 | a step of the balance proof for a key inserted into the left subtree |
| Avl.InsertBalancedRight | frontend.py:56-57 | a step of the balance proof for a key inserted into the right subtree |
| Avl.InsertBalanced | frontend.py:50-76 | insert keeps heights correct and balance within one; the height grows by at most one, not at all for an existing key, and when it grows the root stays and the side the key went to is the taller |
| Avl.InsertKeepsAvl | frontend.py:50-76 | an AVL tree stays an AVL tree (ordered, correct heights, balanced) after insert |
| Avl.InsertExisting | frontend.py:58-60 | inserting an existing key leaves keys, heights and shape unchanged; the C++ policy leaves the tree identical |
| Avl.InsertFreshAgrees | code.cpp:70-71 | for a key not in the tree, the merging and the ignoring inserts give the same tree |
| Avl.PyRevInorder | frontend.py:78-87 | `_rev_inorder` appends the texts of the first `k` entries of the newest-first order and returns the countdown left |
| Avl.CppRevInorder | code.cpp:118-125 | `rev_inorder_helper` emits the same texts and leaves the same countdown |
| Avl.PyLatestK | frontend.py:89-92 | `get_latest_k` is the texts of the newest `k` entries, newest first |
| Avl.CppPrintRevInorder | code.cpp:143-145 | `print_rev_inorder` prints the texts of the newest `k` entries, newest first |
| Avl.PyCppWalksAgree | code.cpp:118-145 | the Python and C++ walks produce the same output for every tree and every `k` |
| Avl.DescKeys | frontend.py:78-87 | the newest-first sequence holds exactly the tree's keys |
| Avl.DescSorted | frontend.py:78-87 | on an ordered tree the newest-first sequence is strictly decreasing, and each entry holds its key's text |
| Avl.DescLength | frontend.py:78-87 | on an ordered tree the newest-first sequence has one entry per key |
| Avl.LatestHoldsLargest | frontend.py:89-92 | a prefix of a strictly decreasing sequence has `min(k, n)` entries and skips no larger key |
| Avl.LatestAreLargest | frontend.py:89-92 | `get_latest_k` for `k >= 0` returns the `min(k, n)` largest keys, strictly decreasing, each with its own text |
| Avl.DescIsReverse | frontend.py:78-87 | the reverse in-order walk visits the in-order sequence backwards |
| Avl.InsertNewest | frontend.py:148-150 | inserting a key larger than every stored key puts its entry first in newest-first order |
| Avl.CppLeftRotateAsWritten | code.cpp:45-55 | the as-written C++ left rotation keeps the in-order sequence, but caches the new root's height from `x`'s old height |
| Avl.CppLeftRotateStaleHeight | code.cpp:45-55 | after inserting keys 0, 1, 2 the C++ rotation gives a root of height 4 with wrong cached heights; the corrected rotation gives height 2 with correct heights |
| Avl.ThirdInsert | code.cpp:61-107 | inserting 2 into the one-node tree {1} hangs it to the right, with height 2 |
| Avl.CppRebalanceAsWritten | code.cpp:77-106 | the as-written rebalancing, with the stale-height left rotation, keeps the in-order sequence |
| Avl.CppInsertSameInorder | code.cpp:61-107 | the as-written `insertHelper` yields the same in-order sequence as the corrected insert, for every tree and key |
| Avl.CppFirstFourInserts | code.cpp:61-107 | the keys 0 to 3 inserted as written give root 1 with key 0 on its left and key 2 over key 3 on its right; the stale root height of the third insert is recomputed on the way back |
| Avl.CppFifthInsert | code.cpp:61-107 | inserting key 4 next rotates the root, which is balanced in truth, because the left rotation at key 2 caches height 4, over a true height of 2, at key 3 |
| Avl.FifthInsertCorrected | frontend.py:50-76 | the same insert with the corrected rotation rotates only the subtree at key 2 and keeps the root |
| Avl.CppLastTwoInserts | code.cpp:61-107 | inserting keys 5 and 6 next gives root 5 over subtrees of true heights 3 and 1: the as-written tree is not balanced |
| Graph.WithinMonotone | frontend.py:174-181 | more hops never reach fewer users |
| Graph.WithinHasPath | frontend.py:174-181 | a user within `n` hops is the end of a friendship path of at most `n + 1` users |
| Graph.PathInWithin | frontend.py:174-181 | the end of a friendship path of `m` users is within `m - 1` hops |
| Graph.DistanceIsShortestPath | frontend.py:160-182 | a hop distance `d` means a path of `d + 1` users exists and none is shorter |
| Graph.UnreachableHasNoPath | frontend.py:182 | an unreachable user is the end of no friendship path |
| Graph.DistanceUnique | frontend.py:160-182 | a hop distance between two users is unique |
| Graph.ReversedPath | code.cpp:170-171 | with symmetric friendship a path reversed is a path |
| Graph.WithinSymmetric | code.cpp:170-171 | with symmetric friendship, `b` within `n` hops of `a` puts `a` within `n` hops of `b` |
| Graph.DistanceSymmetric | code.cpp:210-229 | with symmetric friendship the distance from `a` to `b` is the distance from `b` to `a` |
| Graph.Bfs | frontend.py:169-182 | for distinct users the result is -1 exactly when `b` is unreachable from `a`, and otherwise it is the exact hop distance; the log of queued users has no repeats |
| Graph.BfsRound | frontend.py:175-181 | one dequeue-and-scan either finds `b` at its exact distance, or keeps the BFS invariant and makes progress; the log grows by exactly the names newly queued, in queue order, and stays free of repeats |
| Graph.ScanFriends | code.cpp:219-225 | the scan of a user's friends stops only at a friend `b`; every entry it queues is a friend of the user not visited before, at hop count + 1, and when `b` is not found the queued names are exactly the unvisited friends; the visited set and the log grow by exactly those names |
| Graph.BfsStep | frontend.py:175-181 | a round that finds nothing keeps the BFS invariant |
| Graph.BfsFrontier | frontend.py:174-181 | once a user's friends are scanned, everything within one more hop has been visited |
| Graph.BfsQueueDistances | frontend.py:181 | each queued user carries its exact hop distance |
| Graph.BfsQueueSorted | frontend.py:181 | hop counts along the queue rise by at most one from the head |
| Graph.MutualCounts | frontend.py:193-201 | the count map holds exactly the friends of friends that are not the user or a friend, each with its number of mutual friends, at least 1 |
| Graph.CountFriendsOf | code.cpp:238-242 | one friend's pass adds 1 to every friend of that friend who is not the user and not already a friend |
| Graph.MutualsAddOne | frontend.py:201 | counting one more friend adds one mutual exactly when that friend knows the candidate |
| Graph.CandidatesViaAddOne | frontend.py:196-201 | one more friend adds its eligible friends to the candidates |
| Network.Link | frontend.py:133-134 | both users gain the other as a friend, and nothing else changes |
| Network.LinkIdempotent | code.cpp:170-171 | adding the same friendship twice is adding it once |
| Network.LinkKeepsStore | code.cpp:168-172 | adding a friendship keeps friendship symmetric and the trees sound, and the two users are friends afterwards |
| Network.AddUserKeepsStore | code.cpp:165 | a new user with no friends and no posts keeps the store invariant |
| Network.WithPost | frontend.py:150 | a post changes only the poster's tree |
| Network.PostKeepsStore | frontend.py:143-151 | a post under the counter keeps the store invariant for counter + 1, changes no friendship, goes first in newest-first order, and merges and ignores alike |
| Network.PostKeepsPosts | frontend.py:148-150 | a post under the counter keeps every tree AVL, with keys below counter + 1 (for C++, with the corrected `leftRotate`) |
| Network.PyAddUserNames | frontend.py:115-120 | adding a stripped, non-empty name keeps all names stripped and no user its own friend |
| Network.PyLinkNames | frontend.py:131-134 | linking two different users keeps no user its own friend |
| Network.StoreGraphClosed | code.cpp:219-222 | in a sound store every friend name is itself a user |
| Network.SuggestionsExclude | frontend.py:197-200 | no suggestion is the user or already a friend, and each has at least one mutual friend |
| Network.CountItems | frontend.py:203 | the items of the count map are exactly the (candidate, mutual count) pairs |
| Network.CppCountItems | code.cpp:274-276 | the pairs pushed into `res` are exactly the (negated mutual count, candidate) pairs |
| Network.CppTopNames | code.cpp:273-282 | the printed names are candidates, in `compare` order of (-mutuals, name), and outrank every candidate not printed |
| Network.SuggestionCount | frontend.py:203-204 | there is one item per candidate in both versions |
| Network.InjectiveImage | code.cpp:274-276 | mapping a set one-to-one keeps its size |
| Network.PyNetwork.constructor | frontend.py:104-107 | a fresh store is empty with counter 0 and satisfies the invariant |
| Network.PyNetwork.Reset | frontend.py:274-275 | reset empties the users and zeroes the counter |
| Network.PyNetwork.AddUser | frontend.py:113-121 | strips the name; an empty name is refused, an existing name is refused, otherwise a user with no friends and posts is added |
| Network.PyNetwork.AddFriends | frontend.py:123-135 | strips both names; an unknown name or the same name twice is refused, otherwise each gains the other as a friend |
| Network.PyNetwork.ListFriends | frontend.py:137-141 | the name (not stripped) of an unknown user gives []; otherwise the friends, strictly sorted, each once |
| Network.PyNetwork.AddPost | frontend.py:143-151 | strips the name; an unknown user changes nothing; otherwise the post goes in under the old counter, the counter grows by one, and the post is newest |
| Network.PyNetwork.OutputPosts | frontend.py:153-158 | an unknown user gives []; otherwise the texts of the latest `n` posts, newest first |
| Network.PyNetwork.DegreesOfSeparation | frontend.py:160-182 | -1 for an unknown user, 0 for the same user; otherwise -1 exactly when unreachable, else the exact hop distance |
| Network.PyNetwork.SuggestFriends | frontend.py:184-204 | an unknown user gives []; otherwise the best-ranked (candidate, mutuals) pairs by (-mutuals, name), with as many as `[:k]` keeps |
| Network.CppNetwork.constructor | code.cpp:157-158 | a fresh store is empty with counter 0 and satisfies the invariant |
| Network.CppNetwork.AddUser | code.cpp:160-167 | an existing name is refused; otherwise it is added with no friends and posts |
| Network.CppNetwork.AddFriends | code.cpp:168-178 | if both users exist each gains the other as a friend (a user may friend itself); otherwise nothing changes |
| Network.CppNetwork.ListFriends | code.cpp:179-193 | an unknown user is reported; otherwise the friends in sorted order, each once |
| Network.CppNetwork.AddPost | code.cpp:194-202 | an unknown user changes nothing; otherwise the post goes in under the old counter, the counter grows by one, and the post is newest |
| Network.CppNetwork.OutputPosts | code.cpp:203-209 | an unknown user is reported; otherwise the texts of the latest `n` posts, newest first |
| Network.CppNetwork.DegreesOfSeparation | code.cpp:210-229 | -1 for an unknown user, 0 for the same user; otherwise -1 exactly when unreachable, else the exact hop distance |
| Network.CppNetwork.SuggestFriends | code.cpp:235-283 | the printed names are candidates in `compare` order that outrank every candidate left out; `k` of them for `1 <= k <= n`, all `n` otherwise |
| Command.FieldEnd | code.cpp:289-292 | a scan stops at the first space at or after its start, or at the end |
| Command.FieldsRebuild | code.cpp:285-312 | the first two fields hold no space, and the line is its fields joined by single spaces |
| Command.Split | code.cpp:285-312 | the three loops return the non-empty fields, in order |
| Command.SplitShape | code.cpp:285-312 | `split` returns at most three parts, none of them empty |
| Command.SplitJoin | code.cpp:285-312 | with three parts, the first two hold no space and joining the parts with single spaces gives back the line |
| Command.FieldEndAt | code.cpp:289-292 | a scan stops at the first space it meets |
| Command.SplitOfJoin | code.cpp:285-312 | two space-free words and a non-empty rest, joined by single spaces, split back into those three parts |
| Command.LowerChar | code.cpp:315 | `A` to `Z` move to `a` to `z`; every other character is kept; no capital is left |
| Command.Lower | code.cpp:313-318 | lowercasing keeps the length |
| Command.LowerEach | code.cpp:313-318 | each character is lowercased on its own, and no capital is left |
| Command.LowerIdempotent | code.cpp:313-318 | lowercasing twice is lowercasing once |
| Command.ToLowercase | code.cpp:313-318 | the loop replaces the buffer by its lowercase form, in place |

Definitions without a contract of their own, such as `Avl.Height`,
`Avl.Balance`, `Avl.CppInsertAsWritten` and `Ranking.Compare`, have no row;
the lemmas about them do.

## Left out

- The Streamlit page and its session plumbing, including `get_state`. The
  store is an explicit object and `Reset` clears it. The page's own checks,
  such as refusing an empty post, are left out too.
- The C++ `main` loop: reading lines, lowercasing tokens, `stoi`, the exit
  command, and the unused local `users` map in `main`.
- All printed and returned message texts. Outcomes are a `Status` value,
  and printed names or posts are returned sequences.
- Pointers, node allocation and leaks. The tree is a value, and an insert
  builds the new tree instead of relinking nodes. Sharing between nodes is
  not modelled.
- A rotation whose pivot child is missing returns its input; the source
  would dereference a null pointer there. Insert never makes that call.
- `minValueNode` and `getRootKey` (code.cpp:109-114, 138-141): neither is
  called by the store.
- Integer width. `addtime`, post keys and `k` are unbounded integers, so
  the C++ `int` overflow of the counter is not modelled.
- `tolower` in locales other than "C". `Command.LowerChar` changes only
  `A` to `Z`.
- Hash-table iteration order. Only the sorted outputs depend on an order,
  and the model returns those deterministically.
- `done_nodes` in code.cpp is keyed by node pointer. The model keys
  the visited set by user name, which is one-to-one with nodes. Both BFS
  versions are one method, `Graph.Bfs`. The C++ version checks "visited"
  before "is the target", but the target is never visited before it is
  found, so the order of these checks does not matter.
- `Sorting.SortSet` is an insertion sort that stands for Python's `sorted`
  and C++ `std::sort`. Only its result is claimed to agree: the unique
  strictly sorted permutation (`Sorting.SortedUnique`).
- Network.CppNetwork.SuggestFriends: requires the user to exist. For an
  unknown name, code.cpp:237 reads through the null pointer that
  `users[username]` inserts, which is undefined behaviour.
- Avl.Insert: with policy Ignore, this is `insertHelper` with the corrected
  left rotation, not the stale-height `leftRotate` of code.cpp:50-51.
  Therefore Avl.InsertKeepsAvl, Avl.InsertFreshAgrees and
  Network.PostKeepsPosts hold for the C++ tree only with that correction.
  As written, the cached heights are wrong, the rebalancing acts on them,
  and the tree can become unbalanced (keys 0 to 6); only its in-order
  sequence is proved to agree. See Findings.
- Network.CppNetwork.AddPost: uses the corrected left rotation. The stale
  height of code.cpp:50-51 is modelled separately; see Findings.

## Findings

| source | as written | input that shows it | evidently intended | confidence | as-written member | corrected member |
|---|---|---|---|---|---|---|
| code.cpp:50-51 | `leftRotate` recomputes the new root `r`'s height before the height of its new left child `x`, so `r` caches a value built from `x`'s old height | insert keys 0, 1, 2 (any texts) into an empty tree: the rotation at the root yields a root of cached height 4 over a true height of 2; go on with keys 3 to 6 and the stale heights make `insertHelper` rotate the root, balanced in truth, when key 4 goes in, and end with root 5 over subtrees of true heights 3 and 1, not balanced; the in-order sequence stays right | update `x` first and then `r`, as `right_rotate` and frontend.py:38-39 do, so the heights stay correct and the tree stays AVL | not executed | Avl.CppLeftRotateStaleHeight, Avl.CppFifthInsert, Avl.CppLastTwoInserts | Avl.RotateLeft, Avl.FifthInsertCorrected, Avl.InsertKeepsAvl |

/** The node arena behind the compressed trie of `gitlab.renue.logic.CompressedTrie`, as
    values: nodes are records in a sequence and refer to their children by index. Beside
    the nodes, two ghost values give the meaning of the arena:

    - `paths[k]` is the whole string spelled from the root down to node `k` (the
      concatenation of the edge labels on the way);
    - `content` is the set of (key, id) pairs the trie answers for: a prefix query `p` must
      return exactly the ids of the pairs whose key extends `p` (`Matches`).

    `Wf` is the arena invariant; the lemmas below are what `Insert` and `Search` need.
    Each part of the invariant quantifies over a named per-node predicate, so that the
    solver only looks at the nodes a proof mentions. */
module RadixArena {
  import opened Choice

  /** One trie node: the label of the edge leading into it, its children keyed by the
      first character of their labels, and the ids stored at it. */
  datatype Node = Node(edge: string, children: map<char, nat>, ids: set<int>)

  /** The ids of all stored pairs whose key extends `p`. */
  function Matches(content: set<(string, int)>, p: string): set<int> {
    set e | e in content && p <= e.0 :: e.1
  }

  /** The set of strings at which the arena has a node. */
  function PathSet(paths: seq<string>): set<string> {
    set k | 0 <= k < |paths| :: paths[k]
  }

  /** From node `k`, the string `s` goes on below `k` through the child chosen by its next
      character, and that child's path is still a prefix of `s`. */
  ghost predicate StepsInto(nodes: seq<Node>, paths: seq<string>, k: nat, s: string)
    requires k < |nodes| == |paths|
  {
    && |paths[k]| < |s|
    && s[|paths[k]|] in nodes[k].children
    && nodes[k].children[s[|paths[k]|]] < |paths|
    && paths[nodes[k].children[s[|paths[k]|]]] <= s
  }

  /** The child of `k` under `c`, if any, exists, has a non-empty label that starts with
      `c`, and its path is `k`'s path followed by that label. */
  ghost predicate ChildOk(nodes: seq<Node>, paths: seq<string>, k: nat, c: char)
    requires k < |nodes| == |paths|
  {
    c in nodes[k].children ==>
      && nodes[k].children[c] < |nodes|
      && nodes[nodes[k].children[c]].edge != []
      && nodes[nodes[k].children[c]].edge[0] == c
      && paths[nodes[k].children[c]] == paths[k] + nodes[nodes[k].children[c]].edge
  }

  ghost predicate Edges(nodes: seq<Node>, paths: seq<string>)
    requires |nodes| == |paths|
  {
    forall k: nat, c: char | k < |nodes| :: ChildOk(nodes, paths, k, c)
  }

  /** If the path of `k` is a prefix of the path of another node `x`, then `x` lies below
      `k` through the child chosen by the next character. */
  ghost predicate Below(nodes: seq<Node>, paths: seq<string>, k: nat, x: nat)
    requires |nodes| == |paths|
  {
    k < |nodes| && x < |nodes| && k != x && paths[k] <= paths[x] ==> StepsInto(nodes, paths, k, paths[x])
  }

  /** The arena is a tree whose paths are ordered by the prefix relation. In particular no
      two nodes have the same path. */
  ghost predicate IsTree(nodes: seq<Node>, paths: seq<string>)
    requires |nodes| == |paths|
  {
    forall k: nat, x: nat :: Below(nodes, paths, k, x)
  }

  /** The pair `e` is stored at the node whose path is its key. */
  ghost predicate StoredAt(nodes: seq<Node>, paths: seq<string>, e: (string, int))
    requires |nodes| == |paths|
  {
    exists k: nat | k < |nodes| :: paths[k] == e.0 && e.1 in nodes[k].ids
  }

  ghost predicate Stored(nodes: seq<Node>, paths: seq<string>, content: set<(string, int)>)
    requires |nodes| == |paths|
  {
    forall e | e in content :: StoredAt(nodes, paths, e)
  }

  /** The ids of node `k` (stale ones included) belong to pairs whose key extends its path. */
  ghost predicate SoundAt(nodes: seq<Node>, paths: seq<string>, content: set<(string, int)>, k: nat)
    requires |nodes| == |paths|
  {
    k < |nodes| ==> nodes[k].ids <= Matches(content, paths[k])
  }

  ghost predicate Sound(nodes: seq<Node>, paths: seq<string>, content: set<(string, int)>)
    requires |nodes| == |paths|
  {
    forall k: nat :: SoundAt(nodes, paths, content, k)
  }

  ghost predicate Wf(nodes: seq<Node>, paths: seq<string>, content: set<(string, int)>) {
    && |nodes| >= 1
    && |paths| == |nodes|
    && nodes[0].edge == []
    && paths[0] == []
    && Edges(nodes, paths)
    && IsTree(nodes, paths)
    && Stored(nodes, paths, content)
    && Sound(nodes, paths, content)
  }

  /** An inserted key is lost when it ends strictly inside an edge: no node has it as its
      path, yet some node's path extends it. */
  ghost predicate Lost(branches: set<string>, key: string) {
    key !in branches && exists b | b in branches :: key < b
  }

  /** The longest prefix of `key` that some branch extends ("" when there is none). */
  ghost function Reach(branches: set<string>, key: string): string
    decreases |key|
  {
    if key == [] || exists b | b in branches :: key <= b then key
    else Reach(branches, key[..|key| - 1])
  }

  // ---------------------------------------------------------------------------------
  // Access to the parts of the invariant

  lemma Child(nodes: seq<Node>, paths: seq<string>, content: set<(string, int)>, k: nat, c: char)
    requires Wf(nodes, paths, content) && k < |nodes| && c in nodes[k].children
    ensures nodes[k].children[c] < |nodes|
    ensures nodes[nodes[k].children[c]].edge != [] && nodes[nodes[k].children[c]].edge[0] == c
    ensures paths[nodes[k].children[c]] == paths[k] + nodes[nodes[k].children[c]].edge
  {
    assert ChildOk(nodes, paths, k, c);
  }

  lemma Step(nodes: seq<Node>, paths: seq<string>, content: set<(string, int)>, k: nat, x: nat)
    requires Wf(nodes, paths, content) && k < |nodes| && x < |nodes| && k != x && paths[k] <= paths[x]
    ensures StepsInto(nodes, paths, k, paths[x])
  {
    assert Below(nodes, paths, k, x);
  }

  lemma Find(nodes: seq<Node>, paths: seq<string>, content: set<(string, int)>, e: (string, int)) returns (k: nat)
    requires Wf(nodes, paths, content) && e in content
    ensures k < |nodes| && paths[k] == e.0 && e.1 in nodes[k].ids
  {
    assert StoredAt(nodes, paths, e);
    k :| k < |nodes| && paths[k] == e.0 && e.1 in nodes[k].ids;
  }

  lemma Holds(nodes: seq<Node>, paths: seq<string>, content: set<(string, int)>, k: nat)
    requires Wf(nodes, paths, content) && k < |nodes|
    ensures nodes[k].ids <= Matches(content, paths[k])
  {
    assert SoundAt(nodes, paths, content, k);
  }

  // ---------------------------------------------------------------------------------
  // Small facts about prefixes and about Matches

  /** Two prefixes of one string are comparable. */
  lemma PrefixesComparable(a: string, b: string, s: string)
    requires a <= s && b <= s
    ensures a <= b || b <= a
  {
    if |a| <= |b| {
      assert a == s[..|a|] == b[..|a|];
    } else {
      assert b == s[..|b|] == a[..|b|];
    }
  }

  /** A longer query matches fewer pairs. */
  lemma MatchesAntitone(content: set<(string, int)>, p: string, q: string)
    requires p <= q
    ensures Matches(content, q) <= Matches(content, p)
  {
  }

  /** Adding a pair adds its id to exactly the queries that its key extends. */
  lemma MatchesAdd(content: set<(string, int)>, key: string, id: int, p: string)
    ensures Matches(content + {(key, id)}, p) == Matches(content, p) + (if p <= key then {id} else {})
  {
  }

  // ---------------------------------------------------------------------------------
  // Consequences of the invariant

  /** Two nodes with the same path are the same node. */
  lemma PathInjective(nodes: seq<Node>, paths: seq<string>, content: set<(string, int)>, a: nat, b: nat)
    requires Wf(nodes, paths, content) && a < |nodes| && b < |nodes| && paths[a] == paths[b]
    ensures a == b
  {
    if a != b {
      Step(nodes, paths, content, a, b);
      assert false;
    }
  }

  /** A stored pair is found walking down from any node whose path its key extends: it
      sits at that node, or its key goes on through the child chosen by its next character. */
  lemma Walk(nodes: seq<Node>, paths: seq<string>, content: set<(string, int)>, e: (string, int), k: nat)
    requires Wf(nodes, paths, content) && e in content && k < |nodes| && paths[k] <= e.0
    ensures paths[k] == e.0 ==> e.1 in nodes[k].ids
    ensures paths[k] != e.0 ==> StepsInto(nodes, paths, k, e.0)
  {
    var m := Find(nodes, paths, content, e);
    if m != k {
      Step(nodes, paths, content, k, m);
    }
  }

  /** The ids stored anywhere in the arena are exactly what the empty query matches. */
  lemma AllIdsStored(nodes: seq<Node>, paths: seq<string>, content: set<(string, int)>)
    requires Wf(nodes, paths, content)
    ensures (set k, x | 0 <= k < |nodes| && x in nodes[k].ids :: x) == Matches(content, [])
  {
    var all := set k, x | 0 <= k < |nodes| && x in nodes[k].ids :: x;
    forall x | x in all ensures x in Matches(content, []) {
      var k :| 0 <= k < |nodes| && x in nodes[k].ids;
      Holds(nodes, paths, content, k);
      MatchesAntitone(content, [], paths[k]);
    }
    forall x | x in Matches(content, []) ensures x in all {
      var e :| e in content && e.1 == x;
      var k := Find(nodes, paths, content, e);
    }
  }

  /** A query that leaves node `k` by a character with no child matches nothing. */
  lemma NoChildNoMatch(nodes: seq<Node>, paths: seq<string>, content: set<(string, int)>, k: nat, p: string)
    requires Wf(nodes, paths, content) && k < |nodes| && paths[k] < p
    requires p[|paths[k]|] !in nodes[k].children
    ensures Matches(content, p) == {}
  {
    forall e | e in content ensures !(p <= e.0) {
      if p <= e.0 {
        Walk(nodes, paths, content, e, k);
        assert false;
      }
    }
  }

  /** A query that leaves node `k` into child `j`: if it ends within `j`'s label it matches
      what `j`'s path matches; if it parts from that label before either ends it matches
      nothing. */
  lemma ThroughChild(nodes: seq<Node>, paths: seq<string>, content: set<(string, int)>, k: nat, p: string)
    requires Wf(nodes, paths, content) && k < |nodes| && paths[k] < p
    requires p[|paths[k]|] in nodes[k].children
    ensures nodes[k].children[p[|paths[k]|]] < |nodes|
    ensures var j := nodes[k].children[p[|paths[k]|]];
      p <= paths[j] ==> Matches(content, p) == Matches(content, paths[j])
    ensures var j := nodes[k].children[p[|paths[k]|]];
      !(p <= paths[j]) && !(paths[j] <= p) ==> Matches(content, p) == {}
  {
    var c := p[|paths[k]|];
    Child(nodes, paths, content, k, c);
    var j := nodes[k].children[c];
    forall x | x in Matches(content, p)
      ensures x in Matches(content, paths[j]) && (p <= paths[j] || paths[j] <= p)
    {
      var e :| e in content && p <= e.0 && e.1 == x;
      Walk(nodes, paths, content, e, k);
      PrefixesComparable(p, paths[j], e.0);
    }
    if p <= paths[j] {
      MatchesAntitone(content, p, paths[j]);
    }
  }

  /** A query `q` that goes on below path `pk` into an edge labelled `edge` and shares
      `m < |edge|` characters with it ends inside the label if it is a prefix of it, and
      otherwise parts from the label, so that neither string extends the other. */
  lemma InsideEdge(pk: string, q: string, edge: string, m: nat)
    requires pk <= q && |pk| < |q|
    requires m < |edge| && m <= |q| - |pk| && q[|pk|..][..m] == edge[..m]
    requires m < |q| - |pk| ==> q[|pk| + m] != edge[m]
    ensures q[|pk|..] <= edge <==> q <= pk + edge
    ensures !(q <= pk + edge) ==> !(pk + edge <= q)
  {
    assert q == pk + q[|pk|..];
    if pk + edge <= q {
      assert false;
    }
  }

  /** Characterisation of `Reach`: `key[..l]` is extended by a branch and, unless it is
      the whole key, one more character of `key` is not. */
  lemma {:induction false} ReachAt(branches: set<string>, key: string, l: nat)
    requires l <= |key| && exists b | b in branches :: key[..l] <= b
    requires l < |key| ==> forall b | b in branches :: !(key[..l + 1] <= b)
    ensures Reach(branches, key) == key[..l]
    decreases |key|
  {
    if l == |key| {
      assert key[..l] == key;
    } else {
      if b :| b in branches && key <= b {
        assert false;
      }
      var shorter := key[..|key| - 1];
      assert shorter[..l] == key[..l];
      if l < |shorter| {
        assert shorter[..l + 1] == key[..l + 1];
      }
      ReachAt(branches, shorter, l);
    }
  }

  // ---------------------------------------------------------------------------------
  // The three ways Insert changes the arena

  /** Insert ends at an existing node whose path is the key: the id is added there. */
  lemma IdAdded(nodes: seq<Node>, paths: seq<string>, content: set<(string, int)>,
                k: nat, key: string, id: int, nodes': seq<Node>)
    requires Wf(nodes, paths, content) && k < |nodes| && paths[k] == key
    requires nodes' == nodes[k := nodes[k].(ids := nodes[k].ids + {id})]
    ensures Wf(nodes', paths, content + {(key, id)})
  {
    var content' := content + {(key, id)};
    forall q: nat, d: char | q < |nodes'| ensures ChildOk(nodes', paths, q, d) {
      assert ChildOk(nodes, paths, q, d);
    }
    forall a: nat, b: nat ensures Below(nodes', paths, a, b) {
      assert Below(nodes, paths, a, b);
    }
    forall e | e in content' ensures StoredAt(nodes', paths, e) {
      if e == (key, id) {
        assert paths[k] == e.0 && e.1 in nodes'[k].ids;
      } else {
        var q := Find(nodes, paths, content, e);
        assert paths[q] == e.0 && e.1 in nodes'[q].ids;
      }
    }
    forall q: nat ensures SoundAt(nodes', paths, content', q) {
      if q < |nodes| {
        Holds(nodes, paths, content, q);
        MatchesAdd(content, key, id, paths[q]);
      }
    }
  }

  /** What Insert learns when its key ends at an existing node. */
  lemma AtNodeFacts(paths: seq<string>, k: nat, key: string)
    requires k < |paths| && paths[k] == key
    ensures Reach(PathSet(paths), key) == key && !Lost(PathSet(paths), key)
  {
    assert key in PathSet(paths);
    assert key[..|key|] == key;
    ReachAt(PathSet(paths), key, |key|);
  }

  /** Insert leaves node `k` by a character with no child: a new leaf labelled with the
      rest of the key, holding the id, becomes that child. */
  lemma LeafAdded(nodes: seq<Node>, paths: seq<string>, content: set<(string, int)>,
                  k: nat, key: string, id: int, nodes': seq<Node>)
    requires Wf(nodes, paths, content) && k < |nodes| && paths[k] < key
    requires key[|paths[k]|] !in nodes[k].children
    requires nodes' == nodes[k := nodes[k].(children := nodes[k].children[key[|paths[k]|] := |nodes|])]
                       + [Node(key[|paths[k]|..], map[], {id})]
    ensures Wf(nodes', paths + [key], content + {(key, id)})
    ensures PathSet(paths + [key]) == PathSet(paths) + {key}
  {
    var i := |paths[k]|;
    var c := key[i];
    var n := |nodes|;
    var paths' := paths + [key];
    var content' := content + {(key, id)};
    assert key == paths[k] + key[i..];
    forall q: nat, d: char | q < |nodes'| ensures ChildOk(nodes', paths', q, d) {
      if q < n && !(q == k && d == c) {
        assert ChildOk(nodes, paths, q, d);
      }
    }
    forall a: nat, b: nat ensures Below(nodes', paths', a, b) {
      if a < n && b < n {
        assert Below(nodes, paths, a, b);
      } else if a < n && b == n && paths[a] <= key {
        PrefixesComparable(paths[a], paths[k], key);
        if paths[a] <= paths[k] {
          if a != k {
            Step(nodes, paths, content, a, k);
          }
        } else {
          Step(nodes, paths, content, k, a);
          assert false;
        }
      } else if a == n && b < n && key <= paths[b] {
        Step(nodes, paths, content, k, b);
        assert false;
      }
    }
    forall e | e in content' ensures StoredAt(nodes', paths', e) {
      if e == (key, id) {
        assert paths'[n] == e.0 && e.1 in nodes'[n].ids;
      } else {
        var q := Find(nodes, paths, content, e);
        assert paths'[q] == e.0 && e.1 in nodes'[q].ids;
      }
    }
    forall q: nat ensures SoundAt(nodes', paths', content', q) {
      if q < n {
        Holds(nodes, paths, content, q);
      }
      if q < |nodes'| {
        MatchesAdd(content, key, id, paths'[q]);
      }
    }
    PathSetAppend(paths, key);
  }

  lemma PathSetAppend(paths: seq<string>, s: string)
    ensures PathSet(paths + [s]) == PathSet(paths) + {s}
  {
    var paths' := paths + [s];
    forall t | t in PathSet(paths) ensures t in PathSet(paths') {
      var x :| 0 <= x < |paths| && paths[x] == t;
      assert paths'[x] == t;
    }
    assert paths'[|paths|] == s;
  }

  /** What Insert learns when it leaves node `k` by a character with no child. */
  lemma LeafFacts(nodes: seq<Node>, paths: seq<string>, content: set<(string, int)>, k: nat, key: string)
    requires Wf(nodes, paths, content) && k < |nodes| && paths[k] < key
    requires key[|paths[k]|] !in nodes[k].children
    ensures Reach(PathSet(paths), key) == paths[k] && !Lost(PathSet(paths), key)
  {
    var i := |paths[k]|;
    assert key[..i] == paths[k];
    forall b | b in PathSet(paths) ensures !(key[..i + 1] <= b) {
      var x :| 0 <= x < |paths| && paths[x] == b;
      if key[..i + 1] <= b {
        assert paths[k] <= paths[x];
        Step(nodes, paths, content, k, x);
        assert false;
      }
    }
    assert paths[k] in PathSet(paths);
    ReachAt(PathSet(paths), key, i);
    if b :| b in PathSet(paths) && key < b {
      assert false;
    }
  }

  /** The state after the edge into `j` (the child of `k` under `c`) is split `m`
      characters in: `j` keeps the first `m` characters and its ids, and gains one child,
      a new node `|nodes|` that takes the rest of the label, `j`'s old children and a copy
      of its ids. */
  ghost predicate IsSplit(nodes: seq<Node>, paths: seq<string>, k: nat, c: char, m: nat,
                          nodes': seq<Node>, paths': seq<string>)
    requires |nodes| == |paths| && k < |nodes|
  {
    && c in nodes[k].children
    && nodes[k].children[c] < |nodes|
    && 0 < m < |nodes[nodes[k].children[c]].edge|
    && var j := nodes[k].children[c];
       var edge := nodes[j].edge;
       && nodes' == nodes[j := Node(edge[..m], map[edge[m] := |nodes|], nodes[j].ids)]
                    + [Node(edge[m..], nodes[j].children, nodes[j].ids)]
       && paths' == paths[j := paths[k] + edge[..m]] + [paths[j]]
  }

  /** A node whose path lies strictly after `k`'s along the path of `k`'s child `j` is `j`. */
  lemma Gap(nodes: seq<Node>, paths: seq<string>, content: set<(string, int)>, k: nat, c: char, x: nat)
    requires Wf(nodes, paths, content) && k < |nodes| && c in nodes[k].children && x < |nodes|
    requires nodes[k].children[c] < |nodes|
    requires paths[x] <= paths[nodes[k].children[c]] && |paths[k]| < |paths[x]|
    ensures x == nodes[k].children[c]
  {
    Child(nodes, paths, content, k, c);
    var j := nodes[k].children[c];
    PrefixesComparable(paths[k], paths[x], paths[j]);
    Step(nodes, paths, content, k, x);
    PathInjective(nodes, paths, content, x, j);
  }

  /** The only parent of `k`'s child under `c` is `k`, and it is stored under `c` only. */
  lemma UniqueParent(nodes: seq<Node>, paths: seq<string>, content: set<(string, int)>, k: nat, c: char, x: nat, d: char)
    requires Wf(nodes, paths, content) && k < |nodes| && c in nodes[k].children && x < |nodes|
    requires d in nodes[x].children && nodes[x].children[d] == nodes[k].children[c]
    ensures x == k && d == c
  {
    Child(nodes, paths, content, k, c);
    Child(nodes, paths, content, x, d);
    var j := nodes[k].children[c];
    assert paths[x] == paths[j][..|paths[j]| - |nodes[j].edge|] == paths[k];
    PathInjective(nodes, paths, content, x, k);
  }

  lemma SplitEdges(nodes: seq<Node>, paths: seq<string>, content: set<(string, int)>, k: nat, c: char, m: nat,
                   nodes': seq<Node>, paths': seq<string>)
    requires Wf(nodes, paths, content) && k < |nodes| && IsSplit(nodes, paths, k, c, m, nodes', paths')
    ensures |nodes'| == |paths'| && Edges(nodes', paths')
  {
    Child(nodes, paths, content, k, c);
    var j := nodes[k].children[c];
    var edge := nodes[j].edge;
    var n := |nodes|;
    assert paths'[j] + edge[m..] == paths[j] by {
      assert edge[..m] + edge[m..] == edge;
    }
    forall q: nat, d: char | q < |nodes'| ensures ChildOk(nodes', paths', q, d) {
      if d in nodes'[q].children {
        if q == n {
          Child(nodes, paths, content, j, d);
        } else if q != j {
          Child(nodes, paths, content, q, d);
          if nodes[q].children[d] == j {
            UniqueParent(nodes, paths, content, k, c, q, d);
          }
        }
      }
    }
  }

  lemma SplitTree(nodes: seq<Node>, paths: seq<string>, content: set<(string, int)>, k: nat, c: char, m: nat,
                  nodes': seq<Node>, paths': seq<string>)
    requires Wf(nodes, paths, content) && k < |nodes| && IsSplit(nodes, paths, k, c, m, nodes', paths')
    ensures |nodes'| == |paths'| && IsTree(nodes', paths')
  {
    forall a: nat, b: nat ensures Below(nodes', paths', a, b) {
      if a < |nodes'| && b < |nodes'| && a != b && paths'[a] <= paths'[b] {
        SplitBelow(nodes, paths, content, k, c, m, nodes', paths', a, b);
      }
    }
  }

  lemma SplitBelow(nodes: seq<Node>, paths: seq<string>, content: set<(string, int)>, k: nat, c: char, m: nat,
                   nodes': seq<Node>, paths': seq<string>, a: nat, b: nat)
    requires Wf(nodes, paths, content) && k < |nodes| && IsSplit(nodes, paths, k, c, m, nodes', paths')
    requires a < |nodes'| && b < |nodes'| && a != b && paths'[a] <= paths'[b]
    ensures StepsInto(nodes', paths', a, paths'[b])
  {
    Child(nodes, paths, content, k, c);
    var j := nodes[k].children[c];
    var edge := nodes[j].edge;
    var n := |nodes|;
    var P := paths'[j];
    assert paths[j][|P|] == edge[m];
    assert P <= paths[j] && |paths[k]| < |P| < |paths[j]|;
    if a == n {
      Step(nodes, paths, content, j, b);
      Child(nodes, paths, content, j, paths[b][|paths[j]|]);
    } else if a == j {
      if b != n {
        assert paths[b][|paths[k]|] == c;
        Step(nodes, paths, content, k, b);
      }
    } else if b == n {
      Step(nodes, paths, content, a, j);
    } else if b == j {
      if |paths[a]| >= |P| {
        Gap(nodes, paths, content, k, c, a);
      }
      Step(nodes, paths, content, a, j);
      var y := nodes[a].children[paths[j][|paths[a]|]];
      if y != j && |paths[y]| > |P| {
        Gap(nodes, paths, content, k, c, y);
      }
    } else {
      Step(nodes, paths, content, a, b);
    }
  }

  lemma SplitPreserves(nodes: seq<Node>, paths: seq<string>, content: set<(string, int)>, k: nat, c: char, m: nat,
                       nodes': seq<Node>, paths': seq<string>)
    requires Wf(nodes, paths, content) && k < |nodes| && IsSplit(nodes, paths, k, c, m, nodes', paths')
    ensures Wf(nodes', paths', content)
    ensures PathSet(paths') == PathSet(paths) + {paths'[nodes[k].children[c]]}
  {
    Child(nodes, paths, content, k, c);
    var j := nodes[k].children[c];
    var n := |nodes|;
    assert paths'[j] <= paths[j];
    SplitEdges(nodes, paths, content, k, c, m, nodes', paths');
    SplitTree(nodes, paths, content, k, c, m, nodes', paths');
    assert j != 0;
    forall e | e in content ensures StoredAt(nodes', paths', e) {
      var q := Find(nodes, paths, content, e);
      if q == j {
        assert paths'[n] == e.0 && e.1 in nodes'[n].ids;
      } else {
        assert paths'[q] == e.0 && e.1 in nodes'[q].ids;
      }
    }
    forall q: nat ensures SoundAt(nodes', paths', content, q) {
      if q < n {
        Holds(nodes, paths, content, q);
      }
      if q == n {
        Holds(nodes, paths, content, j);
      }
      if q == j {
        MatchesAntitone(content, paths'[j], paths[j]);
      }
    }
    forall s | s in PathSet(paths') ensures s in PathSet(paths) + {paths'[j]} {
      var x :| 0 <= x < |paths'| && paths'[x] == s;
      if x == n {
        assert s == paths[j];
      } else if x != j {
        assert s == paths[x];
      }
    }
    forall s | s in PathSet(paths) + {paths'[j]} ensures s in PathSet(paths') {
      if s != paths'[j] {
        var x :| 0 <= x < |paths| && paths[x] == s;
        if x == j {
          assert paths'[n] == s;
        } else {
          assert paths'[x] == s;
        }
      }
    }
  }

  /** What Insert learns when the key leaves the edge into `j` after `m < |label|`
      characters: the split point is the key's reach, and the key is lost exactly when it
      ends there. */
  lemma SplitFacts(nodes: seq<Node>, paths: seq<string>, content: set<(string, int)>, k: nat, key: string, m: nat)
    requires Wf(nodes, paths, content) && k < |nodes| && paths[k] < key
    requires key[|paths[k]|] in nodes[k].children
    requires nodes[k].children[key[|paths[k]|]] < |nodes|
    requires 0 < m < |nodes[nodes[k].children[key[|paths[k]|]]].edge| && |paths[k]| + m <= |key|
    requires key[|paths[k]|..][..m] == nodes[nodes[k].children[key[|paths[k]|]]].edge[..m]
    requires |paths[k]| + m < |key| ==> key[|paths[k]| + m] != nodes[nodes[k].children[key[|paths[k]|]]].edge[m]
    ensures Reach(PathSet(paths), key) == key[..|paths[k]| + m]
    ensures Lost(PathSet(paths), key) <==> |paths[k]| + m == |key|
  {
    var i := |paths[k]|;
    var c := key[i];
    Child(nodes, paths, content, k, c);
    var j := nodes[k].children[c];
    var edge := nodes[j].edge;
    var l := i + m;
    assert key[..l] == paths[k] + edge[..m];
    assert key[..l] <= paths[j];
    assert paths[j] in PathSet(paths);
    if l < |key| {
      forall b | b in PathSet(paths) ensures !(key[..l + 1] <= b) {
        var x :| 0 <= x < |paths| && paths[x] == b;
        if key[..l + 1] <= b {
          assert paths[k] <= paths[x] && paths[x][i] == c;
          Step(nodes, paths, content, k, x);
          assert false;
        }
      }
      if b :| b in PathSet(paths) && key < b {
        assert false;
      }
    } else {
      assert key == key[..l] < paths[j];
      if key in PathSet(paths) {
        var x :| 0 <= x < |paths| && paths[x] == key;
        Gap(nodes, paths, content, k, c, x);
        assert false;
      }
    }
    ReachAt(PathSet(paths), key, l);
  }

  // ---------------------------------------------------------------------------------
  // Sorting the collected ids

  predicate Ascending(r: seq<int>) {
    forall a, b | 0 <= a < b < |r| :: r[a] < r[b]
  }

  function Elems(r: seq<int>): set<int> {
    set x | x in r
  }

  /** Only the empty list has no elements. */
  lemma ElemsEmpty(a: seq<int>)
    ensures Elems(a) == {} <==> a == []
  {
    if a != [] {
      assert a[0] in Elems(a);
    }
  }

  /** Dropping the head of a strictly ascending list drops exactly that element. */
  lemma ElemsTail(a: seq<int>)
    requires Ascending(a) && a != []
    ensures Elems(a[1..]) == Elems(a) - {a[0]}
  {
    forall x | x in a[1..] ensures x != a[0] {
      var t :| 0 <= t < |a[1..]| && a[1..][t] == x;
      assert a[t + 1] == x;
    }
  }

  /** A strictly ascending list is determined by its elements. */
  lemma {:induction false} AscendingUnique(a: seq<int>, b: seq<int>)
    requires Ascending(a) && Ascending(b) && Elems(a) == Elems(b)
    ensures a == b
  {
    ElemsEmpty(a);
    ElemsEmpty(b);
    if a != [] && b != [] {
      assert a[0] in Elems(b) && b[0] in Elems(a);
      var ta :| 0 <= ta < |a| && a[ta] == b[0];
      var tb :| 0 <= tb < |b| && b[tb] == a[0];
      assert a[0] == b[0];
      ElemsTail(a);
      ElemsTail(b);
      AscendingUnique(a[1..], b[1..]);
      assert a == [a[0]] + a[1..] && b == [b[0]] + b[1..];
    }
  }

  /** One step of selection: moving the least remaining element `m` to the end of the
      list keeps the list strictly ascending, below what remains, and the union unchanged. */
  lemma SelectStep(r: seq<int>, rest: set<int>, m: int)
    requires Ascending(r) && forall t, b | 0 <= t < |r| && b in rest :: r[t] < b
    requires m in rest && forall y | y in rest :: m <= y
    ensures Ascending(r + [m]) && Elems(r + [m]) + (rest - {m}) == Elems(r) + rest
    ensures forall t, b | 0 <= t < |r + [m]| && b in rest - {m} :: (r + [m])[t] < b
  {
    var r' := r + [m];
    forall x | x in Elems(r) ensures x in Elems(r') {
      var t :| 0 <= t < |r| && r[t] == x;
      assert r'[t] == x;
    }
    assert r'[|r|] == m;
    assert Elems(r') == Elems(r) + {m};
  }

  /** Every non-empty finite set of integers has a least element. */
  lemma {:induction false} MinOf(s: set<int>) returns (m: int)
    requires s != {}
    ensures m in s && forall y | y in s :: m <= y
    decreases |s|
  {
    Inhabited(s);
    var x :| x in s;
    assert forall y | y in s :: y == x || y in s - {x};
    if s - {x} == {} {
      m := x;
    } else {
      var m' := MinOf(s - {x});
      m := if x < m' then x else m';
    }
  }

  /** `new ArrayList<>(set)` followed by `Collections.sort`: the elements of `s` in
      strictly ascending order. */
  method SortedList(s: set<int>) returns (r: seq<int>)
    ensures Ascending(r) && Elems(r) == s
  {
    r := [];
    var rest := s;
    while rest != {}
      invariant Ascending(r)
      invariant Elems(r) + rest == s
      invariant forall t, b | 0 <= t < |r| && b in rest :: r[t] < b
      decreases |rest|
    {
      ghost var least := MinOf(rest);
      var m :| m in rest && forall y | y in rest :: m <= y;
      SelectStep(r, rest, m);
      r := r + [m];
      rest := rest - {m};
    }
  }
}

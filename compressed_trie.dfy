/** The case-insensitive compressed (radix) prefix tree `gitlab.renue.logic.CompressedTrie`,
    which stores airport ids under lower-cased keys and answers prefix queries.

    The object holds its nodes in an arena (`nodes`, node 0 is the root); a Java node
    reference is an index. Two ghost fields give the meaning of the state: the string
    spelled from the root to each node (`paths`) and the (key, id) pairs that queries
    answer for (`content`). A query `q` returns, in ascending order, exactly the ids of the
    pairs whose key extends the folded query (`Matches(content, Lower(q))`).

    `Insert` reproduces the source's loss of an id: when the key ends exactly where an
    edge is split, no node receives the id. `Lost` and `Reach`, computed from the set of
    node paths (`Branches`) before the call, say when that happens, so the whole effect of
    a call is determined by the abstract state. `InsertFixed` is the evidently intended
    version, which stores the id at the split point. */
module LogicCompressedTrie {
  import opened CaseFold
  import opened RadixArena
  import opened RadixCollect
  import opened Choice

  class CompressedTrie {
    /** The node arena; node 0 is the root, whose label is empty. */
    var nodes: seq<Node>
    /** The string spelled from the root down to each node. */
    ghost var paths: seq<string>
    /** The (key, id) pairs that prefix queries answer for. */
    ghost var content: set<(string, int)>

    ghost predicate Valid()
      reads this
    {
      Wf(nodes, paths, content)
    }

    /** The strings at which the trie has a node. */
    ghost function Branches(): set<string>
      reads this
    {
      PathSet(paths)
    }

    /** A trie with just the root. */
    constructor()
      ensures Valid() && content == {} && Branches() == {[]}
    {
      nodes := [Node([], map[], {})];
      paths := [[]];
      content := {};
      new;
      forall k: nat, x: nat ensures Below(nodes, paths, k, x) {
      }
      forall k: nat ensures SoundAt(nodes, paths, content, k) {
      }
      assert paths[0] == [];
    }

    /** The length of the longest common prefix of `a` and `b`. */
    static method CommonPrefixLength(a: string, b: string) returns (n: nat)
      ensures n <= |a| && n <= |b|
      ensures a[..n] == b[..n]
      ensures n < |a| && n < |b| ==> a[n] != b[n]
    {
      var len := if |a| < |b| then |a| else |b|;
      for i := 0 to len
        invariant a[..i] == b[..i]
      {
        if a[i] != b[i] {
          return i;
        }
        assert a[..i + 1] == a[..i] + [a[i]] && b[..i + 1] == b[..i] + [b[i]];
      }
      return len;
    }

    /** Node `k` has no child under the next character of `key`: a new leaf holding
        `airportId`, labelled with the rest of `key`, becomes that child. The key was not
        lost and left the existing branches at node `k`. */
    method AddLeaf(k: nat, key: string, i: nat, airportId: int)
      requires Valid() && k < |nodes| && paths[k] < key && i == |paths[k]| && key[i] !in nodes[k].children
      modifies this
      ensures Valid()
      ensures Reach(old(Branches()), key) == old(paths[k]) && !Lost(old(Branches()), key)
      ensures Branches() == old(Branches()) + {Reach(old(Branches()), key), key}
      ensures content == old(content) + {(key, airportId)}
      ensures |nodes| == old(|nodes|) + 1 && nodes[|nodes| - 1] == Node(key[i..], map[], {airportId})
      ensures nodes[k] == old(nodes[k].(children := nodes[k].children[key[i] := |nodes|]))
      ensures forall x | 0 <= x < old(|nodes|) && x != k :: nodes[x] == old(nodes[x])
      ensures paths == old(paths) + [key]
    {
      LeafFacts(nodes, paths, content, k, key);
      assert paths[k] in PathSet(paths);
      var nodes' := nodes[k := nodes[k].(children := nodes[k].children[key[i] := |nodes|])]
                    + [Node(key[i..], map[], {airportId})];
      LeafAdded(nodes, paths, content, k, key, airportId, nodes');
      nodes := nodes';
      paths := paths + [key];
      content := content + {(key, airportId)};
    }

    /** The edge into the child `j` of node `k` under `c` is split after `m` characters:
        `j` keeps the first `m` characters and its ids, and its only child is a new node
        with the rest of the label, `j`'s former children and a copy of its ids. */
    method SplitChild(k: nat, c: char, m: nat) returns (j: nat)
      requires Valid() && k < |nodes| && c in nodes[k].children && nodes[k].children[c] < |nodes|
      requires 0 < m < |nodes[nodes[k].children[c]].edge|
      modifies this
      ensures Valid() && content == old(content)
      ensures j == old(nodes[k].children[c]) && j < |nodes|
      ensures paths[j] == old(paths[k] + nodes[j].edge[..m])
      ensures nodes[j].children == map[old(nodes[j].edge[m]) := |nodes| - 1]
      ensures nodes[j].edge == old(nodes[j].edge[..m]) && nodes[j].ids == old(nodes[j].ids)
      ensures |nodes| == old(|nodes|) + 1
      ensures nodes[|nodes| - 1] == old(Node(nodes[j].edge[m..], nodes[j].children, nodes[j].ids))
      ensures paths[|nodes| - 1] == old(paths[j])
      ensures forall x | 0 <= x < old(|nodes|) && x != j :: nodes[x] == old(nodes[x])
      ensures Branches() == old(Branches()) + {paths[j]}
    {
      j := nodes[k].children[c];
      var edge := nodes[j].edge;
      ghost var paths' := paths[j := paths[k] + edge[..m]] + [paths[j]];
      var nodes' := nodes[j := Node(edge[..m], map[edge[m] := |nodes|], nodes[j].ids)]
                    + [Node(edge[m..], nodes[j].children, nodes[j].ids)];
      SplitPreserves(nodes, paths, content, k, c, m, nodes', paths');
      nodes := nodes';
      paths := paths';
    }

    /** `key` leaves the label of the child of node `k` under `c` after `m < |label|`
        characters, and position `i` of `key` follows them. The edge is split there; if
        `key` goes on, a new leaf for the rest of it holds `airportId`, and otherwise the
        id is stored nowhere and the key is lost. */
    method SplitInsert(k: nat, c: char, key: string, i: nat, m: nat, airportId: int)
      requires Valid() && k < |nodes| && paths[k] < key && c == key[|paths[k]|] && c in nodes[k].children
      requires nodes[k].children[c] < |nodes| && 0 < m < |nodes[nodes[k].children[c]].edge|
      requires i == |paths[k]| + m <= |key| && key[|paths[k]|..][..m] == nodes[nodes[k].children[c]].edge[..m]
      requires i < |key| ==> key[i] != nodes[nodes[k].children[c]].edge[m]
      modifies this
      ensures Valid()
      ensures Branches() == old(Branches()) + {Reach(old(Branches()), key), key}
      ensures content == old(content) + (if Lost(old(Branches()), key) then {} else {(key, airportId)})
    {
      SplitFacts(nodes, paths, content, k, key, m);
      var j := SplitChild(k, c, m);
      assert paths[j] == key[..i];
      if i < |key| {
        AddLeaf(j, key, i, airportId);
      } else {
        assert key[..i] == key;
      }
    }

    /** Like `SplitInsert`, but when `key` ends at the split point the id is stored at
        the new intermediate node. */
    method SplitInsertFixed(k: nat, c: char, key: string, i: nat, m: nat, airportId: int)
      requires Valid() && k < |nodes| && paths[k] < key && c == key[|paths[k]|] && c in nodes[k].children
      requires nodes[k].children[c] < |nodes| && 0 < m < |nodes[nodes[k].children[c]].edge|
      requires i == |paths[k]| + m <= |key| && key[|paths[k]|..][..m] == nodes[nodes[k].children[c]].edge[..m]
      requires i < |key| ==> key[i] != nodes[nodes[k].children[c]].edge[m]
      modifies this
      ensures Valid()
      ensures Branches() == old(Branches()) + {Reach(old(Branches()), key), key}
      ensures content == old(content) + {(key, airportId)}
    {
      SplitFacts(nodes, paths, content, k, key, m);
      var j := SplitChild(k, c, m);
      assert paths[j] == key[..i];
      if i < |key| {
        AddLeaf(j, key, i, airportId);
      } else {
        assert key[..i] == key;
        AddId(j, key, airportId);
      }
    }

    /** `airportId` is added to the ids of node `k`, whose path is `key`. */
    method AddId(k: nat, key: string, airportId: int)
      requires Valid() && k < |nodes| && paths[k] == key
      modifies this
      ensures Valid()
      ensures Reach(old(Branches()), key) == key && !Lost(old(Branches()), key)
      ensures paths == old(paths) && Branches() == old(Branches()) + {Reach(old(Branches()), key), key}
      ensures content == old(content) + {(key, airportId)}
      ensures nodes == old(nodes[k := nodes[k].(ids := nodes[k].ids + {airportId})])
    {
      AtNodeFacts(paths, k, key);
      assert key in PathSet(paths);
      var nodes' := nodes[k := nodes[k].(ids := nodes[k].ids + {airportId})];
      IdAdded(nodes, paths, content, k, key, airportId, nodes');
      nodes := nodes';
      content := content + {(key, airportId)};
    }

    /** Stores `airportId` under the lower-cased `value`. The pair becomes visible to
        queries unless the key is lost, and the tree gains nodes exactly at the key and at
        the point where it left the existing branches. */
    method Insert(value: string, airportId: int)
      requires Valid()
      modifies this
      ensures Valid()
      ensures Branches() == old(Branches()) + {Reach(old(Branches()), Lower(value)), Lower(value)}
      ensures content == old(content) + (if Lost(old(Branches()), Lower(value)) then {} else {(Lower(value), airportId)})
      ensures Lower(value) == [] ==> airportId in nodes[0].ids
    {
      var key := Lower(value);
      var k: nat := 0;
      var i: nat := 0;
      while i < |key|
        invariant Valid()
        invariant nodes == old(nodes) && paths == old(paths) && content == old(content)
        invariant k < |nodes| && i <= |key| && paths[k] == key[..i]
        invariant i == 0 ==> k == 0
      {
        var c := key[i];
        assert paths[k] < key;
        if c !in nodes[k].children {
          AddLeaf(k, key, i, airportId);
          return;
        }
        var j := nodes[k].children[c];
        Child(nodes, paths, content, k, c);
        var prefixLen := CommonPrefixLength(key[i..], nodes[j].edge);
        i := i + prefixLen;
        if prefixLen < |nodes[j].edge| {
          SplitInsert(k, c, key, i, prefixLen, airportId);
          return;
        }
        k := j;
      }
      assert key[..i] == key;
      AddId(k, key, airportId);
    }

    /** `Insert` as evidently intended: when the key ends where an edge is split, the id
        is stored at the new intermediate node, so every pair becomes visible. */
    method InsertFixed(value: string, airportId: int)
      requires Valid()
      modifies this
      ensures Valid()
      ensures Branches() == old(Branches()) + {Reach(old(Branches()), Lower(value)), Lower(value)}
      ensures content == old(content) + {(Lower(value), airportId)}
    {
      var key := Lower(value);
      var k: nat := 0;
      var i: nat := 0;
      while i < |key|
        invariant Valid()
        invariant nodes == old(nodes) && paths == old(paths) && content == old(content)
        invariant k < |nodes| && i <= |key| && paths[k] == key[..i]
      {
        var c := key[i];
        assert paths[k] < key;
        if c !in nodes[k].children {
          AddLeaf(k, key, i, airportId);
          return;
        }
        var j := nodes[k].children[c];
        Child(nodes, paths, content, k, c);
        var prefixLen := CommonPrefixLength(key[i..], nodes[j].edge);
        i := i + prefixLen;
        if prefixLen < |nodes[j].edge| {
          SplitInsertFixed(k, c, key, i, prefixLen, airportId);
          return;
        }
        k := j;
      }
      assert key[..i] == key;
      AddId(k, key, airportId);
    }

    /** The ids of all pairs whose key extends the lower-cased `prefix`, ascending and
        without duplicates; the trie is left unchanged. */
    method Search(prefix: string) returns (r: seq<int>)
      requires Valid()
      ensures Ascending(r) && Elems(r) == Matches(content, Lower(prefix))
    {
      var q := Lower(prefix);
      var k: nat := 0;
      var i: nat := 0;
      while i < |q|
        invariant k < |nodes| && i <= |q| && paths[k] == q[..i]
      {
        var c := q[i];
        assert paths[k] < q;
        if c !in nodes[k].children {
          NoChildNoMatch(nodes, paths, content, k, q);
          return [];
        }
        var j := nodes[k].children[c];
        Child(nodes, paths, content, k, c);
        ThroughChild(nodes, paths, content, k, q);
        var edge := nodes[j].edge;
        var prefixLen := CommonPrefixLength(q[i..], edge);
        if prefixLen == 0 {
          // the label of `j` starts with `c`, so at least one character is shared
          assert false;
          return [];
        }
        if prefixLen < |edge| {
          InsideEdge(paths[k], q, edge, prefixLen);
          if q[i..] <= edge {
            r := CollectAirportIds(j);
            return;
          } else {
            return [];
          }
        }
        assert paths[j] == q[..i + prefixLen];
        i := i + prefixLen;
        k := j;
      }
      assert q[..i] == q;
      r := CollectAirportIds(k);
    }

    /** The ids stored in the subtree of node `t`, ascending and without duplicates: the
        ids of all pairs whose key extends the path of `t`. */
    method CollectAirportIds(t: nat) returns (r: seq<int>)
      requires Valid() && t < |nodes|
      ensures Ascending(r) && Elems(r) == Matches(content, paths[t])
    {
      var unique: set<int> := {};
      var stack: seq<nat> := [t];
      StartOuter(nodes, paths, content, t);
      while stack != []
        invariant Outer(nodes, paths, content, t, stack, unique)
        decreases Covered(paths, stack)
      {
        ghost var outer := stack;
        var current := stack[|stack| - 1];
        PopInner(nodes, paths, content, t, stack, unique);
        stack := stack[..|stack| - 1];
        unique := unique + nodes[current].ids;
        var keys := nodes[current].children.Keys;
        while keys != {}
          invariant Inner(nodes, paths, content, t, outer, stack, unique, current, keys)
          decreases keys
        {
          CharInhabited(keys);
          var c :| c in keys;
          PushInner(nodes, paths, content, t, outer, stack, unique, current, keys, c);
          stack := stack + [nodes[current].children[c]];
          keys := keys - {c};
        }
        FinishInner(nodes, paths, content, t, outer, stack, unique, current);
      }
      DoneOuter(nodes, paths, content, t, unique);
      r := SortedList(unique);
    }
  }

  /** A query and its folded form give the same list. */
  method SearchIgnoresCase(t: CompressedTrie, p: string) returns (r1: seq<int>, r2: seq<int>)
    requires t.Valid()
    ensures r1 == r2
  {
    r1 := t.Search(p);
    r2 := t.Search(Lower(p));
    LowerIdempotent(p);
    AscendingUnique(r1, r2);
  }

  /** The empty query returns every id stored at any node, stale copies included. */
  method SearchAll(t: CompressedTrie) returns (r: seq<int>)
    requires t.Valid()
    ensures Elems(r) == (set k, x | 0 <= k < |t.nodes| && x in t.nodes[k].ids :: x)
  {
    r := t.Search("");
    AllIdsStored(t.nodes, t.paths, t.content);
  }

  /** An insert changes the answer to a query `w` by at most its own id: the id is added
      exactly when the key was not lost and the folded query is a prefix of the folded
      key, in particular for every prefix of the key in any case. A lost key leaves every
      answer unchanged. */
  method InsertThenSearch(t: CompressedTrie, value: string, airportId: int, w: string) returns (r: seq<int>)
    requires t.Valid()
    modifies t
    ensures t.Valid()
    ensures Elems(r) == Matches(old(t.content), Lower(w))
                        + (if !Lost(old(t.Branches()), Lower(value)) && Lower(w) <= Lower(value)
                           then {airportId} else {})
    ensures w <= value && !Lost(old(t.Branches()), Lower(value)) ==> airportId in Elems(r)
  {
    t.Insert(value, airportId);
    if !Lost(old(t.Branches()), Lower(value)) {
      MatchesAdd(old(t.content), Lower(value), airportId, Lower(w));
    }
    if w <= value {
      LowerPrefix(w, value);
    }
    r := t.Search(w);
  }

  /** With the corrected insert no key is lost: the id is added to the answer of exactly
      the queries whose folded form is a prefix of the folded key. */
  method FixedInsertThenSearch(t: CompressedTrie, value: string, airportId: int, w: string) returns (r: seq<int>)
    requires t.Valid()
    modifies t
    ensures t.Valid()
    ensures Elems(r) == Matches(old(t.content), Lower(w)) + (if Lower(w) <= Lower(value) then {airportId} else {})
    ensures w <= value ==> airportId in Elems(r)
  {
    t.InsertFixed(value, airportId);
    MatchesAdd(old(t.content), Lower(value), airportId, Lower(w));
    if w <= value {
      LowerPrefix(w, value);
    }
    r := t.Search(w);
  }

  /** Inserting a pair the trie already answers for changes no answer. */
  method ReinsertThenSearch(t: CompressedTrie, value: string, airportId: int, w: string)
    returns (before: seq<int>, after: seq<int>)
    requires t.Valid() && (Lower(value), airportId) in t.content
    modifies t
    ensures t.Valid() && before == after
  {
    before := t.Search(w);
    var k := Find(t.nodes, t.paths, t.content, (Lower(value), airportId));
    assert Lower(value) in t.Branches();
    t.Insert(value, airportId);
    assert t.content == old(t.content);
    after := t.Search(w);
    AscendingUnique(before, after);
  }

  /** A fresh trie after `Insert("abc", 1)`: the key hangs below the root as one leaf. */
  method FirstInsert() returns (t: CompressedTrie)
    ensures fresh(t) && t.Valid()
    ensures t.Branches() == {[], "abc"} && t.content == {("abc", 1)}
  {
    t := new CompressedTrie();
    assert Lower("abc") == "abc";
    ReachAt({[]}, "abc", 0);
    t.Insert("abc", 1);
  }

  /** `FirstInsert` followed by `Insert("ab", 2)`: the key ends where the edge "abc" is
      split, so the split node exists but no pair is added. */
  method LoseSecond() returns (t: CompressedTrie)
    ensures fresh(t) && t.Valid()
    ensures "ab" in t.Branches() && t.content == {("abc", 1)}
  {
    t := FirstInsert();
    assert Lower("ab") == "ab";
    assert Lost({[], "abc"}, "ab") by {
      assert "ab" < "abc";
    }
    t.Insert("ab", 2);
  }

  /** The lost id: after "abc", inserting "ab" splits the edge exactly where the key ends,
      so no node receives id 2 and the query "ab" answers only 1. */
  method LostIdScenario() returns (r: seq<int>)
    ensures r == [1]
  {
    var t := LoseSecond();
    assert Lower("ab") == "ab";
    r := t.Search("ab");
    assert Matches({("abc", 1)}, "ab") == {1};
    AscendingUnique(r, [1]);
  }

  /** The same inserts with the corrected insert: the query "ab" answers both ids. */
  method FixedScenario() returns (r: seq<int>)
    ensures r == [1, 2]
  {
    var t := FirstInsert();
    assert Lower("ab") == "ab";
    t.InsertFixed("ab", 2);
    r := t.Search("ab");
    assert Matches({("abc", 1), ("ab", 2)}, "ab") == {1, 2};
    AscendingUnique(r, [1, 2]);
  }

  /** Inserting the lost pair a second time stores it: the split left a node whose path
      is the key, and the walk now ends there. */
  method RecoveredScenario() returns (r: seq<int>)
    ensures r == [1, 2]
  {
    var t := LoseSecond();
    assert Lower("ab") == "ab";
    t.Insert("ab", 2);
    r := t.Search("ab");
    assert Matches({("abc", 1), ("ab", 2)}, "ab") == {1, 2};
    AscendingUnique(r, [1, 2]);
  }

  /** A fresh trie after `Insert("ab", 1)` and `Insert("AC", 2)`: the edge "ab" is split
      after "a", and both pairs are stored. */
  method TwoKeys() returns (t: CompressedTrie)
    ensures fresh(t) && t.Valid()
    ensures t.content == {("ab", 1), ("ac", 2)}
  {
    t := new CompressedTrie();
    assert Lower("ab") == "ab" && Lower("AC") == "ac";
    ReachAt({[]}, "ab", 0);
    t.Insert("ab", 1);
    assert t.Branches() == {[], "ab"};
    t.Insert("AC", 2);
  }

  /** Keys that share a first character and then part: each query answers exactly the
      ids of the keys it is a prefix of, and a query that parts from both answers none. */
  method BranchingScenario() returns (a: seq<int>, ab: seq<int>, ad: seq<int>)
    ensures a == [1, 2] && ab == [1] && ad == []
  {
    var t := TwoKeys();
    assert Lower("a") == "a" && Lower("ab") == "ab" && Lower("ad") == "ad";
    a := t.Search("a");
    assert Matches(t.content, "a") == {1, 2};
    AscendingUnique(a, [1, 2]);
    ab := t.Search("ab");
    assert Matches(t.content, "ab") == {1};
    AscendingUnique(ab, [1]);
    ad := t.Search("ad");
    assert Matches(t.content, "ad") == {};
    AscendingUnique(ad, []);
  }
}

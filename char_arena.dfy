/** The node arena behind the two uncompressed tries (`gitlab.renue.logic.Trie` and
    `gitlab.renue.Trie`): one node per character, children keyed by that character, and a
    list of airport ids at the node where a key ends. Nodes are records in a sequence and
    refer to their children by index.

    Beside the nodes, two ghost values give the meaning of the arena: `paths[k]` is the
    string spelled from the root down to node `k`, and `log` is the sequence of (key, id)
    pairs inserted so far. Ids are kept in lists, so the answers are multisets: a query `p`
    must return the ids of all logged pairs whose key extends `p`, each as often as it was
    inserted (`MatchIds`). */
module CharArena {

  /** One trie node: its children, keyed by their character, and the ids stored at it. */
  datatype CharNode = CharNode(children: map<char, nat>, ids: seq<int>)

  /** The ids of the logged pairs whose key extends `p`, with multiplicity. */
  function MatchIds(log: seq<(string, int)>, p: string): multiset<int> {
    if log == [] then multiset{}
    else MatchIds(log[..|log| - 1], p)
         + (if p <= log[|log| - 1].0 then multiset{log[|log| - 1].1} else multiset{})
  }

  /** The ids of the logged pairs whose key is exactly `s`. */
  function IdsAt(log: seq<(string, int)>, s: string): multiset<int> {
    if log == [] then multiset{}
    else IdsAt(log[..|log| - 1], s)
         + (if log[|log| - 1].0 == s then multiset{log[|log| - 1].1} else multiset{})
  }

  /** The ids of the logged pairs whose key goes on below `p` by a character in `d`. */
  function Under(log: seq<(string, int)>, p: string, d: set<char>): multiset<int> {
    if log == [] then multiset{}
    else Under(log[..|log| - 1], p, d)
         + (if p < log[|log| - 1].0 && log[|log| - 1].0[|p|] in d then multiset{log[|log| - 1].1}
            else multiset{})
  }

  /** Every logged id, with multiplicity. */
  function AllIds(log: seq<(string, int)>): multiset<int> {
    if log == [] then multiset{} else AllIds(log[..|log| - 1]) + multiset{log[|log| - 1].1}
  }

  /** The child of `k` under `c`, if any, exists and its path is `k`'s path followed by `c`. */
  ghost predicate ChildOk(nodes: seq<CharNode>, paths: seq<string>, k: nat, c: char)
    requires k < |nodes| == |paths|
  {
    c in nodes[k].children ==>
      nodes[k].children[c] < |nodes| && paths[nodes[k].children[c]] == paths[k] + [c]
  }

  ghost predicate Edges(nodes: seq<CharNode>, paths: seq<string>)
    requires |nodes| == |paths|
  {
    forall k: nat, c: char | k < |nodes| :: ChildOk(nodes, paths, k, c)
  }

  /** From node `k`, the string `s` goes on below `k` through the child under its next
      character. */
  ghost predicate StepsInto(nodes: seq<CharNode>, paths: seq<string>, k: nat, s: string)
    requires k < |nodes| == |paths|
  {
    |paths[k]| < |s| && s[|paths[k]|] in nodes[k].children
  }

  /** If the path of `k` is a prefix of the path of another node `x`, then `x` lies
      below `k`. */
  ghost predicate Below(nodes: seq<CharNode>, paths: seq<string>, k: nat, x: nat)
    requires |nodes| == |paths|
  {
    k < |nodes| && x < |nodes| && k != x && paths[k] <= paths[x] ==> StepsInto(nodes, paths, k, paths[x])
  }

  ghost predicate IsTree(nodes: seq<CharNode>, paths: seq<string>)
    requires |nodes| == |paths|
  {
    forall k: nat, x: nat :: Below(nodes, paths, k, x)
  }

  /** Node `k` holds exactly the ids logged under its path, as often as they were logged. */
  ghost predicate HoldsAt(nodes: seq<CharNode>, paths: seq<string>, log: seq<(string, int)>, k: nat)
    requires |nodes| == |paths|
  {
    k < |nodes| ==> multiset(nodes[k].ids) == IdsAt(log, paths[k])
  }

  ghost predicate Holds(nodes: seq<CharNode>, paths: seq<string>, log: seq<(string, int)>)
    requires |nodes| == |paths|
  {
    forall k: nat :: HoldsAt(nodes, paths, log, k)
  }

  /** Some node has the key of the logged pair `e` as its path. */
  ghost predicate KeyAt(nodes: seq<CharNode>, paths: seq<string>, e: (string, int))
    requires |nodes| == |paths|
  {
    exists k: nat | k < |nodes| :: paths[k] == e.0
  }

  ghost predicate Keyed(nodes: seq<CharNode>, paths: seq<string>, log: seq<(string, int)>)
    requires |nodes| == |paths|
  {
    forall i | 0 <= i < |log| :: KeyAt(nodes, paths, log[i])
  }

  ghost predicate Wf(nodes: seq<CharNode>, paths: seq<string>, log: seq<(string, int)>) {
    && |nodes| >= 1
    && |paths| == |nodes|
    && paths[0] == []
    && Edges(nodes, paths)
    && IsTree(nodes, paths)
    && Holds(nodes, paths, log)
    && Keyed(nodes, paths, log)
  }

  /** The nodes at or below node `k`; it shrinks on the way down, which bounds the
      recursion of the collectors. */
  ghost function Subtree(paths: seq<string>, k: nat): set<nat> {
    set x: nat | x < |paths| && k < |paths| && paths[k] <= paths[x]
  }

  // ---------------------------------------------------------------------------------
  // Access to the parts of the invariant

  lemma Child(nodes: seq<CharNode>, paths: seq<string>, log: seq<(string, int)>, k: nat, c: char)
    requires Wf(nodes, paths, log) && k < |nodes| && c in nodes[k].children
    ensures nodes[k].children[c] < |nodes| && paths[nodes[k].children[c]] == paths[k] + [c]
  {
    assert ChildOk(nodes, paths, k, c);
  }

  lemma Step(nodes: seq<CharNode>, paths: seq<string>, log: seq<(string, int)>, k: nat, x: nat)
    requires Wf(nodes, paths, log) && k < |nodes| && x < |nodes| && k != x && paths[k] <= paths[x]
    ensures |paths[k]| < |paths[x]| && paths[x][|paths[k]|] in nodes[k].children
  {
    assert Below(nodes, paths, k, x);
  }

  lemma FindKey(nodes: seq<CharNode>, paths: seq<string>, log: seq<(string, int)>, i: nat) returns (k: nat)
    requires Wf(nodes, paths, log) && i < |log|
    ensures k < |nodes| && paths[k] == log[i].0
  {
    assert KeyAt(nodes, paths, log[i]);
    k :| k < |nodes| && paths[k] == log[i].0;
  }

  lemma Held(nodes: seq<CharNode>, paths: seq<string>, log: seq<(string, int)>, k: nat)
    requires Wf(nodes, paths, log) && k < |nodes|
    ensures multiset(nodes[k].ids) == IdsAt(log, paths[k])
  {
    assert HoldsAt(nodes, paths, log, k);
  }

  // ---------------------------------------------------------------------------------
  // The log-based semantics

  /** Logging one more pair adds its id to exactly the queries its key extends. */
  lemma MatchIdsAppend(log: seq<(string, int)>, e: (string, int), p: string)
    ensures MatchIds(log + [e], p) == MatchIds(log, p) + (if p <= e.0 then multiset{e.1} else multiset{})
  {
    assert (log + [e])[..|log|] == log;
  }

  lemma IdsAtAppend(log: seq<(string, int)>, e: (string, int), s: string)
    ensures IdsAt(log + [e], s) == IdsAt(log, s) + (if e.0 == s then multiset{e.1} else multiset{})
  {
    assert (log + [e])[..|log|] == log;
  }

  /** A query that no logged key extends matches nothing. */
  lemma {:induction false} NoneExtend(log: seq<(string, int)>, p: string)
    requires forall i | 0 <= i < |log| :: !(p <= log[i].0)
    ensures MatchIds(log, p) == multiset{}
  {
    if log != [] {
      var init := log[..|log| - 1];
      assert forall i | 0 <= i < |init| :: init[i] == log[i];
      NoneExtend(init, p);
    }
  }

  /** The empty query matches every logged id. */
  lemma {:induction false} EmptyMatchesAll(log: seq<(string, int)>)
    ensures MatchIds(log, []) == AllIds(log)
  {
    if log != [] {
      EmptyMatchesAll(log[..|log| - 1]);
    }
  }

  /** Nothing goes on below `p` by a character of the empty set. */
  lemma {:induction false} UnderNone(log: seq<(string, int)>, p: string)
    ensures Under(log, p, {}) == multiset{}
  {
    if log != [] {
      UnderNone(log[..|log| - 1], p);
    }
  }

  /** Going on below `p` by one more character `c` adds what `p + [c]` matches. */
  lemma {:induction false} UnderAdd(log: seq<(string, int)>, p: string, d: set<char>, c: char)
    requires c !in d
    ensures Under(log, p, d + {c}) == Under(log, p, d) + MatchIds(log, p + [c])
  {
    if log != [] {
      var init := log[..|log| - 1];
      var e := log[|log| - 1];
      UnderAdd(init, p, d, c);
      NextIs(p, e.0, c);
      var x1 := if p < e.0 && e.0[|p|] in d + {c} then multiset{e.1} else multiset{};
      var x2 := if p < e.0 && e.0[|p|] in d then multiset{e.1} else multiset{};
      var x3 := if p + [c] <= e.0 then multiset{e.1} else multiset{};
      assert x1 == x2 + x3;
      assert Under(log, p, d + {c}) == Under(init, p, d + {c}) + x1;
      assert Under(log, p, d) == Under(init, p, d) + x2;
      assert MatchIds(log, p + [c]) == MatchIds(init, p + [c]) + x3;
    }
  }

  /** `s` goes on below `p` by `c` exactly when `p + [c]` is a prefix of `s`. */
  lemma NextIs(p: string, s: string, c: char)
    ensures (p < s && s[|p|] == c) <==> p + [c] <= s
  {
    if p < s && s[|p|] == c {
      assert s[..|p| + 1] == p + [c];
    }
    if p + [c] <= s {
      assert s[|p|] == (p + [c])[|p|];
      assert p == (p + [c])[..|p|];
    }
  }

  /** What `p` matches splits into the ids logged at `p` and those below it by any
      character of `d`, provided every logged key that goes on below `p` does so by a
      character of `d`. */
  lemma {:induction false} Decompose(log: seq<(string, int)>, p: string, d: set<char>)
    requires forall i | 0 <= i < |log| && p < log[i].0 :: log[i].0[|p|] in d
    ensures MatchIds(log, p) == IdsAt(log, p) + Under(log, p, d)
  {
    if log != [] {
      var init := log[..|log| - 1];
      assert forall i | 0 <= i < |init| :: init[i] == log[i];
      Decompose(init, p, d);
      var e := log[|log| - 1];
      var a := if p <= e.0 then multiset{e.1} else multiset{};
      var b := if e.0 == p then multiset{e.1} else multiset{};
      var c := if p < e.0 && e.0[|p|] in d then multiset{e.1} else multiset{};
      assert a == b + c;
      assert MatchIds(log, p) == MatchIds(init, p) + a;
      assert IdsAt(log, p) == IdsAt(init, p) + b;
      assert Under(log, p, d) == Under(init, p, d) + c;
    }
  }

  // ---------------------------------------------------------------------------------
  // Consequences of the invariant

  /** Two nodes with the same path are the same node. */
  lemma PathInjective(nodes: seq<CharNode>, paths: seq<string>, log: seq<(string, int)>, a: nat, b: nat)
    requires Wf(nodes, paths, log) && a < |nodes| && b < |nodes| && paths[a] == paths[b]
    ensures a == b
  {
    if a != b {
      Step(nodes, paths, log, a, b);
      assert false;
    }
  }

  /** The characters by which logged keys go on below node `k` all have children. */
  lemma NextChars(nodes: seq<CharNode>, paths: seq<string>, log: seq<(string, int)>, k: nat)
    requires Wf(nodes, paths, log) && k < |nodes|
    ensures forall i | 0 <= i < |log| && paths[k] < log[i].0 :: log[i].0[|paths[k]|] in nodes[k].children
  {
    forall i | 0 <= i < |log| && paths[k] < log[i].0
      ensures log[i].0[|paths[k]|] in nodes[k].children
    {
      var x := FindKey(nodes, paths, log, i);
      Step(nodes, paths, log, k, x);
    }
  }

  /** A query that leaves node `k` by a character with no child matches nothing. */
  lemma NoChildNoMatch(nodes: seq<CharNode>, paths: seq<string>, log: seq<(string, int)>, k: nat, p: string)
    requires Wf(nodes, paths, log) && k < |nodes| && paths[k] < p
    requires p[|paths[k]|] !in nodes[k].children
    ensures MatchIds(log, p) == multiset{}
  {
    forall i | 0 <= i < |log| ensures !(p <= log[i].0) {
      if p <= log[i].0 {
        var x := FindKey(nodes, paths, log, i);
        assert paths[k] < paths[x];
        Step(nodes, paths, log, k, x);
        assert false;
      }
    }
    NoneExtend(log, p);
  }

  /** A child's subtree is a proper part of its parent's. */
  lemma SubtreeShrinks(nodes: seq<CharNode>, paths: seq<string>, log: seq<(string, int)>, k: nat, c: char)
    requires Wf(nodes, paths, log) && k < |nodes| && c in nodes[k].children
    ensures nodes[k].children[c] < |nodes|
    ensures Subtree(paths, nodes[k].children[c]) < Subtree(paths, k)
  {
    Child(nodes, paths, log, k, c);
    var ch := nodes[k].children[c];
    forall x | x in Subtree(paths, ch) ensures x in Subtree(paths, k) {
      assert paths[k] <= paths[ch] <= paths[x];
    }
    assert k in Subtree(paths, k) && k !in Subtree(paths, ch);
  }

  // ---------------------------------------------------------------------------------
  // The two ways Insert changes the arena

  /** Insert leaves node `k` by a character `c` with no child: an empty node becomes that
      child. The log, and so every answer, is unchanged. */
  lemma NodeAdded(nodes: seq<CharNode>, paths: seq<string>, log: seq<(string, int)>, k: nat, c: char,
                  nodes': seq<CharNode>)
    requires Wf(nodes, paths, log) && k < |nodes| && c !in nodes[k].children
    requires nodes' == nodes[k := nodes[k].(children := nodes[k].children[c := |nodes|])] + [CharNode(map[], [])]
    ensures Wf(nodes', paths + [paths[k] + [c]], log)
  {
    var n := |nodes|;
    var s := paths[k] + [c];
    var paths' := paths + [s];
    forall q: nat, d: char | q < |nodes'| ensures ChildOk(nodes', paths', q, d) {
      if q < n && !(q == k && d == c) {
        assert ChildOk(nodes, paths, q, d);
      }
    }
    forall a: nat, b: nat ensures Below(nodes', paths', a, b) {
      if a < n && b < n {
        assert Below(nodes, paths, a, b);
      } else if a < n && b == n && paths[a] <= s && a != k {
        if paths[a] <= paths[k] {
          Step(nodes, paths, log, a, k);
        } else {
          assert paths[a] == s;
          Step(nodes, paths, log, k, a);
          assert false;
        }
      } else if a == n && b < n && s <= paths[b] {
        Step(nodes, paths, log, k, b);
        assert false;
      }
    }
    forall i | 0 <= i < |log| ensures log[i].0 != s {
      if log[i].0 == s {
        var x := FindKey(nodes, paths, log, i);
        Step(nodes, paths, log, k, x);
        assert false;
      }
    }
    AbsentKey(log, s);
    forall q: nat ensures HoldsAt(nodes', paths', log, q) {
      if q < n {
        Held(nodes, paths, log, q);
      }
    }
    forall i | 0 <= i < |log| ensures KeyAt(nodes', paths', log[i]) {
      var x := FindKey(nodes, paths, log, i);
      assert paths'[x] == log[i].0;
    }
  }

  /** No id is logged under a key that no pair has. */
  lemma {:induction false} AbsentKey(log: seq<(string, int)>, s: string)
    requires forall i | 0 <= i < |log| :: log[i].0 != s
    ensures IdsAt(log, s) == multiset{}
  {
    if log != [] {
      var init := log[..|log| - 1];
      assert forall i | 0 <= i < |init| :: init[i] == log[i];
      AbsentKey(init, s);
    }
  }

  /** Insert ends at node `k`, whose path is the key: the id is appended to its list and
      the pair is logged. */
  lemma IdAppended(nodes: seq<CharNode>, paths: seq<string>, log: seq<(string, int)>, k: nat, id: int,
                   nodes': seq<CharNode>)
    requires Wf(nodes, paths, log) && k < |nodes|
    requires nodes' == nodes[k := nodes[k].(ids := nodes[k].ids + [id])]
    ensures Wf(nodes', paths, log + [(paths[k], id)])
  {
    var log' := log + [(paths[k], id)];
    forall q: nat, d: char | q < |nodes'| ensures ChildOk(nodes', paths, q, d) {
      assert ChildOk(nodes, paths, q, d);
    }
    forall a: nat, b: nat ensures Below(nodes', paths, a, b) {
      assert Below(nodes, paths, a, b);
    }
    forall q: nat ensures HoldsAt(nodes', paths, log', q) {
      if q < |nodes| {
        Held(nodes, paths, log, q);
        IdsAtAppend(log, (paths[k], id), paths[q]);
        if q != k && paths[q] == paths[k] {
          Step(nodes, paths, log, q, k);
          assert false;
        }
      }
    }
    forall i | 0 <= i < |log'| ensures KeyAt(nodes', paths, log'[i]) {
      if i < |log| {
        var x := FindKey(nodes, paths, log, i);
        assert paths[x] == log'[i].0;
      } else {
        assert paths[k] == log'[i].0;
      }
    }
  }

  /** A list whose multiset is a single id is that id alone. */
  lemma OnlyId(r: seq<int>, x: int)
    requires multiset(r) == multiset{x}
    ensures r == [x]
  {
    assert |r| == |multiset(r)| == 1;
    assert r[0] in multiset(r);
  }
}

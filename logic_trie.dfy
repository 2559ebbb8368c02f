/** The case-insensitive character trie `gitlab.renue.logic.Trie`: one node per character
    of the lower-cased keys, a list of airport ids at the node where a key ends.

    The object holds its nodes in an arena (`nodes`, node 0 is the root); a Java node
    reference is an index. The ghost fields are the string spelled down to each node
    (`paths`) and the pairs inserted so far (`log`). A query returns the ids of all logged
    pairs whose key extends the folded query, as a list whose order follows the iteration
    order of the children maps and is not modelled: the contracts state its multiset. */
module LogicTrie {
  import opened CaseFold
  import opened CharArena
  import opened Choice

  class Trie {
    /** The node arena; node 0 is the root. */
    var nodes: seq<CharNode>
    /** The string spelled from the root down to each node. */
    ghost var paths: seq<string>
    /** The (lower-cased key, id) pairs inserted so far, oldest first. */
    ghost var log: seq<(string, int)>

    ghost predicate Valid()
      reads this
    {
      Wf(nodes, paths, log)
    }

    /** A trie with just the root. */
    constructor()
      ensures Valid() && log == [] && |nodes| == 1
    {
      nodes := [CharNode(map[], [])];
      paths := [[]];
      log := [];
      new;
      forall k: nat, x: nat ensures Below(nodes, paths, k, x) {
      }
      forall k: nat ensures HoldsAt(nodes, paths, log, k) {
      }
    }

    /** Appends `airportId` to the list at the node of the lower-cased `value`, creating
        the missing nodes on the way. Nodes are created only along that path, existing
        nodes keep their paths, and every other node keeps its ids. */
    method Insert(value: string, airportId: int)
      requires Valid()
      modifies this
      ensures Valid()
      ensures log == old(log) + [(Lower(value), airportId)]
      ensures |nodes| >= old(|nodes|) && paths[..old(|nodes|)] == old(paths)
      ensures forall x | old(|nodes|) <= x < |nodes| :: paths[x] <= Lower(value)
      ensures exists x | 0 <= x < |nodes| :: paths[x] == Lower(value)
      ensures forall x | 0 <= x < |nodes| ::
        nodes[x].ids == (if x < old(|nodes|) then old(nodes[x].ids) else [])
                        + (if paths[x] == Lower(value) then [airportId] else [])
    {
      var key := Lower(value);
      var k: nat := 0;
      for i := 0 to |key|
        invariant Valid() && log == old(log)
        invariant k < |nodes| && paths[k] == key[..i]
        invariant |nodes| >= old(|nodes|) && paths[..old(|nodes|)] == old(paths)
        invariant forall x | old(|nodes|) <= x < |nodes| :: paths[x] <= key
        invariant forall x | 0 <= x < |nodes| :: nodes[x].ids == (if x < old(|nodes|) then old(nodes[x].ids) else [])
      {
        var c := key[i];
        if c !in nodes[k].children {
          var nodes' := nodes[k := nodes[k].(children := nodes[k].children[c := |nodes|])]
                        + [CharNode(map[], [])];
          NodeAdded(nodes, paths, log, k, c, nodes');
          assert key[..i] + [c] == key[..i + 1] <= key;
          nodes := nodes';
          paths := paths + [paths[k] + [c]];
        }
        Child(nodes, paths, log, k, c);
        k := nodes[k].children[c];
        assert key[..i + 1] == key[..i] + [c];
      }
      assert key[..|key|] == key;
      var nodes' := nodes[k := nodes[k].(ids := nodes[k].ids + [airportId])];
      IdAppended(nodes, paths, log, k, airportId, nodes');
      forall x | 0 <= x < |nodes| && paths[x] == key ensures x == k {
        PathInjective(nodes, paths, log, x, k);
      }
      nodes := nodes';
      log := log + [(key, airportId)];
    }

    /** The ids of all pairs whose key extends the lower-cased `prefix`, each as often as it
        was inserted; empty as soon as a character of the query has no child. */
    method Search(prefix: string) returns (r: seq<int>)
      requires Valid()
      ensures multiset(r) == MatchIds(log, Lower(prefix))
    {
      var q := Lower(prefix);
      var k: nat := 0;
      for i := 0 to |q|
        invariant k < |nodes| && paths[k] == q[..i]
      {
        var c := q[i];
        if c !in nodes[k].children {
          assert q[..i] < q;
          NoChildNoMatch(nodes, paths, log, k, q);
          return [];
        }
        Child(nodes, paths, log, k, c);
        k := nodes[k].children[c];
        assert q[..i + 1] == q[..i] + [c];
      }
      assert q[..|q|] == q;
      r := CollectAirportIds(k);
    }

    /** The ids stored in the subtree of node `k`: those of all pairs whose key extends
        its path. */
    method CollectAirportIds(k: nat) returns (r: seq<int>)
      requires Valid() && k < |nodes|
      ensures multiset(r) == MatchIds(log, paths[k])
    {
      r := CollectAirportIdsRecursive(k, []);
    }

    /** Appends to `result` the ids of node `k` and then, child by child, those of its
        subtrees. The list is threaded through the calls as a value. */
    method CollectAirportIdsRecursive(k: nat, result: seq<int>) returns (r: seq<int>)
      requires Valid() && k < |nodes|
      ensures multiset(r) == multiset(result) + MatchIds(log, paths[k])
      decreases Subtree(paths, k)
    {
      r := result;
      if nodes[k].ids != [] {
        r := r + nodes[k].ids;
      }
      Held(nodes, paths, log, k);
      var keys := nodes[k].children.Keys;
      ghost var done: set<char> := {};
      UnderNone(log, paths[k]);
      while keys != {}
        invariant keys + done == nodes[k].children.Keys && keys !! done
        invariant multiset(r) == multiset(result) + IdsAt(log, paths[k]) + Under(log, paths[k], done)
        decreases keys
      {
        CharInhabited(keys);
        var c :| c in keys;
        SubtreeShrinks(nodes, paths, log, k, c);
        Child(nodes, paths, log, k, c);
        r := CollectAirportIdsRecursive(nodes[k].children[c], r);
        UnderAdd(log, paths[k], done, c);
        keys := keys - {c};
        done := done + {c};
      }
      NextChars(nodes, paths, log, k);
      Decompose(log, paths[k], done);
    }
  }

  /** Logging `(Lower(value), id)` adds `id` once to every query whose folded form is a
      prefix of the folded key, in particular to every prefix of `value` in any case, and
      leaves every other query's answer as it was. */
  lemma InsertEffect(log: seq<(string, int)>, value: string, id: int, w: string)
    ensures MatchIds(log + [(Lower(value), id)], Lower(w))
         == MatchIds(log, Lower(w)) + (if Lower(w) <= Lower(value) then multiset{id} else multiset{})
    ensures w <= value ==> id in MatchIds(log + [(Lower(value), id)], Lower(w))
  {
    MatchIdsAppend(log, (Lower(value), id), Lower(w));
    if w <= value {
      LowerPrefix(w, value);
    }
  }

  /** A query and its folded form give the same ids, with the same multiplicities. */
  method SearchIgnoresCase(t: Trie, p: string) returns (r1: seq<int>, r2: seq<int>)
    requires t.Valid()
    ensures multiset(r1) == multiset(r2)
  {
    r1 := t.Search(p);
    r2 := t.Search(Lower(p));
    LowerIdempotent(p);
  }

  /** The empty query returns every inserted id, as often as it was inserted. */
  method SearchAll(t: Trie) returns (r: seq<int>)
    requires t.Valid()
    ensures multiset(r) == AllIds(t.log)
  {
    r := t.Search("");
    EmptyMatchesAll(t.log);
  }

  /** Keys are folded on insert and queries on search, and a pair inserted twice is
      found twice. */
  method FoldScenario() returns (r: seq<int>)
    ensures multiset(r) == multiset{7, 7}
  {
    var t := new Trie();
    assert Lower("JFK") == "jfk" && Lower("JF") == "jf";
    t.Insert("JFK", 7);
    ghost var log1 := t.log;
    t.Insert("jfk", 7);
    MatchIdsAppend([], ("jfk", 7), "jf");
    MatchIdsAppend(log1, ("jfk", 7), "jf");
    r := t.Search("JF");
  }

  /** A query one of whose characters has no child finds nothing. */
  method MissScenario() returns (r: seq<int>)
    ensures r == []
  {
    var t := new Trie();
    assert Lower("JFK") == "jfk" && Lower("jx") == "jx";
    t.Insert("JFK", 7);
    MatchIdsAppend([], ("jfk", 7), "jx");
    r := t.Search("jx");
  }
}

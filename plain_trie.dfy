/** The case-sensitive character trie `gitlab.renue.Trie` (its nodes are
    `gitlab.renue.Node`): one node per character of the keys as given, a list of airport
    ids at the node where a key ends. Nothing is case-folded.

    The object holds its nodes in an arena (`nodes`, node 0 is the root); a Java node
    reference is an index. The ghost fields are the string spelled down to each node
    (`paths`) and the pairs inserted so far (`log`). A query returns the ids of all logged
    pairs whose key extends the query, as a list whose order follows the iteration
    order of the children maps and is not modelled: the contracts state its multiset. */
module RenueTrie {
  import opened CharArena
  import opened Choice

  class Trie {
    /** The node arena; node 0 is the root. */
    var nodes: seq<CharNode>
    /** The string spelled from the root down to each node. */
    ghost var paths: seq<string>
    /** The (key, id) pairs inserted so far, oldest first. */
    ghost var log: seq<(string, int)>

    ghost predicate Valid()
      reads this
    {
      Wf(nodes, paths, log)
    }

    /** A trie with just the root. */
    constructor()
      ensures Valid() && log == [] && |nodes| == 1
    {
      nodes := [CharNode(map[], [])];
      paths := [[]];
      log := [];
      new;
      forall k: nat, x: nat ensures Below(nodes, paths, k, x) {
      }
      forall k: nat ensures HoldsAt(nodes, paths, log, k) {
      }
    }

    /** Appends `airportId` to the list at the node of `value`, creating
        the missing nodes on the way. Nodes are created only along that path, existing
        nodes keep their paths, and every other node keeps its ids. */
    method Insert(value: string, airportId: int)
      requires Valid()
      modifies this
      ensures Valid()
      ensures log == old(log) + [(value, airportId)]
      ensures |nodes| >= old(|nodes|) && paths[..old(|nodes|)] == old(paths)
      ensures forall x | old(|nodes|) <= x < |nodes| :: paths[x] <= value
      ensures exists x | 0 <= x < |nodes| :: paths[x] == value
      ensures forall x | 0 <= x < |nodes| ::
        nodes[x].ids == (if x < old(|nodes|) then old(nodes[x].ids) else [])
                        + (if paths[x] == value then [airportId] else [])
    {
      var key := value;
      var k: nat := 0;
      for i := 0 to |key|
        invariant Valid() && log == old(log)
        invariant k < |nodes| && paths[k] == key[..i]
        invariant |nodes| >= old(|nodes|) && paths[..old(|nodes|)] == old(paths)
        invariant forall x | old(|nodes|) <= x < |nodes| :: paths[x] <= key
        invariant forall x | 0 <= x < |nodes| :: nodes[x].ids == (if x < old(|nodes|) then old(nodes[x].ids) else [])
      {
        var c := key[i];
        if c !in nodes[k].children {
          var nodes' := nodes[k := nodes[k].(children := nodes[k].children[c := |nodes|])]
                        + [CharNode(map[], [])];
          NodeAdded(nodes, paths, log, k, c, nodes');
          assert key[..i] + [c] == key[..i + 1] <= key;
          nodes := nodes';
          paths := paths + [paths[k] + [c]];
        }
        Child(nodes, paths, log, k, c);
        k := nodes[k].children[c];
        assert key[..i + 1] == key[..i] + [c];
      }
      assert key[..|key|] == key;
      var nodes' := nodes[k := nodes[k].(ids := nodes[k].ids + [airportId])];
      IdAppended(nodes, paths, log, k, airportId, nodes');
      forall x | 0 <= x < |nodes| && paths[x] == key ensures x == k {
        PathInjective(nodes, paths, log, x, k);
      }
      nodes := nodes';
      log := log + [(key, airportId)];
    }

    /** The ids of all pairs whose key extends `prefix`, each as often as it
        was inserted; empty as soon as a character of the query has no child. */
    method Search(prefix: string) returns (r: seq<int>)
      requires Valid()
      ensures multiset(r) == MatchIds(log, prefix)
    {
      var q := prefix;
      var k: nat := 0;
      for i := 0 to |q|
        invariant k < |nodes| && paths[k] == q[..i]
      {
        var c := q[i];
        if c !in nodes[k].children {
          assert q[..i] < q;
          NoChildNoMatch(nodes, paths, log, k, q);
          return [];
        }
        Child(nodes, paths, log, k, c);
        k := nodes[k].children[c];
        assert q[..i + 1] == q[..i] + [c];
      }
      assert q[..|q|] == q;
      r := CollectAirportIds(k);
    }

    /** The ids stored in the subtree of node `k`: those of all pairs whose key extends
        its path. */
    method CollectAirportIds(k: nat) returns (r: seq<int>)
      requires Valid() && k < |nodes|
      ensures multiset(r) == MatchIds(log, paths[k])
    {
      r := CollectAirportIdsRecursive(k, []);
    }

    /** Appends to `result` the ids of node `k` and then, child by child, those of its
        subtrees. The list is threaded through the calls as a value. */
    method CollectAirportIdsRecursive(k: nat, result: seq<int>) returns (r: seq<int>)
      requires Valid() && k < |nodes|
      ensures multiset(r) == multiset(result) + MatchIds(log, paths[k])
      decreases Subtree(paths, k)
    {
      r := result;
      if nodes[k].ids != [] {
        r := r + nodes[k].ids;
      }
      Held(nodes, paths, log, k);
      var keys := nodes[k].children.Keys;
      ghost var done: set<char> := {};
      UnderNone(log, paths[k]);
      while keys != {}
        invariant keys + done == nodes[k].children.Keys && keys !! done
        invariant multiset(r) == multiset(result) + IdsAt(log, paths[k]) + Under(log, paths[k], done)
        decreases keys
      {
        CharInhabited(keys);
        var c :| c in keys;
        SubtreeShrinks(nodes, paths, log, k, c);
        Child(nodes, paths, log, k, c);
        r := CollectAirportIdsRecursive(nodes[k].children[c], r);
        UnderAdd(log, paths[k], done, c);
        keys := keys - {c};
        done := done + {c};
      }
      NextChars(nodes, paths, log, k);
      Decompose(log, paths[k], done);
    }
  }

  /** Logging `(value, id)` adds `id` once to every prefix of `value` and leaves every
      other query's answer as it was. */
  lemma InsertEffect(log: seq<(string, int)>, value: string, id: int, w: string)
    ensures MatchIds(log + [(value, id)], w)
         == MatchIds(log, w) + (if w <= value then multiset{id} else multiset{})
    ensures w <= value ==> id in MatchIds(log + [(value, id)], w)
  {
    MatchIdsAppend(log, (value, id), w);
  }

  /** The empty query returns every inserted id, as often as it was inserted. */
  method SearchAll(t: Trie) returns (r: seq<int>)
    requires t.Valid()
    ensures multiset(r) == AllIds(t.log)
  {
    r := t.Search("");
    EmptyMatchesAll(t.log);
  }

  /** Matching is case-sensitive: "jfk" is not found by "JFK". */
  method CaseMissScenario() returns (r: seq<int>)
    ensures r == []
  {
    var t := new Trie();
    t.Insert("jfk", 1);
    MatchIdsAppend([], ("jfk", 1), "JFK");
    assert !("JFK" <= "jfk") by {
      assert "JFK"[0] != "jfk"[0];
    }
    r := t.Search("JFK");
    assert multiset(r) == multiset{};
  }

  /** Once "JFK" is inserted as well, "JFK" finds its id and only that one. */
  method CaseHitScenario() returns (r: seq<int>)
    ensures r == [3]
  {
    var t := new Trie();
    t.Insert("jfk", 1);
    ghost var log1 := t.log;
    t.Insert("JFK", 3);
    MatchIdsAppend([], ("jfk", 1), "JFK");
    MatchIdsAppend(log1, ("JFK", 3), "JFK");
    assert !("JFK" <= "jfk") by {
      assert "JFK"[0] != "jfk"[0];
    }
    r := t.Search("JFK");
    OnlyId(r, 3);
  }

  /** Duplicate inserts give duplicate ids. */
  method DuplicateScenario() returns (r: seq<int>)
    ensures multiset(r) == multiset{1, 1}
  {
    var t := new Trie();
    t.Insert("jfk", 1);
    ghost var log1 := t.log;
    t.Insert("jfk", 1);
    MatchIdsAppend([], ("jfk", 1), "jf");
    MatchIdsAppend(log1, ("jfk", 1), "jf");
    r := t.Search("jf");
  }
}

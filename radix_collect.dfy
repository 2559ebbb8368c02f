/** The explicit-stack traversal of `collectAirportIds`: the states the stack and the
    accumulated id set go through, and the lemmas that carry the loop invariants from one
    step to the next. The stack holds node indices; its top is the last element. */
module RadixCollect {
  import opened RadixArena

  /** Some node on the stack has a path that is a prefix of `s`. */
  ghost predicate InStack(paths: seq<string>, stack: seq<nat>, s: string) {
    exists i | 0 <= i < |stack| :: stack[i] < |paths| && paths[stack[i]] <= s
  }

  /** Neither string is a prefix of the other. */
  ghost predicate Apart(a: string, b: string) {
    !(a <= b) && !(b <= a)
  }

  /** The paths of the nodes on the stack are pairwise incomparable: no node is on the
      stack together with one of its descendants. */
  ghost predicate Antichain(paths: seq<string>, stack: seq<nat>) {
    forall i, i2 | 0 <= i < |stack| && 0 <= i2 < |stack| && i != i2 ::
      stack[i] < |paths| && stack[i2] < |paths| ==> Apart(paths[stack[i]], paths[stack[i2]])
  }

  /** The nodes still to be visited: those in the subtree of some node on the stack. It
      shrinks strictly with every iteration of the outer loop. */
  ghost function Covered(paths: seq<string>, stack: seq<nat>): set<nat> {
    set x: nat | x < |paths| && InStack(paths, stack, paths[x])
  }

  /** The invariant of the outer loop, collecting below node `t`. */
  ghost predicate Outer(nodes: seq<Node>, paths: seq<string>, content: set<(string, int)>,
                        t: nat, stack: seq<nat>, unique: set<int>)
    requires |nodes| == |paths|
  {
    && t < |nodes|
    && (forall i | 0 <= i < |stack| :: stack[i] < |nodes| && paths[t] <= paths[stack[i]])
    && Antichain(paths, stack)
    && unique <= Matches(content, paths[t])
    && (forall e | e in content && paths[t] <= e.0 :: e.1 in unique || InStack(paths, stack, e.0))
  }

  /** The invariant of the inner loop, which pushes the children of the popped node `cur`
      under the characters not yet in `keys`. `outer` is the stack before `cur` was
      popped; `base` is what remained below it. */
  ghost predicate Inner(nodes: seq<Node>, paths: seq<string>, content: set<(string, int)>, t: nat,
                        outer: seq<nat>, stack: seq<nat>, unique: set<int>, cur: nat, keys: set<char>)
    requires |nodes| == |paths|
  {
    && t < |nodes| && cur < |nodes| && paths[t] <= paths[cur]
    && outer != [] && outer[|outer| - 1] == cur
    && var base := outer[..|outer| - 1];
    && keys <= nodes[cur].children.Keys
    && |base| <= |stack| && stack[..|base|] == base
    && (forall i | 0 <= i < |stack| :: stack[i] < |nodes| && paths[t] <= paths[stack[i]])
    && (forall i | 0 <= i < |base| :: Apart(paths[stack[i]], paths[cur]))
    && (forall i | |base| <= i < |stack| ::
          paths[cur] < paths[stack[i]] && paths[stack[i]][|paths[cur]|] !in keys)
    && Antichain(paths, stack)
    && unique <= Matches(content, paths[t])
    && (forall e | e in content && paths[t] <= e.0 ::
          || e.1 in unique
          || InStack(paths, stack, e.0)
          || (StepsInto(nodes, paths, cur, e.0) && e.0[|paths[cur]|] in keys))
    && cur in Covered(paths, outer)
    && Covered(paths, stack) <= Covered(paths, outer) - {cur}
  }

  /** Prefixes compose. */
  lemma PrefixTrans(a: string, b: string, c: string)
    requires a <= b && b <= c
    ensures a <= c
  {
    assert a == c[..|a|] by {
      assert b[..|a|] == c[..|b|][..|a|];
    }
  }

  lemma StartOuter(nodes: seq<Node>, paths: seq<string>, content: set<(string, int)>, t: nat)
    requires Wf(nodes, paths, content) && t < |nodes|
    ensures Outer(nodes, paths, content, t, [t], {})
  {
    forall e | e in content && paths[t] <= e.0 ensures InStack(paths, [t], e.0) {
      assert [t][0] == t;
    }
  }

  lemma PopInner(nodes: seq<Node>, paths: seq<string>, content: set<(string, int)>, t: nat,
                 stack: seq<nat>, unique: set<int>)
    requires Wf(nodes, paths, content) && Outer(nodes, paths, content, t, stack, unique) && stack != []
    ensures var cur := stack[|stack| - 1];
      cur < |nodes| &&
      Inner(nodes, paths, content, t, stack, stack[..|stack| - 1], unique + nodes[cur].ids,
            cur, nodes[cur].children.Keys)
  {
    var n := |stack| - 1;
    var cur := stack[n];
    var base := stack[..n];
    forall i | 0 <= i < |base| ensures Apart(paths[base[i]], paths[cur]) {
      assert base[i] == stack[i];
    }
    Holds(nodes, paths, content, cur);
    MatchesAntitone(content, paths[t], paths[cur]);
    PopComplete(nodes, paths, content, t, stack, unique);
    PopCovered(paths, stack);
  }

  lemma PopComplete(nodes: seq<Node>, paths: seq<string>, content: set<(string, int)>, t: nat,
                    stack: seq<nat>, unique: set<int>)
    requires Wf(nodes, paths, content) && t < |nodes| && stack != [] && stack[|stack| - 1] < |nodes|
    requires forall e | e in content && paths[t] <= e.0 :: e.1 in unique || InStack(paths, stack, e.0)
    ensures var cur := stack[|stack| - 1];
      forall e | e in content && paths[t] <= e.0 ::
        || e.1 in unique + nodes[cur].ids
        || InStack(paths, stack[..|stack| - 1], e.0)
        || (StepsInto(nodes, paths, cur, e.0) && e.0[|paths[cur]|] in nodes[cur].children.Keys)
  {
    var n := |stack| - 1;
    var cur := stack[n];
    var base := stack[..n];
    forall e | e in content && paths[t] <= e.0
      ensures || e.1 in unique + nodes[cur].ids
              || InStack(paths, base, e.0)
              || (StepsInto(nodes, paths, cur, e.0) && e.0[|paths[cur]|] in nodes[cur].children.Keys)
    {
      if e.1 !in unique {
        var i :| 0 <= i < |stack| && stack[i] < |paths| && paths[stack[i]] <= e.0;
        if i < n {
          assert base[i] == stack[i];
        } else {
          Walk(nodes, paths, content, e, cur);
        }
      }
    }
  }

  lemma PopCovered(paths: seq<string>, stack: seq<nat>)
    requires stack != [] && stack[|stack| - 1] < |paths|
    requires forall i | 0 <= i < |stack| - 1 :: stack[i] < |paths| && Apart(paths[stack[i]], paths[stack[|stack| - 1]])
    ensures stack[|stack| - 1] in Covered(paths, stack)
    ensures Covered(paths, stack[..|stack| - 1]) <= Covered(paths, stack) - {stack[|stack| - 1]}
  {
    var n := |stack| - 1;
    var base := stack[..n];
    forall x | x in Covered(paths, base) ensures x in Covered(paths, stack) - {stack[n]} {
      var i :| 0 <= i < |base| && base[i] < |paths| && paths[base[i]] <= paths[x];
      assert stack[i] == base[i];
    }
  }

  lemma PushInner(nodes: seq<Node>, paths: seq<string>, content: set<(string, int)>, t: nat,
                  outer: seq<nat>, stack: seq<nat>, unique: set<int>, cur: nat, keys: set<char>, c: char)
    requires Wf(nodes, paths, content) && Inner(nodes, paths, content, t, outer, stack, unique, cur, keys)
    requires c in keys
    ensures nodes[cur].children[c] < |nodes|
    ensures Inner(nodes, paths, content, t, outer, stack + [nodes[cur].children[c]], unique, cur, keys - {c})
  {
    var nb := |outer| - 1;
    Child(nodes, paths, content, cur, c);
    var ch := nodes[cur].children[c];
    var stack' := stack + [ch];
    var pc := paths[cur];
    assert pc < paths[ch] && paths[ch][|pc|] == c;
    assert stack'[..nb] == stack[..nb];
    PrefixTrans(paths[t], pc, paths[ch]);
    PushAntichain(paths, nb, stack, keys, pc, ch, c);
    PushComplete(nodes, paths, content, t, stack, unique, cur, keys, c);
    PushCovered(paths, outer, stack, cur, ch);
  }

  lemma PushAntichain(paths: seq<string>, nb: nat, stack: seq<nat>, keys: set<char>, pc: string, ch: nat, c: char)
    requires nb <= |stack| && ch < |paths| && forall i | 0 <= i < |stack| :: stack[i] < |paths|
    requires pc < paths[ch] && paths[ch][|pc|] == c && c in keys
    requires forall i | 0 <= i < nb :: Apart(paths[stack[i]], pc)
    requires forall i | nb <= i < |stack| :: pc < paths[stack[i]] && paths[stack[i]][|pc|] !in keys
    requires Antichain(paths, stack)
    ensures Antichain(paths, stack + [ch])
  {
    var stack' := stack + [ch];
    forall i, i2 | 0 <= i < |stack'| && 0 <= i2 < |stack'| && i != i2
      ensures Apart(paths[stack'[i]], paths[stack'[i2]])
    {
      if i < |stack| && i2 < |stack| {
        assert Apart(paths[stack[i]], paths[stack[i2]]);
      } else if i < |stack| {
        ApartFromChild(paths, nb, stack, keys, pc, paths[ch], c, i);
      } else {
        ApartFromChild(paths, nb, stack, keys, pc, paths[ch], c, i2);
      }
    }
  }

  lemma PushComplete(nodes: seq<Node>, paths: seq<string>, content: set<(string, int)>, t: nat,
                     stack: seq<nat>, unique: set<int>, cur: nat, keys: set<char>, c: char)
    requires |nodes| == |paths| && cur < |nodes| && t < |nodes| && c in nodes[cur].children
    requires forall e | e in content && paths[t] <= e.0 ::
      || e.1 in unique
      || InStack(paths, stack, e.0)
      || (StepsInto(nodes, paths, cur, e.0) && e.0[|paths[cur]|] in keys)
    ensures forall e | e in content && paths[t] <= e.0 ::
      || e.1 in unique
      || InStack(paths, stack + [nodes[cur].children[c]], e.0)
      || (StepsInto(nodes, paths, cur, e.0) && e.0[|paths[cur]|] in keys - {c})
  {
    var stack' := stack + [nodes[cur].children[c]];
    forall e | e in content && paths[t] <= e.0
      ensures || e.1 in unique
              || InStack(paths, stack', e.0)
              || (StepsInto(nodes, paths, cur, e.0) && e.0[|paths[cur]|] in keys - {c})
    {
      if InStack(paths, stack, e.0) {
        var i :| 0 <= i < |stack| && stack[i] < |paths| && paths[stack[i]] <= e.0;
        assert stack'[i] == stack[i];
      } else if e.1 !in unique && e.0[|paths[cur]|] == c {
        assert stack'[|stack|] == nodes[cur].children[c];
      }
    }
  }

  lemma PushCovered(paths: seq<string>, outer: seq<nat>, stack: seq<nat>, cur: nat, ch: nat)
    requires outer != [] && outer[|outer| - 1] == cur && cur < |paths| && ch < |paths|
    requires paths[cur] < paths[ch]
    requires Covered(paths, stack) <= Covered(paths, outer) - {cur}
    ensures Covered(paths, stack + [ch]) <= Covered(paths, outer) - {cur}
  {
    var stack' := stack + [ch];
    forall x | x in Covered(paths, stack') ensures x in Covered(paths, outer) - {cur} {
      var i :| 0 <= i < |stack'| && stack'[i] < |paths| && paths[stack'[i]] <= paths[x];
      if i < |stack| {
        assert stack[i] == stack'[i];
        assert x in Covered(paths, stack);
      } else {
        PrefixTrans(paths[cur], paths[ch], paths[x]);
      }
    }
  }

  /** A newly pushed child of `cur` is apart from everything already on the stack. */
  lemma ApartFromChild(paths: seq<string>, nb: nat, stack: seq<nat>, keys: set<char>,
                       pc: string, pch: string, c: char, i: nat)
    requires nb <= |stack| && i < |stack| && stack[i] < |paths|
    requires pc < pch && pch[|pc|] == c && c in keys
    requires i < nb ==> Apart(paths[stack[i]], pc)
    requires nb <= i ==> pc < paths[stack[i]] && paths[stack[i]][|pc|] !in keys
    ensures Apart(paths[stack[i]], pch)
  {
    var ps := paths[stack[i]];
    if i < nb {
      if ps <= pch {
        PrefixesComparable(ps, pc, pch);
        assert false;
      }
      if pch <= ps {
        PrefixTrans(pc, pch, ps);
        assert false;
      }
    } else {
      if ps <= pch {
        assert false;
      }
      if pch <= ps {
        assert false;
      }
    }
  }

  lemma FinishInner(nodes: seq<Node>, paths: seq<string>, content: set<(string, int)>, t: nat,
                    outer: seq<nat>, stack: seq<nat>, unique: set<int>, cur: nat)
    requires Wf(nodes, paths, content) && Inner(nodes, paths, content, t, outer, stack, unique, cur, {})
    ensures Outer(nodes, paths, content, t, stack, unique)
    ensures Covered(paths, stack) < Covered(paths, outer)
  {
  }

  lemma DoneOuter(nodes: seq<Node>, paths: seq<string>, content: set<(string, int)>, t: nat, unique: set<int>)
    requires Wf(nodes, paths, content) && Outer(nodes, paths, content, t, [], unique)
    ensures unique == Matches(content, paths[t])
  {
  }
}

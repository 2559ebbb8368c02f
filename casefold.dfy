/** Case folding used by the case-insensitive tries: every key and every query is
    lower-cased before it is compared. Java's `String.toLowerCase` is locale- and
    Unicode-dependent; this model folds the ASCII letters A-Z and keeps every other
    character, so folding never changes the length of a string. */
module CaseFold {

  predicate IsUpper(c: char) {
    'A' <= c <= 'Z'
  }

  function LowerChar(c: char): char {
    if IsUpper(c) then (c as int - 'A' as int + 'a' as int) as char else c
  }

  /** The string folded character by character. */
  function Lower(s: string): (r: string)
    ensures |r| == |s|
  {
    if s == [] then [] else [LowerChar(s[0])] + Lower(s[1..])
  }

  /** Folding maps every character on its own and keeps the others in place; in
      particular a folded string has no upper-case letter left. */
  lemma {:induction false} LowerChars(s: string)
    ensures forall i | 0 <= i < |s| :: Lower(s)[i] == LowerChar(s[i]) && !IsUpper(Lower(s)[i])
  {
    if s != [] {
      LowerChars(s[1..]);
      assert forall i | 1 <= i < |s| :: Lower(s)[i] == Lower(s[1..])[i - 1];
    }
  }

  /** Folding twice is folding once, so a query and its folded form reach the same node. */
  lemma {:induction false} LowerIdempotent(s: string)
    ensures Lower(Lower(s)) == Lower(s)
  {
    if s != [] {
      LowerIdempotent(s[1..]);
      assert Lower(s)[1..] == Lower(s[1..]);
    }
  }

  /** Folding distributes over concatenation. */
  lemma {:induction false} LowerAppend(a: string, b: string)
    ensures Lower(a + b) == Lower(a) + Lower(b)
  {
    if a != [] {
      assert (a + b)[0] == a[0] && (a + b)[1..] == a[1..] + b;
      LowerAppend(a[1..], b);
    } else {
      assert a + b == b;
    }
  }

  /** Folding keeps prefixes: a prefix of a key folds to a prefix of the folded key. */
  lemma LowerPrefix(w: string, v: string)
    requires w <= v
    ensures Lower(w) <= Lower(v)
  {
    assert v == w + v[|w|..];
    LowerAppend(w, v[|w|..]);
  }
}

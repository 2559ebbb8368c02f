/** Element choice. A statement `var x :| x in s` needs the verifier to know that `s`
    has an element; these lemmas turn `s != {}` into that fact for the element types the
    model picks from. */
module Choice {

  /** A non-empty set of integers has an element. */
  lemma Inhabited(s: set<int>)
    requires s != {}
    ensures exists y :: y in s
  {
    if forall y :: y !in s {
      assert false;
    }
  }

  /** A non-empty set of characters has an element. */
  lemma CharInhabited(s: set<char>)
    requires s != {}
    ensures exists y :: y in s
  {
    if forall y :: y !in s {
      assert false;
    }
  }
}

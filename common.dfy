/** Small helpers shared by the thumbnail cache and the page viewer. */
module Common {

  datatype Option<T> = None | Some(value: T)

  /** An open PDF document as both components see it: its page count and the
      pages for which asking the document for a page object succeeds. */
  datatype Document = Document(numPages: nat, loadable: set<int>)

  function Max(a: int, b: int): int { if a >= b then a else b }

  function Min(a: int, b: int): int { if a <= b then a else b }

  /** A non-empty set of page numbers has a member to pick. */
  lemma HasElement(s: set<int>)
    requires s != {}
    ensures exists k :: k in s
  {
    if forall k :: k !in s {
      assert false;
    }
  }
}

/** Session-unique identifiers (`uuid.uuid1()` in the source). */
module Ids {

  /** Identifiers are positive, so none of them is falsy. */
  type Id = n: nat | n > 0 witness 1

  /**
   * The identifier generator. Every identifier it hands out is larger than
   * all earlier ones, which is what the source relies on uuid1 for:
   * an identifier is never handed out twice in a session.
   */
  class IdSource {
    var next: Id

    constructor ()
      ensures next == 1
    {
      next := 1;
    }

    method Fresh() returns (id: Id)
      modifies this
      ensures id == old(next) && next == old(next) + 1
    {
      id := next;
      next := next + 1;
    }
  }
}

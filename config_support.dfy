/** The transactional edit of one configuration node (ConfigSupport.apply with a
    SingleConfigCode). The store's locking and persistence are outside this model:
    whether the commit is rejected is an input. */
module ConfigSupport {

  /** What a transaction yields: the node as committed, or a TransactionFailure
      that carries no node, so a partial edit can never be observed. */
  datatype Commit<T> = Committed(node: T) | TransactionFailure

  /** Runs `edit` on `node` as one transaction. A rejected commit changes nothing;
      an accepted one makes every part of the edit visible at once. */
  function Apply<T>(node: T, edit: T -> T, commitFails: bool): (r: Commit<T>)
    ensures r.TransactionFailure? <==> commitFails
    ensures r.Committed? ==> r.node == edit(node)
  {
    if commitFails then TransactionFailure else Committed(edit(node))
  }
}

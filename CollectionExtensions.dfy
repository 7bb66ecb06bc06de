/** The subset test of CosmoteerModLib.Extensions.CollectionExtensions. */
module CollectionExtensions {

  /**
    * Walks `targets` front to back and answers false at the first target
    * that is not in `collection`, true when every target is present.
    * The collection is only read.
    */
  function ContainsAll<T>(collection: set<T>, targets: seq<T>): (r: bool)
    ensures r <==> forall t :: t in targets ==> t in collection
    ensures targets == [] ==> r
  {
    if |targets| == 0 then true
    else if targets[0] !in collection then false
    else
      assert forall t :: t in targets ==> t == targets[0] || t in targets[1..];
      ContainsAll(collection, targets[1..])
  }

  /** The answer is false exactly when some target is missing, and the first missing one decides it. */
  lemma {:induction false} ContainsAllFirstMissing<T>(collection: set<T>, targets: seq<T>, k: nat)
    requires k < |targets| && targets[k] !in collection
    requires forall j :: 0 <= j < k ==> targets[j] in collection
    ensures !ContainsAll(collection, targets)
    ensures ContainsAll(collection, targets[..k])
  {
    assert targets[k] in targets;
    assert forall t :: t in targets[..k] ==> t in collection;
  }
}

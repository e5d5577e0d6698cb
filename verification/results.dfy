/** Failure-carrying wrappers shared by the graph builder, the fusion step and
    the per-row driver. */
module Results {

  /** Why a pair could not be turned into a combined graph. */
  datatype Error =
    | InvalidStructure(smiles: string)                  // the parser produced no molecule
    | NegativePadding(scoreWidth: nat, atomWidth: nat)  // the score row is narrower than an atom row
    | NodeWidthMismatch(width1: nat, width2: nat)       // the two molecules' atom rows differ in width
    | EdgeWidthMismatch(width1: nat, width2: nat)       // the two molecules' bond rows differ in width
    | MissingDimension                                  // a column count was read from a matrix with no rows

  datatype Option<+T> = None | Some(value: T)

  datatype Result<+T> = Success(value: T) | Failure(error: Error)

  /** Applies `f` to every item in order and stops at the first failure. */
  function CollectAll<T, U>(items: seq<T>, f: T -> Result<U>): (r: Result<seq<U>>)
    ensures r.Success? <==> forall i :: 0 <= i < |items| ==> f(items[i]).Success?
    ensures r.Success? ==>
      && |r.value| == |items|
      && forall i :: 0 <= i < |items| ==> f(items[i]) == Success(r.value[i])
    ensures r.Failure? ==>
      exists i :: (0 <= i < |items| && f(items[i]) == Failure(r.error)
        && forall j :: 0 <= j < i ==> f(items[j]).Success?)
    decreases |items|
  {
    if |items| == 0 then Success([])
    else
      var first := f(items[0]);
      var rest := CollectAll(items[1..], f);
      assert forall i :: 1 <= i < |items| ==> items[i] == items[1..][i - 1];
      if first.Failure? then
        Failure(first.error)
      else if rest.Failure? then
        Failure(rest.error)
      else
        Success([first.value] + rest.value)
  }
}

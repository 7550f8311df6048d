/** Small wrappers shared by every module of the model. */
module Common {

  /** Python's `None` or a present value. */
  datatype Option<T> = None | Some(value: T)

  /**
   * An argument of a dynamically typed call: either an instance of the
   * expected type T, or a value of some other type (which the source
   * rejects with an exception).
   */
  datatype Dyn<T> = Instance(value: T) | Foreign

  /** The exceptions the modelled code raises. */
  datatype Error = TypeError | ValueError | AttributeError | IndexError

  /** The outcome of a statement that may raise. */
  datatype Outcome = Pass | Fail(error: Error)

  /** A value, or the exception raised instead of producing it. */
  datatype Result<T> = Success(value: T) | Failure(error: Error)

  /** No element occurs twice. */
  predicate Distinct<T(==)>(s: seq<T>)
  {
    forall i, j :: 0 <= i < j < |s| ==> s[i] != s[j]
  }

  /** Two new, different elements placed between the parts of a sequence without repetitions keep it so. */
  lemma DistinctInsertPair<T>(X: seq<T>, Y: seq<T>, a: T, b: T)
    requires Distinct(X + Y) && a != b && a !in X + Y && b !in X + Y
    ensures Distinct(X + [a, b] + Y)
  {
    var s, w := X + [a, b] + Y, X + Y;
    forall i | 0 <= i < |s|
      ensures (i < |X| ==> s[i] == w[i]) && (i >= |X| + 2 ==> s[i] == w[i - 2])
      ensures i == |X| ==> s[i] == a
      ensures i == |X| + 1 ==> s[i] == b
    {
    }
    forall i, j | 0 <= i < j < |s|
      ensures s[i] != s[j]
    {
      var i' := if i < |X| then i else i - 2;
      var j' := if j < |X| then j else j - 2;
      if i >= |X| && i < |X| + 2 {
        if j >= |X| + 2 {
          assert s[j] == w[j'];
        }
      } else if j >= |X| && j < |X| + 2 {
        assert s[i] == w[i'];
      } else {
        assert s[i] == w[i'] && s[j] == w[j'] && i' < j';
      }
    }
  }
}

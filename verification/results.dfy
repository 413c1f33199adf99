/** The library's outcome types.

    `Result<T>` is the value-carrying outcome every fallible operation returns:
    either a success carrying a value, or a failure carrying a reason.  The
    C# struct stores a value, a failure flag and an error string; its
    observable accessors (`IsFailure`, `IsSuccess`, `Error`, `Value`) are
    modelled as members below.  `Outcome` is the non-generic result that only
    carries the tag and the error text.

    Exceptions thrown by the library (shape mismatches, division by a zero
    scalar, an index out of range) are modelled as `Failure` values carrying
    the exception's message, so every operation of the model is total.
 */
module Results {

  datatype Result<+T> = Success(v: T) | Failure(error: string) {

    /** The failure flag of the struct; also makes `:-` available. */
    predicate IsFailure() {
      Failure?
    }

    /** `IsSuccess` is defined in the source as the negation of `IsFailure`. */
    predicate IsSuccess()
      ensures IsSuccess() <==> !IsFailure()
    {
      Success?
    }

    function PropagateFailure<U>(): Result<U>
      requires Failure?
    {
      Failure(error)
    }

    function Extract(): T
      requires Success?
    {
      v
    }

    /** The struct's `Error` property: empty on success. */
    function Error(): (e: string)
      ensures Success? ==> e == ""
      ensures Failure? ==> e == error
    {
      if Success? then "" else error
    }

    /** The struct's `Value` property; `dflt` stands for C#'s `default(T)`,
        which a failed result holds. */
    function Value(dflt: T): (x: T)
      ensures Success? ==> x == v
      ensures Failure? ==> x == dflt
    {
      if Success? then v else dflt
    }
  }

  /** The non-generic result: a tag and an error text. */
  datatype Outcome = Passed | Failed(error: string) {

    predicate IsFailure() {
      Failed?
    }

    predicate IsSuccess()
      ensures IsSuccess() <==> !IsFailure()
    {
      Passed?
    }

    function Error(): (e: string)
      ensures Passed? ==> e == ""
      ensures Failed? ==> e == error
    {
      if Passed? then "" else error
    }
  }

  /** `Result.Success<T>(v)` and the implicit conversion from `T` build the
      same success value. */
  function Succeed<T(!new)>(value: T): (r: Result<T>)
    ensures r.IsSuccess() && !r.IsFailure()
    ensures r.Error() == ""
    ensures forall d: T :: r.Value(d) == value
  {
    Success(value)
  }

  /** `Result.Failure<T>(e)`: failed, carrying `e`, holding the default value. */
  function Fail<T(!new)>(e: string): (r: Result<T>)
    ensures r.IsFailure() && !r.IsSuccess()
    ensures r.Error() == e
    ensures forall d: T :: r.Value(d) == d
  {
    Failure(e)
  }

  /** The tag discipline of both result types: each value is exactly one of
      success or failure, and a success never carries an error text. */
  lemma {:induction false} TagDiscipline<T>(r: Result<T>, o: Outcome)
    ensures r.IsSuccess() != r.IsFailure()
    ensures o.IsSuccess() != o.IsFailure()
    ensures r.IsSuccess() ==> r.Error() == ""
    ensures o.IsSuccess() ==> o.Error() == ""
  {
  }

  /** The decimal text of an integer, as C# string interpolation writes it:
      no leading zeros, a minus sign for negative values. */
  function IntText(n: int): (s: string)
    ensures |s| >= 1
    ensures s[0] == '-' <==> n < 0
    ensures forall i :: 0 <= i < |s| ==> s[i] in "-0123456789"
  {
    if n < 0 then "-" + NatText(-n) else NatText(n)
  }

  function NatText(n: nat): (s: string)
    ensures |s| >= 1 && s[0] != '-'
    ensures forall i :: 0 <= i < |s| ==> s[i] in "0123456789"
  {
    if n < 10 then [Digit(n)] else NatText(n / 10) + [Digit(n % 10)]
  }

  function Digit(d: nat): (c: char)
    requires d < 10
    ensures c in "0123456789"
  {
    "0123456789"[d]
  }

  /** Non-generic `Success()` and `Failure(e)`. */
  lemma {:induction false} OutcomeConstructors(e: string)
    ensures Passed.IsSuccess() && Passed.Error() == ""
    ensures Failed(e).IsFailure() && Failed(e).Error() == e
  {
  }
}

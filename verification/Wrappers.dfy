/** Option and Result, shared by every module of the model. */
module Wrappers {

  datatype Option<+T> = None | Some(value: T) {
    function GetOr(default: T): T {
      if Some? then value else default
    }
  }

  /** What the modelled code raises: two exceptions of core/exceptions.py, the database's refusal of
    * a foreign key, and the interpreter's refusal of a deeper recursion. */
  datatype Error = NotFoundError | MemoryTreeError | IntegrityError | RecursionError

  datatype Result<+T> = Ok(value: T) | Err(error: Error)

  ghost predicate Distinct<T>(s: seq<T>) {
    forall i, j :: 0 <= i < j < |s| ==> s[i] != s[j]
  }

  lemma DistinctSnoc<T>(s: seq<T>, x: T)
    requires Distinct(s)
    ensures Distinct(s + [x]) <==> x !in s
  {
    assert (s + [x])[|s|] == x;
    assert forall i :: 0 <= i < |s| ==> (s + [x])[i] == s[i];
  }
}

/** Optional values, used for every lookup that may come back NULL. */
module Wrappers {

  /** `None` stands for a C NULL pointer or a failed regular-expression match. */
  datatype Option<+T> = None | Some(value: T)

  /** The outcome of trying several lookups in order and keeping the first
      one that produced a value, as the C resolvers do with `if (!proc)`. */
  function FirstSome<T>(attempts: seq<Option<T>>): (r: Option<T>)
    ensures r.None? <==> forall i :: 0 <= i < |attempts| ==> attempts[i].None?
    ensures r.Some? ==>
              exists i :: 0 <= i < |attempts| && attempts[i] == r
                          && forall j :: 0 <= j < i ==> attempts[j].None?
  {
    if |attempts| == 0 then None
    else if attempts[0].Some? then attempts[0]
    else
      var rest := FirstSome(attempts[1..]);
      assert forall i :: 1 <= i < |attempts| ==> attempts[i] == attempts[1..][i - 1];
      rest
  }
}

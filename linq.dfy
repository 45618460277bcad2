/** The three LINQ query operators the controllers use on the store's sets,
    as pure functions over sequences. */
module Linq {

  datatype Option<+T> = None | Some(value: T)

  /** `FirstOrDefault(p)`: the position of the first element satisfying `p`,
      or None when no element does. */
  function FirstIndex<T>(s: seq<T>, p: T -> bool): (r: Option<nat>)
    ensures r.None? <==> forall i :: 0 <= i < |s| ==> !p(s[i])
    ensures r.Some? ==> r.value < |s| && p(s[r.value])
    ensures r.Some? ==> forall j :: 0 <= j < r.value ==> !p(s[j])
  {
    if |s| == 0 then None
    else if p(s[0]) then Some(0)
    else
      match FirstIndex(s[1..], p)
      case None => None
      case Some(k) => Some(k + 1)
  }

  /** `Any(p)`: some element satisfies `p`. */
  function Any<T>(s: seq<T>, p: T -> bool): (r: bool)
    ensures r <==> exists i :: 0 <= i < |s| && p(s[i])
  {
    if |s| == 0 then false
    else if p(s[0]) then true
    else
      var rest := Any(s[1..], p);
      assert rest <==> exists i :: 1 <= i < |s| && p(s[i]) by {
        if rest {
          var k :| 0 <= k < |s| - 1 && p(s[1..][k]);
          assert p(s[k + 1]);
        }
      }
      rest
  }

  /** `Where(p).ToList()`: the elements satisfying `p`, in their order; each
      kept element occurs exactly as often as in `s`, and nothing else occurs. */
  function Where<T(==,!new)>(s: seq<T>, p: T -> bool): (r: seq<T>)
    ensures |r| <= |s|
    ensures forall x :: x in r <==> x in s && p(x)
    ensures forall x :: multiset(r)[x] == if p(x) then multiset(s)[x] else 0
  {
    if |s| == 0 then []
    else
      assert s == [s[0]] + s[1..];
      var rest := Where(s[1..], p);
      if p(s[0]) then [s[0]] + rest else rest
  }
}

/**
 * The few JavaScript array operations the map conversion relies on, stated
 * over Dafny sequences: `findIndex`, `filter(Boolean)` over a list whose
 * entries are either a value or `undefined`, and row concatenation.
 */
module ArrayOps {

  /** A value or JavaScript's `undefined`. */
  datatype Option<T> = None | Some(value: T)

  /**
   * `s.findIndex(p)`: the index of the first element satisfying `p`, or -1
   * when there is none.
   */
  function FindIndex<T>(s: seq<T>, p: T -> bool): (r: int)
    ensures -1 <= r < |s|
    ensures r == -1 <==> forall k :: 0 <= k < |s| ==> !p(s[k])
    ensures 0 <= r ==> p(s[r]) && forall k :: 0 <= k < r ==> !p(s[k])
  {
    if s == [] then -1
    else if p(s[0]) then 0
    else
      var r := FindIndex(s[1..], p);
      assert forall k :: 1 <= k < |s| ==> s[k] == s[1..][k - 1];
      if r == -1 then -1 else r + 1
  }

  /**
   * The positions of the defined entries of `s`, in increasing order: the
   * entries `filter(Boolean)` keeps.
   */
  ghost function Kept<T>(s: seq<Option<T>>): (idx: seq<nat>)
    ensures forall j :: 0 <= j < |idx| ==> idx[j] < |s| && s[idx[j]].Some?
    ensures forall j, k :: 0 <= j < k < |idx| ==> idx[j] < idx[k]
    ensures forall i :: 0 <= i < |s| && s[i].Some? ==> i in idx
  {
    if s == [] then []
    else
      var front := s[..|s| - 1];
      var idx := Kept(front);
      assert forall j :: 0 <= j < |idx| ==> s[idx[j]] == front[idx[j]];
      if s[|s| - 1].Some? then idx + [|s| - 1] else idx
  }

  /**
   * `s.filter(Boolean)` on a list of objects or `undefined`: the defined
   * values, in their original order.  (An object is always truthy, so only
   * the `undefined` entries are dropped.)
   */
  function Compact<T>(s: seq<Option<T>>): (r: seq<T>)
    ensures |r| == |Kept(s)|
    ensures forall j :: 0 <= j < |r| ==> s[Kept(s)[j]] == Some(r[j])
  {
    if s == [] then []
    else
      var front := s[..|s| - 1];
      var r := Compact(front);
      assert forall j :: 0 <= j < |r| ==> s[Kept(front)[j]] == front[Kept(front)[j]];
      assert Kept(s) == Kept(front) + if s[|s| - 1].Some? then [|s| - 1] else [];
      match s[|s| - 1]
      case Some(v) => r + [v]
      case None => r
  }

  /** The rows of a grid laid end to end. */
  function Flatten<T>(rows: seq<seq<T>>): seq<T>
  {
    if rows == [] then [] else Flatten(rows[..|rows| - 1]) + rows[|rows| - 1]
  }
}

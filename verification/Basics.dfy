/** Small shared vocabulary: optional values and duplicate-free lists. */
module Basics {

  datatype Option<+T> = None | Some(value: T)

  ghost predicate NoDuplicates<T>(s: seq<T>)
  {
    forall i, j :: 0 <= i < j < |s| ==> s[i] != s[j]
  }

  /** The elements of `s` in order of first appearance: what a JavaScript `Set` built from `s` iterates over. */
  function Distinct<T(==, !new)>(s: seq<T>): (r: seq<T>)
    ensures NoDuplicates(r)
    ensures forall x :: x in r <==> x in s
  {
    if s == [] then []
    else
      var init := Distinct(s[..|s| - 1]);
      var last := s[|s| - 1];
      assert s == s[..|s| - 1] + [last];
      if last in init then init else init + [last]
  }

  /** The entry of an ordinary map, or `None` where JavaScript's `Map.get` gives `undefined`. */
  function Get<K, V>(m: map<K, V>, k: K): Option<V>
  {
    if k in m then Some(m[k]) else None
  }
}

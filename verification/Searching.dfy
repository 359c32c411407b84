/** Looking up the first element with a key. */
module Searching {
  /** Where the first element with key `k` is, or the length if there is none. */
  function FirstWith<T, K(==)>(key: T -> K, s: seq<T>, k: K): (i: nat)
    ensures i <= |s| && (i < |s| ==> key(s[i]) == k)
    ensures forall j | 0 <= j < i :: key(s[j]) != k
  {
    if s == [] then 0
    else
      var i := FirstWith(key, s[..|s| - 1], k);
      if i < |s| - 1 then i else if key(s[i]) == k then i else i + 1
  }
}

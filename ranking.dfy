/**
 * Python's `max(items, key=f)`: the items are scanned from the left and the
 * current best is replaced only by an item whose key is strictly greater, so
 * the result is the FIRST item whose key is maximal.
 */
module Ranking {

  /** Index chosen by `max(s, key=key)`; `max` of an empty sequence raises, hence the requires. */
  function FirstMax<T>(s: seq<T>, key: T -> real): (k: nat)
    requires |s| > 0
    ensures k < |s|
    ensures forall j :: 0 <= j < |s| ==> key(s[j]) <= key(s[k])
    ensures forall j :: 0 <= j < k ==> key(s[j]) < key(s[k])
  {
    if |s| == 1 then 0
    else
      var k := FirstMax(s[..|s| - 1], key);
      if key(s[k]) < key(s[|s| - 1]) then |s| - 1 else k
  }
}

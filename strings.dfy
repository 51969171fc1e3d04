/** Small facts about character sequences used by the text-processing parts of the model. */
module Strings {

  /** Index of the first `c` in `s`, or |s| when `s` has none. */
  function IndexOf(s: string, c: char): (k: nat)
    ensures k <= |s|
    ensures k < |s| ==> s[k] == c
    ensures forall i :: 0 <= i < k ==> s[i] != c
  {
    if s == [] then 0 else if s[0] == c then 0 else 1 + IndexOf(s[1..], c)
  }

  /** Searching a concatenation finds a hit in the first part before looking at the second. */
  lemma IndexOfAppend(s: string, t: string, c: char)
    ensures IndexOf(s + t, c) == if IndexOf(s, c) < |s| then IndexOf(s, c) else |s| + IndexOf(t, c)
  {
    var k := IndexOf(s + t, c);
    var j := IndexOf(s, c);
    if j < |s| {
      assert (s + t)[j] == c;
    } else {
      var m := IndexOf(t, c);
      assert forall i :: 0 <= i < |s| ==> (s + t)[i] == s[i];
      if m < |t| {
        assert (s + t)[|s| + m] == c;
      }
      assert forall i :: |s| <= i < |s| + m ==> (s + t)[i] == t[i - |s|];
    }
  }
}

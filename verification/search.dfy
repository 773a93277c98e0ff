/** The early-exit scan that session.go writes several times: walk a
    sequence in order and stop at the first element that passes a test. */
module Search {
  import opened Wrappers

  /** Index of the first element of `s` satisfying `p`, if there is one. */
  function FirstIndex<T>(s: seq<T>, p: T -> bool): (r: Option<nat>)
    ensures r.Some? ==> r.value < |s| && p(s[r.value])
    ensures r.Some? ==> forall j :: 0 <= j < r.value ==> !p(s[j])
    ensures r.None? <==> forall j :: 0 <= j < |s| ==> !p(s[j])
  {
    if s == [] then None
    else if p(s[0]) then Some(0)
    else match FirstIndex(s[1..], p)
      case None => None
      case Some(i) => Some(i + 1)
  }

  /** The first index is the only index that passes with nothing before it. */
  lemma FirstIndexUnique<T>(s: seq<T>, p: T -> bool, i: nat)
    requires i < |s| && p(s[i])
    requires forall j :: 0 <= j < i ==> !p(s[j])
    ensures FirstIndex(s, p) == Some(i)
  {
  }

  /** Inserting an element that fails the test changes neither whether the
      scan stops nor the element it stops at. */
  lemma FirstIndexSkips<T>(a: seq<T>, x: T, b: seq<T>, p: T -> bool)
    requires !p(x)
    ensures FirstIndex(a + [x] + b, p).Some? == FirstIndex(a + b, p).Some?
    ensures FirstIndex(a + b, p).Some? ==>
              (a + [x] + b)[FirstIndex(a + [x] + b, p).value] == (a + b)[FirstIndex(a + b, p).value]
  {
    var s, t := a + [x] + b, a + b;
    match FirstIndex(t, p)
    case Some(i) =>
      var k := if i < |a| then i else i + 1;
      assert s[k] == t[i];
      forall j | 0 <= j < k ensures !p(s[j]) {
        if j < |a| { assert s[j] == t[j]; }
        else if j > |a| { assert s[j] == t[j - 1]; }
      }
      FirstIndexUnique(s, p, k);
    case None =>
      forall j | 0 <= j < |s| ensures !p(s[j]) {
        if j < |a| { assert s[j] == t[j]; }
        else if j > |a| { assert s[j] == t[j - 1]; }
      }
  }
}

/**
 * `list.stream().filter(p).findFirst()` when evaluating `p` on an element may
 * throw (a NullPointerException on a missing field): the stream tests the
 * elements lazily from the left and stops at the first one that passes, so an
 * element that throws matters only if no earlier element passed.
 */
module Search {

  /** What testing one element gives: it passes, it fails, or the test throws. */
  datatype Probe = Hit | Miss | Fault

  datatype Found<T> = At(index: nat, item: T) | Absent | Threw(index: nat)

  function FindFirst<T>(s: seq<T>, p: T -> Probe): (r: Found<T>)
    ensures r.At? ==> r.index < |s| && s[r.index] == r.item && p(r.item) == Hit
    ensures r.Threw? ==> r.index < |s| && p(s[r.index]) == Fault
    ensures r.At? || r.Threw? ==> forall j :: 0 <= j < r.index ==> p(s[j]) == Miss
    ensures r.Absent? <==> forall j :: 0 <= j < |s| ==> p(s[j]) == Miss
    decreases |s|
  {
    if s == [] then Absent
    else
      match p(s[0])
      case Hit => At(0, s[0])
      case Fault => Threw(0)
      case Miss =>
        match FindFirst(s[1..], p)
        case At(i, x) => At(i + 1, x)
        case Absent => Absent
        case Threw(i) => Threw(i + 1)
  }

  /** Appending an element that passes to a list none of whose elements throws
      makes the search succeed. */
  lemma FindFirstAppendHit<T>(s: seq<T>, x: T, p: T -> Probe)
    requires forall j :: 0 <= j < |s| ==> p(s[j]) != Fault
    requires p(x) == Hit
    ensures FindFirst(s + [x], p).At?
  {
    assert (s + [x])[|s|] == x;
  }
}

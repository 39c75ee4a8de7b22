/**
 * Small shared vocabulary: optional values, results, bytes, the JavaScript
 * notion of a "truthy" string field, and first-match search over a sequence
 * (the shape of `Array.prototype.find` and of a `findOne` query).
 */
module Util {

  datatype Option<+T> = None | Some(value: T)

  datatype Result<+R, +E> = Success(value: R) | Failure(error: E)

  newtype byte = x: int | 0 <= x < 256

  /** A request field as JavaScript's `!x` sees it: absent (undefined/null) or the empty string is falsy. */
  predicate Truthy(s: Option<string>) {
    s.Some? && s.value != ""
  }

  /** Index of the first element satisfying `p`, or None when there is none. */
  function FindFirst<T>(s: seq<T>, p: T -> bool): (r: Option<nat>)
    ensures r.Some? ==> r.value < |s| && p(s[r.value])
    ensures r.Some? ==> forall j :: 0 <= j < r.value ==> !p(s[j])
    ensures r.None? ==> forall j :: 0 <= j < |s| ==> !p(s[j])
  {
    if |s| == 0 then None
    else if p(s[0]) then Some(0)
    else
      match FindFirst(s[1..], p)
      case None => None
      case Some(i) => Some(i + 1)
  }

  /** Appending an element never changes where the first match of a prefix is found. */
  lemma {:induction false} FindFirstAppend<T>(s: seq<T>, x: T, p: T -> bool)
    requires FindFirst(s, p).Some?
    ensures FindFirst(s + [x], p) == FindFirst(s, p)
  {
    if p(s[0]) {
      assert (s + [x])[0] == s[0];
    } else {
      assert (s + [x])[1..] == s[1..] + [x];
      FindFirstAppend(s[1..], x, p);
    }
  }

  /** When nothing in `s` matches, the first match in `s + [x]` is `x` itself, if it matches. */
  lemma {:induction false} FindFirstAppendFresh<T>(s: seq<T>, x: T, p: T -> bool)
    requires forall j :: 0 <= j < |s| ==> !p(s[j])
    ensures FindFirst(s + [x], p) == if p(x) then Some(|s|) else None
  {
    if |s| == 0 {
      assert s + [x] == [x];
    } else {
      assert (s + [x])[0] == s[0];
      assert (s + [x])[1..] == s[1..] + [x];
      FindFirstAppendFresh(s[1..], x, p);
    }
  }
}

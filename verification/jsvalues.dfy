/** The slice of JavaScript semantics the notes code depends on: the shape of an
    incoming request field, and Array.prototype.slice. */
module JsValues {
  import opened Wrappers

  /** A field read from a request body or query string: missing (`undefined`),
      a string, or any other JSON value (number, boolean, null, object, array). */
  datatype JsVal = Absent | Str(s: string) | Other

  /** How Array.prototype.slice turns a relative index into a position in
      `0..len`: a negative index counts back from the end, and the result is clamped. */
  function ClampIndex(k: int, len: nat): (r: nat)
    ensures r <= len
    ensures 0 <= k ==> r == Min(k, len)
  {
    if k < 0 then (if len + k < 0 then 0 else len + k)
    else if k > len then len
    else k
  }

  /** `s.slice(start)` when `end` is None and `s.slice(start, end)` otherwise. */
  function Slice<T>(s: seq<T>, start: int, end: Option<int>): (r: seq<T>)
    ensures |r| <= |s|
    ensures 0 <= start ==> end.None? ==> r == s[if start <= |s| then start else |s|..]
  {
    var a := ClampIndex(start, |s|);
    var b := if end.None? then |s| else ClampIndex(end.value, |s|);
    if a < b then s[a..b] else []
  }

  /** With non-negative bounds, slicing takes the clamped window `[start, end)`. */
  lemma SliceNonNegative<T>(s: seq<T>, start: nat, end: nat)
    requires start <= end
    ensures Slice(s, start, Some(end)) == s[Min(start, |s|)..Min(end, |s|)]
  {
  }

  function Min(a: int, b: int): int {
    if a <= b then a else b
  }

  /** Math.max on integers. */
  function Max(a: int, b: int): int {
    if a >= b then a else b
  }
}

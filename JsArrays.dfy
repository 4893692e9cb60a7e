/** `Array.prototype.slice` and `Array.prototype.splice(i, 1)` on sequences. */
module JsArrays {

  /** How `slice` turns a relative index into a position: negative values
      count from the end, and the result is clamped to `[0, len]`. */
  function ClampIndex(rel: int, len: nat): (k: nat)
    ensures k <= len
    ensures 0 <= rel <= len ==> k == rel
  {
    if rel < 0 then (if len + rel < 0 then 0 else len + rel)
    else if rel < len then rel
    else len
  }

  /** Clamping never moves two indices further apart than they were. */
  lemma ClampBetween(a: int, b: int, len: nat)
    requires a <= b
    ensures ClampIndex(b, len) - ClampIndex(a, len) <= b - a
  {
  }

  /** `s.slice(start, end)`. */
  function Slice<T>(s: seq<T>, start: int, end: int): (r: seq<T>)
    ensures |r| <= |s|
    ensures forall x :: x in r ==> x in s
  {
    var k, f := ClampIndex(start, |s|), ClampIndex(end, |s|);
    if k < f then s[k..f] else []
  }

  /** A slice never holds more than `end - start` elements; with `end`
      before `start` it is empty unless `end` counts from the end of `s`
      while `start` does not. */
  lemma SliceLength<T>(s: seq<T>, start: int, end: int)
    ensures start <= end ==> |Slice(s, start, end)| <= end - start
    ensures end < start && (0 <= end || start < 0) ==> Slice(s, start, end) == []
  {
    if start <= end {
      ClampBetween(start, end, |s|);
    }
  }

  /** A slice is a contiguous run of `s`, starting at the clamped `start`. */
  lemma SliceIsWindow<T>(s: seq<T>, start: int, end: int)
    ensures var k := ClampIndex(start, |s|);
      k + |Slice(s, start, end)| <= |s| && Slice(s, start, end) == s[k..k + |Slice(s, start, end)|]
  {
  }

  /** With non-negative bounds a slice is the run `[start, end)` cut off at the end of `s`. */
  lemma SliceForward<T>(s: seq<T>, start: int, end: int)
    requires 0 <= start <= end
    ensures var k := if start < |s| then start else |s|;
      var f := if end < |s| then end else |s|;
      Slice(s, start, end) == s[k..f]
  {
  }

  /** With negative bounds a slice counts back from the end of `s`. */
  lemma SliceBackward<T>(s: seq<T>, start: int, end: int)
    requires start <= end < 0
    ensures var k := if |s| + start < 0 then 0 else |s| + start;
      var f := if |s| + end < 0 then 0 else |s| + end;
      Slice(s, start, end) == s[k..f]
  {
  }

  /** `s.splice(i, 1)`: the sequence left after removing the element at `i`. */
  function RemoveAt<T>(s: seq<T>, i: int): (r: seq<T>)
    requires 0 <= i < |s|
    ensures |r| == |s| - 1
    ensures forall j :: 0 <= j < i ==> r[j] == s[j]
    ensures forall j :: i <= j < |r| ==> r[j] == s[j + 1]
    ensures multiset(r) + multiset{s[i]} == multiset(s)
  {
    assert s == s[..i] + [s[i]] + s[i + 1..];
    s[..i] + s[i + 1..]
  }
}

/** Character-level helpers shared by the handler's string steps: the
    JavaScript whitespace class, substring search and trimming. */
module Text {
  import opened Wrappers

  /** JavaScript's whitespace class: the WhiteSpace and LineTerminator code
      points of ECMAScript, which is the set matched by the regex class `\s`
      and removed by `String.prototype.trim`. */
  predicate IsWs(c: char) {
    var n := c as int;
    n == 0x09 || n == 0x0A || n == 0x0B || n == 0x0C || n == 0x0D || n == 0x20
    || n == 0xA0 || n == 0x1680 || (0x2000 <= n <= 0x200A)
    || n == 0x2028 || n == 0x2029 || n == 0x202F || n == 0x205F
    || n == 0x3000 || n == 0xFEFF
  }

  /** `s[i..j]` is a (possibly empty) run of whitespace. */
  predicate AllWs(s: string, i: int, j: int) {
    0 <= i <= j <= |s| && forall t :: i <= t < j ==> IsWs(s[t])
  }

  /** `pat` occurs in `s` starting at position `i`. */
  predicate OccursAt(s: string, pat: string, i: int) {
    0 <= i && i + |pat| <= |s| && s[i..i + |pat|] == pat
  }

  /** `String.prototype.indexOf(pat, from)`: the first position at or after
      `from` where `pat` occurs, `None` standing for -1. */
  function IndexOf(s: string, pat: string, from: nat): (r: Option<nat>)
    ensures r.Some? ==> from <= r.value && OccursAt(s, pat, r.value)
    ensures r.Some? ==> forall j :: from <= j < r.value ==> !OccursAt(s, pat, j)
    ensures r.None? ==> forall j :: from <= j ==> !OccursAt(s, pat, j)
    decreases |s| - from
  {
    if from + |pat| > |s| then None
    else if s[from..from + |pat|] == pat then Some(from)
    else IndexOf(s, pat, from + 1)
  }

  /** End of the maximal whitespace run that starts at `i`, as a greedy `\s*`
      first consumes it. */
  function SkipWs(s: string, i: nat): (r: nat)
    requires i <= |s|
    ensures i <= r <= |s| && AllWs(s, i, r)
    ensures r == |s| || !IsWs(s[r])
    decreases |s| - i
  {
    if i < |s| && IsWs(s[i]) then SkipWs(s, i + 1) else i
  }

  /** Start of the maximal whitespace run that ends at `hi`, not going below
      `lo`. */
  function BackWs(s: string, lo: nat, hi: nat): (r: nat)
    requires lo <= hi <= |s|
    ensures lo <= r <= hi && AllWs(s, r, hi)
    ensures r == lo || !IsWs(s[r - 1])
    decreases hi - lo
  {
    if lo < hi && IsWs(s[hi - 1]) then BackWs(s, lo, hi - 1) else hi
  }

  /** `String.prototype.trim`: drops whitespace from both ends. */
  function Trim(s: string): (r: string)
    ensures |r| == 0 || (!IsWs(r[0]) && !IsWs(r[|r| - 1]))
    ensures exists i :: AllWs(s, 0, i) && i + |r| <= |s| && s[i..i + |r|] == r && AllWs(s, i + |r|, |s|)
  {
    var i := SkipWs(s, 0);
    var j := BackWs(s, i, |s|);
    assert AllWs(s, 0, i) && s[i..i + |s[i..j]|] == s[i..j] && AllWs(s, j, |s|);
    s[i..j]
  }
}

/** ASCII-only case folding, as Rust's `str::eq_ignore_ascii_case` does it. */
module Ascii {

  function ToLower(c: char): (d: char)
    ensures 'A' <= c <= 'Z' ==> d as int == c as int + 32
    ensures !('A' <= c <= 'Z') ==> d == c
  {
    if 'A' <= c <= 'Z' then (c as int + 32) as char else c
  }

  /** Equal length, and equal at every position once ASCII upper case is folded to lower case. */
  predicate EqIgnoreCase(a: string, b: string) {
    |a| == |b| && forall i :: 0 <= i < |a| ==> ToLower(a[i]) == ToLower(b[i])
  }
}

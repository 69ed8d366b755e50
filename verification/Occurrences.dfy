/** Substring vocabulary shared by the byte- and text-level components. */
module Occurrences {

  /** An unsigned 8-bit value, as in Go's `byte`. */
  type byte = b: int | 0 <= b < 256

  /** `p` stands in `s` at offset `i`. */
  predicate OccursAt<T(==)>(s: seq<T>, i: int, p: seq<T>) {
    0 <= i && i + |p| <= |s| && s[i..i + |p|] == p
  }

  /** `p` is a contiguous substring of `s`. */
  predicate Contains<T(==)>(s: seq<T>, p: seq<T>) {
    exists i :: 0 <= i <= |s| && OccursAt(s, i, p)
  }

  /** `u` is a suffix of `w`. */
  predicate IsSuffix<T(==)>(u: seq<T>, w: seq<T>) {
    |u| <= |w| && w[|w| - |u|..] == u
  }

  /** An occurrence survives appending text on the right. */
  lemma OccursInExtension<T>(s: seq<T>, t: seq<T>, i: int, p: seq<T>)
    requires 0 <= i && i + |p| <= |s|
    ensures OccursAt(s, i, p) <==> OccursAt(s + t, i, p)
  {
    assert (s + t)[i..i + |p|] == s[i..i + |p|];
  }

  /** An occurrence that starts inside the right part is an occurrence of the right part. */
  lemma OccursInRightPart<T>(s: seq<T>, t: seq<T>, i: int, p: seq<T>)
    requires |s| <= i
    ensures OccursAt(s + t, i, p) <==> OccursAt(t, i - |s|, p)
  {
    if i + |p| <= |s| + |t| {
      assert (s + t)[i..i + |p|] == t[i - |s|..i - |s| + |p|];
    }
  }
}

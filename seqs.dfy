/** Facts about a sequence with one position dropped, shared by the Map, slide and element removals. */
module Seqs {
  /** Position `a` of `s` with position `i` dropped is position `a` or `a + 1` of `s`. */
  lemma DropAt<T>(s: seq<T>, i: nat, a: nat)
    requires i < |s| && a < |s| - 1
    ensures |s[..i] + s[i + 1..]| == |s| - 1
    ensures (s[..i] + s[i + 1..])[a] == s[if a < i then a else a + 1]
  {
  }

  /** Dropping position `i > 0` of `s` keeps its head in front of the tail with position `i - 1` dropped. */
  lemma DropCons<T>(s: seq<T>, i: nat)
    requires 0 < i < |s|
    ensures [s[0]] + (s[1..][..i - 1] + s[1..][i..]) == s[..i] + s[i + 1..]
  {
    assert s[1..][..i - 1] == s[1..i];
    assert s[1..][i..] == s[i + 1..];
    assert [s[0]] + s[1..i] == s[..i];
  }
}

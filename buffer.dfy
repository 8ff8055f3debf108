/** The pre-allocated output buffer that encode and decode write into with a cursor. */
module Buffers {
  import opened Numerals

  /**
   * `offset += output.write(s, offset)`: copies `s` into `output` at `offset`
   * and returns the cursor just past it; what lies before `offset` is unchanged.
   */
  method Put(output: array<byte>, offset: nat, s: seq<byte>) returns (next: nat)
    requires offset + |s| <= output.Length
    modifies output
    ensures next == offset + |s|
    ensures output[..next] == old(output[..offset]) + s
  {
    for k := 0 to |s|
      invariant output[..offset + k] == old(output[..offset]) + s[..k]
    {
      output[offset + k] := s[k];
      assert output[..offset + k + 1] == output[..offset + k] + [s[k]];
    }
    next := offset + |s|;
  }

  lemma Associative(a: seq<byte>, b: seq<byte>, c: seq<byte>)
    ensures a + b + c == a + (b + c)
  {
  }

  /** A sequence's prefix up to `j` is its prefix up to `i` followed by the slice from `i` to `j`. */
  lemma SplitAt(s: seq<byte>, i: nat, j: nat)
    requires i <= j <= |s|
    ensures s[..i] + s[i..j] == s[..j]
  {
  }

  /** A sequence is its prefix up to `i` followed by the rest. */
  lemma SplitRest(s: seq<byte>, i: nat)
    requires i <= |s|
    ensures s[..i] + s[i..] == s
  {
  }
}

/** Two scanning loops the trusted side relies on. */
module Compare {
  /** fpc_crypto_memcmp: the differences of all bytes are collected, so the time taken does not
      depend on where they are; the result is 0 exactly for equal ranges. */
  method MemCmp(a: seq<bv8>, b: seq<bv8>, n: nat) returns (difference: bv8)
    requires n <= |a| && n <= |b|
    ensures difference == 0 <==> a[..n] == b[..n]
  {
    difference := 0;
    for i := 0 to n
      invariant difference == 0 <==> a[..i] == b[..i]
    {
      DifferenceBits(difference, a[i], b[i]);
      assert a[..i + 1] == a[..i] + [a[i]] && b[..i + 1] == b[..i] + [b[i]];
      difference := difference | (a[i] ^ b[i]);
    }
  }

  lemma DifferenceBits(m: bv8, x: bv8, y: bv8)
    ensures (m | (x ^ y)) == 0 <==> m == 0 && x == y
  {
  }

  /** byte_array_string_valid, after the length check: a string is one that ends inside its
      array. */
  method StringValid(bytes: seq<bv8>) returns (valid: bool)
    ensures valid <==> 0 in bytes
  {
    for i := 0 to |bytes|
      invariant 0 !in bytes[..i]
    {
      if bytes[i] == 0 {
        return true;
      }
      assert bytes[..i + 1] == bytes[..i] + [bytes[i]];
    }
    assert bytes[..|bytes|] == bytes;
    return false;
  }
}

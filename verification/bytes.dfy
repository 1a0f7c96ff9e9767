/**
 * Byte-buffer primitives used by the host-side validation of a copy:
 * memset and memcmp over byte sequences.
 */
module Bytes {

  /** memset(p, value, n): n copies of one byte. */
  function Fill(value: bv8, n: nat): (s: seq<bv8>)
    ensures |s| == n
    ensures forall i :: 0 <= i < n ==> s[i] == value
  {
    seq(n, _ => value)
  }

  /**
   * memcmp(a, b, n): zero when the first n bytes agree; otherwise the
   * difference, as unsigned bytes, of the first pair that differs (the C
   * library promises only its sign; this is the common implementation).
   */
  function MemCmp(a: seq<bv8>, b: seq<bv8>, n: nat): (r: int)
    requires n <= |a| && n <= |b|
    ensures r == 0 <==> a[..n] == b[..n]
    ensures -255 <= r <= 255
    ensures r != 0 ==> exists i :: 0 <= i < n && a[..i] == b[..i] && r == a[i] as int - b[i] as int
  {
    if n == 0 then 0
    else if a[0] != b[0] then
      assert a[..0] == b[..0];
      a[0] as int - b[0] as int
    else
      var r := MemCmp(a[1..], b[1..], n - 1);
      assert a[..n] == [a[0]] + a[1..][..n - 1];
      assert b[..n] == [b[0]] + b[1..][..n - 1];
      if r == 0 then r
      else
        var i :| 0 <= i < n - 1 && a[1..][..i] == b[1..][..i] && r == a[1..][i] as int - b[1..][i] as int;
        assert a[..i + 1] == [a[0]] + a[1..][..i];
        assert b[..i + 1] == [b[0]] + b[1..][..i];
        r
  }

  /** The sign of memcmp orders the two buffers at their first difference. */
  lemma MemCmpSign(a: seq<bv8>, b: seq<bv8>, n: nat)
    requires n <= |a| && n <= |b|
    ensures MemCmp(a, b, n) < 0 ==> exists i :: 0 <= i < n && a[..i] == b[..i] && a[i] < b[i]
    ensures MemCmp(a, b, n) > 0 ==> exists i :: 0 <= i < n && a[..i] == b[..i] && a[i] > b[i]
  {
  }

  /** memcmp over n bytes looks at the first n bytes of each buffer and nothing else. */
  lemma {:induction false} MemCmpPrefix(a: seq<bv8>, b: seq<bv8>, n: nat)
    requires n <= |a| && n <= |b|
    ensures MemCmp(a, b, n) == MemCmp(a[..n], b[..n], n)
    decreases n
  {
    if n > 0 {
      var a', b' := a[..n], b[..n];
      assert a'[0] == a[0] && b'[0] == b[0];
      if a[0] == b[0] {
        MemCmpPrefix(a[1..], b[1..], n - 1);
        assert a'[1..] == a[1..][..n - 1];
        assert b'[1..] == b[1..][..n - 1];
        assert MemCmp(a', b', n) == MemCmp(a'[1..], b'[1..], n - 1);
      }
    }
  }

  /** A buffer filled with the host seed pattern compares equal to any prefix-equal copy of it. */
  lemma FillPrefix(value: bv8, n: nat, m: nat)
    requires m <= n
    ensures Fill(value, n)[..m] == Fill(value, m)
  {
  }
}

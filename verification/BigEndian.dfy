/** Big-endian byte strings and the numbers they stand for. */
module BigEndian {
  import opened Wrappers
  import opened Arithmetic

  function Number(s: Bytes): nat {
    if s == [] then 0 else Number(s[..|s| - 1]) * 256 + s[|s| - 1]
  }

  /** The shortest byte string of a number; empty for 0. */
  function Minimal(n: nat): (s: Bytes)
    ensures n > 0 ==> s != [] && s[0] != 0
  {
    if n == 0 then [] else Minimal(n / 256) + [n % 256]
  }

  /** The last `length` bytes of a number. */
  function Fixed(n: nat, length: nat): (s: Bytes)
    ensures |s| == length
  {
    if length == 0 then [] else Fixed(n / 256, length - 1) + [n % 256]
  }

  lemma {:induction false} NumberOfMinimal(n: nat)
    ensures Number(Minimal(n)) == n
  {
    if n > 0 {
      NumberOfMinimal(n / 256);
      var s := Minimal(n);
      assert s[..|s| - 1] == Minimal(n / 256);
    }
  }

  function Pow256(k: nat): (p: nat)
    ensures p >= 1
  {
    if k == 0 then 1 else 256 * Pow256(k - 1)
  }

  /** A number needs more than `k` bytes exactly when it is at least `256^k`. */
  lemma {:induction false} MinimalLength(n: nat, k: nat)
    ensures |Minimal(n)| > k <==> n >= Pow256(k)
    decreases k
  {
    if n > 0 && k > 0 {
      MinimalLength(n / 256, k - 1);
    }
  }

  lemma RemainderStep(n: nat, p: nat)
    requires p > 0
    ensures n % (256 * p) == 256 * ((n / 256) % p) + n % 256
  {
    var q := n / 256;
    var k, m := q / p, q % p;
    assert q == k * p + m;
    assert 256 * (k * p) == k * (256 * p);
    RemainderIs(n, k, 256 * m + n % 256, 256 * p);
  }

  /** A field of `length` bytes holds a number modulo 256 to the `length`, so every smaller number as it is. */
  lemma {:induction false} NumberOfFixed(n: nat, length: nat)
    ensures Number(Fixed(n, length)) == n % Pow256(length)
    ensures n < Pow256(length) ==> Number(Fixed(n, length)) == n
    decreases length
  {
    if length > 0 {
      NumberOfFixed(n / 256, length - 1);
      RemainderStep(n, Pow256(length - 1));
      var s := Fixed(n, length);
      assert s[..|s| - 1] == Fixed(n / 256, length - 1);
    }
  }

  lemma NumberStep(bytes: Bytes, offset: nat, index: nat)
    requires offset + index < |bytes|
    ensures Number(bytes[offset..offset + index + 1])
         == Number(bytes[offset..offset + index]) * 256 + bytes[offset + index]
  {
    var s := bytes[offset..offset + index + 1];
    assert s[..|s| - 1] == bytes[offset..offset + index];
  }
}

/** Words as big-endian bytes: push data, MSTORE and MLOAD, and their counterparts in test states. */
module Encoding {
  import opened Evm

  function Pow256(n: nat): (p: nat)
    ensures p >= 1
  {
    if n == 0 then 1 else 256 * Pow256(n - 1)
  }

  /** The value of bytes, most significant first. */
  function BigEndian(bytes: seq<Byte>): nat {
    if bytes == [] then 0 else 256 * BigEndian(bytes[..|bytes| - 1]) + bytes[|bytes| - 1]
  }

  /** The last n base-256 digits of a number, most significant first. */
  function Digits(w: nat, n: nat): (bytes: seq<Byte>)
    ensures |bytes| == n
  {
    if n == 0 then [] else Digits(w / 256, n - 1) + [w % 256]
  }

  /** Reading what was written gives the word back ... */
  lemma {:induction false} BigEndianOfDigits(w: nat, n: nat)
    requires w < Pow256(n)
    ensures BigEndian(Digits(w, n)) == w
    decreases n
  {
    if n > 0 {
      BigEndianOfDigits(w / 256, n - 1);
      assert Digits(w, n)[..n - 1] == Digits(w / 256, n - 1);
    }
  }

  /** ... and writing what was read gives the bytes back. */
  lemma {:induction false} DigitsOfBigEndian(bytes: seq<Byte>)
    ensures Digits(BigEndian(bytes), |bytes|) == bytes && BigEndian(bytes) < Pow256(|bytes|)
  {
    if bytes != [] {
      DigitsOfBigEndian(bytes[..|bytes| - 1]);
      assert bytes == bytes[..|bytes| - 1] + [bytes[|bytes| - 1]];
    }
  }

  /** A word has 32 bytes. */
  lemma WordBytes()
    ensures Pow256(32) == TWO_256
  {
    assert Pow256(8) == TWO_64 by { assert Pow256(4) == TWO_32; }
    assert Pow256(16) == TWO_64 * TWO_64 by { assert Pow256(12) == TWO_64 * TWO_32; }
    assert Pow256(24) == TWO_64 * TWO_64 * TWO_64 by { assert Pow256(20) == TWO_64 * TWO_64 * TWO_32; }
    assert Pow256(28) == TWO_64 * TWO_64 * TWO_64 * TWO_32;
  }

  lemma {:induction false} Pow256Monotone(m: nat, n: nat)
    requires m <= n
    ensures Pow256(m) <= Pow256(n)
    decreases n - m
  {
    if m < n { Pow256Monotone(m, n - 1); }
  }

  /** Up to 32 bytes fit into a word. */
  lemma BigEndianFits(bytes: seq<Byte>)
    requires |bytes| <= 32
    ensures BigEndian(bytes) < TWO_256
  {
    DigitsOfBigEndian(bytes);
    Pow256Monotone(|bytes|, 32);
    WordBytes();
  }
}

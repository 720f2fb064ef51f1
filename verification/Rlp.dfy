/** The list form of RLP (Appendix B of the Ethereum Yellow Paper), as far as the archive
    needs it: a header that gives the payload length, then the payload. */
module Rlp {
  import opened Words

  type Byte = x: int | 0 <= x < 256

  /** The shortest big-endian form; zero is the empty string. */
  function BigEndian(n: nat): seq<Byte>
  {
    if n == 0 then [] else BigEndian(n / 256) + [n % 256]
  }

  function FromBigEndian(s: seq<Byte>): nat
  {
    if s == [] then 0 else 256 * FromBigEndian(s[..|s| - 1]) + s[|s| - 1]
  }

  function Pow256(k: nat): nat
  {
    if k == 0 then 1 else 256 * Pow256(k - 1)
  }

  function ListHeader(n: nat): seq<Byte>
    requires n < TWO64
  {
    BigEndianSize(n, 8);
    if n < 56 then [0xc0 + n] else [0xf7 + |BigEndian(n)|] + BigEndian(n)
  }

  function EncodeList(payload: seq<Byte>): seq<Byte>
    requires |payload| < TWO64
  {
    ListHeader(|payload|) + payload
  }

  lemma {:induction false} BigEndianSize(n: nat, k: nat)
    requires n < Pow256(k)
    ensures |BigEndian(n)| <= k
    ensures n > 0 ==> |BigEndian(n)| > 0
  {
    if n > 0 {
      BigEndianSize(n / 256, k - 1);
    }
  }

  lemma {:induction false} BigEndianNoLeadingZero(n: nat)
    requires n > 0
    ensures BigEndian(n) != [] && BigEndian(n)[0] != 0
  {
    if n >= 256 {
      BigEndianNoLeadingZero(n / 256);
    }
  }

  /** Headers are canonical: one byte exactly up to 55 bytes of payload, else a length without
      leading zeros. */
  lemma HeaderIsCanonical(n: nat)
    requires n < TWO64
    ensures |ListHeader(n)| == 1 <==> n <= 55
    ensures n > 55 ==> ListHeader(n)[1] != 0
  {
    if n > 55 {
      BigEndianNoLeadingZero(n);
    }
  }

  lemma {:induction false} BigEndianRoundTrip(n: nat)
    ensures FromBigEndian(BigEndian(n)) == n
  {
    if n > 0 {
      BigEndianRoundTrip(n / 256);
      var s := BigEndian(n / 256) + [n % 256];
      assert s[..|s| - 1] == BigEndian(n / 256);
    }
  }
}

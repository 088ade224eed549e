/** C's 32-bit `int` and the `& 1` parity test that pingpong.c applies to it. */
module CInt {

  /** A C `int` on the platforms MPI runs on: 32-bit two's complement. */
  newtype int32 = x: int | -0x8000_0000 <= x < 0x8000_0000

  /** `n & 1` as C computes it: the lowest bit of the two's-complement image of `n`. */
  function LowBit(n: int32): (b: int)
  {
    (((n as int) % 0x1_0000_0000) as bv32 & 1) as int
  }

  /** The lowest bit of a two's-complement word is the (Euclidean) remainder modulo 2,
      for negative values too, so `(n & 1) != 0` is `n % 2 == 1`. */
  lemma LowBitIsParity(n: int32)
    ensures LowBit(n) == (n as int) % 2
  {
    var u := (n as int) % 0x1_0000_0000;
    assert u % 2 == (n as int) % 2;
    var w := u as bv32;
    assert w & 1 == w % 2;
    assert (w % 2) as int == u % 2;
  }

  /** The C condition `(n & 1)`, stated through the remainder that LowBitIsParity shows it equals. */
  predicate IsOdd(n: int32)
  {
    (n as int) % 2 == 1
  }
}

/** The fixed-partner pairing of `main`: the even-size check and the partner rule. */
module Pairing {
  import opened CInt

  /** `peer = (rank & 1) ? rank - 1 : rank + 1`. The result is again a C `int` (no overflow for
      any rank), it differs from the rank, it lies in the same block {2k, 2k+1} as the rank,
      and exactly one of the two is odd. */
  function Partner(rank: int32): (p: int32)
    ensures p != rank
    ensures (p as int) / 2 == (rank as int) / 2
    ensures IsOdd(p) != IsOdd(rank)
    ensures IsOdd(rank) <==> p < rank
  {
    if IsOdd(rank) then rank - 1 else rank + 1
  }

  /** The pairing is an involution: the partner of a rank's partner is that rank. */
  lemma PartnerInvolution(rank: int32)
    ensures Partner(Partner(rank)) == rank
  {
  }

  /** With an even process count, the partner of every rank in [0, size) is again in [0, size);
      with an odd one, the last rank's partner would be `size`, which does not exist. This is
      why `main` aborts on an odd count. */
  lemma PartnerInRange(size: int32, rank: int32)
    requires 0 <= rank < size
    ensures !IsOdd(size) ==> 0 <= Partner(rank) < size
    ensures IsOdd(size) && rank == size - 1 ==> Partner(rank) == size
  {
  }

  /** The two ranks that time against each other. */
  function Block(rank: int32): set<int32>
  {
    {rank, Partner(rank)}
  }

  /** All the blocks formed by the ranks of [0, size). */
  ghost function Blocks(size: int32): set<set<int32>>
  {
    set r: int32 | 0 <= r < size :: Block(r)
  }

  /** A rank's block is {2k, 2k+1} with k = rank / 2, so exactly one member is odd. */
  lemma BlockShape(rank: int32)
    ensures Block(rank) == {2 * (rank / 2), 2 * (rank / 2) + 1}
  {
  }

  /** Two ranks share a block exactly when they are equal or partners; otherwise their
      blocks are disjoint. */
  lemma BlocksDisjoint(r: int32, s: int32)
    ensures Block(r) == Block(s) <==> s == r || s == Partner(r)
    ensures Block(r) != Block(s) ==> Block(r) !! Block(s)
  {
  }

  /** For an even count the ranks of [0, size) form exactly size/2 blocks. */
  lemma {:induction false} BlocksCount(size: int32)
    requires 0 <= size && !IsOdd(size)
    ensures |Blocks(size)| == (size as int) / 2
  {
    if size == 0 {
      assert Blocks(size) == {};
    } else {
      var m := size - 2;
      BlocksCount(m);
      var top: set<int32> := {m, m + 1};
      assert Block(m) == top;
      assert Blocks(size) == Blocks(m) + {top} by {
        forall b | b in Blocks(size) ensures b in Blocks(m) + {top} {
          var r: int32 :| 0 <= r < size && b == Block(r);
          if r < m {
            assert b in Blocks(m);
          } else if r == m + 1 {
            assert b == top;
          }
        }
      }
      assert top !in Blocks(m);
    }
  }
}

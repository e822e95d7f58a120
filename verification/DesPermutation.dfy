/**
 The initial permutation of DES and its inverse, bit by bit (crypto-algorithms_learn/des.c:79-149).
 A block is eight bytes, a state two 32-bit words.
 */
module DesPermutation {
  function Ip0(b0: bv8, b1: bv8, b2: bv8, b3: bv8, b4: bv8, b5: bv8, b6: bv8, b7: bv8): bv32 {
    (((b7 >> 6) & 1) as bv32 << 31) | (((b6 >> 6) & 1) as bv32 << 30) | (((b5 >> 6) & 1) as bv32 << 29) | (((b4 >> 6) & 1) as bv32 << 28)
    | (((b3 >> 6) & 1) as bv32 << 27) | (((b2 >> 6) & 1) as bv32 << 26) | (((b1 >> 6) & 1) as bv32 << 25) | (((b0 >> 6) & 1) as bv32 << 24)
    | (((b7 >> 4) & 1) as bv32 << 23) | (((b6 >> 4) & 1) as bv32 << 22) | (((b5 >> 4) & 1) as bv32 << 21) | (((b4 >> 4) & 1) as bv32 << 20)
    | (((b3 >> 4) & 1) as bv32 << 19) | (((b2 >> 4) & 1) as bv32 << 18) | (((b1 >> 4) & 1) as bv32 << 17) | (((b0 >> 4) & 1) as bv32 << 16)
    | (((b7 >> 2) & 1) as bv32 << 15) | (((b6 >> 2) & 1) as bv32 << 14) | (((b5 >> 2) & 1) as bv32 << 13) | (((b4 >> 2) & 1) as bv32 << 12)
    | (((b3 >> 2) & 1) as bv32 << 11) | (((b2 >> 2) & 1) as bv32 << 10) | (((b1 >> 2) & 1) as bv32 << 9) | (((b0 >> 2) & 1) as bv32 << 8)
    | ((b7 & 1) as bv32 << 7) | ((b6 & 1) as bv32 << 6) | ((b5 & 1) as bv32 << 5) | ((b4 & 1) as bv32 << 4)
    | ((b3 & 1) as bv32 << 3) | ((b2 & 1) as bv32 << 2) | ((b1 & 1) as bv32 << 1) | ((b0 & 1) as bv32)
  }

  function Ip1(b0: bv8, b1: bv8, b2: bv8, b3: bv8, b4: bv8, b5: bv8, b6: bv8, b7: bv8): bv32 {
    (((b7 >> 7) & 1) as bv32 << 31) | (((b6 >> 7) & 1) as bv32 << 30) | (((b5 >> 7) & 1) as bv32 << 29) | (((b4 >> 7) & 1) as bv32 << 28)
    | (((b3 >> 7) & 1) as bv32 << 27) | (((b2 >> 7) & 1) as bv32 << 26) | (((b1 >> 7) & 1) as bv32 << 25) | (((b0 >> 7) & 1) as bv32 << 24)
    | (((b7 >> 5) & 1) as bv32 << 23) | (((b6 >> 5) & 1) as bv32 << 22) | (((b5 >> 5) & 1) as bv32 << 21) | (((b4 >> 5) & 1) as bv32 << 20)
    | (((b3 >> 5) & 1) as bv32 << 19) | (((b2 >> 5) & 1) as bv32 << 18) | (((b1 >> 5) & 1) as bv32 << 17) | (((b0 >> 5) & 1) as bv32 << 16)
    | (((b7 >> 3) & 1) as bv32 << 15) | (((b6 >> 3) & 1) as bv32 << 14) | (((b5 >> 3) & 1) as bv32 << 13) | (((b4 >> 3) & 1) as bv32 << 12)
    | (((b3 >> 3) & 1) as bv32 << 11) | (((b2 >> 3) & 1) as bv32 << 10) | (((b1 >> 3) & 1) as bv32 << 9) | (((b0 >> 3) & 1) as bv32 << 8)
    | (((b7 >> 1) & 1) as bv32 << 7) | (((b6 >> 1) & 1) as bv32 << 6) | (((b5 >> 1) & 1) as bv32 << 5) | (((b4 >> 1) & 1) as bv32 << 4)
    | (((b3 >> 1) & 1) as bv32 << 3) | (((b2 >> 1) & 1) as bv32 << 2) | (((b1 >> 1) & 1) as bv32 << 1) | (((b0 >> 1) & 1) as bv32)
  }

  function Inv0(s0: bv32, s1: bv32): bv8 {
    (((s1 >> 24) & 1) as bv8 << 7) | (((s0 >> 24) & 1) as bv8 << 6) | (((s1 >> 16) & 1) as bv8 << 5) | (((s0 >> 16) & 1) as bv8 << 4)
    | (((s1 >> 8) & 1) as bv8 << 3) | (((s0 >> 8) & 1) as bv8 << 2) | ((s1 & 1) as bv8 << 1) | ((s0 & 1) as bv8)
  }

  function Inv1(s0: bv32, s1: bv32): bv8 {
    (((s1 >> 25) & 1) as bv8 << 7) | (((s0 >> 25) & 1) as bv8 << 6) | (((s1 >> 17) & 1) as bv8 << 5) | (((s0 >> 17) & 1) as bv8 << 4)
    | (((s1 >> 9) & 1) as bv8 << 3) | (((s0 >> 9) & 1) as bv8 << 2) | (((s1 >> 1) & 1) as bv8 << 1) | (((s0 >> 1) & 1) as bv8)
  }

  function Inv2(s0: bv32, s1: bv32): bv8 {
    (((s1 >> 26) & 1) as bv8 << 7) | (((s0 >> 26) & 1) as bv8 << 6) | (((s1 >> 18) & 1) as bv8 << 5) | (((s0 >> 18) & 1) as bv8 << 4)
    | (((s1 >> 10) & 1) as bv8 << 3) | (((s0 >> 10) & 1) as bv8 << 2) | (((s1 >> 2) & 1) as bv8 << 1) | (((s0 >> 2) & 1) as bv8)
  }

  function Inv3(s0: bv32, s1: bv32): bv8 {
    (((s1 >> 27) & 1) as bv8 << 7) | (((s0 >> 27) & 1) as bv8 << 6) | (((s1 >> 19) & 1) as bv8 << 5) | (((s0 >> 19) & 1) as bv8 << 4)
    | (((s1 >> 11) & 1) as bv8 << 3) | (((s0 >> 11) & 1) as bv8 << 2) | (((s1 >> 3) & 1) as bv8 << 1) | (((s0 >> 3) & 1) as bv8)
  }

  function Inv4(s0: bv32, s1: bv32): bv8 {
    (((s1 >> 28) & 1) as bv8 << 7) | (((s0 >> 28) & 1) as bv8 << 6) | (((s1 >> 20) & 1) as bv8 << 5) | (((s0 >> 20) & 1) as bv8 << 4)
    | (((s1 >> 12) & 1) as bv8 << 3) | (((s0 >> 12) & 1) as bv8 << 2) | (((s1 >> 4) & 1) as bv8 << 1) | (((s0 >> 4) & 1) as bv8)
  }

  function Inv5(s0: bv32, s1: bv32): bv8 {
    (((s1 >> 29) & 1) as bv8 << 7) | (((s0 >> 29) & 1) as bv8 << 6) | (((s1 >> 21) & 1) as bv8 << 5) | (((s0 >> 21) & 1) as bv8 << 4)
    | (((s1 >> 13) & 1) as bv8 << 3) | (((s0 >> 13) & 1) as bv8 << 2) | (((s1 >> 5) & 1) as bv8 << 1) | (((s0 >> 5) & 1) as bv8)
  }

  function Inv6(s0: bv32, s1: bv32): bv8 {
    (((s1 >> 30) & 1) as bv8 << 7) | (((s0 >> 30) & 1) as bv8 << 6) | (((s1 >> 22) & 1) as bv8 << 5) | (((s0 >> 22) & 1) as bv8 << 4)
    | (((s1 >> 14) & 1) as bv8 << 3) | (((s0 >> 14) & 1) as bv8 << 2) | (((s1 >> 6) & 1) as bv8 << 1) | (((s0 >> 6) & 1) as bv8)
  }

  function Inv7(s0: bv32, s1: bv32): bv8 {
    (((s1 >> 31) & 1) as bv8 << 7) | (((s0 >> 31) & 1) as bv8 << 6) | (((s1 >> 23) & 1) as bv8 << 5) | (((s0 >> 23) & 1) as bv8 << 4)
    | (((s1 >> 15) & 1) as bv8 << 3) | (((s0 >> 15) & 1) as bv8 << 2) | (((s1 >> 7) & 1) as bv8 << 1) | (((s0 >> 7) & 1) as bv8)
  }

  /** The permutation is undone, for every block. */
  lemma InvIpAfterIp(b0: bv8, b1: bv8, b2: bv8, b3: bv8, b4: bv8, b5: bv8, b6: bv8, b7: bv8)
    ensures var s0, s1 := Ip0(b0, b1, b2, b3, b4, b5, b6, b7), Ip1(b0, b1, b2, b3, b4, b5, b6, b7);
      && Inv0(s0, s1) == b0 && Inv1(s0, s1) == b1 && Inv2(s0, s1) == b2 && Inv3(s0, s1) == b3
      && Inv4(s0, s1) == b4 && Inv5(s0, s1) == b5 && Inv6(s0, s1) == b6 && Inv7(s0, s1) == b7
  {
  }

  /** And the other way around, for every state. */
  lemma Ip0AfterInvIp(s0: bv32, s1: bv32)
    ensures Ip0(Inv0(s0, s1), Inv1(s0, s1), Inv2(s0, s1), Inv3(s0, s1), Inv4(s0, s1), Inv5(s0, s1), Inv6(s0, s1), Inv7(s0, s1)) == s0
  {
  }

  lemma Ip1AfterInvIp(s0: bv32, s1: bv32)
    ensures Ip1(Inv0(s0, s1), Inv1(s0, s1), Inv2(s0, s1), Inv3(s0, s1), Inv4(s0, s1), Inv5(s0, s1), Inv6(s0, s1), Inv7(s0, s1)) == s1
  {
  }

  function ByteAt(b0: bv8, b1: bv8, b2: bv8, b3: bv8, b4: bv8, b5: bv8, b6: bv8, b7: bv8, j: bv8): bv8 {
    if j == 0 then b0 else if j == 1 then b1 else if j == 2 then b2 else if j == 3 then b3
    else if j == 4 then b4 else if j == 5 then b5 else if j == 6 then b6 else b7
  }

  /** Bit `n` of a block, counted from the most significant bit of its first byte. */
  function BitAt(b0: bv8, b1: bv8, b2: bv8, b3: bv8, b4: bv8, b5: bv8, b6: bv8, b7: bv8, n: bv8): bv8
    requires n < 64
  {
    (ByteAt(b0, b1, b2, b3, b4, b5, b6, b7, n >> 3) >> (7 - (n & 7))) & 1
  }

  /** The table of FIPS 46-3: bit `i` of the left word is bit 58, 50, ... of the block, counted from 1, and so on in
      steps of eight down and two up; the right word begins one bit before. */
  lemma IpTable(b0: bv8, b1: bv8, b2: bv8, b3: bv8, b4: bv8, b5: bv8, b6: bv8, b7: bv8, i: bv8)
    requires i < 32
    ensures var n := 57 + 2 * (i >> 3) - 8 * (i & 7);
      && 0 < n < 64
      && ((Ip0(b0, b1, b2, b3, b4, b5, b6, b7) >> (31 - i)) & 1) as bv8 == BitAt(b0, b1, b2, b3, b4, b5, b6, b7, n)
      && ((Ip1(b0, b1, b2, b3, b4, b5, b6, b7) >> (31 - i)) & 1) as bv8 == BitAt(b0, b1, b2, b3, b4, b5, b6, b7, n - 1)
  {
  }
}

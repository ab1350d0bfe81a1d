/** Serial numbers: the successor that skips zero, and the order of section 3.2 of RFC 1982. */
module Serials {
  import opened Model

  const MAX_SERIAL: uint32 := 0xFFFF_FFFF

  function NextSerial(current: uint32): uint32 {
    if current >= MAX_SERIAL then 1 else current + 1
  }

  function RangeBetween(from: uint32, to: uint32): SerialRange {
    SerialRange(from, to)
  }

  function Advance(s: uint32, n: nat): uint32 {
    if n == 0 then s else NextSerial(Advance(s, n - 1))
  }

  /** n successors in closed form: the serials 1 .. 2^32 - 1 form one cycle. */
  lemma {:induction false} AdvanceClosedForm(s: uint32, n: nat)
    ensures s >= 1 ==> Advance(s, n) == (s - 1 + n) % MAX_SERIAL + 1
    ensures n > 0 ==> Advance(s, n) != 0
  {
    if n > 0 {
      AdvanceClosedForm(s, n - 1);
      if s >= 1 {
        var x := s - 1 + (n - 1);
        assert x + 1 == (x / MAX_SERIAL) * MAX_SERIAL + (x % MAX_SERIAL + 1);
        if x % MAX_SERIAL + 1 == MAX_SERIAL {
          DivRem(x + 1, x / MAX_SERIAL + 1, 0);
        } else {
          DivRem(x + 1, x / MAX_SERIAL, x % MAX_SERIAL + 1);
        }
      }
    }
  }

  lemma {:induction false} DivRem(x: nat, q: nat, r: nat)
    requires x == q * MAX_SERIAL + r && r < MAX_SERIAL
    ensures x % MAX_SERIAL == r
  {
  }

  /** Serial order of RFC 1982 with 32-bit serials; half-way apart, neither is less. */
  predicate SerialLess(a: uint32, b: uint32) {
    (a < b && b - a < 0x8000_0000) || (a > b && a - b > 0x8000_0000)
  }

  /** Where the run of successors from s leaves the plain order of integers. */
  lemma {:induction false} AdvanceUnwrapped(s: uint32, n: nat)
    ensures s + n <= MAX_SERIAL ==> Advance(s, n) == s + n
    ensures MAX_SERIAL < s + n <= MAX_SERIAL + MAX_SERIAL ==> Advance(s, n) == s + n - MAX_SERIAL
  {
    if n > 0 {
      AdvanceUnwrapped(s, n - 1);
    }
  }

  /** Fewer than 2^31 - 1 commits always move a serial forward in the RFC's order. */
  lemma {:induction false} AdvanceIsLater(s: uint32, n: nat)
    requires 0 < n < 0x7FFF_FFFF
    ensures SerialLess(s, Advance(s, n))
  {
    AdvanceUnwrapped(s, n);
  }

  /** The plain comparison used to pick history entries agrees with that order exactly when no wrap lies between. */
  lemma {:induction false} PlainOrderAgrees(s: uint32, n: nat)
    requires 0 < n < 0x7FFF_FFFF
    ensures (Advance(s, n) > s) == SerialLess(s, Advance(s, n)) <==> s + n <= MAX_SERIAL
  {
    AdvanceIsLater(s, n);
    AdvanceUnwrapped(s, n);
  }
}

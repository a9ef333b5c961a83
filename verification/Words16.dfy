/** Sixteen-bit registers as their bits, with the C bitwise operators. */
module Words16 {

  type Word = w: seq<bool> | |w| == 16 witness seq(16, _ => false)

  function All(b: bool): Word { seq(16, _ => b) }

  /** BIT(k) stored in sixteen bits: no bit beyond them. */
  function Mask(k: nat): (w: Word)
    ensures forall i :: 0 <= i < 16 ==> w[i] == (i == k)
  {
    seq(16, i => i == k)
  }

  function And(a: Word, b: Word): (w: Word)
    ensures forall i :: 0 <= i < 16 ==> w[i] == (a[i] && b[i])
  {
    seq(16, i requires 0 <= i < 16 => a[i] && b[i])
  }

  function Or(a: Word, b: Word): (w: Word)
    ensures forall i :: 0 <= i < 16 ==> w[i] == (a[i] || b[i])
  {
    seq(16, i requires 0 <= i < 16 => a[i] || b[i])
  }

  function Xor(a: Word, b: Word): (w: Word)
    ensures forall i :: 0 <= i < 16 ==> w[i] == (a[i] != b[i])
  {
    seq(16, i requires 0 <= i < 16 => a[i] != b[i])
  }

  function Not(a: Word): (w: Word)
    ensures forall i :: 0 <= i < 16 ==> w[i] == !a[i]
  {
    seq(16, i requires 0 <= i < 16 => !a[i])
  }

  function Shl(a: Word, k: nat): (w: Word)
    ensures forall i :: 0 <= i < 16 ==> w[i] == (i >= k && a[i - k])
  {
    seq(16, i requires 0 <= i < 16 => i >= k && a[i - k])
  }
}

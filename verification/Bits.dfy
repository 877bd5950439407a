/** Machine words by their bits, for code whose subject is single bits. */
module Bits {

  /** A 32-bit word by its bits, least significant first. */
  type Word = s: seq<bool> | |s| == 32 witness seq(32, i => false)

  function Zero(): Word {
    seq(32, i => false)
  }

  function Xor(a: Word, b: Word): Word {
    seq(32, k requires 0 <= k < 32 => a[k] != b[k])
  }

  function And(a: Word, b: Word): Word {
    seq(32, k requires 0 <= k < 32 => a[k] && b[k])
  }

  function Or(a: Word, b: Word): Word {
    seq(32, k requires 0 <= k < 32 => a[k] || b[k])
  }

  function Shl(a: Word, n: nat): Word {
    seq(32, k requires 0 <= k < 32 => k >= n && a[k - n])
  }

  function Shr(a: Word, n: nat): Word {
    seq(32, k requires 0 <= k < 32 => k + n < 32 && a[k + n])
  }

  function Not(a: Word): Word {
    seq(32, k requires 0 <= k < 32 => !a[k])
  }

  /** An arithmetic right shift: the sign fills in. */
  function Asr(a: Word, n: nat): Word {
    seq(32, k requires 0 <= k < 32 => if k + n < 32 then a[k + n] else a[31])
  }
}

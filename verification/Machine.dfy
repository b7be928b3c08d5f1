/** 32-bit words, 4 KiB pages, and the sizes several programs share. */
module Machine {
  import opened Bytes

  const PAGE := 4096

  /** Bytes in a disk sector. */
  const SECTOR := 512

  /** The superpage user programs run in. */
  const USER_BASE: Word := 0x8100_0000
  const USER_END: Word := 0x8140_0000

  /** The last value whose rounding up to a page does not wrap to zero. */
  const LAST_PAGE := 0xFFFF_F000

  type Word = x: int | 0 <= x < 0x1_0000_0000

  function Wrap(x: int): Word {
    x % TWO32
  }

  function PageDown(x: Word): (r: Word)
    ensures r % PAGE == 0 && r <= x < r + PAGE
  {
    x - x % PAGE
  }

  function PageUp(x: Word): (r: Word)
    ensures r % PAGE == 0
    ensures x <= LAST_PAGE ==> x <= r < x + PAGE
    ensures x > LAST_PAGE ==> r == 0
  {
    PageDown(Wrap(x + 4095))
  }
}

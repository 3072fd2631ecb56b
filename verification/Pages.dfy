/** Contents of one 4 KiB frame, as bytes and as 512 little-endian words. */
module Pages {
  import opened Bytes

  const WORDS: nat := 512
  const U64: nat := 0x1_0000_0000_0000_0000

  type Page = p: seq<Byte> | |p| == 4096 witness seq(4096, _ => 0)

  /** Contents of guest memory, by frame number. */
  type Memory = map<nat, Page>

  function ZeroPage(): Page {
    seq(4096, _ => 0)
  }

  function ReadWord(p: Page, s: nat): nat
    requires s < WORDS
  {
    LeValue(p[8 * s..8 * s + 8])
  }

  /** Storing a word changes that word and no other. */
  function WriteWord(p: Page, s: nat, v: nat): (r: Page)
    requires s < WORDS && v < U64
    ensures ReadWord(r, s) == v
    ensures forall t :: 0 <= t < WORDS && t != s ==> ReadWord(r, t) == ReadWord(p, t)
  {
    var r: Page := p[..8 * s] + LeBytes(v, 8) + p[8 * s + 8..];
    WordWritten(p, s, v, r);
    r
  }

  lemma WordWritten(p: Page, s: nat, v: nat, r: Page)
    requires s < WORDS && v < U64 && r == p[..8 * s] + LeBytes(v, 8) + p[8 * s + 8..]
    ensures ReadWord(r, s) == v
    ensures forall t :: 0 <= t < WORDS && t != s ==> ReadWord(r, t) == ReadWord(p, t)
  {
    Pow256Eight();
    LeValueOfBytes(v, 8);
    assert r[8 * s..8 * s + 8] == LeBytes(v, 8);
    forall t | 0 <= t < WORDS && t != s
      ensures ReadWord(r, t) == ReadWord(p, t)
    {
      assert r[8 * t..8 * t + 8] == p[8 * t..8 * t + 8];
    }
  }

  /** Bytes outside the stored word keep their value. */
  lemma OtherBytes(p: Page, s: nat, v: nat)
    requires s < WORDS && v < U64
    ensures forall k :: 0 <= k < 4096 && k / 8 != s ==> WriteWord(p, s, v)[k] == p[k]
  {
  }

  /** Words without the stored byte keep their value. */
  lemma OtherWords(p: Page, k: nat, b: Byte)
    requires k < 4096
    ensures forall s :: 0 <= s < WORDS && s != k / 8 ==> ReadWord(p[k := b], s) == ReadWord(p, s)
  {
    forall s | 0 <= s < WORDS && s != k / 8
      ensures ReadWord(p[k := b], s) == ReadWord(p, s)
    {
      assert p[k := b][8 * s..8 * s + 8] == p[8 * s..8 * s + 8];
    }
  }

  lemma ZeroPageWords()
    ensures forall s :: 0 <= s < WORDS ==> ReadWord(ZeroPage(), s) == 0
  {
    forall s | 0 <= s < WORDS
      ensures ReadWord(ZeroPage(), s) == 0
    {
      assert ZeroPage()[8 * s..8 * s + 8] == LeBytes(0, 8);
      Pow256Eight();
      LeValueOfBytes(0, 8);
    }
  }
}

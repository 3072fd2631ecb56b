/** Names and virtual-device numbers of block devices, by block index. */
module DiskNames {
  import opened Results

  predicate Lowercase(s: string) {
    forall i :: 0 <= i < |s| ==> 'a' <= s[i] <= 'z'
  }

  function Letter(k: nat): char
    requires k < 26
  {
    'a' + k as char
  }

  function LetterIndex(c: char): nat
    requires 'a' <= c <= 'z'
  {
    (c - 'a') as nat
  }

  /** Bijective base 26, most significant letter first. */
  function Suffix(n: nat): (s: string)
    ensures |s| > 0 && Lowercase(s)
  {
    if n < 26 then [Letter(n)] else Suffix(n / 26 - 1) + [Letter(n % 26)]
  }

  function DiskName(n: nat): string {
    "xvd" + Suffix(n)
  }

  function Reversed(s: string): (r: string)
    ensures |r| == |s|
  {
    if |s| == 0 then [] else [s[|s| - 1]] + Reversed(s[..|s| - 1])
  }

  lemma LastLetter(n: nat)
    ensures Suffix(n) == (if n < 26 then "" else Suffix(n / 26 - 1)) + [Letter(n % 26)]
  {
  }

  lemma ReversedSnoc(s: string, c: char)
    ensures Reversed(s + [c]) == [c] + Reversed(s)
  {
    assert (s + [c])[..|s|] == s;
  }

  /** The letters come out least significant first and are reversed at the end. */
  method VbdBlkidxToDiskName(blkid: nat) returns (name: string)
    ensures name == DiskName(blkid)
    // the index can be read back from the letters after the prefix
    ensures |name| > 3 && name[..3] == "xvd" && Lowercase(name[3..]) && BlockIndex(name[3..]) == blkid
  {
    hide Suffix, Reversed;
    name := "xvd";
    var suffix: string := "";
    var n := blkid;
    assert Reversed(suffix) == [] by {
      assert |Reversed(suffix)| == 0;
    }
    while true
      invariant Suffix(blkid) == Suffix(n) + Reversed(suffix)
      decreases n
    {
      var c := Letter(n % 26);
      LastLetter(n);
      ReversedSnoc(suffix, c);
      suffix := suffix + [c];
      if n >= 26 {
        n := n / 26 - 1;
      } else {
        break;
      }
    }
    name := name + Reversed(suffix);
    assert name[3..] == Suffix(blkid);
    IndexOfSuffix(blkid);
  }

  // ----- the inverse -----

  function BlockIndex(s: string): nat
    requires |s| > 0 && Lowercase(s)
  {
    var last := LetterIndex(s[|s| - 1]);
    if |s| == 1 then last else 26 * (BlockIndex(s[..|s| - 1]) + 1) + last
  }

  lemma {:induction false} IndexOfSuffix(n: nat)
    ensures BlockIndex(Suffix(n)) == n
  {
    if n >= 26 {
      var s := Suffix(n);
      IndexOfSuffix(n / 26 - 1);
      assert s[..|s| - 1] == Suffix(n / 26 - 1);
    }
  }

  lemma {:induction false} SuffixOfIndex(s: string)
    requires |s| > 0 && Lowercase(s)
    ensures Suffix(BlockIndex(s)) == s
  {
    if |s| > 1 {
      var n, last := BlockIndex(s), LetterIndex(s[|s| - 1]);
      SuffixOfIndex(s[..|s| - 1]);
      assert n / 26 - 1 == BlockIndex(s[..|s| - 1]) && n % 26 == last;
      assert s == s[..|s| - 1] + [s[|s| - 1]];
    } else {
      assert s == [s[0]];
    }
  }

  // ----- order -----

  /** Dictionary order of strings of one length. */
  predicate LexLess(s: string, t: string)
    requires |s| == |t|
  {
    |s| > 0 &&
    var n := |s| - 1;
    LexLess(s[..n], t[..n]) || (s[..n] == t[..n] && s[n] < t[n])
  }

  /** Shorter first, then dictionary order. */
  predicate ShortLexLess(s: string, t: string) {
    |s| < |t| || (|s| == |t| && LexLess(s, t))
  }

  /** The least index with n letters. */
  function FirstOfLength(n: nat): nat
    requires n > 0
  {
    if n == 1 then 0 else 26 * (FirstOfLength(n - 1) + 1)
  }

  lemma {:induction false} IndexInLength(s: string)
    requires |s| > 0 && Lowercase(s)
    ensures FirstOfLength(|s|) <= BlockIndex(s) < FirstOfLength(|s| + 1)
  {
    if |s| > 1 {
      IndexInLength(s[..|s| - 1]);
    }
  }

  lemma {:induction false} LengthsGrow(m: nat, n: nat)
    requires 0 < m <= n
    ensures FirstOfLength(m) <= FirstOfLength(n)
    decreases n
  {
    if m < n {
      LengthsGrow(m, n - 1);
    }
  }

  lemma {:induction false} LexIsSmaller(s: string, t: string)
    requires |s| == |t| > 0 && Lowercase(s) && Lowercase(t) && LexLess(s, t)
    ensures BlockIndex(s) < BlockIndex(t)
  {
    var n := |s| - 1;
    if n > 0 && LexLess(s[..n], t[..n]) {
      LexIsSmaller(s[..n], t[..n]);
    }
  }

  lemma {:induction false} LexTotal(s: string, t: string)
    requires |s| == |t|
    ensures s == t || LexLess(s, t) || LexLess(t, s)
  {
    if |s| > 0 {
      var n := |s| - 1;
      LexTotal(s[..n], t[..n]);
      assert s == s[..n] + [s[n]] && t == t[..n] + [t[n]];
    }
  }

  lemma ShortLexIsSmaller(s: string, t: string)
    requires |s| > 0 && |t| > 0 && Lowercase(s) && Lowercase(t) && ShortLexLess(s, t)
    ensures BlockIndex(s) < BlockIndex(t)
  {
    if |s| < |t| {
      IndexInLength(s);
      IndexInLength(t);
      LengthsGrow(|s| + 1, |t|);
    } else {
      LexIsSmaller(s, t);
    }
  }

  /** Names come in the order of their indexes. */
  lemma NamesInOrder(m: nat, n: nat)
    ensures m < n <==> ShortLexLess(Suffix(m), Suffix(n))
  {
    var s, t := Suffix(m), Suffix(n);
    IndexOfSuffix(m);
    IndexOfSuffix(n);
    if ShortLexLess(s, t) {
      ShortLexIsSmaller(s, t);
    } else if ShortLexLess(t, s) {
      ShortLexIsSmaller(t, s);
    } else {
      LexTotal(s, t);
    }
  }

  /** Different indexes have different names. */
  lemma NamesDistinct(m: nat, n: nat)
    requires DiskName(m) == DiskName(n)
    ensures m == n
  {
    assert DiskName(m)[3..] == Suffix(m) && DiskName(n)[3..] == Suffix(n);
    IndexOfSuffix(m);
    IndexOfSuffix(n);
  }

  // ----- device numbers -----

  /** Standard numbers (major 202, 16 minors each) up to index 5, extended numbers (256 minors each) above. */
  function VirtualDevice(idx: nat): nat {
    if idx <= 5 then 202 * 0x100 + idx * 16 else 0x1000_0000 + idx * 256
  }

  /** The minors reserved for a disk. */
  function Minors(idx: nat): nat {
    if idx <= 5 then 16 else 256
  }

  /** Which disk and which of its partitions a device number names: numbers with bit 28 set are extended ones with
      8 bits of partition, the others are major and minor with 4 bits of it. None for another major. */
  function DiskOfNumber(number: nat): (r: Option<(nat, nat)>) {
    if number >= 0x1000_0000 then Some(((number - 0x1000_0000) / 256, number % 256))
    else if number / 256 == 202 then Some((number % 256 / 16, number % 16))
    else None
  }

  /** The disk can be read back from each of its numbers. */
  lemma NumberNamesDisk(idx: nat, partition: nat)
    requires partition < if idx <= 5 then 16 else 256
    ensures DiskOfNumber(VirtualDevice(idx) + partition) == Some((idx, partition))
    ensures idx <= 5 <==> VirtualDevice(idx) < 0x1000_0000
  {
  }

  /** Number ranges of different disks, partitions included, do not meet. */
  lemma DeviceRangesApart(m: nat, n: nat)
    requires m != n
    ensures VirtualDevice(m) + Minors(m) <= VirtualDevice(n) || VirtualDevice(n) + Minors(n) <= VirtualDevice(m)
  {
  }
}

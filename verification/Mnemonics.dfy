/**
  The mnemonics of the opcode table are all different.
 */
module Mnemonics {
  import opened Ast
  import opened Encoder

  /** A number that tells the mnemonics apart, from their length and four of their characters. */
  function Key(s: string): int
    requires |s| >= 2
  {
    9 * |s| + 8 * (s[0] as int) + 7 * (s[1] as int) + s[|s| - 1] as int + 9 * (s[|s| - 2] as int)
  }

  function ByKey(k: int): int {
    if k == 1995 then 0 else if k == 1993 then 1 else if k == 2069 then 2 else if k == 2068 then 3 else
    if k == 1717 then 4 else if k == 1928 then 5 else if k == 2018 then 6 else if k == 1916 then 7 else
    if k == 1703 then 8 else if k == 2117 then 9 else if k == 2079 then 10 else if k == 1825 then 11 else
    if k == 1950 then 12 else if k == 1864 then 13 else if k == 1919 then 14 else if k == 1925 then 15 else
    if k == 1813 then 16 else if k == 1863 then 17 else if k == 2017 then 18 else if k == 2077 then 19 else
    if k == 1999 then 20 else if k == 1822 then 21 else if k == 1891 then 22 else if k == 1888 then 23 else
    if k == 1873 then 24 else if k == 1785 then 25 else if k == 1851 then 26 else if k == 1836 then 27 else
    if k == 1731 then 28 else if k == 2008 then 29 else if k == 1976 then 30 else if k == 1815 then 31 else
    if k == 1740 then 32 else if k == 1872 then 33 else if k == 1855 then 34 else if k == 1840 then 35 else
    if k == 1931 then 36 else if k == 1735 then 37 else if k == 1849 then 38 else if k == 1871 then 39 else
    if k == 1600 then 40 else if k == 1808 then 41 else if k == 1606 then 42 else if k == 1862 then 43 else
    if k == 1621 then 44 else if k == 1997 then 45 else if k == 1602 then 46 else if k == 1614 then 47 else
    if k == 1768 then 48 else if k == 1774 then 49 else if k == 1789 then 50 else if k == 1770 then 51 else
    if k == 1782 then 52 else if k == 1788 then 53 else if k == 2090 then 54 else if k == 2011 then 55 else
    if k == 1846 then 56 else if k == 1979 then 57 else if k == 1868 then 58 else if k == 1941 then 59 else
    if k == 1787 then 60 else if k == 1959 then 61 else if k == 2110 then 62 else if k == 1807 then 63 else
    if k == 1826 then 64 else if k == 2014 then 65 else if k == 1700 then 66 else if k == 1651 then 67 else
    if k == 1987 then 68 else if k == 2002 then 69 else if k == 1938 then 70 else if k == 1927 then 71 else -1
  }

  lemma KeysFrom0(i: nat)
    requires 0 <= i < 6
    ensures |Entry(i).mnemonic| >= 2 && ByKey(Key(Entry(i).mnemonic)) == i
  {
  }

  lemma KeysFrom6(i: nat)
    requires 6 <= i < 12
    ensures |Entry(i).mnemonic| >= 2 && ByKey(Key(Entry(i).mnemonic)) == i
  {
  }

  lemma KeysFrom12(i: nat)
    requires 12 <= i < 18
    ensures |Entry(i).mnemonic| >= 2 && ByKey(Key(Entry(i).mnemonic)) == i
  {
  }

  lemma KeysFrom18(i: nat)
    requires 18 <= i < 24
    ensures |Entry(i).mnemonic| >= 2 && ByKey(Key(Entry(i).mnemonic)) == i
  {
  }

  lemma KeysFrom24(i: nat)
    requires 24 <= i < 30
    ensures |Entry(i).mnemonic| >= 2 && ByKey(Key(Entry(i).mnemonic)) == i
  {
  }

  lemma KeysFrom30(i: nat)
    requires 30 <= i < 36
    ensures |Entry(i).mnemonic| >= 2 && ByKey(Key(Entry(i).mnemonic)) == i
  {
  }

  lemma KeysFrom36(i: nat)
    requires 36 <= i < 42
    ensures |Entry(i).mnemonic| >= 2 && ByKey(Key(Entry(i).mnemonic)) == i
  {
  }

  lemma KeysFrom42(i: nat)
    requires 42 <= i < 48
    ensures |Entry(i).mnemonic| >= 2 && ByKey(Key(Entry(i).mnemonic)) == i
  {
  }

  lemma KeysFrom48(i: nat)
    requires 48 <= i < 54
    ensures |Entry(i).mnemonic| >= 2 && ByKey(Key(Entry(i).mnemonic)) == i
  {
  }

  lemma KeysFrom54(i: nat)
    requires 54 <= i < 60
    ensures |Entry(i).mnemonic| >= 2 && ByKey(Key(Entry(i).mnemonic)) == i
  {
  }

  lemma KeysFrom60(i: nat)
    requires 60 <= i < 66
    ensures |Entry(i).mnemonic| >= 2 && ByKey(Key(Entry(i).mnemonic)) == i
  {
  }

  lemma KeysFrom66(i: nat)
    requires 66 <= i < 69
    ensures |Entry(i).mnemonic| >= 2 && ByKey(Key(Entry(i).mnemonic)) == i
  {
  }

  lemma KeysFrom69(i: nat)
    requires 69 <= i < 72
    ensures |Entry(i).mnemonic| >= 2 && ByKey(Key(Entry(i).mnemonic)) == i
  {
  }

  lemma KeyFindsEntry(i: Index)
    ensures |Entry(i).mnemonic| >= 2 && ByKey(Key(Entry(i).mnemonic)) == i
  {
    hide Entry; hide ByKey; hide Key;
    if i < 36 { KeyFindsLow(i); } else { KeyFindsHigh(i); }
  }

  lemma KeyFindsLow(i: nat)
    requires i < 36
    ensures |Entry(i).mnemonic| >= 2 && ByKey(Key(Entry(i).mnemonic)) == i
  {
    hide Entry; hide ByKey; hide Key;
    if i < 6 { KeysFrom0(i); } else if i < 12 { KeysFrom6(i); } else if i < 18 { KeysFrom12(i); }
    else if i < 24 { KeysFrom18(i); } else if i < 30 { KeysFrom24(i); } else if i < 36 { KeysFrom30(i); }
  }

  lemma KeyFindsHigh(i: nat)
    requires 36 <= i < 72
    ensures |Entry(i).mnemonic| >= 2 && ByKey(Key(Entry(i).mnemonic)) == i
  {
    hide Entry; hide ByKey; hide Key;
    if i < 42 { KeysFrom36(i); } else if i < 48 { KeysFrom42(i); } else if i < 54 { KeysFrom48(i); }
    else if i < 60 { KeysFrom54(i); } else if i < 66 { KeysFrom60(i); } else if i < 69 { KeysFrom66(i); }
    else { KeysFrom69(i); }
  }

  lemma {:induction false} FirstIsOnly(i: Index, from: nat)
    requires from <= i
    ensures FindEntry(Entry(i).mnemonic, from) == Some(i)
    decreases i - from
  {
    hide Entry; hide ByKey; hide Key;
    KeyFindsEntry(i);
    KeyFindsEntry(from);
    if from < i { FirstIsOnly(i, from + 1); }
  }

  /** Looking a mnemonic of the table up finds its own entry. */
  lemma MnemonicFindsEntry(i: Index)
    ensures FindEntry(Entry(i).mnemonic, 0) == Some(i)
  {
    hide Entry; hide FindEntry;
    FirstIsOnly(i, 0);
  }

  /** No lower-case letter: the upper-case form of the string is the string. */
  predicate NoLower(s: string) { forall k | 0 <= k < |s| :: !('a' <= s[k] <= 'z') }

  lemma UpperFrom0(i: nat)
    requires 0 <= i < 12
    ensures NoLower(Entry(i).mnemonic)
  {
  }

  lemma UpperFrom12(i: nat)
    requires 12 <= i < 24
    ensures NoLower(Entry(i).mnemonic)
  {
  }

  lemma UpperFrom24(i: nat)
    requires 24 <= i < 36
    ensures NoLower(Entry(i).mnemonic)
  {
  }

  lemma UpperFrom36(i: nat)
    requires 36 <= i < 48
    ensures NoLower(Entry(i).mnemonic)
  {
  }

  lemma UpperFrom48(i: nat)
    requires 48 <= i < 60
    ensures NoLower(Entry(i).mnemonic)
  {
  }

  lemma UpperFrom60(i: nat)
    requires 60 <= i < 66
    ensures NoLower(Entry(i).mnemonic)
  {
  }

  lemma UpperFrom66(i: nat)
    requires 66 <= i < 72
    ensures NoLower(Entry(i).mnemonic)
  {
  }

  lemma MnemonicsAreUpper(i: Index)
    ensures NoLower(Entry(i).mnemonic)
  {
    hide Entry; hide NoLower;
    if i < 12 { UpperFrom0(i); } else if i < 24 { UpperFrom12(i); } else if i < 36 { UpperFrom24(i); }
    else if i < 48 { UpperFrom36(i); } else if i < 60 { UpperFrom48(i); } else if i < 66 { UpperFrom60(i); }
    else if i < 72 { UpperFrom66(i); }
  }
}

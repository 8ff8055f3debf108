/** What the encoder's output is made of: group and tail shapes, sentinels, length, alphabet. */
module EncodingFacts {
  import opened Numerals
  import opened Constants
  import opened Encoding

  /**
   * A complete group that is neither zero nor, with groupSpace, four spaces is written as
   * five table characters: the base-85 digits of its value, most significant first.
   */
  lemma WordDigits(x: nat, table: seq<TableChar>, groupSpace: bool)
    requires CoversDigits(table) && x < 0x1_0000_0000
    requires x != 0 && !(groupSpace && x == GroupSpaceWord)
    ensures |EncodeWord(x, table, groupSpace)| == 5
    ensures forall k :: 0 <= k < 5 ==> EncodeWord(x, table, groupSpace)[k] == table[x / Pow(85, 4 - k) % 85]
    ensures FromDigits(ToDigits(x, 5, 85), 85) == x
  {
    forall k | 0 <= k < 5
      ensures EncodeWord(x, table, groupSpace)[k] == table[x / Pow(85, 4 - k) % 85]
    {
      DigitAt(x, 5, 85, k);
    }
    DigitsValue(x, 5, 85);
    FiveDigitsCoverWord();
  }

  /** A complete group is written as `z` exactly when it is zero. */
  lemma ZeroWordIff(x: nat, table: seq<TableChar>, groupSpace: bool)
    requires CoversDigits(table)
    ensures EncodeWord(x, table, groupSpace) == [ZeroCode] <==> x == 0
  {
  }

  /** A complete group is written as `y` exactly when groupSpace is on and it is four spaces. */
  lemma SpaceWordIff(x: nat, table: seq<TableChar>, groupSpace: bool)
    requires CoversDigits(table)
    ensures EncodeWord(x, table, groupSpace) == [GroupSpaceCode] <==> groupSpace && x == GroupSpaceWord
  {
  }

  /** The bytes `Man ` are written as `9jqo^` with the default table. */
  lemma KnownVector()
    ensures EncodeGroup([0x4D, 0x61, 0x6E, 0x20], DefaultEncodingTable(), false) == [57, 106, 113, 111, 94]
  {
    var g: seq<byte> := [0x4D, 0x61, 0x6E, 0x20];
    assert g[..3] == [0x4D, 0x61, 0x6E] && g[..3][..2] == [0x4D, 0x61] && g[..3][..2][..1] == [0x4D];
    assert FromDigits([0x4D], 256) == 0x4D;
    assert FromDigits([0x4D, 0x61], 256) == 0x4D61;
    assert FromDigits([0x4D, 0x61, 0x6E], 256) == 0x4D616E;
    assert FromDigits(g, 256) == 1298230816;
    var ds := ToDigits(1298230816, 5, 85);
    assert ds == [24, 73, 80, 78, 61];
  }

  /** A trailing group of `r` bytes is written as `r + 1` characters of the table's first 85, never the `z` sentinel. */
  lemma TailShape(t: seq<byte>, table: seq<TableChar>)
    requires 1 <= |t| < 4 && CoversDigits(table)
    ensures |EncodeTail(t, table)| == |t| + 1
    ensures forall k :: 0 <= k < |t| + 1 ==> EncodeTail(t, table)[k] in table[..85]
  {
    var ds := ToDigits(Padded(FromDigits(t, 256), 4 - |t|), 5, 85);
    DigitsInBase(Padded(FromDigits(t, 256), 4 - |t|), 5, 85);
    forall k | 0 <= k < |t| + 1
      ensures EncodeTail(t, table)[k] in table[..85]
    {
      assert table[..85][ds[k]] == EncodeTail(t, table)[k];
    }
  }

  /** Each complete group is written as at most five characters. */
  lemma {:induction false} GroupsLength(d: seq<byte>, n: nat, table: seq<TableChar>, groupSpace: bool)
    requires 4 * n <= |d| && CoversDigits(table)
    ensures |EncodeGroups(d, n, table, groupSpace)| <= 5 * n
  {
    if n > 0 {
      GroupsLength(d, n - 1, table, groupSpace);
    }
  }

  /** The output fits the buffer encode allocates: at most ceil(5n/4) + 4, plus 4 for the delimiters. */
  lemma EncodeLengthBound(d: seq<byte>, table: seq<TableChar>, delimiter: bool, groupSpace: bool)
    requires CoversDigits(table)
    ensures |Encode(d, table, delimiter, groupSpace)| <= Capacity(|d|, delimiter)
  {
    var n := |d| / 4;
    GroupsLength(d, n, table, groupSpace);
    var body := EncodeBody(d, table, groupSpace);
    assert 4 * |body| <= 5 * |d| + 3 by {
      if 4 * n != |d| {
        TailShape(d[4 * n..], table);
      }
    }
    assert |body| <= (|d| * 5 + 3) / 4;
  }

  /** A code that is neither `z`, `y` nor a digit's table character never occurs in a complete group. */
  lemma WordAvoids(x: nat, table: seq<TableChar>, groupSpace: bool, c: byte)
    requires CoversDigits(table) && c != ZeroCode && c != GroupSpaceCode
    requires forall v :: 0 <= v < 85 ==> table[v] != c
    ensures c !in EncodeWord(x, table, groupSpace)
  {
    if EncodeWord(x, table, groupSpace) == Spell(ToDigits(x, 5, 85), table) {
      DigitsInBase(x, 5, 85);
    }
  }

  /**
   * With a table without `c` among its first 85 characters, the encoded body never contains `c`,
   * unless `c` is `z` or `y`: with the default table, no `~`.
   */
  lemma {:induction false} GroupsAvoid(d: seq<byte>, n: nat, table: seq<TableChar>, groupSpace: bool, c: byte)
    requires 4 * n <= |d| && CoversDigits(table) && c != ZeroCode && c != GroupSpaceCode
    requires forall v :: 0 <= v < 85 ==> table[v] != c
    ensures c !in EncodeGroups(d, n, table, groupSpace)
  {
    if n > 0 {
      GroupsAvoid(d, n - 1, table, groupSpace, c);
      WordAvoids(FromDigits(d[4 * (n - 1)..4 * n], 256), table, groupSpace, c);
    }
  }

  /** The encoded body holds no character outside the table, `z` and `y`. */
  lemma BodyAvoids(d: seq<byte>, table: seq<TableChar>, groupSpace: bool, c: byte)
    requires CoversDigits(table) && c != ZeroCode && c != GroupSpaceCode
    requires forall v :: 0 <= v < 85 ==> table[v] != c
    ensures c !in EncodeBody(d, table, groupSpace)
  {
    var n := |d| / 4;
    GroupsAvoid(d, n, table, groupSpace, c);
    if 4 * n != |d| {
      TailShape(d[4 * n..], table);
    }
  }

  /** With the default table the output never contains `~` between the delimiters. */
  lemma DefaultBodyHasNoTilde(d: seq<byte>, groupSpace: bool)
    ensures TildeCode !in EncodeBody(d, DefaultEncodingTable(), groupSpace)
  {
    BodyAvoids(d, DefaultEncodingTable(), groupSpace, TildeCode);
  }
}

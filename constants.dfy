/**
 * The Ascii85 constants: base, group lengths, sentinel and delimiter codes,
 * and the default encoding and decoding tables (src/constants.js).
 * Characters are handled as their byte codes.
 */
module Constants {
  import opened Wrappers
  import opened Numerals

  /**
   * A character of an encoding table, as the byte that output.write stores for it.
   * Buffer.write stores one byte for an ASCII character (a code below 128) and two for
   * any other; the model writes one byte per table character, so it describes the
   * program only for ASCII tables.
   */
  type TableChar = byte

  /**
   * A decoding table: for each of the 256 byte codes, the digit value it stands
   * for, or None where the sparse JavaScript array has no entry.
   */
  type DecodingTable = t: seq<Option<nat>> | |t| == 256 witness seq(256, _ => None)

  const Base: nat := 85
  const CodeStart: nat := 33
  const CodeEnd: nat := CodeStart + Base

  /** Four NUL bytes, the expansion of `z`. */
  const NullString: seq<byte> := [0, 0, 0, 0]
  /** `z` */
  const ZeroCode: byte := 122
  /** `u`, the character of the largest digit. */
  const PaddingCode: byte := 117
  const EncodingGroupLength: nat := 4
  const DecodingGroupLength: nat := 5

  /** `<~` */
  const BlockStart: seq<byte> := [60, 126]
  const BlockStartLength: nat := 2
  const BlockStartValue: nat := 0x3C7E
  /** `~>` */
  const BlockEnd: seq<byte> := [126, 62]
  const BlockEndLength: nat := 2
  const BlockEndValue: nat := 0x7E3E

  /** `y` */
  const GroupSpaceCode: byte := 121
  /** The 32-bit value of four spaces. */
  const GroupSpaceWord: nat := 0x20202020
  /** Four spaces, the expansion of `y`. */
  const GroupSpaceString: seq<byte> := [32, 32, 32, 32]

  /** The code `~`, which starts the end marker. */
  const TildeCode: byte := 126

  /** `!` .. `u`: the character for digit value `i` has code 33 + i. */
  function DefaultEncodingTable(): seq<TableChar>
  {
    seq(Base, i requires 0 <= i < Base => CodeStart + i)
  }

  /** Code 33 + i decodes to i; every other code has no entry. */
  function DefaultDecodingTable(): DecodingTable
  {
    seq(256, c requires 0 <= c < 256 => if CodeStart <= c < CodeEnd then Some(c - CodeStart) else None)
  }

  /** The loop that fills ASCII85_DEFAULT_ENCODING_TABLE. */
  method BuildDefaultEncodingTable() returns (table: seq<TableChar>)
    ensures table == DefaultEncodingTable()
  {
    var arr := new TableChar[Base];
    for i := 0 to Base
      invariant forall k :: 0 <= k < i ==> arr[k] == CodeStart + k
    {
      arr[i] := CodeStart + i;
    }
    table := arr[..];
  }

  /** The loop that fills ASCII85_DEFAULT_DECODING_TABLE, a 256-slot array with holes. */
  method BuildDefaultDecodingTable() returns (table: DecodingTable)
    ensures table == DefaultDecodingTable()
  {
    var arr := new Option<nat>[256](_ => None);
    for i := 0 to Base
      invariant forall c :: 0 <= c < 256 ==>
        arr[c] == if CodeStart <= c < CodeStart + i then Some(c - CodeStart) else None
    {
      arr[CodeStart + i] := Some(i);
    }
    table := arr[..];
  }

  // ---------------------------------------------------------------------
  // Facts about the constants

  /** The default alphabet has 85 characters, `!` first, strictly increasing, hence distinct. */
  lemma DefaultEncodingTableShape()
    ensures |DefaultEncodingTable()| == Base
    ensures DefaultEncodingTable()[0] == 33 && DefaultEncodingTable()[Base - 1] == PaddingCode
    ensures forall i, j :: 0 <= i < j < Base ==> DefaultEncodingTable()[i] < DefaultEncodingTable()[j]
  {
  }

  /** The default decoding table inverts the default encoding table, in both directions. */
  lemma DefaultTablesInverse()
    ensures forall v :: 0 <= v < Base ==> DefaultDecodingTable()[DefaultEncodingTable()[v]] == Some(v)
    ensures forall c :: 0 <= c < 256 && DefaultDecodingTable()[c].Some? ==>
      DefaultDecodingTable()[c].value < Base && DefaultEncodingTable()[DefaultDecodingTable()[c].value] == c
  {
  }

  /**
   * Codes outside `!`..`u` have no entry: `y`, `z`, `~` and whitespace among them,
   * and no default character is `y`, `z` or `~`.
   */
  lemma DefaultUnmappedCodes()
    ensures forall c :: 0 <= c < 256 && !(CodeStart <= c < CodeEnd) ==> DefaultDecodingTable()[c].None?
    ensures DefaultDecodingTable()[ZeroCode].None? && DefaultDecodingTable()[GroupSpaceCode].None?
    ensures DefaultDecodingTable()[TildeCode].None? && DefaultDecodingTable()[32].None?
    ensures forall v :: 0 <= v < Base ==>
      DefaultEncodingTable()[v] !in {ZeroCode, GroupSpaceCode, TildeCode}
  {
  }

  /** `y` stands for four spaces and `z` for four NULs, as 32-bit big-endian words. */
  lemma SentinelWords()
    ensures FromDigits(GroupSpaceString, 256) == GroupSpaceWord
    ensures ToDigits(GroupSpaceWord, 4, 256) == GroupSpaceString
    ensures FromDigits(NullString, 256) == 0
    ensures ToDigits(0, 4, 256) == NullString
  {
    assert [32, 32, 32, 32][..3] == [32, 32, 32] && [32, 32, 32][..2] == [32, 32] && [32, 32][..1] == [32];
    assert FromDigits([32, 32], 256) == 0x2020;
    assert FromDigits([32, 32, 32], 256) == 0x202020;
    assert [0, 0, 0, 0][..3] == [0, 0, 0] && [0, 0, 0][..2] == [0, 0] && [0, 0][..1] == [0];
    assert FromDigits([0, 0, 0], 256) == 0;
    DigitsOfValue(GroupSpaceString, 256);
    DigitsOfValue(NullString, 256);
  }

  /** BLOCK_START_VALUE and BLOCK_END_VALUE are the 16-bit big-endian values of `<~` and `~>`. */
  lemma MarkerValues()
    ensures FromDigits(BlockStart, 256) == BlockStartValue && |BlockStart| == BlockStartLength
    ensures FromDigits(BlockEnd, 256) == BlockEndValue && |BlockEnd| == BlockEndLength
  {
    assert BlockStart[..1] == [60];
    assert BlockEnd[..1] == [126];
  }

  /** Five base-85 digits reach every 32-bit value: 85^5 > 2^32. */
  lemma FiveDigitsCoverWord()
    ensures Pow(256, EncodingGroupLength) == 0x1_0000_0000
    ensures Pow(Base, DecodingGroupLength) == 4437053125
    ensures Pow(256, EncodingGroupLength) < Pow(Base, DecodingGroupLength)
  {
    assert Pow(256, 2) == 65536;
    assert Pow(85, 2) == 7225;
    assert Pow(85, 3) == 614125;
    assert Pow(85, 4) == 52200625;
  }
}

/**
 * The encoder, Ascii85.prototype.encode (index.js): the specification as
 * functions over byte sequences, and the loop that writes into a pre-sized
 * output buffer, proved to produce exactly the specified bytes.
 */
module Encoding {
  import opened Numerals
  import opened Constants
  import opened Buffers

  /** A table the encoder can index with every digit value 0..84. */
  predicate CoversDigits(table: seq<TableChar>)
  {
    |table| >= Base
  }

  /** The table characters of the digit values `ds`. */
  function Spell(ds: seq<nat>, table: seq<TableChar>): seq<byte>
    requires CoversDigits(table) && DigitsBelow(ds, 85)
  {
    seq(|ds|, k requires 0 <= k < |ds| => table[ds[k]])
  }

  /** A complete group of value `x`: `y`, its five base-85 digits, or `z`, checked in that order. */
  function EncodeWord(x: nat, table: seq<TableChar>, groupSpace: bool): seq<byte>
    requires CoversDigits(table)
  {
    if groupSpace && x == GroupSpaceWord then [GroupSpaceCode]
    else if x != 0 then DigitsInBase(x, 5, 85); Spell(ToDigits(x, 5, 85), table)
    else [ZeroCode]
  }

  /** A complete 4-byte group, read as a big-endian word. */
  function EncodeGroup(g: seq<byte>, table: seq<TableChar>, groupSpace: bool): seq<byte>
    requires |g| == 4 && CoversDigits(table)
  {
    EncodeWord(FromDigits(g, 256), table, groupSpace)
  }

  /**
   * A trailing group of `r` bytes (1..3) of value `x`: zero-padded to a word,
   * converted to five digits, of which the first `r + 1` are written. No sentinel is used.
   */
  function EncodeTailWord(x: nat, r: nat, table: seq<TableChar>): seq<byte>
    requires 1 <= r < 4 && CoversDigits(table)
  {
    DigitsInBase(Padded(x, 4 - r), 5, 85);
    Spell(ToDigits(Padded(x, 4 - r), 5, 85)[..r + 1], table)
  }

  /** `x` followed by `k` zero bytes: `x * 256^k`, one byte at a time. */
  function Padded(x: nat, k: nat): nat
  {
    if k == 0 then x else Padded(x, k - 1) * 256
  }

  /** A trailing group of 1..3 bytes. */
  function EncodeTail(t: seq<byte>, table: seq<TableChar>): seq<byte>
    requires 1 <= |t| < 4 && CoversDigits(table)
  {
    EncodeTailWord(FromDigits(t, 256), |t|, table)
  }

  /** The first `n` complete groups of `d`, encoded one after the other. */
  function EncodeGroups(d: seq<byte>, n: nat, table: seq<TableChar>, groupSpace: bool): seq<byte>
    requires 4 * n <= |d| && CoversDigits(table)
  {
    if n == 0 then []
    else EncodeGroups(d, n - 1, table, groupSpace) + EncodeGroup(d[4 * (n - 1)..4 * n], table, groupSpace)
  }

  /** The encoded data without delimiters: complete groups, then the tail if any. */
  function EncodeBody(d: seq<byte>, table: seq<TableChar>, groupSpace: bool): seq<byte>
    requires CoversDigits(table)
  {
    var n := |d| / 4;
    EncodeGroups(d, n, table, groupSpace)
      + (if 4 * n == |d| then [] else EncodeTail(d[4 * n..], table))
  }

  /** The output of encode: the body, wrapped in `<~` .. `~>` when `delimiter` is set. */
  function Encode(d: seq<byte>, table: seq<TableChar>, delimiter: bool, groupSpace: bool): seq<byte>
    requires CoversDigits(table)
  {
    (if delimiter then BlockStart else []) + EncodeBody(d, table, groupSpace)
      + (if delimiter then BlockEnd else [])
  }

  /** The size encode allocates: ceil(5n/4) + 4, plus 4 for the delimiters. */
  function Capacity(n: nat, delimiter: bool): nat
  {
    (n * 5 + 3) / 4 + 4 + (if delimiter then 4 else 0)
  }

  // ---------------------------------------------------------------------
  // The loops of index.js

  /** The digit loop: `digits[j] = x % 85, x = (x - r) / 85` for j = 4 down to 0. */
  method SplitBase85(x: nat, digits: array<nat>)
    requires digits.Length == 5
    modifies digits
    ensures digits[..] == ToDigits(x, 5, 85) && DigitsBelow(digits[..], 85)
  {
    var cur := x;
    var j := 4;
    while j >= 0
      invariant -1 <= j <= 4
      invariant cur == x / Pow(85, 4 - j)
      invariant forall k :: j < k < 5 ==> digits[k] == ToDigits(x, 5, 85)[k]
    {
      var r := cur % 85;
      digits[j] := r;
      DigitAt(x, 5, 85, j);
      DivDiv(x, Pow(85, 4 - j), 85);
      cur := (cur - r) / 85;
      j := j - 1;
    }
    DigitsInBase(x, 5, 85);
  }

  /** The write loop: the table characters of the five digits in `bytes`. */
  method WriteDigits(output: array<byte>, offset: nat, table: seq<TableChar>, bytes: array<nat>)
    returns (next: nat)
    requires CoversDigits(table) && DigitsBelow(bytes[..], 85)
    requires offset + bytes.Length <= output.Length
    modifies output
    ensures next == offset + bytes.Length
    ensures output[..next] == old(output[..offset]) + Spell(bytes[..], table)
  {
    next := offset;
    for j := 0 to bytes.Length
      invariant next == offset + j
      invariant output[..next] == old(output[..offset]) + Spell(bytes[..], table)[..j]
    {
      next := Put(output, next, [table[bytes[j]]]);
      assert Spell(bytes[..], table)[..j + 1] == Spell(bytes[..], table)[..j] + [table[bytes[j]]];
    }
  }

  /** The padding loop: `cur *= 1 << 8`, `padding` times. */
  method PadWord(cur: nat, padding: nat) returns (c: nat)
    ensures c == Padded(cur, padding)
  {
    c := cur;
    var i := padding;
    while i > 0
      invariant 0 <= i <= padding
      invariant c == Padded(cur, padding - i)
    {
      c := c * 256;
      i := i - 1;
    }
  }

  /** index.js:118-132: write one complete group whose value is `cur`. */
  method WriteGroup(output: array<byte>, offset: nat, cur: nat, table: seq<TableChar>, groupSpace: bool)
    returns (next: nat)
    requires CoversDigits(table)
    requires offset + 5 <= output.Length
    modifies output
    ensures offset < next <= offset + 5
    ensures output[..next] == old(output[..offset]) + EncodeWord(cur, table, groupSpace)
  {
    if groupSpace && cur == GroupSpaceWord {
      next := Put(output, offset, [GroupSpaceCode]);
    } else if cur != 0 {
      var bytes := new nat[5];
      SplitBase85(cur, bytes);
      next := WriteDigits(output, offset, table, bytes);
    } else {
      next := Put(output, offset, [ZeroCode]);
    }
  }

  /** The loop `output.write(table[0], offset)`, `count` times. */
  method WriteRepeated(output: array<byte>, offset: nat, c: byte, count: nat) returns (next: nat)
    requires offset + count <= output.Length
    modifies output
    ensures next == offset + count
    ensures output[..next] == old(output[..offset]) + seq(count, _ => c)
  {
    next := offset;
    for j := 0 to count
      invariant next == offset + j
      invariant output[..next] == old(output[..offset]) + seq(j, _ => c)
    {
      next := Put(output, next, [c]);
      assert seq(j + 1, _ => c) == seq(j, _ => c) + [c];
    }
  }

  /** index.js:140-157: a trailing group of nonzero value, padded, split and cut back by the padding. */
  method WritePaddedTail(output: array<byte>, offset: nat, cur: nat, digits: nat, table: seq<TableChar>)
    returns (next: nat)
    requires CoversDigits(table)
    requires 1 <= digits < 4
    requires offset + 5 <= output.Length
    modifies output
    ensures next == offset + digits + 1
    ensures output[..next] == old(output[..offset]) + EncodeTailWord(cur, digits, table)
  {
    var padding := 4 - digits;
    var c := PadWord(cur, padding);
    var bytes := new nat[5];
    SplitBase85(c, bytes);
    ghost var before := output[..offset];
    next := WriteDigits(output, offset, table, bytes);
    next := next - padding;
    assert output[..next] == output[..offset + 5][..next];
    PrefixOfAppend(before, Spell(bytes[..], table), digits + 1);
    TailSpelled(cur, digits, table, bytes[..]);
  }

  /** index.js:139-165: write a trailing group of `digits` bytes whose value is `cur`. */
  method WriteTail(output: array<byte>, offset: nat, cur: nat, digits: nat, table: seq<TableChar>)
    returns (next: nat)
    requires CoversDigits(table)
    requires 1 <= digits < 4
    requires offset + 5 <= output.Length
    modifies output
    ensures next == offset + digits + 1
    ensures output[..next] == old(output[..offset]) + EncodeTailWord(cur, digits, table)
  {
    if cur != 0 {
      next := WritePaddedTail(output, offset, cur, digits, table);
    } else {
      // A zero tail: the digits of a zero word are all 0.
      ZeroTail(digits, table);
      next := WriteRepeated(output, offset, table[0], digits + 1);
    }
  }

  /**
   * After `i` bytes: `groups` complete groups are written and the remaining `digits`
   * bytes are pending in `cur`, as a big-endian value.
   */
  ghost predicate Scanned(data: seq<byte>, i: nat, groups: nat, digits: nat, cur: nat)
  {
    i <= |data| && digits < 4 && i == 4 * groups + digits && cur == FromDigits(data[4 * groups..i], 256)
  }

  /** Shifting in byte `i` without completing a group leaves a longer pending group. */
  lemma ScanPending(data: seq<byte>, i: nat, groups: nat, digits: nat, cur: nat)
    requires i < |data| && Scanned(data, i, groups, digits, cur) && digits + 1 < 4
    ensures Scanned(data, i + 1, groups, digits + 1, cur * 256 + data[i])
  {
    ShiftInByte(data, 4 * groups, i);
  }

  /** Shifting in the fourth pending byte completes group number `groups`. */
  lemma ScanComplete(data: seq<byte>, i: nat, groups: nat, digits: nat, cur: nat)
    requires i < |data| && Scanned(data, i, groups, digits, cur) && digits + 1 == 4
    ensures 4 * groups + 4 <= |data|
    ensures cur * 256 + data[i] == FromDigits(data[4 * groups..4 * groups + 4], 256)
    ensures Scanned(data, i + 1, groups + 1, 0, 0)
  {
    ShiftInByte(data, 4 * groups, i);
  }

  /** The body of the byte loop (index.js:108-135): shift in byte `i`, and flush a complete group. */
  method ScanByte(output: array<byte>, offset: nat, data: seq<byte>, i: nat, ghost groups: nat,
                  digits: nat, cur: nat, table: seq<TableChar>, groupSpace: bool, ghost prefix: seq<byte>)
    returns (offset': nat, ghost groups': nat, digits': nat, cur': nat)
    requires CoversDigits(table)
    requires i < |data| && Scanned(data, i, groups, digits, cur)
    requires offset <= |prefix| + 5 * groups && 4 * |prefix| + 5 * |data| + 16 <= 4 * output.Length
    requires output[..offset] == prefix + EncodeGroups(data, groups, table, groupSpace)
    modifies output
    ensures Scanned(data, i + 1, groups', digits', cur')
    ensures offset' <= |prefix| + 5 * groups'
    ensures output[..offset'] == prefix + EncodeGroups(data, groups', table, groupSpace)
  {
    cur' := cur * 256 + data[i];
    digits' := digits + 1;
    GroupComplete(digits');
    if digits' % 4 != 0 {
      ScanPending(data, i, groups, digits, cur);
      offset', groups' := offset, groups;
    } else {
      offset' := FlushGroup(output, offset, data, i, groups, cur, cur', table, groupSpace, prefix);
      cur', digits', groups' := 0, 0, groups + 1;
    }
  }

  /** The fourth pending byte completes group number `groups`, written after the groups before it. */
  method FlushGroup(output: array<byte>, offset: nat, ghost data: seq<byte>, ghost i: nat, ghost groups: nat,
                    ghost pending: nat, word: nat, table: seq<TableChar>, groupSpace: bool, ghost prefix: seq<byte>)
    returns (next: nat)
    requires CoversDigits(table)
    requires i < |data| && Scanned(data, i, groups, 3, pending) && word == pending * 256 + data[i]
    requires offset <= |prefix| + 5 * groups && 4 * |prefix| + 5 * |data| + 16 <= 4 * output.Length
    requires output[..offset] == prefix + EncodeGroups(data, groups, table, groupSpace)
    modifies output
    ensures Scanned(data, i + 1, groups + 1, 0, 0)
    ensures next <= |prefix| + 5 * (groups + 1)
    ensures output[..next] == prefix + EncodeGroups(data, groups + 1, table, groupSpace)
  {
    ScanComplete(data, i, groups, 3, pending);
    RoomForGroup(offset, |prefix|, groups, |data|, output.Length);
    GroupsSnoc(data, groups, word, table, groupSpace);
    next := WriteGroup(output, offset, word, table, groupSpace);
    Associative(prefix, EncodeGroups(data, groups, table, groupSpace), EncodeWord(word, table, groupSpace));
  }

  /** A group written at a cursor within the bound stays inside the buffer. */
  lemma RoomForGroup(offset: nat, start: nat, groups: nat, n: nat, length: nat)
    requires offset <= start + 5 * groups && 4 * groups + 4 <= n
    requires 4 * start + 5 * n + 16 <= 4 * length
    ensures offset + 5 <= length
  {
  }

  /**
   * index.js:107-136: the loop over the data bytes, writing each complete
   * group at the cursor and leaving the last `digits` bytes, of value `cur`, pending.
   */
  method WriteGroups(output: array<byte>, start: nat, data: seq<byte>, table: seq<TableChar>, groupSpace: bool)
    returns (offset: nat, ghost groups: nat, cur: nat, digits: nat)
    requires CoversDigits(table)
    requires 4 * start + 5 * |data| + 16 <= 4 * output.Length
    modifies output
    ensures |data| == 4 * groups + digits && digits < 4
    ensures cur == FromDigits(data[4 * groups..], 256)
    ensures start <= offset <= start + 5 * groups
    ensures output[..offset] == old(output[..start]) + EncodeGroups(data, groups, table, groupSpace)
  {
    ghost var prefix := output[..start];
    offset := start;
    digits, cur := 0, 0;
    groups := 0;
    ScanStart(data, prefix, table, groupSpace);
    for i := 0 to |data|
      invariant Scanned(data, i, groups, digits, cur)
      invariant start <= offset <= start + 5 * groups
      invariant output[..offset] == prefix + EncodeGroups(data, groups, table, groupSpace)
    {
      offset, groups, digits, cur :=
        ScanByte(output, offset, data, i, groups, digits, cur, table, groupSpace, prefix);
    }
    ScanEnd(data, groups, digits, cur);
  }

  /** Before the first byte nothing is pending and nothing is written. */
  lemma ScanStart(data: seq<byte>, prefix: seq<byte>, table: seq<TableChar>, groupSpace: bool)
    requires CoversDigits(table)
    ensures Scanned(data, 0, 0, 0, 0)
    ensures prefix == prefix + EncodeGroups(data, 0, table, groupSpace)
  {
    assert data[0..0] == [];
  }

  /** After the last byte, the pending bytes are all that follow the complete groups. */
  lemma ScanEnd(data: seq<byte>, groups: nat, digits: nat, cur: nat)
    requires Scanned(data, |data|, groups, digits, cur)
    ensures |data| == 4 * groups + digits && digits < 4
    ensures cur == FromDigits(data[4 * groups..], 256)
  {
    assert data[4 * groups..|data|] == data[4 * groups..];
  }

  /** index.js:107-165: the encoded body, complete groups and then the trailing group, written at `start`. */
  method WriteBody(output: array<byte>, start: nat, data: seq<byte>, table: seq<TableChar>, groupSpace: bool)
    returns (offset: nat)
    requires CoversDigits(table)
    requires 4 * start + 5 * |data| + 16 <= 4 * output.Length
    modifies output
    ensures start <= offset && 4 * offset <= 4 * start + 5 * |data| + 3
    ensures output[..offset] == old(output[..start]) + EncodeBody(data, table, groupSpace)
  {
    ghost var prefix := old(output[..start]);
    var cur, digits;
    ghost var g;
    offset, g, cur, digits := WriteGroups(output, start, data, table, groupSpace);
    ghost var groups := EncodeGroups(data, g, table, groupSpace);
    BodySplit(data, g, digits, cur, table, groupSpace);

    // The 1..3 bytes left after the last complete group.
    if digits != 0 {
      offset := WriteTail(output, offset, cur, digits, table);
      Associative(prefix, groups, EncodeTailWord(cur, digits, table));
    } else {
      assert groups + [] == groups;
    }
  }

  /** encode, for resolved options: pre-size the buffer, write each group, trim to the cursor. */
  method WriteEncoded(data: seq<byte>, table: seq<TableChar>, delimiter: bool, groupSpace: bool)
    returns (r: seq<byte>)
    requires CoversDigits(table)
    ensures r == Encode(data, table, delimiter, groupSpace)
  {
    var offset: nat := 0;
    var output := new byte[Capacity(|data|, delimiter)];
    CapacityBound(|data|, delimiter);
    if delimiter {
      offset := Put(output, offset, BlockStart);
    }
    offset := WriteBody(output, offset, data, table, groupSpace);
    if delimiter {
      offset := Put(output, offset, BlockEnd);
    }
    r := output[..offset];
  }

  /** The allocated size holds `5n/4` characters, four more, and both delimiters. */
  lemma CapacityBound(n: nat, delimiter: bool)
    ensures 4 * Capacity(n, delimiter) >= 5 * n + 16 + (if delimiter then 16 else 0)
  {
  }

  /** Shifting in the next byte extends the big-endian value by one byte. */
  lemma ShiftInByte(data: seq<byte>, a: nat, i: nat)
    requires a <= i < |data|
    ensures FromDigits(data[a..i + 1], 256) == FromDigits(data[a..i], 256) * 256 + data[i]
  {
    assert data[a..i + 1][..i - a] == data[a..i];
  }

  /** A trailing group of zero bytes is written as `table[0]`, once per byte and once more; never as the `z` sentinel. */
  lemma ZeroTail(r: nat, table: seq<TableChar>)
    requires 1 <= r < 4 && CoversDigits(table)
    ensures EncodeTailWord(0, r, table) == seq(r + 1, _ => table[0])
  {
    ZeroPadded(4 - r);
    ZeroDigits(5, 85);
    DigitsInBase(0, 5, 85);
    SpellZeros(ToDigits(0, 5, 85)[..r + 1], table);
  }

  /** Digits that are all zero are spelled as the table's first character. */
  lemma SpellZeros(ds: seq<nat>, table: seq<TableChar>)
    requires CoversDigits(table) && forall k :: 0 <= k < |ds| ==> ds[k] == 0
    ensures DigitsBelow(ds, 85) && Spell(ds, table) == seq(|ds|, _ => table[0])
  {
  }

  lemma {:induction false} ZeroPadded(k: nat)
    ensures Padded(0, k) == 0
  {
    if k > 0 {
      ZeroPadded(k - 1);
    }
  }

  /** The body is the `g` complete groups followed by the `d` remaining bytes, of value `cur`. */
  lemma BodySplit(data: seq<byte>, g: nat, d: nat, cur: nat, table: seq<TableChar>, groupSpace: bool)
    requires |data| == 4 * g + d && d < 4 && CoversDigits(table)
    requires cur == FromDigits(data[4 * g..], 256)
    ensures |data| / 4 == g
    ensures EncodeBody(data, table, groupSpace) == EncodeGroups(data, g, table, groupSpace)
      + (if d == 0 then [] else EncodeTailWord(cur, d, table))
  {
    DivModUnique(|data|, 4, g, d);
  }

  /** One more complete group, whose big-endian value is `cur`. */
  lemma GroupsSnoc(data: seq<byte>, n: nat, cur: nat, table: seq<TableChar>, groupSpace: bool)
    requires 4 * n + 4 <= |data| && CoversDigits(table)
    requires cur == FromDigits(data[4 * n..4 * n + 4], 256)
    ensures EncodeGroups(data, n + 1, table, groupSpace)
         == EncodeGroups(data, n, table, groupSpace) + EncodeWord(cur, table, groupSpace)
  {
    var m := n + 1;
    assert 4 * (m - 1) == 4 * n;
    assert EncodeGroups(data, m, table, groupSpace)
        == EncodeGroups(data, n, table, groupSpace) + EncodeGroup(data[4 * n..4 * n + 4], table, groupSpace);
  }

  /** Truncating after a prefix `a` keeps `a` and the first `k` elements of what follows. */
  lemma PrefixOfAppend(a: seq<byte>, b: seq<byte>, k: nat)
    requires k <= |b|
    ensures (a + b)[..|a| + k] == a + b[..k]
  {
  }

  /** The first `r + 1` characters of the padded word's spelling are the tail's encoding. */
  lemma TailSpelled(x: nat, r: nat, table: seq<TableChar>, ds: seq<nat>)
    requires 1 <= r < 4 && CoversDigits(table)
    requires ds == ToDigits(Padded(x, 4 - r), 5, 85) && DigitsBelow(ds, 85)
    ensures Spell(ds, table)[..r + 1] == EncodeTailWord(x, r, table)
  {
    SpellPrefix(ds, table, r + 1);
  }

  /** Spelling commutes with taking a prefix of the digits. */
  lemma SpellPrefix(ds: seq<nat>, table: seq<TableChar>, k: nat)
    requires CoversDigits(table) && DigitsBelow(ds, 85) && k <= |ds|
    ensures Spell(ds, table)[..k] == Spell(ds[..k], table)
  {
  }

  /** With at most four bytes buffered, `digits % 4 == 0` means a group is complete. */
  lemma GroupComplete(digits: nat)
    requires 1 <= digits <= 4
    ensures (digits % 4 == 0) == (digits == 4)
  {
  }

  /** Padding with `k` zero bytes multiplies by `256^k`. */
  lemma {:induction false} PaddedValue(x: nat, k: nat)
    ensures Padded(x, k) == x * Pow(256, k)
  {
    if k > 0 {
      PaddedValue(x, k - 1);
      assert x * Pow(256, k - 1) * 256 == x * (256 * Pow(256, k - 1));
    }
  }
}

/**
 * Decoding inverts encoding: `decode(encode(B)) == B` for a decoding table that
 * inverts the encoding table, with or without the `y` shortcut, and with the
 * delimiters for every non-empty B.
 */
module RoundTrip {
  import opened Wrappers
  import opened Numerals
  import opened Constants
  import opened Encoding
  import opened EncodingFacts
  import opened Decoding
  import opened Buffers

  /**
   * The decoding table maps each of the first 85 table characters back to its digit
   * value, none of them is `z`, `y` or `~`, and both shortcuts are on.
   */
  ghost predicate Compatible(enc: seq<TableChar>, dec: DecodingTable)
  {
    CoversDigits(enc) && Inverts(enc, dec) && ShortcutEnabled(dec[ZeroCode]) && ShortcutEnabled(dec[GroupSpaceCode])
  }

  /** Each digit's character decodes to that digit and is none of `z`, `y`, `~`. */
  ghost predicate Inverts(enc: seq<TableChar>, dec: DecodingTable)
    requires CoversDigits(enc)
  {
    forall v :: 0 <= v < 85 ==>
      dec[enc[v]] == Some(v) && enc[v] != ZeroCode && enc[v] != GroupSpaceCode && enc[v] != TildeCode
  }

  /** The default tables are compatible. */
  lemma DefaultCompatible()
    ensures Compatible(DefaultEncodingTable(), DefaultDecodingTable())
  {
    DefaultTablesInverse();
    DefaultUnmappedCodes();
  }

  /** Fewer than five table characters accumulate their digit values, most significant first. */
  lemma {:induction false} RunDigits(out: seq<byte>, ds: seq<nat>, enc: seq<TableChar>, dec: DecodingTable)
    requires Compatible(enc, dec) && DigitsBelow(ds, 85) && |ds| < 5
    ensures Run(DecodeState(out, 0, 0), Spell(ds, enc), dec, true, true)
         == Ok(DecodeState(out, |ds|, FromDigits(ds, 85)))
    decreases |ds|
  {
    if ds != [] {
      var init := ds[..|ds| - 1];
      SpellPrefix(ds, enc, |ds| - 1);
      RunDigits(out, init, enc, dec);
    }
  }

  /** A complete group of value `x` decodes to the four big-endian bytes of `x`. */
  lemma RunWord(out: seq<byte>, x: nat, enc: seq<TableChar>, dec: DecodingTable, groupSpace: bool)
    requires Compatible(enc, dec) && x < 0x1_0000_0000
    ensures Run(DecodeState(out, 0, 0), EncodeWord(x, enc, groupSpace), dec, true, true)
         == Ok(DecodeState(out + ToDigits(x, 4, 256), 0, 0))
  {
    if x != 0 && !(groupSpace && x == GroupSpaceWord) {
      RunDigitWord(out, x, enc, dec, groupSpace);
    } else {
      RunSentinelWord(out, x, enc, dec, groupSpace);
    }
  }

  /** A group written as `z` or `y` decodes, through the shortcut, to its four bytes. */
  lemma RunSentinelWord(out: seq<byte>, x: nat, enc: seq<TableChar>, dec: DecodingTable, groupSpace: bool)
    requires Compatible(enc, dec) && (x == 0 || (groupSpace && x == GroupSpaceWord))
    ensures Run(DecodeState(out, 0, 0), EncodeWord(x, enc, groupSpace), dec, true, true)
         == Ok(DecodeState(out + ToDigits(x, 4, 256), 0, 0))
  {
    SentinelWords();
    if groupSpace && x == GroupSpaceWord {
      assert [GroupSpaceCode][..0] == [];
    } else {
      assert [ZeroCode][..0] == [];
    }
  }

  /** A group written as five digits decodes, at the fifth digit, to its four bytes. */
  lemma RunDigitWord(out: seq<byte>, x: nat, enc: seq<TableChar>, dec: DecodingTable, groupSpace: bool)
    requires Compatible(enc, dec) && 0 < x < 0x1_0000_0000 && !(groupSpace && x == GroupSpaceWord)
    ensures Run(DecodeState(out, 0, 0), EncodeWord(x, enc, groupSpace), dec, true, true)
         == Ok(DecodeState(out + ToDigits(x, 4, 256), 0, 0))
  {
    var ds := ToDigits(x, 5, 85);
    DigitsInBase(x, 5, 85);
    WordDigits(x, enc, groupSpace);
    SpellPrefix(ds, enc, 4);
    RunDigits(out, ds[..4], enc, dec);
    assert FromDigits(ds, 85) == FromDigits(ds[..4], 85) * 85 + ds[4];
  }

  /** The first `n` complete groups decode to the first `4n` bytes. */
  lemma RunGroups(d: seq<byte>, n: nat, enc: seq<TableChar>, dec: DecodingTable, groupSpace: bool)
    requires Compatible(enc, dec) && 4 * n <= |d|
    ensures Run(Initial, EncodeGroups(d, n, enc, groupSpace), dec, true, true) == Ok(DecodeState(d[..4 * n], 0, 0))
  {
    var k := 0;
    assert d[..0] == [];
    while k < n
      invariant k <= n
      invariant Run(Initial, EncodeGroups(d, k, enc, groupSpace), dec, true, true) == Ok(DecodeState(d[..4 * k], 0, 0))
    {
      k := k + 1;
      RunGroupAt(d, k, EncodeGroups(d, k - 1, enc, groupSpace), EncodeGroups(d, k, enc, groupSpace), enc, dec, groupSpace);
    }
  }

  /** Group `n` of `d`, after characters that decode to the first `n - 1` groups. */
  lemma RunGroupAt(d: seq<byte>, n: nat, prev: seq<byte>, whole: seq<byte>,
                   enc: seq<TableChar>, dec: DecodingTable, groupSpace: bool)
    requires Compatible(enc, dec) && 0 < n && 4 * n <= |d|
    requires Run(Initial, prev, dec, true, true) == Ok(DecodeState(d[..4 * (n - 1)], 0, 0))
    requires whole == prev + EncodeGroup(d[4 * (n - 1)..4 * n], enc, groupSpace)
    ensures Run(Initial, whole, dec, true, true) == Ok(DecodeState(d[..4 * n], 0, 0))
  {
    RunNextGroup(d[..4 * (n - 1)], d[4 * (n - 1)..4 * n], prev, enc, dec, groupSpace);
    SplitAt(d, 4 * (n - 1), 4 * n);
  }

  /** One more complete group `g` extends the decoded prefix by its four bytes. */
  lemma RunNextGroup(prefix: seq<byte>, g: seq<byte>, prev: seq<byte>,
                     enc: seq<TableChar>, dec: DecodingTable, groupSpace: bool)
    requires Compatible(enc, dec) && |g| == 4
    requires Run(Initial, prev, dec, true, true) == Ok(DecodeState(prefix, 0, 0))
    ensures Run(Initial, prev + EncodeGroup(g, enc, groupSpace), dec, true, true)
         == Ok(DecodeState(prefix + g, 0, 0))
  {
    assert Run(DecodeState(prefix, 0, 0), EncodeGroup(g, enc, groupSpace), dec, true, true)
        == Ok(DecodeState(prefix + g, 0, 0)) by {
      GroupValue(g);
      RunWord(prefix, FromDigits(g, 256), enc, dec, groupSpace);
    }
    RunThen(Initial, prev, EncodeGroup(g, enc, groupSpace), DecodeState(prefix, 0, 0),
            DecodeState(prefix + g, 0, 0), dec);
  }

  /** Two runs that succeed one after the other are one run over the concatenation. */
  lemma RunThen(st: DecodeState, a: seq<byte>, b: seq<byte>, mid: DecodeState, fin: DecodeState, dec: DecodingTable)
    requires Run(st, a, dec, true, true) == Ok(mid) && Run(mid, b, dec, true, true) == Ok(fin)
    ensures Run(st, a + b, dec, true, true) == Ok(fin)
  {
    RunAppend(st, a, b, dec, true, true);
  }

  /** Four bytes are a 32-bit word that spells them back. */
  lemma GroupValue(g: seq<byte>)
    requires |g| == 4
    ensures FromDigits(g, 256) < 0x1_0000_0000 && ToDigits(FromDigits(g, 256), 4, 256) == g
  {
    ValueBound(g, 256);
    FiveDigitsCoverWord();
    DigitsOfValue(g, 256);
  }

  /** `x` followed by `k` digits of value 84 is `x * 85^k + 85^k - 1`. */
  lemma {:induction false} Pad84Value(x: nat, k: nat)
    ensures Pad84(x, k) == x * Pow(85, k) + Pow(85, k) - 1
  {
    if k > 0 {
      Pad84Value(x, k - 1);
      PowPositive(85, k - 1);
      var p := Pow(85, k - 1);
      assert (x * p + p - 1) * 85 + 84 == x * (85 * p) + 85 * p - 1;
    }
  }

  /** `x` followed by `k` zero bytes still fits a 32-bit word: `(x + 1) * 256^k <= 2^32`. */
  lemma TailBound(x: nat, r: nat)
    requires 1 <= r < 4 && x < Pow(256, r)
    ensures x * Pow(256, 4 - r) + Pow(256, 4 - r) <= 0x1_0000_0000
  {
    var B := Pow(256, 4 - r);
    MulMonotone(x + 1, B, Pow(256, r), B);
    PowAdd(256, r, 4 - r);
    FiveDigitsCoverWord();
  }

  /**
   * The first `r + 1` of the five base-85 digits of a 32-bit word are the digits of its
   * quotient by `85^(4 - r)`.
   */
  lemma KeptDigits(p: nat, r: nat)
    requires 1 <= r < 4 && p < 0x1_0000_0000
    ensures ToDigits(p, 5, 85)[..r + 1] == ToDigits(p / Pow(85, 4 - r), r + 1, 85)
    ensures FromDigits(ToDigits(p / Pow(85, 4 - r), r + 1, 85), 85) == p / Pow(85, 4 - r)
  {
    var k := 4 - r;
    var A := Pow(85, k);
    PowPositive(85, k);
    DigitsSplit(p, r + 1, k, 85);
    var hi := ToDigits(p / A, r + 1, 85);
    assert (hi + ToDigits(p, k, 85))[..r + 1] == hi;
    PowAdd(85, r + 1, k);
    FiveDigitsCoverWord();
    QuotientBelow(p, A, Pow(85, r + 1));
    DigitsValue(p / A, r + 1, 85);
    DivModUnique(p / A, Pow(85, r + 1), 0, p / A);
  }

  /** A quotient below the bound: `p < m * a` gives `p / a < m`. */
  lemma QuotientBelow(p: nat, a: nat, m: nat)
    requires a > 0 && p < m * a
    ensures p / a < m
  {
    if p / a >= m {
      MulMonotone(m, a, p / a, a);
    }
  }

  /** Padding the quotient by `85^k` with `k` digits 84 lands in `[p, p + 85^k)`. */
  lemma PadRange(p: nat, k: nat)
    ensures p <= Pad84(p / Pow(85, k), k) < p + Pow(85, k)
  {
    var A := Pow(85, k);
    PowPositive(85, k);
    Pad84Value(p / A, k);
    assert p == p / A * A + p % A;
  }

  /** The kept digits of a 32-bit word `p`, padded back with digits 84, land in `[p, p + 85^k)`. */
  lemma KeptPadded(p: nat, r: nat)
    requires 1 <= r < 4 && p < 0x1_0000_0000
    ensures p <= Pad84(FromDigits(ToDigits(p, 5, 85)[..r + 1], 85), 4 - r) < p + Pow(85, 4 - r)
  {
    KeptDigits(p, r);
    PadRange(p, 4 - r);
  }

  /** A value in `[x * 256^k, (x + 1) * 256^k)` has the `r` bytes of `x` on top (k = 4 - r). */
  lemma TopBytes(x: nat, r: nat, v: nat)
    requires 1 <= r < 4 && x < Pow(256, r)
    requires Padded(x, 4 - r) <= v < Padded(x, 4 - r) + Pow(256, 4 - r)
    ensures ToDigits(v, 4, 256)[..r] == ToDigits(x, r, 256)
  {
    var k := 4 - r;
    var B := Pow(256, k);
    PaddedValue(x, k);
    PowPositive(256, k);
    DivModUnique(v, B, x, v - x * B);
    DigitsSplit(v, r, k, 256);
    assert (ToDigits(x, r, 256) + ToDigits(v, k, 256))[..r] == ToDigits(x, r, 256);
  }

  /**
   * The decoder's padding recovers a trailing group: the first `r + 1` digits of
   * `x * 256^k` (k = 4 - r), padded with `k` digits 84, lie in [x * 256^k, (x + 1) * 256^k),
   * so their top `r` bytes are the `r` bytes of `x`.
   */
  lemma TailRecovery(x: nat, r: nat)
    requires 1 <= r < 4 && x < Pow(256, r)
    ensures var ds := ToDigits(Padded(x, 4 - r), 5, 85)[..r + 1];
      ToDigits(Uint32(Pad84(FromDigits(ds, 85), 4 - r)), 4, 256)[..r] == ToDigits(x, r, 256)
  {
    var v := Pad84(FromDigits(ToDigits(Padded(x, 4 - r), 5, 85)[..r + 1], 85), 4 - r);
    KeptInRange(x, r);
    assert Uint32(v) == v;
    TopBytes(x, r, v);
  }

  /** The padded kept digits lie in the range of words whose top `r` bytes are those of `x`. */
  lemma KeptInRange(x: nat, r: nat)
    requires 1 <= r < 4 && x < Pow(256, r)
    ensures var v := Pad84(FromDigits(ToDigits(Padded(x, 4 - r), 5, 85)[..r + 1], 85), 4 - r);
      Padded(x, 4 - r) <= v < Padded(x, 4 - r) + Pow(256, 4 - r) && v < 0x1_0000_0000
  {
    var k := 4 - r;
    var p := Padded(x, k);
    assert p + Pow(256, k) <= 0x1_0000_0000 by {
      PaddedValue(x, k);
      TailBound(x, r);
    }
    KeptPadded(p, r);
    PowMonotoneBase(85, 256, k);
  }


  /** The digit loop over `s` succeeds and the tail handling then yields `d`. */
  ghost predicate DecodesTo(s: seq<byte>, dec: DecodingTable, d: seq<byte>)
  {
    var r := Run(Initial, s, dec, true, true);
    r.Ok? && r.value.digits < 5 && Finish(r.value) == d
  }

  /** The digits written for a trailing group: the first `|t| + 1` of its zero-padded word. */
  ghost function KeptTail(t: seq<byte>): seq<nat>
    requires 1 <= |t| < 4
  {
    ToDigits(Padded(FromDigits(t, 256), 4 - |t|), 5, 85)[..|t| + 1]
  }

  /** The characters of a trailing group accumulate its kept digits. */
  lemma RunTailDigits(prefix: seq<byte>, t: seq<byte>, enc: seq<TableChar>, dec: DecodingTable)
    requires Compatible(enc, dec) && 1 <= |t| < 4
    ensures Run(DecodeState(prefix, 0, 0), EncodeTail(t, enc), dec, true, true)
         == Ok(DecodeState(prefix, |t| + 1, FromDigits(KeptTail(t), 85)))
  {
    var p := Padded(FromDigits(t, 256), 4 - |t|);
    assert EncodeTail(t, enc) == Spell(KeptTail(t), enc);
    DigitsInBase(p, 5, 85);
    assert DigitsBelow(KeptTail(t), 85);
    RunDigits(prefix, KeptTail(t), enc, dec);
  }

  /** Padding the kept digits and writing the high bytes gives the trailing group back. */
  lemma TailBytes(t: seq<byte>)
    requires 1 <= |t| < 4
    ensures ToDigits(Uint32(Pad84(FromDigits(KeptTail(t), 85), 5 - (|t| + 1))), 4, 256)[..|t| + 1 - 1] == t
  {
    var r := |t|;
    assert 5 - (r + 1) == 4 - r && r + 1 - 1 == r;
    ValueBound(t, 256);
    TailRecovery(FromDigits(t, 256), r);
    DigitsOfValue(t, 256);
  }

  /** The tail handling after the kept digits of a trailing group writes the group. */
  lemma FinishTail(prefix: seq<byte>, t: seq<byte>)
    requires 1 <= |t| < 4
    ensures Finish(DecodeState(prefix, |t| + 1, FromDigits(KeptTail(t), 85))) == prefix + t
  {
    TailBytes(t);
  }

  /** A trailing group of 1..3 bytes after a decoded prefix: padding and Finish give it back. */
  lemma RunTail(prefix: seq<byte>, t: seq<byte>, prev: seq<byte>, enc: seq<TableChar>, dec: DecodingTable)
    requires Compatible(enc, dec) && 1 <= |t| < 4
    requires Run(Initial, prev, dec, true, true) == Ok(DecodeState(prefix, 0, 0))
    ensures DecodesTo(prev + EncodeTail(t, enc), dec, prefix + t)
  {
    var st := DecodeState(prefix, |t| + 1, FromDigits(KeptTail(t), 85));
    RunTailDigits(prefix, t, enc, dec);
    RunThen(Initial, prev, EncodeTail(t, enc), DecodeState(prefix, 0, 0), st, dec);
    FinishTail(prefix, t);
  }

  /** The body decodes back to the data. */
  lemma RunBody(d: seq<byte>, enc: seq<TableChar>, dec: DecodingTable, groupSpace: bool)
    requires Compatible(enc, dec)
    ensures DecodesTo(EncodeBody(d, enc, groupSpace), dec, d)
  {
    if 4 * (|d| / 4) == |d| {
      RunWholeGroups(d, enc, dec, groupSpace);
    } else {
      RunGroupsAndTail(d, enc, dec, groupSpace);
    }
  }

  /** Data made of complete groups only. */
  lemma RunWholeGroups(d: seq<byte>, enc: seq<TableChar>, dec: DecodingTable, groupSpace: bool)
    requires Compatible(enc, dec) && 4 * (|d| / 4) == |d|
    ensures DecodesTo(EncodeBody(d, enc, groupSpace), dec, d)
  {
    var n := |d| / 4;
    RunGroups(d, n, enc, dec, groupSpace);
    assert EncodeBody(d, enc, groupSpace) == EncodeGroups(d, n, enc, groupSpace);
    assert d[..4 * n] == d;
    assert Finish(DecodeState(d, 0, 0)) == d;
  }

  /** Data with a trailing group of 1..3 bytes. */
  lemma RunGroupsAndTail(d: seq<byte>, enc: seq<TableChar>, dec: DecodingTable, groupSpace: bool)
    requires Compatible(enc, dec) && 4 * (|d| / 4) != |d|
    ensures DecodesTo(EncodeBody(d, enc, groupSpace), dec, d)
  {
    RunGroups(d, |d| / 4, enc, dec, groupSpace);
    RunBodyTail(d, enc, dec, groupSpace);
  }

  /** The trailing group after the decoded complete groups completes the data. */
  lemma RunBodyTail(d: seq<byte>, enc: seq<TableChar>, dec: DecodingTable, groupSpace: bool)
    requires Compatible(enc, dec) && 4 * (|d| / 4) != |d|
    requires Run(Initial, EncodeGroups(d, |d| / 4, enc, groupSpace), dec, true, true)
          == Ok(DecodeState(d[..4 * (|d| / 4)], 0, 0))
    ensures DecodesTo(EncodeBody(d, enc, groupSpace), dec, d)
  {
    var n := |d| / 4;
    RunTail(d[..4 * n], d[4 * n..], EncodeGroups(d, n, enc, groupSpace), enc, dec);
    BodyWithTail(d, enc, groupSpace);
    SplitRest(d, 4 * n);
  }

  /** Data that does not end on a group boundary: the complete groups, then the tail. */
  lemma BodyWithTail(d: seq<byte>, enc: seq<TableChar>, groupSpace: bool)
    requires CoversDigits(enc) && 4 * (|d| / 4) != |d|
    ensures EncodeBody(d, enc, groupSpace)
         == EncodeGroups(d, |d| / 4, enc, groupSpace) + EncodeTail(d[4 * (|d| / 4)..], enc)
  {
  }

  /** Undelimited, the body is decoded whole: it holds no `~`, so it cannot start with `<~`. */
  lemma StripBody(d: seq<byte>, enc: seq<TableChar>, dec: DecodingTable, groupSpace: bool)
    requires Compatible(enc, dec)
    ensures Strip(EncodeBody(d, enc, groupSpace)) == Ok(EncodeBody(d, enc, groupSpace))
  {
    var body := EncodeBody(d, enc, groupSpace);
    BodyAvoids(d, enc, groupSpace, TildeCode);
    if |body| >= 4 {
      assert body[1] != TildeCode;
      assert body[..2] != BlockStart;
    }
    StripUndelimited(body);
  }

  /**
   * decode(encode(B)) == B for compatible tables, with groupSpace on or off, and with the
   * delimiters whenever B is not empty.
   */
  lemma RoundTrip(d: seq<byte>, enc: seq<TableChar>, dec: DecodingTable, delimiter: bool, groupSpace: bool)
    requires Compatible(enc, dec)
    requires delimiter ==> |d| > 0
    ensures Decode(Encode(d, enc, delimiter, groupSpace), dec) == Ok(d)
  {
    var body := EncodeBody(d, enc, groupSpace);
    if delimiter {
      BodyNonEmpty(d, enc, groupSpace);
      StripDelimited(body);
    } else {
      StripBody(d, enc, dec, groupSpace);
      assert [] + body + [] == body;
    }
    RunBody(d, enc, dec, groupSpace);
  }

  /** Non-empty data has a non-empty encoded body. */
  lemma BodyNonEmpty(d: seq<byte>, enc: seq<TableChar>, groupSpace: bool)
    requires CoversDigits(enc) && |d| > 0
    ensures |EncodeBody(d, enc, groupSpace)| > 0
  {
    var n := |d| / 4;
    if 4 * n == |d| {
      var x := FromDigits(d[4 * (n - 1)..4 * n], 256);
      if !(groupSpace && x == GroupSpaceWord) && x != 0 {
        DigitsInBase(x, 5, 85);
      }
    } else {
      TailShape(d[4 * n..], enc);
    }
  }

  /** The round trip with the default tables. */
  lemma DefaultRoundTrip(d: seq<byte>, delimiter: bool, groupSpace: bool)
    requires delimiter ==> |d| > 0
    ensures Decode(Encode(d, DefaultEncodingTable(), delimiter, groupSpace), DefaultDecodingTable()) == Ok(d)
  {
    DefaultCompatible();
    RoundTrip(d, DefaultEncodingTable(), DefaultDecodingTable(), delimiter, groupSpace);
  }

  /** Empty data encoded with delimiters is `<~~>`, which decode refuses. */
  lemma DelimitedEmptyRejected(enc: seq<TableChar>, dec: DecodingTable, groupSpace: bool)
    requires CoversDigits(enc)
    ensures Encode([], enc, true, groupSpace) == BlockStart + BlockEnd
    ensures Decode(Encode([], enc, true, groupSpace), dec) == Err(InvalidDelimiterPair)
  {
    assert EncodeBody([], enc, groupSpace) == [];
    assert Encode([], enc, true, groupSpace) == BlockStart + BlockEnd;
    StripEmptyDelimited();
  }

  /**
   * The shortcut part of `Compatible` is needed: a zero group always encodes to `z`,
   * but a table that gives `z` a truthy value reads a lone `z` as a digit and writes
   * nothing for it.
   */
  lemma ZeroShortcutNeeded(enc: seq<TableChar>, dec: DecodingTable, groupSpace: bool)
    requires CoversDigits(enc) && dec[ZeroCode].Some? && dec[ZeroCode].value != 0
    ensures Encode([0, 0, 0, 0], enc, false, groupSpace) == [ZeroCode]
    ensures Decode([ZeroCode], dec) == Ok([])
  {
    ZeroGroupEncoding(enc, groupSpace);
    LoneDigitDecoding(dec, ZeroCode);
  }

  /** Four zero bytes, undelimited, are the single character `z`. */
  lemma ZeroGroupEncoding(enc: seq<TableChar>, groupSpace: bool)
    requires CoversDigits(enc)
    ensures EncodeBody([0, 0, 0, 0], enc, groupSpace) == [ZeroCode]
  {
    var g: seq<byte> := [0, 0, 0, 0];
    assert g[0..4] == g;
    assert FromDigits(g, 256) == 0 by {
      SentinelWords();
    }
    assert EncodeGroups(g, 1, enc, groupSpace) == [ZeroCode];
  }

  /**
   * A lone character with a table entry that is not an enabled shortcut (any mapped
   * character other than `z`/`y`, or `z`/`y` mapped to a truthy value) is one pending
   * digit, which writes nothing.
   */
  lemma LoneDigitDecoding(dec: DecodingTable, c: byte)
    requires dec[c].Some? && (dec[c].value != 0 || (c != ZeroCode && c != GroupSpaceCode))
    ensures Decode([c], dec) == Ok([])
  {
    var zero := ShortcutEnabled(dec[ZeroCode]);
    var space := ShortcutEnabled(dec[GroupSpaceCode]);
    assert !IsShortcut(c, zero, space);
    StripUndelimited([c]);
    assert [c][..0] == [];
    assert Run(Initial, [c], dec, zero, space) == Ok(DecodeState([], 1, dec[c].value));
  }
}

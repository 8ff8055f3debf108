/**
 * The decoder, Ascii85.prototype.decode (index.js): the specification as a
 * left fold of a per-character step over the input with its delimiters
 * stripped, and the loops that write into a pre-sized output buffer, proved
 * to produce exactly the specified bytes or the specified error.
 */
module Decoding {
  import opened Wrappers
  import opened Numerals
  import opened Constants
  import opened Buffers

  /** The two exceptions decode raises. */
  datatype DecodeError =
    | InvalidDelimiterPair  // 'Invalid ascii85 string delimiter pair.'
    | GroupOverflow         // writeUInt32BE refuses a group value above 0xFFFFFFFF

  /**
   * `!table[code]`: a shortcut character is recognised unless the table maps it to a
   * truthy value. A missing entry and the digit value 0 are both falsy.
   */
  predicate ShortcutEnabled(entry: Option<nat>)
  {
    entry.None? || entry.value == 0
  }

  /** readUInt16BE: the big-endian 16-bit value at `i`. */
  function ReadUInt16BE(buf: seq<byte>, i: nat): nat
    requires i + 2 <= |buf|
  {
    (buf[i] as int) * 256 + buf[i + 1] as int
  }

  /**
   * The backward search for `~>` starting at `i`: the largest position `j` in
   * 3..i where `~>` starts, or 2 if there is none.
   */
  function EndMarker(buf: seq<byte>, i: nat): (r: nat)
    requires 2 <= i && i + 2 <= |buf|
    ensures 2 <= r <= i
    ensures r > 2 ==> ReadUInt16BE(buf, r) == BlockEndValue
    ensures forall j :: r < j <= i ==> ReadUInt16BE(buf, j) != BlockEndValue
    decreases i
  {
    if i > 2 && ReadUInt16BE(buf, i) != BlockEndValue then EndMarker(buf, i - 1) else i
  }

  /**
   * An input of at least four bytes that starts with `<~` is cut down to what lies
   * between `<~` and the last `~>`, which must start at position 3 or later.
   */
  function Strip(buf: seq<byte>): Result<seq<byte>, DecodeError>
  {
    if |buf| >= 4 && ReadUInt16BE(buf, 0) == BlockStartValue then
      var i := EndMarker(buf, |buf| - 2);
      if i <= 2 then Err(InvalidDelimiterPair) else Ok(buf[2..i])
    else
      Ok(buf)
  }

  /** The decoder's variables between two characters: the bytes written, and the pending digits. */
  datatype DecodeState = DecodeState(out: seq<byte>, digits: nat, cur: nat)

  const Initial := DecodeState([], 0, 0)

  /** A digit of value `v` joins the pending group; the fifth one writes the group as a 32-bit word. */
  function Accumulate(st: DecodeState, v: nat): Result<DecodeState, DecodeError>
  {
    var cur := st.cur * 85 + v;
    var digits := st.digits + 1;
    if digits % 5 != 0 then Ok(DecodeState(st.out, digits, cur))
    else if cur > 0xFFFF_FFFF then Err(GroupOverflow)
    else Ok(DecodeState(st.out + ToDigits(cur, 4, 256), 0, 0))
  }

  /** One character `c`: `z`, `y`, a character without a table entry, or a digit, tested in that order. */
  function Step(st: DecodeState, c: byte, table: DecodingTable, zero: bool, space: bool)
    : Result<DecodeState, DecodeError>
  {
    if zero && c == ZeroCode then Ok(st.(out := st.out + NullString))
    else if space && c == GroupSpaceCode then Ok(st.(out := st.out + GroupSpaceString))
    else if table[c].None? then Ok(st)
    else Accumulate(st, table[c].value)
  }

  /** The main loop over `s` from state `st`; the first error ends it. */
  function Run(st: DecodeState, s: seq<byte>, table: DecodingTable, zero: bool, space: bool)
    : (r: Result<DecodeState, DecodeError>)
    ensures st.digits < 5 && r.Ok? ==> r.value.digits < 5
    decreases |s|
  {
    if s == [] then Ok(st)
    else
      match Run(st, s[..|s| - 1], table, zero, space)
      case Err(e) => Err(e)
      case Ok(before) => Step(before, s[|s| - 1], table, zero, space)
  }

  /** `k` digits of value 84 appended to `x`. */
  function Pad84(x: nat, k: nat): nat
  {
    if k == 0 then x else Pad84(x, k - 1) * 85 + 84
  }

  /** `x >>> 0`: the 32-bit unsigned value JavaScript's shift operators work on. */
  function Uint32(x: nat): nat
  {
    x % 0x1_0000_0000
  }

  /**
   * After the loop: `k` pending digits (1..4) are padded with `5 - k` digits of
   * value 84 and the `k - 1` high bytes of the 32-bit value are written.
   */
  function Finish(st: DecodeState): (r: seq<byte>)
    requires st.digits < 5
    ensures st.out <= r
    ensures |r| == |st.out| + (if st.digits == 0 then 0 else st.digits - 1)
  {
    if st.digits == 0 then st.out
    else st.out + ToDigits(Uint32(Pad84(st.cur, 5 - st.digits)), 4, 256)[..st.digits - 1]
  }

  /** The output of decode: the bytes, or the exception it throws. */
  function Decode(buf: seq<byte>, table: DecodingTable): Result<seq<byte>, DecodeError>
  {
    var zero := ShortcutEnabled(table[ZeroCode]);
    var space := ShortcutEnabled(table[GroupSpaceCode]);
    match Strip(buf)
    case Err(e) => Err(e)
    case Ok(s) =>
      match Run(Initial, s, table, zero, space)
      case Err(e) => Err(e)
      case Ok(st) => Ok(Finish(st))
  }

  /** The characters of `s` that the enabled shortcuts expand to four bytes each. */
  function ShortcutCount(s: seq<byte>, zero: bool, space: bool): nat
    decreases |s|
  {
    if s == [] then 0
    else ShortcutCount(s[..|s| - 1], zero, space) + (if IsShortcut(s[|s| - 1], zero, space) then 1 else 0)
  }

  predicate IsShortcut(c: byte, zero: bool, space: bool)
  {
    (zero && c == ZeroCode) || (space && c == GroupSpaceCode)
  }

  /** The size decode allocates: ceil(4n/5) + 4t + 5 for `t` shortcut characters. */
  function DecodeCapacity(n: nat, t: nat): nat
  {
    (n * 4 + 4) / 5 + t * 4 + 5
  }

  // ---------------------------------------------------------------------
  // The loops of index.js

  /** index.js:210-224: count the shortcut characters, when either shortcut is enabled. */
  method CountShortcuts(buf: seq<byte>, zero: bool, space: bool) returns (t: nat)
    ensures t == ShortcutCount(buf, zero, space)
  {
    t := 0;
    if zero || space {
      for i := 0 to |buf|
        invariant t == ShortcutCount(buf[..i], zero, space)
      {
        var c := buf[i];
        if zero && c == ZeroCode {
          t := t + 1;
        }
        if space && c == GroupSpaceCode {
          t := t + 1;
        }
        assert buf[..i + 1][..i] == buf[..i];
      }
      assert buf[..|buf|] == buf;
    } else {
      NoShortcuts(buf, zero, space);
    }
  }

  /** index.js:234-238: search backwards for `~>`. */
  method FindEndMarker(buf: seq<byte>) returns (i: nat)
    requires |buf| >= 4
    ensures i == EndMarker(buf, |buf| - 2)
  {
    i := |buf| - 2;
    while i > 2
      invariant 2 <= i <= |buf| - 2
      invariant EndMarker(buf, |buf| - 2) == EndMarker(buf, i)
    {
      if ReadUInt16BE(buf, i) == BlockEndValue {
        break;
      }
      i := i - 1;
    }
  }

  /** index.js:232-245: check and strip a delimiter pair. */
  method StripDelimiters(buf: seq<byte>) returns (r: Result<seq<byte>, DecodeError>)
    ensures r == Strip(buf)
  {
    if |buf| >= 4 && ReadUInt16BE(buf, 0) == BlockStartValue {
      var i := FindEndMarker(buf);
      if i <= 2 {
        return Err(InvalidDelimiterPair);
      }
      r := Ok(buf[2..i]);
    } else {
      r := Ok(buf);
    }
  }

  /**
   * index.js:264-274: add digit `v` to the pending group, writing the group with
   * writeUInt32BE when it is complete; `ok` is false where writeUInt32BE throws.
   */
  method AddDigit(output: array<byte>, offset: nat, digits: nat, cur: nat, v: nat)
    returns (ok: bool, offset': nat, digits': nat, cur': nat)
    requires digits < 5 && offset + 4 <= output.Length
    modifies output
    ensures offset' <= output.Length
    ensures Accumulate(DecodeState(old(output[..offset]), digits, cur), v)
         == if ok then Ok(DecodeState(output[..offset'], digits', cur')) else Err(GroupOverflow)
    ensures ok ==> 5 * offset' + 4 * digits' <= 5 * offset + 4 * digits + 4
  {
    cur' := cur * 85 + v;
    digits' := digits + 1;
    ok, offset' := true, offset;
    if digits' % 5 != 0 {
      return;
    }
    if cur' > 0xFFFF_FFFF {
      ok := false;
      return;
    }
    offset' := Put(output, offset, ToDigits(cur', 4, 256));
    cur', digits' := 0, 0;
  }

  /** index.js:250-274: the body of the main loop for one character `c`. */
  method DecodeChar(output: array<byte>, offset: nat, digits: nat, cur: nat, c: byte,
                    table: DecodingTable, zero: bool, space: bool)
    returns (ok: bool, offset': nat, digits': nat, cur': nat)
    requires digits < 5 && offset + 4 <= output.Length
    modifies output
    ensures offset' <= output.Length
    ensures Step(DecodeState(old(output[..offset]), digits, cur), c, table, zero, space)
         == if ok then Ok(DecodeState(output[..offset'], digits', cur')) else Err(GroupOverflow)
    ensures ok ==> 5 * offset' + 4 * digits'
                   <= 5 * offset + 4 * digits + 4 + (if IsShortcut(c, zero, space) then 20 else 0)
  {
    ok, digits', cur' := true, digits, cur;
    if zero && c == ZeroCode {
      offset' := Put(output, offset, NullString);
    } else if space && c == GroupSpaceCode {
      offset' := Put(output, offset, GroupSpaceString);
    } else if table[c].None? {
      offset' := offset;
    } else {
      ok, offset', digits', cur' := AddDigit(output, offset, digits, cur, table[c].value);
    }
  }

  /**
   * After `i` characters of `s` the loop has reached `Run` of them, within the
   * room that the shortcut count reserves.
   */
  ghost predicate Decoded(output: seq<byte>, s: seq<byte>, i: nat, offset: nat, digits: nat, cur: nat,
                          table: DecodingTable, zero: bool, space: bool)
  {
    i <= |s| && offset <= |output| && digits < 5
    && Run(Initial, s[..i], table, zero, space) == Ok(DecodeState(output[..offset], digits, cur))
    && 5 * offset + 4 * digits <= 4 * i + 20 * ShortcutCount(s[..i], zero, space)
  }

  /** One turn of the main loop: character `i` is decoded, or the loop stops with an error. */
  method ScanChar(output: array<byte>, s: seq<byte>, i: nat, offset: nat, digits: nat, cur: nat,
                  table: DecodingTable, zero: bool, space: bool)
    returns (ok: bool, offset': nat, digits': nat, cur': nat)
    requires i < |s| && Decoded(output[..], s, i, offset, digits, cur, table, zero, space)
    requires 4 * |s| + 20 * ShortcutCount(s, zero, space) + 25 <= 5 * output.Length
    modifies output
    ensures offset' <= output.Length
    ensures ok ==> Decoded(output[..], s, i + 1, offset', digits', cur', table, zero, space)
    ensures !ok ==> Run(Initial, s[..i + 1], table, zero, space) == Err(GroupOverflow)
  {
    ShortcutCountPrefix(s, i, zero, space);
    RoomForChar(offset, digits, i, |s|, ShortcutCount(s[..i], zero, space), ShortcutCount(s, zero, space),
                output.Length);
    assert s[..i + 1][..i] == s[..i];
    assert output[..offset] == output[..][..offset];
    ok, offset', digits', cur' := DecodeChar(output, offset, digits, cur, s[i], table, zero, space);
    assert output[..offset'] == output[..][..offset'];
  }

  /** index.js:247-275: the main loop over the stripped input `s`. */
  method DecodeGroups(output: array<byte>, s: seq<byte>, table: DecodingTable, zero: bool, space: bool)
    returns (ok: bool, offset: nat, digits: nat, cur: nat)
    requires 4 * |s| + 20 * ShortcutCount(s, zero, space) + 25 <= 5 * output.Length
    modifies output
    ensures ok ==> Decoded(output[..], s, |s|, offset, digits, cur, table, zero, space)
    ensures !ok ==> Run(Initial, s, table, zero, space) == Err(GroupOverflow)
  {
    offset, digits, cur := 0, 0, 0;
    assert s[..0] == [];
    ok := true;
    for i := 0 to |s|
      invariant Decoded(output[..], s, i, offset, digits, cur, table, zero, space)
    {
      ok, offset, digits, cur := ScanChar(output, s, i, offset, digits, cur, table, zero, space);
      if !ok {
        ErrorPersists(s, i + 1, table, zero, space);
        return;
      }
    }
  }

  /** index.js:280-283: the padding loop, `cur = cur * 85 + 84`, `padding` times. */
  method PadGroup(cur: nat, padding: nat) returns (c: nat)
    ensures c == Pad84(cur, padding)
  {
    c := cur;
    for i := 0 to padding
      invariant c == Pad84(cur, i)
    {
      c := c * 85 + 84;
    }
  }

  /**
   * index.js:285-287: `writeUInt8((c >>> (i * 8)) & 0xFF)` for i = 3 down to
   * `padding`: the high `4 - padding` bytes of the 32-bit value of `c`.
   */
  method WriteHighBytes(output: array<byte>, offset: nat, c: nat, padding: nat) returns (next: nat)
    requires 1 <= padding <= 4 && offset + 4 - padding <= output.Length
    modifies output
    ensures next == offset + 4 - padding
    ensures output[..next] == old(output[..offset]) + ToDigits(Uint32(c), 4, 256)[..4 - padding]
  {
    ghost var word := ToDigits(Uint32(c), 4, 256);
    next := offset;
    var i := 3;
    while i > padding - 1
      invariant padding - 1 <= i <= 3
      invariant next == offset + 3 - i
      invariant output[..next] == old(output[..offset]) + word[..3 - i]
    {
      var b := Uint32(c) / Pow(256, i) % 256;
      DigitAt(Uint32(c), 4, 256, 3 - i);
      next := Put(output, next, [b]);
      assert word[..3 - i + 1] == word[..3 - i] + [b];
      i := i - 1;
    }
  }

  /** index.js:277-288: the trailing group of `digits` pending digits. */
  method WriteTail(output: array<byte>, offset: nat, digits: nat, cur: nat) returns (next: nat)
    requires digits < 5 && offset + 4 <= output.Length
    modifies output
    ensures next <= output.Length
    ensures output[..next] == Finish(DecodeState(old(output[..offset]), digits, cur))
  {
    next := offset;
    if digits != 0 {
      var padding := 5 - digits;
      var c := PadGroup(cur, padding);
      next := WriteHighBytes(output, offset, c, padding);
    }
  }

  /** index.js:180-291: decode `buf` with `table`. */
  method WriteDecoded(buf: seq<byte>, table: DecodingTable) returns (r: Result<seq<byte>, DecodeError>)
    ensures r == Decode(buf, table)
  {
    var zero := ShortcutEnabled(table[ZeroCode]);
    var space := ShortcutEnabled(table[GroupSpaceCode]);
    var t := CountShortcuts(buf, zero, space);
    DecodeCapacityBound(|buf|, t);
    var output := new byte[DecodeCapacity(|buf|, t)];
    var stripped := StripDelimiters(buf);
    if stripped.Err? {
      return Err(stripped.error);
    }
    var s := stripped.value;
    StripShrinks(buf, zero, space);
    var ok, offset, digits, cur := DecodeGroups(output, s, table, zero, space);
    if !ok {
      return Err(GroupOverflow);
    }
    assert s[..|s|] == s;
    assert output[..offset] == output[..][..offset];
    offset := WriteTail(output, offset, digits, cur);
    r := Ok(output[..offset]);
  }

  // ---------------------------------------------------------------------
  // Lemmas

  /** With both shortcuts disabled nothing is counted. */
  lemma {:induction false} NoShortcuts(s: seq<byte>, zero: bool, space: bool)
    requires !zero && !space
    ensures ShortcutCount(s, zero, space) == 0
    decreases |s|
  {
    if s != [] {
      NoShortcuts(s[..|s| - 1], zero, space);
    }
  }

  /** Shortcuts are counted independently in the two halves of a concatenation. */
  lemma {:induction false} ShortcutCountAppend(a: seq<byte>, b: seq<byte>, zero: bool, space: bool)
    ensures ShortcutCount(a + b, zero, space) == ShortcutCount(a, zero, space) + ShortcutCount(b, zero, space)
    decreases |b|
  {
    if b == [] {
      assert a + b == a;
    } else {
      assert (a + b)[..|a + b| - 1] == a + b[..|b| - 1];
      ShortcutCountAppend(a, b[..|b| - 1], zero, space);
    }
  }

  /** A slice has no more shortcut characters than the whole. */
  lemma ShortcutCountSlice(s: seq<byte>, lo: nat, hi: nat, zero: bool, space: bool)
    requires lo <= hi <= |s|
    ensures ShortcutCount(s[lo..hi], zero, space) <= ShortcutCount(s, zero, space)
  {
    assert s == s[..lo] + s[lo..hi] + s[hi..];
    ShortcutCountAppend(s[..lo] + s[lo..hi], s[hi..], zero, space);
    ShortcutCountAppend(s[..lo], s[lo..hi], zero, space);
  }

  /** A prefix has no more shortcut characters than the whole, and one more character adds at most one. */
  lemma ShortcutCountPrefix(s: seq<byte>, i: nat, zero: bool, space: bool)
    requires i < |s|
    ensures ShortcutCount(s[..i + 1], zero, space)
         == ShortcutCount(s[..i], zero, space) + (if IsShortcut(s[i], zero, space) then 1 else 0)
    ensures ShortcutCount(s[..i + 1], zero, space) <= ShortcutCount(s, zero, space)
  {
    assert s[..i + 1][..i] == s[..i];
    ShortcutCountSlice(s, 0, i + 1, zero, space);
    assert s[0..i + 1] == s[..i + 1];
  }

  /** The allocated size covers the bound the loops keep. */
  lemma DecodeCapacityBound(n: nat, t: nat)
    ensures 5 * DecodeCapacity(n, t) >= 4 * n + 20 * t + 25
  {
  }

  /** Within the bound, the next character has room for the four bytes it may write. */
  lemma RoomForChar(offset: nat, digits: nat, i: nat, n: nat, k: nat, total: nat, length: nat)
    requires i < n && k <= total
    requires 5 * offset + 4 * digits <= 4 * i + 20 * k
    requires 4 * n + 20 * total + 25 <= 5 * length
    ensures offset + 4 <= length
  {
  }

  /** Stripping the delimiters leaves no more bytes and no more shortcut characters. */
  lemma StripShrinks(buf: seq<byte>, zero: bool, space: bool)
    ensures Strip(buf).Ok? ==>
      |Strip(buf).value| <= |buf| && ShortcutCount(Strip(buf).value, zero, space) <= ShortcutCount(buf, zero, space)
  {
    if |buf| >= 4 && ReadUInt16BE(buf, 0) == BlockStartValue {
      var i := EndMarker(buf, |buf| - 2);
      if i > 2 {
        ShortcutCountSlice(buf, 2, i, zero, space);
      }
    }
  }

  /** Once the main loop has stopped with an error, the rest of the input does not matter. */
  lemma {:induction false} ErrorPersists(s: seq<byte>, k: nat, table: DecodingTable, zero: bool, space: bool)
    requires k <= |s| && Run(Initial, s[..k], table, zero, space).Err?
    ensures Run(Initial, s, table, zero, space) == Run(Initial, s[..k], table, zero, space)
    decreases |s|
  {
    if k < |s| {
      var init := s[..|s| - 1];
      assert init[..k] == s[..k];
      ErrorPersists(init, k, table, zero, space);
    } else {
      assert s[..k] == s;
    }
  }

  /** Running over a concatenation runs over the second part from where the first part ended. */
  lemma {:induction false} RunAppend(st: DecodeState, a: seq<byte>, b: seq<byte>,
                                      table: DecodingTable, zero: bool, space: bool)
    ensures Run(st, a + b, table, zero, space)
         == match Run(st, a, table, zero, space)
            case Err(e) => Err(e)
            case Ok(mid) => Run(mid, b, table, zero, space)
    decreases |b|
  {
    if b == [] {
      assert a + b == a;
    } else {
      assert (a + b)[..|a + b| - 1] == a + b[..|b| - 1];
      RunAppend(st, a, b[..|b| - 1], table, zero, space);
    }
  }

  /** A character that is neither an enabled shortcut nor in the table changes nothing, wherever it stands. */
  lemma SkipsUnknown(st: DecodeState, a: seq<byte>, c: byte, b: seq<byte>,
                     table: DecodingTable, zero: bool, space: bool)
    requires table[c].None? && !IsShortcut(c, zero, space)
    ensures Run(st, a + [c] + b, table, zero, space) == Run(st, a + b, table, zero, space)
  {
    RunAppend(st, a + [c], b, table, zero, space);
    RunAppend(st, a, b, table, zero, space);
    assert (a + [c])[..|a + [c]| - 1] == a;
  }

  /**
   * An enabled shortcut appends its four bytes and leaves the pending digits alone,
   * even in the middle of a group.
   */
  lemma ShortcutsExpand(st: DecodeState, a: seq<byte>, c: byte, table: DecodingTable, zero: bool, space: bool)
    requires IsShortcut(c, zero, space) && Run(st, a, table, zero, space).Ok?
    ensures var mid := Run(st, a, table, zero, space).value;
      Run(st, a + [c], table, zero, space)
      == Ok(mid.(out := mid.out + (if zero && c == ZeroCode then NullString else GroupSpaceString)))
  {
    assert (a + [c])[..|a + [c]| - 1] == a;
  }

  /** The shortcuts are on by default: the default table has no entry for `z` or `y`. */
  lemma DefaultShortcuts()
    ensures ShortcutEnabled(DefaultDecodingTable()[ZeroCode])
    ensures ShortcutEnabled(DefaultDecodingTable()[GroupSpaceCode])
  {
    DefaultUnmappedCodes();
  }

  /** Bytes `<~` at the front, as readUInt16BE sees them. */
  lemma StartMarker(buf: seq<byte>)
    requires |buf| >= 2
    ensures ReadUInt16BE(buf, 0) == BlockStartValue <==> buf[..2] == BlockStart
  {
    if ReadUInt16BE(buf, 0) == BlockStartValue {
      assert buf[0] == 60 && buf[1] == 126;
      assert buf[..2] == [buf[0], buf[1]];
    }
  }

  /** `<~` .. `~>` around a non-empty body is stripped to the body, whatever the body holds. */
  lemma StripDelimited(body: seq<byte>)
    requires |body| > 0
    ensures Strip(BlockStart + body + BlockEnd) == Ok(body)
  {
    var buf := BlockStart + body + BlockEnd;
    var n := |buf|;
    assert buf[0] == 60 && buf[1] == 126;
    assert buf[n - 2] == 126 && buf[n - 1] == 62;
    assert EndMarker(buf, n - 2) == n - 2;
    assert buf[2..n - 2] == body;
  }

  /** `<~~>` is refused: the backward search stops before reaching position 2. */
  lemma StripEmptyDelimited()
    ensures Strip(BlockStart + BlockEnd) == Err(InvalidDelimiterPair)
  {
    var buf := BlockStart + BlockEnd;
    assert ReadUInt16BE(buf, 0) == BlockStartValue;
  }

  /** Input shorter than four bytes, or not starting with `<~`, is decoded whole. */
  lemma StripUndelimited(buf: seq<byte>)
    requires |buf| < 4 || buf[..2] != BlockStart
    ensures Strip(buf) == Ok(buf)
  {
    if |buf| >= 4 {
      StartMarker(buf);
    }
  }
}

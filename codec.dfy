/**
 * The codec object of index.js: the options an Ascii85 instance keeps, the
 * decoding table its constructor derives from a custom alphabet, how encode
 * and decode resolve their arguments against the instance's options, and the
 * PostScript instance, whose encoder writes the delimiters unless told not to.
 */
module Codec {
  import opened Wrappers
  import opened Numerals
  import opened Constants
  import opened Encoding
  import opened Decoding
  import opened RoundTrip

  /** A decoding table as decode accepts it: an array indexed by code, or an object from characters to values. */
  datatype TableValue = Codes(codes: DecodingTable) | CharMap(entries: map<TableChar, nat>)

  /** The table argument of decode: the table itself, or an object holding it in its `table` property. */
  datatype TableArg = Direct(value: TableValue) | Holder(inner: TableValue)

  /**
   * The options object an instance keeps; `None` is a property that is undefined.
   * The constructor fills `encodingTable` and `decodingTable` from an array `table`.
   */
  datatype Options = Options(
    table: Option<seq<TableChar>>,
    delimiter: Option<bool>,
    groupSpace: Option<bool>,
    encodingTable: Option<seq<TableChar>>,
    decodingTable: Option<TableArg>)

  /** `{}`: every property undefined. */
  const NoSettings: Options := Options(None, None, None, None, None)

  /** The constructor's argument: absent (or falsy), an array, or an options object. */
  datatype CodecArg = NoArg | ArrayArg(array: seq<TableChar>) | ObjectArg(options: Options)

  /** The options argument of encode: absent (or falsy), an array used as the table, or an options object. */
  datatype EncodeArg =
    | Defaults
    | TableList(list: seq<TableChar>)
    | Settings(table: Option<seq<TableChar>>, delimiter: Option<bool>, groupSpace: Option<bool>)

  /** What the encoder runs with once its options are resolved. */
  datatype EncodeSettings = EncodeSettings(table: seq<TableChar>, delimiter: bool, groupSpace: bool)

  /** `{delimiter: true}`, the argument of the PostScript instance. */
  const PostScriptArg: CodecArg := ObjectArg(NoSettings.(delimiter := Some(true)))

  // ---------------------------------------------------------------------
  // The constructor's decoding table

  /** A fresh JavaScript array: no code has an entry. */
  function EmptyTable(): DecodingTable
  {
    seq(256, _ => None)
  }

  /** `decodingTable[v.charCodeAt(0)] = i` for each character `v` of `t` at index `i`, in order. */
  function Invert(t: seq<TableChar>): DecodingTable
  {
    if t == [] then EmptyTable()
    else Invert(t[..|t| - 1])[t[|t| - 1] := Some(|t| - 1)]
  }

  /** `i` is the last index at which `t` holds `c`. */
  ghost predicate LastIndex(t: seq<TableChar>, c: TableChar, i: nat)
  {
    i < |t| && t[i] == c && forall j :: i < j < |t| ==> t[j] != c
  }

  /**
   * A code has an entry exactly when it occurs in the table, and the entry is the last
   * index at which it occurs: a later duplicate overwrites an earlier one.
   */
  lemma {:induction false} InvertEntries(t: seq<TableChar>)
    ensures forall c: TableChar :: Invert(t)[c].None? <==> c !in t
    ensures forall c: TableChar :: Invert(t)[c].Some? ==> LastIndex(t, c, Invert(t)[c].value)
  {
    if t != [] {
      var s := t[..|t| - 1];
      var last := t[|t| - 1];
      assert t == s + [last];
      InvertEntries(s);
      forall c: TableChar
        ensures (Invert(t)[c].None? <==> c !in t)
        ensures Invert(t)[c].Some? ==> LastIndex(t, c, Invert(t)[c].value)
      {
        if c != last {
          assert Invert(t)[c] == Invert(s)[c];
          assert c in t <==> c in s;
        }
      }
    }
  }

  /** With distinct characters, each character's entry is its own index: the table is inverted exactly. */
  lemma InvertDistinct(t: seq<TableChar>)
    requires forall i, j :: 0 <= i < j < |t| ==> t[i] != t[j]
    ensures forall i :: 0 <= i < |t| ==> Invert(t)[t[i]] == Some(i)
  {
    InvertEntries(t);
    forall i | 0 <= i < |t|
      ensures Invert(t)[t[i]] == Some(i)
    {
      assert t[i] in t;
      var k := Invert(t)[t[i]].value;
      assert LastIndex(t, t[i], k);
      assert forall j :: 0 <= j < |t| && t[j] == t[i] ==> j == i;
    }
  }

  /** Inverting the default alphabet gives the default decoding table. */
  lemma InvertDefault()
    ensures Invert(DefaultEncodingTable()) == DefaultDecodingTable()
  {
    var enc := DefaultEncodingTable();
    DefaultEncodingTableShape();
    InvertDistinct(enc);
    InvertEntries(enc);
    forall c: TableChar
      ensures Invert(enc)[c] == DefaultDecodingTable()[c]
    {
      if CodeStart <= c < CodeEnd {
        assert enc[c - CodeStart] == c;
      } else {
        assert c !in enc;
      }
    }
  }

  /** Inverting one more character adds, or overwrites, that character's entry. */
  lemma InvertSnoc(t: seq<TableChar>, i: nat)
    requires i < |t|
    ensures Invert(t[..i + 1]) == Invert(t[..i])[t[i] := Some(i)]
  {
    assert t[..i + 1][..i] == t[..i];
  }

  /** The constructor's `forEach` over the table, filling a fresh array. */
  method BuildDecodingTable(t: seq<TableChar>) returns (dec: DecodingTable)
    ensures dec == Invert(t)
  {
    var arr := new Option<nat>[256](_ => None);
    assert t[..0] == [];
    assert arr[..] == EmptyTable();
    for i := 0 to |t|
      invariant arr[..] == Invert(t[..i])
    {
      InvertSnoc(t, i);
      arr[t[i]] := Some(i);
    }
    assert t[..|t|] == t;
    dec := arr[..];
  }

  // ---------------------------------------------------------------------
  // Instance options

  /**
   * The options an instance keeps. An array `table` also sets `encodingTable` to it and
   * `decodingTable` to its inverse; an array passed in place of the object has none of
   * these properties, so it configures nothing.
   */
  function Configure(arg: CodecArg): (o: Options)
    ensures arg.ObjectArg? && arg.options.table.Some? ==>
      o.encodingTable == arg.options.table && o.decodingTable == Some(Direct(Codes(Invert(arg.options.table.value))))
    ensures arg.ObjectArg? ==>
      o.table == arg.options.table && o.delimiter == arg.options.delimiter && o.groupSpace == arg.options.groupSpace
    ensures arg.ObjectArg? && arg.options.table.None? ==> o == arg.options
    ensures !arg.ObjectArg? ==> o == NoSettings
  {
    match arg
    case NoArg => NoSettings
    case ArrayArg(_) => NoSettings
    case ObjectArg(opts) =>
      if opts.table.Some? then
        opts.(encodingTable := opts.table, decodingTable := Some(Direct(Codes(Invert(opts.table.value)))))
      else opts
  }

  /**
   * The options of one encode call against the instance's: a per-call value wins, an
   * absent one falls back to the instance's and then to the default table or `false`.
   */
  function ResolveEncode(opts: Options, arg: EncodeArg): (s: EncodeSettings)
    ensures arg.TableList? ==> s.table == arg.list
    ensures arg.Settings? && arg.table.Some? ==> s.table == arg.table.value
    ensures !arg.TableList? && !(arg.Settings? && arg.table.Some?) ==>
      s.table == if opts.encodingTable.Some? then opts.encodingTable.value else DefaultEncodingTable()
    ensures arg.Settings? && arg.delimiter.Some? ==> s.delimiter == arg.delimiter.value
    ensures !(arg.Settings? && arg.delimiter.Some?) ==> s.delimiter == (opts.delimiter == Some(true))
    ensures arg.Settings? && arg.groupSpace.Some? ==> s.groupSpace == arg.groupSpace.value
    ensures !(arg.Settings? && arg.groupSpace.Some?) ==> s.groupSpace == (opts.groupSpace == Some(true))
  {
    var instanceDelimiter := opts.delimiter.GetOr(false);
    var instanceGroupSpace := opts.groupSpace.GetOr(false);
    match arg
    case TableList(t) => EncodeSettings(t, instanceDelimiter, instanceGroupSpace)
    case Defaults => EncodeSettings(opts.encodingTable.GetOr(DefaultEncodingTable()), instanceDelimiter, instanceGroupSpace)
    case Settings(t, d, g) =>
      EncodeSettings(if t.Some? then t.value else opts.encodingTable.GetOr(DefaultEncodingTable()),
                     d.GetOr(instanceDelimiter), g.GetOr(instanceGroupSpace))
  }

  // ---------------------------------------------------------------------
  // The decode table argument

  /** `t[v.charCodeAt(0)] = table[v]` for every key `v` of a character map. */
  function FromCharMap(m: map<TableChar, nat>): DecodingTable
  {
    seq(256, c requires 0 <= c < 256 => if c as TableChar in m then Some(m[c as TableChar]) else None)
  }

  /** The character map of a code-indexed table: one key per code with an entry. */
  function ToCharMap(t: DecodingTable): map<TableChar, nat>
  {
    map c: TableChar | 0 <= c < 256 && t[c].Some? :: t[c].value
  }

  /** A table given as a character map decodes exactly as the same table given as an array. */
  lemma CharMapEquivalent(t: DecodingTable)
    ensures FromCharMap(ToCharMap(t)) == t
    ensures Normalize(Direct(CharMap(ToCharMap(t)))) == Normalize(Direct(Codes(t)))
  {
    var m := ToCharMap(t);
    forall c: TableChar
      ensures FromCharMap(m)[c] == t[c]
    {
      if t[c].Some? {
        assert c in m;
      } else {
        assert c !in m;
      }
    }
  }

  /** decode's table normalisation: take the `table` property of a holder, then convert a character map. */
  function Normalize(arg: TableArg): DecodingTable
  {
    var v := match arg case Direct(v) => v case Holder(v) => v;
    match v
    case Codes(c) => c
    case CharMap(m) => FromCharMap(m)
  }

  /**
   * The table one decode call uses: the argument if given, else the instance's `decodingTable`,
   * else the default table; then normalised.
   */
  function ResolveDecodeTable(opts: Options, arg: Option<TableArg>): (t: DecodingTable)
    ensures arg.Some? ==> t == Normalize(arg.value)
    ensures arg.None? && opts.decodingTable.Some? ==> t == Normalize(opts.decodingTable.value)
    ensures arg.None? && opts.decodingTable.None? ==> t == DefaultDecodingTable()
  {
    Normalize(arg.GetOr(opts.decodingTable.GetOr(Direct(Codes(DefaultDecodingTable())))))
  }

  /** The `Object.keys(table).forEach` loop that converts a character map into an array. */
  method ConvertCharMap(m: map<TableChar, nat>) returns (dec: DecodingTable)
    ensures dec == FromCharMap(m)
  {
    var arr := new Option<nat>[256](_ => None);
    var keys := m.Keys;
    while keys != {}
      invariant keys <= m.Keys
      invariant forall c: TableChar :: arr[c] == if c in m && c !in keys then Some(m[c]) else None
      decreases keys
    {
      var k :| k in keys;
      arr[k] := Some(m[k]);
      keys := keys - {k};
    }
    dec := arr[..];
    forall c: TableChar
      ensures dec[c] == FromCharMap(m)[c]
    {
    }
  }

  /** index.js:189-200: normalise decode's table argument into a code-indexed table. */
  method NormalizeTable(arg: TableArg) returns (dec: DecodingTable)
    ensures dec == Normalize(arg)
  {
    var v := match arg case Direct(v) => v case Holder(v) => v;
    match v
    case Codes(c) =>
      dec := c;
    case CharMap(m) =>
      dec := ConvertCharMap(m);
  }

  // ---------------------------------------------------------------------
  // The codec object

  /** An Ascii85 codec: the options it was created with serve as defaults for encode and decode. */
  class Ascii85 {
    var options: Options

    /** `new Ascii85(options)`: keep the options and, for an array `table`, derive both tables. */
    constructor(arg: CodecArg)
      ensures options == Configure(arg)
    {
      match arg
      case NoArg =>
        options := NoSettings;
      case ArrayArg(_) =>
        options := NoSettings;
      case ObjectArg(opts) =>
        if opts.table.Some? {
          var dec := BuildDecodingTable(opts.table.value);
          options := opts.(encodingTable := opts.table, decodingTable := Some(Direct(Codes(dec))));
        } else {
          options := opts;
        }
    }

    /** `encode(data, options)`: resolve the options against this instance's, then run the encoder. */
    method Encode(data: seq<byte>, arg: EncodeArg) returns (r: seq<byte>)
      requires CoversDigits(ResolveEncode(options, arg).table)
      ensures var s := ResolveEncode(options, arg);
        r == Encoding.Encode(data, s.table, s.delimiter, s.groupSpace)
    {
      var s := ResolveEncode(options, arg);
      r := WriteEncoded(data, s.table, s.delimiter, s.groupSpace);
    }

    /** `decode(str, table)`: pick and normalise the table, then run the decoder. */
    method Decode(buf: seq<byte>, table: Option<TableArg>) returns (r: Result<seq<byte>, DecodeError>)
      ensures r == Decoding.Decode(buf, ResolveDecodeTable(options, table))
    {
      var arg: TableArg;
      if table.Some? {
        arg := table.value;
      } else if options.decodingTable.Some? {
        arg := options.decodingTable.value;
      } else {
        var def := BuildDefaultDecodingTable();
        arg := Direct(Codes(def));
      }
      var dec := NormalizeTable(arg);
      r := WriteDecoded(buf, dec);
    }
  }

  // ---------------------------------------------------------------------
  // What the instances promise

  /** The PostScript instance writes `<~` .. `~>` unless a call turns the delimiter off. */
  lemma PostScriptDelimits(data: seq<byte>, arg: EncodeArg)
    requires !(arg.Settings? && arg.delimiter == Some(false))
    requires CoversDigits(ResolveEncode(Configure(PostScriptArg), arg).table)
    ensures var s := ResolveEncode(Configure(PostScriptArg), arg);
      var out := Encoding.Encode(data, s.table, s.delimiter, s.groupSpace);
      s.delimiter && |out| >= 4 && out[..2] == BlockStart && out[|out| - 2..] == BlockEnd
  {
    var s := ResolveEncode(Configure(PostScriptArg), arg);
    var body := EncodeBody(data, s.table, s.groupSpace);
    assert Encoding.Encode(data, s.table, s.delimiter, s.groupSpace) == BlockStart + body + BlockEnd;
  }

  /** The PostScript instance decodes what it encodes, for every non-empty input. */
  lemma PostScriptRoundTrip(data: seq<byte>, groupSpace: Option<bool>)
    requires |data| > 0
    ensures var opts := Configure(PostScriptArg);
      var s := ResolveEncode(opts, Settings(None, None, groupSpace));
      s.delimiter
      && Decoding.Decode(Encoding.Encode(data, s.table, s.delimiter, s.groupSpace), ResolveDecodeTable(opts, None)) == Ok(data)
  {
    DefaultRoundTrip(data, true, groupSpace.GetOr(false));
  }

  /** The exported default instance decodes what it encodes with the default table. */
  lemma DefaultCodecRoundTrip(data: seq<byte>, delimiter: Option<bool>, groupSpace: Option<bool>)
    requires delimiter == Some(true) ==> |data| > 0
    ensures var opts := Configure(NoArg);
      var s := ResolveEncode(opts, Settings(None, delimiter, groupSpace));
      s.table == DefaultEncodingTable()
      && Decoding.Decode(Encoding.Encode(data, s.table, s.delimiter, s.groupSpace), ResolveDecodeTable(opts, None)) == Ok(data)
  {
    DefaultRoundTrip(data, delimiter == Some(true), groupSpace == Some(true));
  }

  /**
   * An instance built with a custom alphabet of at least 85 distinct ASCII characters,
   * none of them `z`, `y` or `~`, decodes what it encodes.
   */
  lemma CustomTableRoundTrip(opts: Options, data: seq<byte>)
    requires opts.table.Some? && |opts.table.value| >= Base
    requires forall i :: 0 <= i < |opts.table.value| ==> opts.table.value[i] < 128
    requires forall i, j :: 0 <= i < j < |opts.table.value| ==> opts.table.value[i] != opts.table.value[j]
    requires ZeroCode !in opts.table.value && GroupSpaceCode !in opts.table.value && TildeCode !in opts.table.value
    requires opts.delimiter == Some(true) ==> |data| > 0
    ensures var o := Configure(ObjectArg(opts));
      var s := ResolveEncode(o, Defaults);
      Decoding.Decode(Encoding.Encode(data, s.table, s.delimiter, s.groupSpace), ResolveDecodeTable(o, None)) == Ok(data)
  {
    var t := opts.table.value;
    InvertDistinct(t);
    InvertEntries(t);
    assert Compatible(t, Invert(t)) by {
      forall v | 0 <= v < 85
        ensures Invert(t)[t[v]] == Some(v)
        ensures t[v] != ZeroCode && t[v] != GroupSpaceCode && t[v] != TildeCode
      {
        assert t[v] in t;
      }
    }
    RoundTrip.RoundTrip(data, t, Invert(t), opts.delimiter == Some(true), opts.groupSpace == Some(true));
  }

  /** A codec built with the default alphabet as its table gets the default decoding table. */
  lemma DefaultAlphabetConfigures(opts: Options)
    requires opts.table == Some(DefaultEncodingTable())
    ensures ResolveDecodeTable(Configure(ObjectArg(opts)), None) == DefaultDecodingTable()
  {
    InvertDefault();
  }
}

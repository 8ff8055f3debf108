# Ascii85 codec

A Dafny model of node-ascii85. That package is an Ascii85 (Base85) codec that follows the ASCII85Decode filter of ISO 32000-1 (PDF 1.7), section 7.4.3. It adds two extras:

- the `<~` / `~>` block delimiters;
- the btoa 4.2 `y` shortcut for a group of four spaces.

The model covers the whole codec of `index.js` and the constants of `src/constants.js`:

- **Constants** (`constants.dfy`): the scalar constants of src/constants.js:1-20 as Dafny `const` declarations with the same values: base 85, the group lengths 4 and 5, the codes of `z`, `y` and `u`, the markers `<~` and `~>` with their 16-bit values, and the value 0x20202020. `TildeCode`, the code of `~` that starts the end marker, is the model's own constant. The file also has the two default tables. It also has the loops that build those tables.
- **Encoder** (`encoding.dfy`, `encoding_facts.dfy`): specification functions for a complete group, the trailing group, the body and the delimited output. The methods mirror `encode`'s loops over an output array with an `offset` cursor: the byte loop, the base-85 digit loop over a five-slot scratch array, the write loops and the padded tail. Each method is proved to write exactly what the specification says.
- **Decoder** (`decoding.dfy`): the delimiter check and strip, the `z`/`y` shortcuts and when they are enabled, skipping characters that have no table entry, accumulation of 5-digit groups, and the padding of a trailing group with digit 84. The methods mirror `decode`'s loops, including the pre-sizing loop that counts shortcuts. That loop is what proves the output array never overflows.
- **Round trip** (`roundtrip.dfy`): decoding the encoding gives back the input for any pair of tables that meets three conditions:
  - the decoding table inverts the first 85 characters of the encoding table;
  - none of those characters is `z`, `y` or `~`;
  - the decoding table gives `z` and `y` no truthy entry, so both shortcuts stay enabled.

  With the delimiter on, this needs a non-empty input.
- **Codec object** (`codec.dfy`):
  - the `Ascii85` class and the options it keeps;
  - the constructor's inversion of a custom alphabet;
  - how `encode` and `decode` resolve their arguments against the instance's options;
  - the conversion of a character map into a code-indexed decoding table;
  - the `PostScript` instance (delimiter on by default).

Characters are handled as their byte codes. A decoding table is a sequence of 256 optional digit values, where `None` is a slot of the sparse JavaScript array that holds nothing. A complete group whose five digits exceed 2^32 - 1 makes `writeUInt32BE` throw. The model returns this as the error `GroupOverflow`. A start marker with no matching end marker is the error `InvalidDelimiterPair`.

Where the written description of the system and the code differ, the model follows the code:

- **No table validation.** No error is raised for a custom table of the wrong size. The constructor validates nothing. A table shorter than 85 characters fails only when `encode` writes a missing character.
- **Array argument to the constructor.** An array passed to the constructor in place of an options object configures nothing, because it has no `table` property. Only `encode` uses an array argument as its table.
- **Shortcuts in decode.** `decode` has no `groupSpace` option. `y` is expanded whenever the table does not map it to a truthy value. The same rule applies to `z`.
- **Empty delimited input.** The empty input with the delimiter on encodes to `<~~>`, and `decode` rejects that as an invalid delimiter pair. The round trip with delimiters therefore holds only for non-empty input.

## Model

| member | source | states |
|---|---|---|
| Buffers.Put | index.js:102-104 | `offset += output.write(s, offset)`: s is written at the cursor, the bytes before it are unchanged, and the cursor moves past it |
| Constants.DefaultEncodingTable | src/constants.js:22-31 | the default alphabet: the character for digit value i is the code 33 + i, for i below 85 |
| Constants.DefaultDecodingTable | src/constants.js:33-42 | the default decoding table: 256 slots, slot 33 + i holds i for i below 85, every other slot is empty |
| Constants.BuildDefaultEncodingTable | src/constants.js:22-31 | the table-building loop produces the default alphabet |
| Constants.BuildDefaultDecodingTable | src/constants.js:33-42 | the table-building loop produces the default decoding table |
| Constants.DefaultEncodingTableShape | src/constants.js:22-31 | the default alphabet has 85 characters, from `!` to `u`, strictly increasing and so distinct; `u`, the padding character, stands for 84 = base - 1 |
| Constants.DefaultTablesInverse | src/constants.js:33-42 | the default decoding table maps the character of every value v < 85 back to v, and every code it maps is the character of the value it holds |
| Constants.DefaultUnmappedCodes | src/constants.js:33-42 | every code outside 33..117 has no entry, in particular `z`, `y`, `~` and space, and no digit character is `z`, `y` or `~` |
| Constants.SentinelWords | src/constants.js:4-20 | four spaces are exactly the big-endian word 0x20202020 and four NULs the word 0, in both directions |
| Constants.MarkerValues | src/constants.js:11-16 | `<~` and `~>` are two characters long with big-endian 16-bit values 0x3C7E and 0x7E3E |
| Constants.FiveDigitsCoverWord | src/constants.js:1-10 | 256^4 = 2^32 is below 85^5, so five base-85 digits hold any 4-byte group |
| Encoding.CoversDigits | index.js:127-129 | the table has a character for each of the 85 digit values that `table[bytes[j]]` reads |
| Encoding.Spell | index.js:127-129 | digit values written as their table characters, in order |
| Encoding.EncodeWord | index.js:118-132 | a complete group of value x: `y` when groupSpace is on and x is 0x20202020, tested first; else the five base-85 digits of x as table characters when x is nonzero; else `z` |
| Encoding.EncodeGroup | index.js:107-116 | four bytes read big-endian as the group value, then encoded as a complete group |
| Encoding.Padded | index.js:143-145 | the tail value with k zero bytes shifted in |
| Encoding.EncodeTailWord | index.js:140-157 | a trailing group of r bytes: zero-padded to a word, split into five digits, of which the first r + 1 are written; no sentinel |
| Encoding.EncodeTail | index.js:139-165 | a trailing group of 1..3 bytes, read big-endian; its zero case coincides with the special branch, as `Encoding.ZeroTail` states |
| Encoding.EncodeGroups | index.js:107-136 | the first n complete groups, encoded in order |
| Encoding.EncodeBody | index.js:107-165 | the complete groups, then the trailing group when the length is not a multiple of four |
| Encoding.Encode | index.js:102-171 | the body, wrapped in `<~` and `~>` when the delimiter is on |
| Encoding.Capacity | index.js:97-99 | the allocated length ceil(5n/4) + 4, plus 4 with delimiters |
| Encoding.SplitBase85 | index.js:121-125 | the scratch array receives the five base-85 digits of the group, most significant first, each below 85 |
| Encoding.WriteDigits | index.js:127-129 | the table characters of the digits are written after the cursor; the bytes before it are unchanged |
| Encoding.PadWord | index.js:143-145 | the tail accumulator is shifted left by the missing bytes, as `Encoding.PaddedValue` states |
| Encoding.PaddedValue | index.js:143-145 | shifting in k zero bytes multiplies the accumulator by 256^k |
| Encoding.WriteGroup | index.js:118-132 | a complete group is written as `y`, `z` or its five digit characters, and takes at most five characters |
| Encoding.WriteRepeated | index.js:161-163 | the character is written `count` times after the cursor |
| Encoding.WritePaddedTail | index.js:140-157 | a nonzero tail of r bytes writes the first r + 1 digit characters of its zero-padded word |
| Encoding.ZeroTail | index.js:158-163 | the zero-tail special case writes r + 1 copies of the first table character, the same as the general padded branch would, and never the `z` sentinel |
| Encoding.WriteTail | index.js:139-165 | both branches of the trailing group write the padded tail encoding: r + 1 characters |
| Encoding.ScanByte | index.js:107-136 | one step of the byte loop keeps the invariant: the complete groups seen so far have been written, and `cur` holds the pending bytes |
| Encoding.FlushGroup | index.js:114-135 | on the fourth byte the group's encoding is appended and the accumulator is reset |
| Encoding.WriteGroups | index.js:107-136 | after the byte loop, all complete groups are written in order, and `cur`/`digits` hold the value and count of the 0..3 leftover bytes |
| Encoding.WriteBody | index.js:107-165 | the byte loop and tail write the encoded body, of at most ceil(5n/4) characters |
| Encoding.WriteEncoded | index.js:95-171 | the trimmed output is the specified encoding: optional `<~`, body, optional `~>` |
| Encoding.CapacityBound | index.js:97-99 | the allocated length leaves room for five characters per group, the tail and both delimiters |
| EncodingFacts.WordDigits | index.js:120-129 | a group that is nonzero and not the space word under groupSpace is written as exactly five characters; character k is the table entry of digit k of its value; the digits determine the value |
| EncodingFacts.ZeroWordIff | index.js:118-132 | a complete group is written as `z` if and only if it is zero |
| EncodingFacts.SpaceWordIff | index.js:118-119 | a complete group is written as `y` if and only if groupSpace is on and the group is four spaces |
| EncodingFacts.KnownVector | index.js:107-129 | the bytes `Man ` are written as `9jqo^` with the default table |
| EncodingFacts.TailShape | index.js:139-165 | a tail of r bytes is written as r + 1 characters, all from the table's first 85, never a sentinel |
| EncodingFacts.GroupsLength | index.js:118-132 | n complete groups take at most 5n characters |
| EncodingFacts.EncodeLengthBound | index.js:95-100 | the encoded output never exceeds ceil(5n/4) + 4 (+ 4 with delimiters), the buffer encode allocates |
| EncodingFacts.WordAvoids | index.js:118-132 | a character that is neither `z`, `y` nor a digit character never occurs in a complete group's output |
| EncodingFacts.GroupsAvoid | index.js:107-136 | such a character never occurs in the output of the complete groups |
| EncodingFacts.BodyAvoids | index.js:107-165 | the encoded body holds only digit characters, `z` and `y` |
| EncodingFacts.DefaultBodyHasNoTilde | index.js:107-165 | with the default table the body never contains `~`, so it cannot contain an end marker |
| Decoding.ShortcutEnabled | index.js:202-203 | a shortcut is enabled unless the table maps its code to a truthy value: a missing entry and the value 0 both enable it |
| Decoding.IsShortcut | index.js:250-258 | the character is `z` with the zero shortcut enabled, or `y` with the space shortcut enabled |
| Decoding.ShortcutCount | index.js:210-224 | the number of characters the enabled shortcuts expand |
| Decoding.DecodeCapacity | index.js:227-229 | the allocated length ceil(4n/5) + 4t + 5 for t shortcut characters |
| Decoding.ReadUInt16BE | index.js:233-235 | the big-endian 16-bit value of the two bytes at i |
| Decoding.Strip | index.js:232-245 | an input of at least four bytes whose first two read 0x3C7E is cut to the bytes between index 2 and the last `~>`, or rejected when no `~>` starts after index 2; any other input is kept |
| Decoding.Accumulate | index.js:264-274 | a digit value joins the group as cur * 85 + v; the fifth digit writes the group as four big-endian bytes and resets, or fails above 2^32 - 1 |
| Decoding.Step | index.js:248-274 | one character, tested in order: an enabled `z` appends four NULs, an enabled `y` four spaces, a character with no entry changes nothing, any other adds its digit |
| Decoding.Pad84 | index.js:280-283 | k digits of value 84 appended to the pending value |
| Decoding.Uint32 | index.js:285-287 | the value modulo 2^32, which `>>>` reads |
| Decoding.Decode | index.js:180-290 | the shortcuts decided from the table, the delimiters stripped, the characters folded from the empty state, and the trailing group finished; either error is returned |
| Decoding.EndMarker | index.js:234-238 | the backward search stops at the last `~>` starting after index 2, or at 2 when there is none |
| Decoding.Run | index.js:247-275 | the character loop never leaves five digits pending |
| Decoding.Finish | index.js:277-288 | a trailing group of k pending digits appends exactly k - 1 bytes, and none when no digit is pending |
| Decoding.CountShortcuts | index.js:210-224 | the pre-sizing loop counts the enabled `z` and `y` characters of the input |
| Decoding.NoShortcuts | index.js:212-224 | with both shortcuts disabled the count is zero |
| Decoding.DecodeCapacityBound | index.js:227-229 | the allocated length covers four bytes per five characters, four per shortcut, and one more group |
| Decoding.FindEndMarker | index.js:234-238 | the backward loop finds the end-marker position that `Decoding.EndMarker` characterises |
| Decoding.StripDelimiters | index.js:232-245 | the delimiter check and slice: an input that opens with `<~` is cut to what lies before its last `~>`, or rejected |
| Decoding.StripShrinks | index.js:226-245 | stripping never lengthens the input or adds shortcuts, so the buffer sized before stripping still suffices |
| Decoding.StartMarker | index.js:233 | the start test `readUInt16BE(0) == 0x3C7E` holds exactly when the input opens with `<~` |
| Decoding.StripDelimited | index.js:232-245 | `<~` + body + `~>` with a non-empty body strips to exactly the body |
| Decoding.StripEmptyDelimited | index.js:234-242 | `<~~>` is rejected as an invalid delimiter pair |
| Decoding.StripUndelimited | index.js:232-233 | an input shorter than four bytes, or not opening with `<~`, is decoded as it is |
| Decoding.AddDigit | index.js:264-274 | a digit extends the group; the fifth one writes the group's four bytes big-endian, or fails above 2^32 - 1 |
| Decoding.DecodeChar | index.js:248-274 | one character: an enabled `z`/`y` appends four NULs/spaces, a character with no entry is skipped, any other adds its digit |
| Decoding.ScanChar | index.js:247-275 | one step of the character loop keeps the output equal to the decoded prefix, or reports the overflow that decoding the prefix meets |
| Decoding.DecodeGroups | index.js:247-275 | the character loop computes the specified decoding of the whole input, or fails exactly when that decoding fails |
| Decoding.ErrorPersists | index.js:272 | once a group overflows, decoding fails with that error whatever follows |
| Decoding.RunAppend | index.js:247-275 | decoding a + b is decoding b from the state after a |
| Decoding.SkipsUnknown | index.js:260-262 | inserting a character that has no entry and is not an enabled shortcut changes nothing |
| Decoding.ShortcutsExpand | index.js:250-258 | an enabled `z` appends four NULs and `y` four spaces, leaving the pending digits untouched |
| Decoding.DefaultShortcuts | index.js:202-203 | with the default table both shortcuts are enabled |
| Decoding.PadGroup | index.js:280-283 | the padding loop appends the missing digits as 84, as `RoundTrip.Pad84Value` states |
| Decoding.WriteHighBytes | index.js:285-287 | the 4 - padding high bytes of the padded word, taken mod 2^32, are written big-endian |
| Decoding.WriteTail | index.js:277-288 | the trailing group handling appends exactly what `Decoding.Finish` specifies |
| Decoding.WriteDecoded | index.js:202-290 | the trimmed output is the specified decoding of the input, including both error cases |
| RoundTrip.DefaultCompatible | src/constants.js:22-42 | the default tables invert each other on the 85 digits, and no digit character is `z`, `y` or `~` |
| RoundTrip.RunDigits | index.js:264-266 | decoding the characters of fewer than five digits leaves those digits pending with their value |
| RoundTrip.RunWord | index.js:247-275 | decoding a complete group's encoding appends its four bytes and leaves no digit pending |
| RoundTrip.RunSentinelWord | index.js:250-258 | decoding `z` or `y` restores the zero or space group |
| RoundTrip.RunDigitWord | index.js:264-274 | decoding five digit characters restores the group's four bytes |
| RoundTrip.GroupValue | index.js:107-116 | four bytes form a word below 2^32 whose big-endian bytes are those four |
| RoundTrip.RunGroups | index.js:247-275 | decoding the encodings of n complete groups restores their 4n bytes |
| RoundTrip.Pad84Value | index.js:280-283 | padding with k digits 84 gives x * 85^k + 85^k - 1 |
| RoundTrip.TailRecovery | index.js:277-288 | padding the r + 1 kept digits of a zero-padded tail with 84s gives a word whose high r bytes are the tail |
| RoundTrip.TailBytes | index.js:277-288 | the decoder's tail handling turns the encoder's r + 1 tail digits back into the r bytes |
| RoundTrip.RunTailDigits | index.js:264-269 | decoding a tail's characters leaves r + 1 digits pending with the kept value |
| RoundTrip.FinishTail | index.js:277-288 | the final group handling appends exactly the tail bytes |
| RoundTrip.RunTail | index.js:247-288 | after the complete groups, decoding the tail's characters restores the tail |
| RoundTrip.RunBody | index.js:247-288 | decoding an encoded body restores the data, for any table pair that inverts on the 85 digits, keeps `z`, `y` and `~` out of the digit characters, and leaves `z` and `y` without a truthy entry |
| RoundTrip.StripBody | index.js:232-245 | an undelimited encoded body never looks delimited, so it is decoded whole |
| RoundTrip.BodyNonEmpty | index.js:107-165 | non-empty data gives a non-empty body |
| RoundTrip.RoundTrip | index.js:60-291 | decode(encode(B)) == B for any table pair that inverts on the 85 digits, keeps `z`, `y` and `~` out of the digit characters, and leaves `z` and `y` without a truthy entry; with groupSpace on or off, and with delimiters when B is non-empty |
| RoundTrip.DefaultRoundTrip | index.js:60-291 | the same round trip with the default tables |
| RoundTrip.ZeroShortcutNeeded | index.js:202-203 | the shortcut condition of the round trip is needed: four zero bytes always encode to `z`, but with a table that maps `z` to a truthy value, `z` decodes to nothing |
| RoundTrip.ZeroGroupEncoding | index.js:118-132 | four zero bytes are encoded as the single character `z`, whatever the table and groupSpace |
| RoundTrip.LoneDigitDecoding | index.js:250-288 | a lone character that has a table entry and is not an enabled shortcut (any mapped character other than `z`/`y`, or `z`/`y` mapped to a truthy value) is one pending digit, and a single pending digit writes no byte |
| RoundTrip.DelimitedEmptyRejected | index.js:233-241 | empty data with delimiters encodes to `<~~>`, which decode rejects |
| Codec.Invert | index.js:36-39 | the `forEach` over the alphabet: slot t[i] is set to i in index order, so a later index overwrites an earlier |
| Codec.FromCharMap | index.js:194-198 | slot c holds the map's value for c when c is a key, and nothing otherwise |
| Codec.Normalize | index.js:189-200 | a holder's `table` property is unwrapped, and a character map is converted into a code-indexed table |
| Codec.InvertEntries | index.js:35-39 | the derived decoding table has an entry for a code exactly when it is in the alphabet, and the entry is its last index |
| Codec.InvertDistinct | index.js:35-39 | for an alphabet of distinct characters, the derived table maps each character back to its index |
| Codec.InvertDefault | index.js:35-42 | inverting the default alphabet yields the default decoding table |
| Codec.BuildDecodingTable | index.js:36-39 | the `forEach` loop builds the inverse of the alphabet |
| Codec.Configure | index.js:31-43 | an array `table` sets `encodingTable` to itself and `decodingTable` to its inverse; every other option is kept; no argument, or an array argument, configures nothing |
| Codec.ResolveEncode | index.js:73-93 | per-call table, delimiter and groupSpace override the instance's; absent ones fall back to the instance's, then to the default table or false; an array argument is the table |
| Codec.CharMapEquivalent | index.js:193-198 | a table given as a character map decodes exactly like the same table as an array |
| Codec.ResolveDecodeTable | index.js:187-200 | decode uses the argument table, else the instance's decoding table, else the default, after normalisation |
| Codec.ConvertCharMap | index.js:194-198 | the key loop turns a character map into the code-indexed table with the same entries |
| Codec.NormalizeTable | index.js:189-200 | a holder's `table` property is unwrapped and a character map is converted |
| Codec.Ascii85.constructor | index.js:28-44 | the instance keeps the configured options |
| Codec.Ascii85.Encode | index.js:60-172 | the output is the specified encoding under the resolved options |
| Codec.Ascii85.Decode | index.js:180-291 | the output is the specified decoding with the resolved table |
| Codec.PostScriptDelimits | index.js:296-298 | the PostScript instance's output starts with `<~` and ends with `~>` unless the call turns the delimiter off |
| Codec.PostScriptRoundTrip | index.js:296-298 | the PostScript instance decodes what it encodes, for every non-empty input |
| Codec.DefaultCodecRoundTrip | index.js:46 | the default instance uses the default table and decodes what it encodes |
| Codec.CustomTableRoundTrip | index.js:28-44 | an instance built with at least 85 distinct ASCII characters (codes below 128), none `z`, `y` or `~`, decodes what it encodes |
| Codec.DefaultAlphabetConfigures | index.js:35-43 | an instance built with the default alphabet decodes with the default table |

## Left out

- `src/utils.js`: the Buffer shim is not part of this model. Inputs and outputs are byte sequences.
- Input coercion:
  - encode (index.js:66-70) passes a string through `Buffer.from` with the 'binary' encoding;
  - decode (index.js:205-207) passes a string through `Buffer.from`, which stores a non-ASCII character as several UTF-8 bytes.

  Both operations take bytes here.
- Buffer allocation and `slice`: the output is an array with a cursor, and the result is its prefix up to the cursor.
- Table characters outside ASCII, or longer than one character. `output.write` would store several UTF-8 bytes for them, so each table character is one byte here. The encoder and the general round trip describe the program only for ASCII tables. The custom-alphabet round trip asks for one explicitly.
- Table values that are not non-negative integers: the model allows only `nat`, in the slots of a code-indexed array table and in the values of a character map alike, while the source accepts any JavaScript value there (index.js:189-199). Also left out: character-map keys longer than one character, and a holder whose `table` property is itself a holder.
- JavaScript numbers are doubles, and integers are exact in them only below 2^53:
  - The encoder's values stay below 2^32, so unbounded integers model it exactly.
  - In the decoder, the pending group stays below 2^53 whenever every decoding-table value is below 2^27. For those tables the model is exact.
  - A table value may be any `nat`. With larger values, JavaScript rounds the padded trailing group before `>>>` reads it, while the model computes it exactly.
- Options aliasing: the constructor writes `encodingTable` and `decodingTable` into the caller's own object. The model keeps a copy.
- Export wiring (index.js:46, 303). The default instance is `Configure(NoArg)`.
- The scratch `bytes` array (index.js:61) is shared across groups in the source. The model allocates one per group.
- Codec.Ascii85.Encode: a table of at least 85 characters is a precondition (`CoversDigits`). With a shorter table, the source fails only when it writes a missing character.
- Decoding.AddDigit: Node's `RangeError` from `writeUInt32BE` is the error result `GroupOverflow`, not an exception.
- The claim that a permuted alphabet gives output different from the standard table is not stated.

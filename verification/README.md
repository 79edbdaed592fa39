# A verified model of the rasn codecs

rasn encodes and decodes ASN.1 values under many encoding rules. This project models four parts of it in
Dafny and proves what they promise together:

- **AVN**, the textual value notation of ITU-T X.680: an indenting printer, a recursive parser with a depth
  limit, and an encoder and a decoder that work on explicit stacks.
- **OER and COER** (ITU-T X.696): an encoder that reserves and patches preambles and extension bitmaps and swaps
  its two buffers to learn the length of an open type, and a decoder with a stricter canonical mode.
- **BER, CER and DER** (ITU-T X.690): nested tag-length-value writing, base-128 numbers, object identifiers, CER
  string segments, and the canonical orders of SET and SET OF.
- **The streaming iterator**: a buffer that compacts itself lazily while values are decoded from a growing input.

For each part there is a specification made of functions (`Print`, `ParseValue`, `Tree`, `FromTree`; `Enc`, `Dec`;
`EncNode`, `RefNode`, `CerNode`, `RefCer`, `EncString`, `DecString`; `Yields`), the theorems about these functions, and the program in
the form the library has it: classes whose methods update buffers, stacks and inputs, and loops, each proved to
compute what the specification says. Beside the functions stand rules that use none of them, written with the
characters, bit positions and limits themselves (`AvnGrammar`, `AvnPrinting`, `AvnReading`, `AvnWriting`, `OerReading`,
`OerWriting`, `BerReading`, `BerWriting`); each function is proved to say exactly what its rules say.

The main results:

- `AvnEndToEnd.EndToEnd`: encode, print, parse, decode returns exactly the value, if and only if the tree stays
  within the depth limit and no BOOLEAN, NULL or keyword stands where the notation cannot carry it.
- `AvnGrammar.ValueExact`, `AvnPrinting.PrintedExactly`, `AvnReading.MeansExactly`, `AvnWriting.ShownExactly`: the four AVN
  layers parse, print, decode and encode exactly what their rules say, on every input.
- `AvnRoundTrip.ValueText`: the text of any well-formed tree, at any indentation and before any tail that does not
  extend its last token, parses to the normal form of the tree and leaves the tail.
- `OerReading.Exact`, `OerWriting.ExactlyWritten`: for every type, input, depth and both modes OER decoding gives a value and
  a rest if and only if the rules read them; octets are the encoding of a value if and only if the rules write them.
- `OerRoundTrip.ValueBack`, `OerSize.ValueSized`, `OerEndToEnd.RoundTrip`: the OER round trip with any tail, if and
  only if the value is writable and the decoder carries it, two conditions on type and value.
- `OerEncoder.Encoder.Encode`: the two-buffer encoder appends exactly the encoding, alters no existing output and
  leaves the worker as it was.
- `OerUnique.SecondEncoding`: of any accepted value COER accepts a second encoding if and only if the value is `Loose`,
  that is, holds in what is encoded of it one of seven named things. One of them is a component at its DEFAULT, if the
  decoder recognizes the component and accepts the default in some encoding, which is told from type and value
  (`OerLegible.DefaultLoose`, `OerLegible.ReadableExactly`).
  `OerCanonical.Accepted`: on canonical types COER accepts only what the encoder writes.
- `OerLocality.Local`, `OerRestriction.Restricts`: decoding looks only at what it consumes; COER restricts OER.
- `BerTree.NodeBack`, `BerTree.NodeCanonical`, `BerCer.CerBack`, `BerCer.CerCanonical`: the writer and strict reference
  parsers for DER and CER are inverse to each other.
- `BerReading.StringExact`, `BerWriting.StringExactly`, `BerWriting.TreeExactly`: strings are decoded, and strings and trees
  written, exactly as the rules say, with every form of length.
- `BerString.StringBack`, `BerString.NestedBack`, `BerObjectIdentifier.RoundTrip`, `BerOrder.SetOfCanonical`, `BerOrder.SetOrder`,
  `BerEncoder.SetReadsBack`.
- `Stream.Run`, `Stream.ChunkingIrrelevant`: streaming does not depend on how the input is cut.

A schema is a value of a datatype `Type`; the calls that derived code makes on an encoder or decoder for the
components of a SEQUENCE become a loop or a recursion over the components. Types are finite trees: a recursive
ASN.1 type is represented by its unfolding, which the decoder's depth limit cuts off anyway. Integers are unbounded
except where the width matters: tag numbers, arcs and base-128 accumulators are 32 bits wide with explicit
wrap-around, lengths and counts are below 2^64.

## Where the code departs from what it promises

The model follows the code. Each of these is a proved statement.

- Between braces the AVN parser reads `TRUE`, `FALSE` and `NULL` as enumeration items, so a non-empty SEQUENCE OF
  BOOLEAN does not decode (`AvnEndToEnd.SequenceOfBoolean`).
- The AVN encoder labels components positionally, root names before extension names; a component gets its own name
  exactly if the extensions come last (`AvnSchema.LabelsAreNames`).
- The OER encoder accepts an INTEGER outside the root range of an extensible constraint, which the decoder rejects
  (`OerRoundTrip.OutsideRoot`), and COER decoding rejects zero in an unsigned INTEGER without a fixed width
  (`OerRoundTrip.ZeroRejected`).
- The width of an INTEGER with a negative lower bound follows the magnitudes of its bounds, so that values within
  bounds may be refused: 200 in INTEGER (-1..200) (`OerSize.MagnitudeWidth`, `OerSize.WidthRefuses`).
- The octets reserved for an extension bitmap are one too few exactly for widths 256 to 511, 65536 to 131071 and
  2^24 to 2^25 - 1, first reached with 2033 additions (`OerCursor.ReservedWidth`, `OerCursor.ReservedWidthSmall`); the
  bitmap then covers the first octet of the additions (`OerEncoder.SequenceFromExactly`).
- COER decoding accepts superfluous sign octets, ignored padding bits, long forms of small tags, explicit defaults,
  an empty input for an all-optional SEQUENCE, and changed extension bits and bitmaps (`OerLoose.Loose`,
  `OerUnique.SecondEncoding`).
- The decoder does not check the size range of an OCTET STRING (`OerCanonical.SizeUnchecked`).
- `checked_shl(7)` never fails, so base-128 numbers beyond 32 bits wrap around instead of being rejected
  (`OerForms.WrapAround`).
- A CHOICE without a tag of its own as an OPTIONAL or DEFAULT component is written when present, and then rejected: the
  decoder asks for the CHOICE's own tag, UNIVERSAL 0, where it expects the least tag among the alternatives
  (`OerEndToEnd.UnrecognizedChoice`; `OerTypes.RecognizedComponents` says exactly for which components).
- A constrained INTEGER beyond 128 bits with sign is written when its bound is one-sided, and always rejected: 2^127 in
  INTEGER (0..MAX) (`OerEndToEnd.BeyondI128`, `OerEndToEnd.FirstBeyondI128`).
- A CHOICE tag number from 63 on is written with its binary digits reversed, so that it comes back only if they read the
  same both ways; numbers of 7, 14, 21 or 28 digits never do, and others may select another alternative
  (`OerRoundTrip.TagBack`, `OerRoundTrip.LargeTag`, `OerEndToEnd.AnotherAlternative`). Builds with debug assertions stop
  when the first group of digits is zero; the model follows the others.
- An extension inside an extension addition, addition or CHOICE alternative, swallows the outer output, which is its
  worker (`OerEncoder.AdditionFromExactly`, `OerEncoder.DisplacedExactly`).
- Under CER a string of more than 1000 octets in a SET is lost but for its last segment (`BerEncoder.Encoder.EncodeString`).
- An object identifier with first arc 0 or 1 and second arc from 40 on, or with a first subidentifier beyond 32 bits,
  is encoded but decodes to other arcs (`BerObjectIdentifier.RoundTrip`, `BerObjectIdentifier.Inseparable`).
- Within a constructed octet string a constructed part of definite length is skipped: the loop over its parts runs over
  the octets after it (`BerString.NestedBack`, `BerString.SkippedPart`).
- SET OF elements are compared by prefix and length, not with zero padding as documented; the result is ascending in
  the documented order as well (`BerOrder.SetOfAscends`).

## Model

| member | source | states |
|---|---|---|
| AvnRoundTrip.ValueText | src/avn/value.rs:61-187 | The printed text of every well-formed tree, at every indentation and parse depth and before every tail that does not extend its last token, parses to the tree's normal form and leaves the tail exactly if it fits the depth limit, and fails with the depth error otherwise |
| AvnRoundTrip.PrintedText | src/avn/de.rs:358-382 | A whole printed text parses to the normal form with nothing left, or fails with the depth error |
| AvnRoundTrip.OidValue | src/avn/de.rs:212-235 | Arcs separated by spaces come back as a list of integers |
| AvnRoundTrip.BitsValue | src/avn/value.rs:87-115 | A bit string comes back as octets when its length is a multiple of eight, otherwise bit by bit |
| AvnTotality.ValueBounds | src/avn/de.rs:119-280 | On every input a success leaves a strict suffix, and the height of the tree is at most 2 * (64 - depth) + 1, with the limit as a number |
| AvnGrammar.ValueExact | src/avn/de.rs:119-280 | For every text, tree, rest and depth up to 64: the tree is parsed and the rest left if and only if the rules of the notation read them; the rules name every character of white space, identifiers, numbers and quotation |
| AvnGrammar.TextDenotes | src/avn/de.rs:358-382 | A whole text is accepted if and only if it is one value of the rules and white space |
| AvnGrammar.DigitsExact | src/avn/de.rs:45-67 | An hstring or bstring is read from its digits in either case, with any white space between them |
| AvnGrammar.HexExact | src/avn/de.rs:286-310 | Hexadecimal digits are read by their places in 0123456789ABCDEF and 0123456789abcdef |
| AvnGrammar.NumberExact | src/avn/de.rs:99-115 | A number is read as far as it goes; it is a REAL if it has a point with digits on both sides |
| AvnGrammar.IdentifierWhole | src/avn/de.rs:38-43 | A letter followed by letters, digits, hyphens and underscores is read whole before any other character |
| AvnGrammar.IdentifierNames | src/avn/de.rs:38-43 | These are exactly the names that types and trees may have |
| AvnParserLoops.ParseHexBytes | src/avn/de.rs:286-301 | Pairs of hexadecimal digits give the octets, an odd or foreign digit nothing |
| AvnParserLoops.ParseBinBits | src/avn/de.rs:312-335 | Binary digits are packed most significant bit first into zeroed octets |
| AvnParserLoops.ParseHexOrBinString | src/avn/de.rs:45-67 | The hstring and bstring alternatives of the grammar |
| AvnParserLoops.ParseQuotedString | src/avn/de.rs:69-97 | The loop over a quoted string equals the recursive reading of doubled marks |
| AvnParserLoops.ParseValueDepth | src/avn/de.rs:119-134 | The parser of a value, with its alternatives in order and its depth check, equals the grammar function |
| AvnParserLoops.ParseIdentifierOrChoice | src/avn/de.rs:136-157 | An identifier, or a CHOICE when a colon follows |
| AvnParserLoops.ParseBraceList | src/avn/de.rs:159-280 | The loop over a brace list equals the recursive grammar: one token tells a field from an element, arcs need no commas |
| AvnParserLoops.ParseDocument | src/avn/de.rs:358-382 | A text is one value and white space |
| AvnPrinterLoops.FormatBits | src/avn/value.rs:98-114 | The loop over the octets writes exactly the bits of the string |
| AvnPrinterLoops.Format | src/avn/value.rs:61-187 | The printer's loops write the text that ValueText is about |
| AvnPrinting.PrintedExactly | src/avn/value.rs:61-187 | A text is printed for a tree at an indentation if and only if the rules of the layout say so: two spaces for each level, one line for each field or item, commas between them |
| AvnPrinting.HexIs | src/avn/value.rs:77-84 | Octets are printed as upper-case hexadecimal digits, two for each |
| AvnPrinting.NumeralIs | src/avn/value.rs:116-126 | An arc is printed as its decimal digits without a zero in front |
| AvnSchema.LabelsAreNames | src/avn/enc.rs:381-391 | The labels popped for the components are their own names exactly if extension additions come last |
| AvnEncoder.Encoder.UpdateRootOrConstructed | src/avn/enc.rs:56-71 | A finished value takes one pending name into the top frame, or becomes the root |
| AvnEncoder.Encoder.EncodeNone | src/avn/enc.rs:474-479 | An absent component takes its pending name into the top frame |
| AvnEncoder.Encoder.EncodeSequence | src/avn/enc.rs:371-402 | Both stacks are restored and one tree is deposited |
| AvnEncoder.Encoder.EncodeSequenceOf | src/avn/enc.rs:404-420 | The trees of the elements, each from an encoder of its own |
| AvnEncoder.Encoder.EncodeChoice | src/avn/enc.rs:488-534 | The inner value passes through a frame of its own, both stacks are restored |
| AvnEncoder.Encoder.Encode | src/avn/enc.rs:56-71 | Encoding any value consumes exactly one pending name or sets the root, leaves both stacks otherwise as they were, and deposits the tree of the direct translation |
| AvnWriting.ShownExactly | src/avn/enc.rs:371-534 | A tree is that of a value if and only if the rules say so: names by the declaration order, a root component at its DEFAULT left out and an addition kept |
| AvnDecoder.Decoder.PushSlots | src/avn/de.rs:628-636 | The components' values are pushed in reverse, so that they are popped in order |
| AvnDecoder.Decoder.Decode | src/avn/de.rs:597-638 | Decoding takes exactly one value from the stack and equals the direct reading of the tree |
| AvnDecoder.Decoder.DecodeItems | src/avn/de.rs:958-979 | The elements of a SEQUENCE OF, each pushed and decoded; the stack is as before |
| AvnDecoder.DecodeText | src/avn/de.rs:358-382 | Parsing and stack decoding equal the direct reading of a text |
| AvnReading.MeansExactly | src/avn/de.rs:597-1031 | For every type, tree and value: the value is decoded if and only if the rules say so, with the last field of a name, arcs below 2^32, octets as bits or UTF-8, and names of alternatives in any case |
| AvnReading.NameIs | src/avn/de.rs:1005-1025 | Two names select the same alternative exactly if they differ at most in the case of ASCII letters |
| AvnDecoder.TextInOctets | src/avn/de.rs:942-957 | Octets are read as a character string exactly if they are its UTF-8 form |
| Utf8.RoundTrip | src/avn/de.rs:942-957 | Every text comes back from its UTF-8 form |
| Utf8.Canonical | src/avn/de.rs:942-957 | Whatever is accepted as UTF-8 is the form of the text that is read |
| AvnEndToEnd.TreeIsWellFormed | src/avn/enc.rs:371-420 | The tree of a value is one the text theorem covers |
| AvnEndToEnd.ValueBack | src/avn/de.rs:597-638 | The normal form of a value's tree reads back as the value exactly if the value survives the notation |
| AvnEndToEnd.EndToEnd | src/avn/de.rs:958-1031 | For every well-formed type and every value the decoded text is the value if it fits and survives, and an error in every other case |
| AvnEndToEnd.SequenceOfBoolean | src/avn/de.rs:189-198 | A SEQUENCE OF BOOLEAN comes back only when it is empty |
| AvnEndToEnd.RoundTrip | src/avn/enc.rs:39-54 | The same for the encoder, printer, parser and decoder themselves |
| OerReading.Exact | src/oer/de.rs:101-1021 | For every type, input, value, rest, depth and both modes: the value is decoded and the rest left if and only if the rules read them |
| OerReading.TagExact | src/oer/de.rs:112-150 | A tag is read from its first octet, or from groups of seven bits of which the last 32 bits count |
| OerReading.IntegerExact | src/oer/de.rs:215-277 | An INTEGER is read from 1, 2, 4 or 8 octets by the magnitudes of its bounds, or from a length and octets, within the bounds and 128 bits |
| OerReading.BitsExact | src/oer/de.rs:279-328 | A BIT STRING is read bit by bit, with up to seven unused bits, or from no octets at all |
| OerReading.EnumeratedExact | src/oer/de.rs:529-563 | An item is read from one octet below 128, or from one to eight octets behind their count |
| OerReading.SequenceExact | src/oer/de.rs:594-650 | A SEQUENCE is read from its preamble bits, root, bitmap and additions, or from nothing |
| OerReading.BasicBoolean | src/oer/de.rs:514-527 | Basic OER reads every octet as a BOOLEAN, FALSE only if it is zero |
| OerReading.BasicLength | src/oer/de.rs:155-196 | Basic OER reads every long form of a length of one to eight octets |
| OerWriting.ExactlyWritten | src/oer/enc.rs:238-1151 | For every well-formed type and every value: octets are its encoding if and only if the rules write them |
| OerWriting.FixedWidths | src/types/constraints.rs:822-842 | An INTEGER with both bounds takes 1, 2, 4 or 8 octets by the limits 2^8, 2^16, 2^32 and 2^64 of its bounds' magnitudes, and its octets are the value |
| OerWriting.LongWidths | src/oer/enc.rs:403-437 | From a magnitude of 2^64 on the shortest form stands behind its length |
| OerWriting.LongestString | src/oer/enc.rs:498-520 | A string without a fixed size is written up to 2^61 - 1 octets, within its size range |
| OerWriting.TagIs | src/oer/enc.rs:238-314 | The tag of a CHOICE: class and number in one octet, or the digits of the number reversed in groups of seven |
| OerRoundTrip.LengthBack | src/oer/enc.rs:348-373 | A length below 2^64 comes back in both modes, before any tail |
| OerRoundTrip.IntegerBack | src/oer/enc.rs:403-470 | An INTEGER comes back exactly if it is in bounds, within 128 bits when it has bounds, and not a zero that COER rejects |
| OerRoundTrip.BitStringBack | src/oer/enc.rs:656-727 | A BIT STRING of fixed or variable size comes back with its exact length |
| OerRoundTrip.EnumeratedBack | src/oer/enc.rs:318-342 | Every discriminant of `isize` comes back as its item |
| OerRoundTrip.TagBack | src/oer/enc.rs:238-314 | A tag with any 32-bit number comes back exactly if the number is below 63, or its binary digits read the same both ways and their count is no multiple of seven |
| OerRoundTrip.LargeTag | src/oer/enc.rs:271-312 | A number from 63 on is read with its binary digits reversed, or rejected if its first group of seven is zero |
| OerEndToEnd.AnotherAlternative | src/oer/enc.rs:271-312 | The first alternative of CHOICE { a [131] BOOLEAN, b [193] BOOLEAN } is read as the second, with the same value |
| OerRoundTrip.PreambleBack | src/oer/de.rs:436-476 | The preamble comes back, with its padding accepted |
| OerRoundTrip.BitmapBack | src/oer/de.rs:388-434 | The extension bitmap comes back, and every required addition is found present |
| OerRoundTrip.SequenceBack | src/oer/de.rs:594-650 | A SEQUENCE with OPTIONAL, DEFAULT and extension additions comes back exactly if its components do and the decoder recognizes those of them that are OPTIONAL or DEFAULT and present |
| OerRoundTrip.SequenceOfBack | src/oer/de.rs:652-680 | A SEQUENCE OF comes back exactly if its elements do |
| OerRoundTrip.ChoiceBack | src/oer/de.rs:919-947 | A CHOICE with any tags, in the root or as an extension, comes back exactly if its tag and its value do; otherwise there is an error, or another value if a tag is not read as written |
| OerRoundTrip.ValueBack | src/oer/de.rs:594-650 | For every well-formed type, every value the encoder accepts, both modes, every depth and every tail: decoding gives the value and the tail exactly if the decoder carries the value. Otherwise it gives an error, or a different value if some tag of the type is not read as it was written |
| OerTypes.RecognizedComponents | src/oer/de.rs:352-372 | The tag that is asked for is the least tag of the component exactly if the component is tagged, is no CHOICE, or has an alternative tagged UNIVERSAL 0 |
| OerEndToEnd.UnrecognizedChoice | src/oer/de.rs:352-372 | A present c in SEQUENCE { c CHOICE { a [0] BOOLEAN } OPTIONAL } is encoded, and rejected before any tail |
| OerEndToEnd.BeyondI128 | src/oer/de.rs:255-273 | Every value up to 17 octets within a one-sided bound but outside 128 bits is encoded, and rejected |
| OerEndToEnd.FirstBeyondI128 | src/oer/de.rs:255-273 | So are 2^127 in INTEGER (0..MAX) and -2^127 - 1 in INTEGER (MIN..0) |
| OerRoundTrip.OutsideRoot | src/oer/de.rs:242-277 | INTEGER (0..10, ...) with 11 is encoded, and rejected by the decoder |
| OerRoundTrip.ZeroRejected | src/oer/de.rs:226-233 | INTEGER (0..MAX) with 0 is encoded, and rejected under COER only |
| OerSize.ValueSized | src/oer/enc.rs:403-470 | The encoder accepts a value exactly if bounds, widths, sizes and lengths are respected everywhere in it, and the encoding has the size computed from type and value |
| OerSize.WidthRefuses | src/types/constraints.rs:822-842 | An INTEGER within two-sided bounds is refused exactly if its sign bit does not fit the width taken from the magnitudes |
| OerSize.MagnitudeWidth | src/types/constraints.rs:822-842 | INTEGER (-1..200) refuses its value 200 |
| OerLocality.Local | src/oer/de.rs:101-213 | For types without an all-optional SEQUENCE in place, octets after the input do not change a success and are left over; the rest is a suffix |
| OerLocality.Moves | src/oer/de.rs:101-213 | For every type, what is left is a suffix; if at least one octet was left, what was consumed decodes alike before any other octets |
| OerLocality.NotLocal | src/oer/de.rs:606-620 | No SEQUENCE with root components, all of them and all additions optional, is local: it accepts the empty input and consumes some of any octets that follow, or rejects them |
| OerRestriction.Restricts | src/oer/de.rs:155-240 | For every type and input, what COER accepts OER accepts with the same value and rest |
| OerCanonical.IntegerCanonical | src/oer/de.rs:215-240 | An INTEGER of fixed width or without sign is accepted in one form only |
| OerCanonical.SequenceCanonical | src/oer/de.rs:594-650 | A SEQUENCE is accepted only with the preamble its components have |
| OerCanonical.Accepted | src/oer/de.rs:155-196 | On canonical types, size-ranged OCTET STRING included, whatever COER accepts has the shape of the type and is the encoding of its value followed by the rest; there is an encoding exactly if the sizes allow it |
| OerCanonical.SizeUnchecked | src/oer/de.rs:691-714 | An OCTET STRING outside its size range is decoded though it cannot be encoded |
| OerForms.OnlyForm | src/oer/de.rs:215-240 | A BOOLEAN, NULL, INTEGER, string or ENUMERATED value that is not loose is accepted in one form |
| OerForms.PrimitiveForms | src/oer/de.rs:279-328 | A loose one has two: a surplus sign octet, a set padding bit, an empty string with or without its initial octet |
| OerForms.ChoiceAlternative | src/oer/de.rs:112-150 | Every accepted CHOICE value, with any 32-bit tag number, has a second encoding, whose tag has other groups that vanish |
| OerForms.WrapAround | src/oer/de.rs:135-146 | Every 32-bit number is also read from two longer numbers, whose groups beyond 32 bits vanish |
| OerAlternative.ExtensibleAlternative | src/oer/de.rs:388-434 | Every accepted value of an extensible SEQUENCE has a second encoding |
| OerAlternative.SequenceAlternative | src/oer/de.rs:594-650 | A loose value of a SEQUENCE has a second encoding: of a component, of a DEFAULT written out, or from an empty input |
| OerUnique.SecondEncoding | src/oer/de.rs:155-240 | Of any accepted value, before any octets, COER accepts a second encoding if and only if the value is loose |
| OerUnique.SecondToWritten | src/oer/enc.rs:961-994 | The same relative to what the encoder writes, for every value that is written and carried |
| OerUnique.Unique | src/oer/de.rs:514-527 | Two accepted inputs with the same value that is not loose consume the same octets, whatever follows |
| OerUnique.UniqueOnCanonical | src/oer/de.rs:514-527 | On canonical types no value, whatever its sizes, has two accepted encodings |
| OerLegible.Accepted | src/oer/de.rs:478-527 | Whatever COER accepts respects bounds, widths, fixed sizes, lengths and depth, is no rejected zero, and has all its present OPTIONAL and DEFAULT components recognized |
| OerLegible.ReadableExactly | src/oer/de.rs:478-527 | The other way as well, for values of less than 2^64 octets: some encoding is accepted exactly if these conditions on type and value hold |
| OerLegible.DefaultLoose | src/oer/de.rs:953-960 | A component at its DEFAULT has a second encoding exactly if the decoder recognizes it and its default meets these conditions |
| OerCursor.CursorWidths | src/oer/enc.rs:77-107 | The computed widths are those of the layout of clause 16 of X.696 |
| OerCursor.ReservedWidth | src/oer/enc.rs:91-96 | The reserved length is the written one, except one octet less exactly for the `Short` widths |
| OerCursor.ReservedWidthSmall | src/oer/enc.rs:91-96 | Up to 2032 additions the reserved and written widths agree, at 2033 they do not |
| OerEncoder.Encoder.EncodeInteger | src/oer/enc.rs:403-437 | Fails exactly outside a non-extensible range or width |
| OerEncoder.Encoder.EncodeBitString | src/oer/enc.rs:656-727 | Appends the packed bits, with the count of unused bits unless the size is fixed |
| OerEncoder.Encoder.TagBits | src/oer/enc.rs:238-314 | The bits written one by one pack to the tag, for every 32-bit number |
| OerEncoder.Encoder.LongTagBits | src/oer/enc.rs:271-312 | The loops over digits and groups, with the last marker cleared, write the number as LargeTag reads it |
| OerEncoder.DisplacedExactly | src/oer/enc.rs:1107-1113 | When the worker is not empty, an open type swallows what it holds; what is written is the open type exactly if the worker was empty |
| OerEncoder.AdditionFromExactly | src/oer/enc.rs:1118-1151 | So an addition is written as it should be exactly if the worker was empty, which inside another addition it never is |
| OerEncoder.SequenceFromExactly | src/oer/enc.rs:586-606 | A SEQUENCE with additions is written as it should be if the worker is empty and the bitmap fits; it is one octet too short if only the bitmap does not fit, and longer than it should be if only the worker is not empty |
| OerEncoder.Encoder.EncodeExtensionAddition | src/oer/enc.rs:1118-1151 | With the buffers swapped, appends the addition behind its length and behind whatever the worker held, reserving the bitmap before the first one; the worker ends empty |
| OerEncoder.Encoder.EncodeExtensionAdditions | src/oer/enc.rs:1118-1151 | The bitmap is reserved once, directly before the first present addition, and that addition alone swallows what the worker held |
| OerEncoder.Encoder.PatchPreamble | src/oer/enc.rs:529-569 | Replaces exactly the reserved preamble |
| OerEncoder.Encoder.PatchBitmap | src/oer/enc.rs:586-606 | Replaces the reserved bitmap, and as many octets after it as were reserved too few, by the encoded one, leaving the worker empty |
| OerEncoder.Encoder.EncodeConstructed | src/oer/enc.rs:524-613 | Only the reserved octets of this SEQUENCE change, and the octets after them that the bitmap covers |
| OerEncoder.Encoder.EncodeScope | src/oer/enc.rs:982-985 | Root components, then additions, behind the reserved preamble, for every worker |
| OerEncoder.Encoder.EncodeSequence | src/oer/enc.rs:961-994 | Reserve, encode and patch append what SequenceFromExactly compares with the encoding, for every worker and every bitmap width below 2^32 |
| OerEncoder.Encoder.EncodeSequenceOf | src/oer/enc.rs:996-1015 | The loop appends the quantity and all elements |
| OerEncoder.Encoder.EncodeChoice | src/oer/enc.rs:1085-1116 | Tag and value, an extension as an open type; for every worker, the encoding is appended exactly if the alternative is no extension or the worker is empty |
| OerEncoder.Encoder.WrapTail | src/oer/enc.rs:1107-1113 | The tail of the output moves through the worker behind its length, together with whatever the worker held |
| OerEncoder.Encoder.Encode | src/oer/enc.rs:166-182 | Existing output is never altered, the worker is left as found, the octets appended are the encoding, and failure is exactly an encoding error |
| OerDecoder.Decoder.DecodeLength | src/oer/de.rs:155-196 | Equals the length function that LengthBack and LengthCanonical are about |
| OerDecoder.Decoder.DecodeIntegerWithConstraints | src/oer/de.rs:242-277 | Adds the check of the bounds and the refusal of a constrained value beyond 128 bits |
| OerDecoder.Decoder.ParseBitString | src/oer/de.rs:279-328 | Equals the bit string function of the theorems |
| OerDecoder.Decoder.DecodeEnumerated | src/oer/de.rs:529-563 | Equals the enumerated function of the theorems |
| OerDecoder.Decoder.ParseTag | src/oer/de.rs:112-150 | The loop over the octets of a long tag, with 32-bit wrap-around |
| OerDecoder.Decoder.ParsePreamble | src/oer/de.rs:436-476 | The bit loops read the extension bit and the presence bits and check the padding |
| OerDecoder.Decoder.DecodeFields | src/oer/de.rs:622-647 | All root components in order, each with the tag that is asked for |
| OerDecoder.Decoder.RequireField | src/oer/de.rs:352-372 | One record is used up; a present component with another tag than the one asked for is an error |
| OerDecoder.Decoder.ParseExtensionHeader | src/oer/de.rs:388-434 | The bitmap is read once, when the first addition is asked for; a required addition must be present |
| OerDecoder.Decoder.DecodeExtensionAdditions | src/oer/de.rs:997-1021 | All additions in order |
| OerDecoder.Decoder.DecodeSequence | src/oer/de.rs:594-650 | A SEQUENCE, by a decoder one level deeper |
| OerDecoder.Decoder.DecodeSequenceOf | src/oer/de.rs:652-680 | Quantity and elements, one level deeper |
| OerDecoder.Decoder.DecodeElements | src/oer/de.rs:670-678 | The loop over the elements advances both decoders together |
| OerDecoder.Decoder.DecodeChoice | src/oer/de.rs:919-947 | The alternative with the tag that was read |
| OerDecoder.Decoder.Decode | src/oer/de.rs:478-486 | Result, input left and errors are those of the decoding function of all OER theorems |
| OerEndToEnd.RoundTrip | src/oer/enc.rs:961-994 | The encoder behind existing output, then the decoder: the value and the tail come back exactly if the value is writable and the decoder carries it, both told from type and value; another value only if a tag is not read as written |
| BerBase128.EncodeAsBase128 | src/ber/enc.rs:105-125 | The loop over 35 bits appends the minimal base-128 form |
| BerBase128.Base128Minimal | src/ber/enc.rs:105-125 | The form has no leading group of zeros and ends at its only octet below 128 |
| BerBase128.Base128Back | src/ber/de/parser.rs:130-148 | Every 32-bit number comes back, before any tail |
| BerBase128.ParseBase128Number | src/ber/de/parser.rs:130-148 | The two loops equal the recursive reading with 32-bit wrap-around |
| BerBase128.NumberAgrees | src/ber/de/parser.rs:130-148 | Within 32 bits the reading is the number's value |
| BerBase128.Base128Canonical | src/ber/de/parser.rs:111-116 | Octets without a leading group of zeros are the minimal form of their value |
| BerObjectIdentifier.ObjectIdentifierAsBytes | src/ber/enc.rs:261-278 | The loop writes the subidentifiers; too short or a first arc above 2 is an error |
| BerObjectIdentifier.DecodeObjectIdentifierFromBytes | src/ber/de.rs:175-212 | The loop reads the subidentifiers and splits the first |
| BerObjectIdentifier.RoundTrip | src/ber/de.rs:175-212 | Decoding an encoded object identifier returns the same arcs exactly if the first two are separable in 32 bits; the others always come back |
| BerObjectIdentifier.Inseparable | src/ber/de.rs:175-212 | The arcs 0 and 40 come back as 1 and 0 |
| BerTree.IdentifierBack | src/ber/enc.rs:139-168 | Identifiers with short and long tags come back |
| BerTree.LengthBack | src/ber/enc.rs:182-199 | Lengths come back, and are the shortest |
| BerTree.NodeBack | src/ber/enc.rs:644-720 | For every tree, the reference parser reads what was written back to the same tree with exact and shortest lengths, and leaves any tail |
| BerTree.NodeCanonical | src/ber/enc.rs:105-199 | Whatever the reference parser accepts is what is written for the tree it returns |
| BerTree.ParserAgrees | src/ber/de/parser.rs:13-31 | The library's parser of one value agrees with the reference parser under all rules |
| BerCer.CerBack | src/ber/enc.rs:170-180 | Under CER a tree is read back by a reference parser for indefinite lengths, and any tail is left |
| BerCer.CerCanonical | src/ber/enc.rs:170-180 | Whatever that parser accepts is what is written under CER for the tree it returns |
| BerCer.TreeBack | src/ber/enc.rs:644-720 | The same under every set of rules |
| BerString.ChunkSizes | src/ber/enc.rs:208-233 | All segments but the last hold exactly 1000 octets, the last 1 to 1000, and together they are the string |
| BerString.SegmentBack | src/ber/de.rs:488-499 | A segment is read whole and never taken for the end of contents |
| BerString.StringBack | src/ber/de.rs:460-506 | For every octet string, set of rules, tag and tail: decoding what was written returns the string and the tail exactly if the tag is neither that of end-of-contents nor, on a value that is not split, one that is always constructed |
| BerString.NestedBack | src/ber/de/parser.rs:49-66 | A string of nested parts is read as its octets without those inside parts of definite length |
| BerString.PartsLost | src/ber/de/parser.rs:49-66 | So it is reassembled exactly if no such part holds octets |
| BerString.SkippedPart | src/ber/de/parser.rs:49-66 | 24 06 24 04 04 02 AA BB decodes to the empty string |
| BerReading.StringExact | src/ber/de.rs:460-506 | For all rules, inputs, tags, strings and rests: the string is decoded and the rest left if and only if the rules read them, with any length octets and parts of any kind |
| BerReading.IdentifierExact | src/ber/de/parser.rs:80-108 | Class, constructed bit and number are read from the first octet, a large number from groups of which the last 32 bits count |
| BerReading.AnyLength | src/ber/de/parser.rs:237-264 | A primitive string is read behind every length of one to eight octets, the shortest or not |
| BerWriting.StringExactly | src/ber/enc.rs:208-233 | Octets are written for a string if and only if the rules say so: BER and DER never split it, CER above 1000 octets |
| BerWriting.TreeExactly | src/ber/enc.rs:644-720 | Octets are written for a tree if and only if the rules say so, with the identifiers and lengths by their bits |
| BerWriting.IdentifierIs | src/ber/enc.rs:139-168 | Class times 64, 32 if constructed or one of the universal tags 8, 16 and 17, and the number up to 30, or its shortest groups |
| BerWriting.LengthIs | src/ber/enc.rs:182-199 | One octet below 128, otherwise the fewest octets behind their count |
| BerDecoder.ParseEncodedValue | src/ber/de/parser.rs:33-78 | The recursive parser of a string value with its loop over parts |
| BerDecoder.Decoder.DecodeWhole | src/ber/de.rs:477-487 | The loop over segments of definite contents |
| BerDecoder.Decoder.DecodeEnded | src/ber/de.rs:488-502 | The loop over segments stops at the end-of-contents octets and consumes them |
| BerDecoder.Decoder.DecodeOctetString | src/ber/de.rs:460-506 | Equals the function of StringBack |
| BerDecoder.RoundTrip | src/ber/enc.rs:208-233 | A string written by the encoder and read by the decoder comes back with the tail left, exactly for the tags of StringBack |
| BerOrder.OctetStringAscending | src/bits.rs:25-34 | The loop computes the lexicographic order |
| BerOrder.LeqTransitive | src/bits.rs:25-34 | The comparison is transitive |
| BerOrder.LeqAntisymmetric | src/bits.rs:25-34 | Only equal strings tie |
| BerOrder.LeqTotal | src/bits.rs:25-34 | Any two strings are ordered |
| BerOrder.LeqPadded | src/bits.rs:18-23 | The comparison by prefix and length implies the one with zero padding |
| BerOrder.PaddedTies | src/bits.rs:18-23 | Strings that tie under zero padding agree octet by octet up to trailing zeros |
| BerOrder.SetOfCanonical | src/ber/enc.rs:662-687 | Permuted elements, sorted by any algorithm, give identical contents |
| BerOrder.SetOfAscends | src/ber/enc.rs:680-683 | The sorted elements ascend in the zero-padded order |
| BerOrder.InsertAscending | src/ber/enc.rs:253-258 | The map of a SET stays ordered by tag |
| BerOrder.CollectedKeeps | src/ber/enc.rs:722-739 | The map holds each component exactly once |
| BerOrder.SetOrder | src/ber/enc.rs:85-96 | With distinct tags the map does not depend on the order of writing |
| BerEncoder.Encoder.Output | src/ber/enc.rs:85-96 | The output, or for a SET the values in ascending order of the tags |
| BerEncoder.Encoder.EncodeIdentifier | src/ber/enc.rs:139-168 | Class, constructed bit and number; EXTERNAL, SEQUENCE and SET are always constructed |
| BerEncoder.Encoder.EncodeDefiniteLength | src/ber/enc.rs:182-199 | The loop writes the shortest length |
| BerEncoder.Encoder.EncodeValue | src/ber/enc.rs:244-249 | One complete value is appended, or filed under its tag |
| BerEncoder.Encoder.EncodeString | src/ber/enc.rs:208-233 | One value, or segments above the limit of the rules; in a SET the segments are filed one in place of the other, and the last one and an end mark remain |
| BerEncoder.Encoder.EncodeSegments | src/ber/enc.rs:222-227 | The loop writes the segments of ChunkSizes, or in a SET files each of them |
| BerEncoder.Encoder.EncodeNode | src/ber/enc.rs:703-720 | A tree, the contents of a constructed value by an encoder of their own |
| BerEncoder.Encoder.EncodeSet | src/ber/enc.rs:722-739 | Between components the output is empty and the map holds what was written; the SET is written in tag order |
| BerEncoder.Encoder.EncodeSetOf | src/ber/enc.rs:662-687 | The sorted element encodings |
| BerEncoder.SetIsOrdered | src/ber/enc.rs:722-739 | A SET with distinct tags is the same whatever order its components are written in, ascending, with each once |
| BerEncoder.SetOfIsOrdered | src/ber/enc.rs:662-687 | A SET OF is the same whatever order its elements come in |
| BerEncoder.SetReadsBack | src/ber/enc.rs:722-739 | The contents of a SET are read back as its components with class * 2^32 + number of their tags strictly ascending |
| BerEncoder.RoundTrip | src/ber/enc.rs:703-720 | A tree written by the encoder under any rules is read back by the reference parser, and the tail is left |
| Stream.IterBuffer.UpdateAfterConsumption | src/de.rs:40-53 | Removes exactly the consumed octets; afterwards at most half of an owned buffer is dead, and all drains together have moved no more octets than were consumed |
| Stream.Iter.AppendBytes | src/de.rs:94-96 | The values returned so far stay the first values of everything supplied |
| Stream.Iter.Next | src/de.rs:102-114 | The next value of the whole stream, or an error that changes nothing |
| Stream.YieldsExtended | src/de.rs:94-96 | Octets that arrive later do not change what a local decoder has decoded |
| Stream.YieldsConserves | src/de.rs:102-114 | What was consumed and what is unread make up everything supplied |
| Stream.YieldsPrefix | src/de.rs:102-114 | Of two results from one stream the shorter is a prefix of the longer |
| Stream.Run | src/de.rs:31-114 | After any interleaving of appending and decoding, the values are the first values of the concatenated stream and the unread octets are what they leave |
| Stream.ChunkingIrrelevant | src/de.rs:31-114 | Two runs over the same octets, however cut, agree on every value both returned, and on the unread octets if they returned equally many |
| Stream.OerIsLocal | src/oer/de.rs:594-680 | OER decoding of types decoded in place is such a local decoder |
| Stream.StreamOer | src/de.rs:102-114 | Streaming OER values does not depend on chunking |

## Left out

- OerEncoder.Encoder.Encode: no extension inside an extension addition and no bitmap of a width whose reserved octets are one too few; `OerCursor.Ready` states both. The operations involved are described for every worker and width, and `OerEncoder.AdditionFromExactly` and `OerEncoder.SequenceFromExactly` prove that their octets then differ; what a whole run makes of them is not described, since later patches land in octets that were moved.
- OerEncoder.Encoder.EncodeExtensionAddition: no extension inside the value of the addition itself, for this reason.
- OerEncoder.Encoder.EncodeExtensionAdditions: the same.
- OerEncoder.Encoder.EncodeScope: the same.
- OerEncoder.Encoder.EncodeSequence: the same.
- OerEndToEnd.RoundTrip: the two conditions of `OerEncoder.Encoder.Encode`.
- OerLegible.ReadableExactly: values whose encoding needs fewer than 2^64 octets only, so that every length can be written.
- CHOICE alternatives that are themselves CHOICEs without a tag: neither schema type has them. The library's variant lists flatten their tags, so that positions no longer match identifiers (src/types/variants.rs:37-52, src/avn/enc.rs:496-510).
- OER extensible SEQUENCE without root components: the encoder appends a second preamble octet (kept in `OerEncoder.Encoder.PatchPreamble`) and the decoder consumes nothing; such types are not well formed here.
- OER SET, extension addition groups, unknown extensions, character strings, REAL, times and OBJECT IDENTIFIER.
- Rust integer types narrower than an INTEGER's constraint, and constraint bounds that themselves are beyond 128 bits: bounds are unbounded integers here.
- Lengths of extension bitmaps of 2^32 octets and more, where the width is cut to 32 bits.
- AVN REAL values at the level of the schema, times, the alphabets of restricted character strings, and the kinds of parse errors other than the depth error.
- AVN numerals with `+` or `_`, which the integer reader of the numeric library would also take, cannot come from the parser.
- AVN SET, which the code treats like SEQUENCE, and SET OF.
- CER BIT STRING segments, which share one octet of unused bits.
- BER decoding of SEQUENCE, SET, SEQUENCE OF, INTEGER, BOOLEAN and times.
- Sorting itself: the standard library's sort is represented by its contract, an insertion sort with the same result.
- PER, XER and JER, derive macros, error messages, and the ordering of decoding errors.

# free5GC codecs and protocols in Dafny

This project models the algorithmic core of free5GC, a 5G core network written in Go,
and proves what its encoders, decoders and protocols promise one another.

| files | what they model |
|---|---|
| `Per*.dfy` | the aligned PER codec of `lib/aper` (ITU-T X.691): bit-level writer and reader, constrained numbers, length determinants, 16K fragmentation, and the schema-directed encoder and decoder |
| `Tlv*.dfy`, `Pfcp.dfy` | the tree-shaped TLV codec of `lib/tlv` and the PFCP message framing on it (section 7.2.2 of 3GPP TS 29.244) |
| `Nas*.dfy` | the NAS message codec of `lib/nas` (section 8.2 of 3GPP TS 24.501, element formats in section 11.2 of TS 24.007) |
| `Pco.dfy` | the reader state machine of the protocol configuration options (section 10.5.6.3 of TS 24.008) |
| `IdGenerator.dfy` | the identifier allocator, over all runs |
| `Milenage.dfy`, `MilenageLaws.dfy` | Milenage (section 4.1 of TS 35.206) as a protocol between network and subscriber over an arbitrary block cipher |
| `Aes.dfy`, `AesLaws.dfy` | the T-table cipher and its key schedule against FIPS 197 |
| `Features.dfy` | supported features and their negotiation (section 6.6 of TS 29.500) |
| `Wrappers.dfy`, `OctetStrings.dfy` | shared option type, octets and big-endian numbers |

The shape is the same throughout. A specification works on plain values: bit lists for
PER, octet sequences for the others. The methods and classes carry the loops, cursors and
buffers of the Go code and are proved equal to that specification. The theorems, such as
"the decoder undoes the encoder", are about the specification, so they hold of the methods.

For PER the argument runs in four layers. `PerBuffer` and `PerBitString` show that the
octet buffers, with their partial last octet, stand for a bit list. `PerSpec` gives every
primitive as a function on bit lists; `PerPrimitives`, `PerStrings` and `PerIntegers`
show which values of each leaf type are read back, as equivalences; `PerSizes` adds what
bounds and extension bits that only one side looks at do to strings, and `PerAcceptance`
says which fragmented strings the writer accepts at all. `PerSchema` adds the type tree
that Go's reflection and struct tags describe, `PerConditions` collects the leaf conditions
over it, and `PerRoundTrip` proves the main theorem by induction. `PerWriter` and
`PerReader` are the two objects, and `PerMessages` runs one after the other.

A round trip says nothing about a mistake that both sides share. What is on the wire is
therefore stated a second time, without the functions of the codec, and proved equal for
all inputs: `PerFormat` gives numbers, counts and length fields in the terms of X.691,
`PerTree` the values that are accepted and the integer an open type refers to, and
`PerLayout` the bits of a whole tree; `PerReading` states what the reader makes of arbitrary
data. `TlvAcceptance`, `NasDispatch`, `AesLaws` and `MilenageLaws` do the same for the other codecs and ciphers.

A string is a Go slice with a length and a capacity, since slicing is bounded by the
capacity; a decoded value is the encoded one without what its slices held beyond the
strings. A BIT STRING may leave set bits of its slice in the unused part of its last octet,
and later bits are only or-ed to them. The writer object therefore carries two ghost
fields, the bits that are due and the positions of such remnants, and its buffer is exactly
the one smeared with the other. `PerRemnants` shows that what survives leaves none.
`PerBoundaries` shows inputs that the code accepts and does not read back, acceptance
proved beside the loss.

Places where the code departs from what its comments or the standards promise are kept as
they are, and the exact condition under which the promise holds is proved:

- INTEGER ranges with ub - lb in [2^16, 2^17) or [2^32, 2^33): the two sides use different
  widths for the length field (`PerIntegers.WideMismatchExact`, `PerIntegers.IntegerExact`).
- Fragmented strings whose length is a positive multiple of 16384 get no closing fragment
  (`PerAcceptance.MultiplesLost`), and under a lower bound every fragment repeats it
  (`PerAcceptance.BoundedLost`, `PerBoundaries.StatusBitmapLost`, `PerSizes.SizedExact`).
- The extension bit is left out for types without both bounds, so these are read back only
  off an octet boundary (`PerSizes.UnboundedExact`, `PerIntegers.UnflaggedExact`,
  `PerIntegers.CountExact`); a size upper bound alone is looked at by the reader only
  (`PerSizes.UpperOnlyExact`).
- The bitmap of OPTIONAL fields holds 64 of them (`PerRoundTrip.OptionalFieldsExact`).
- Element counts outside a bound below 65536 go out as one octet (`PerIntegers.CountExact`).
- `os_memcmp` returns 0 for a difference at index 0 (`Milenage.OsMemcmp`), so sequence
  numbers that differ in their first octet are never accepted (`Milenage.NewerIsGreater`),
  and a code with a wrong first octet always passes (`Milenage.AcceptedExact`).
- A string of 65536 octets or more is cut by the TLV length field (`TlvRoundTrip.LongStringLost`).
- An unknown NAS element is passed over one octet at a time, so its content may be taken
  for other elements (`NasRoundTrip.IgnoredExact`, `NasMessages.UnknownContentTaken`).
- A PCO container that ends the data before its contents is dropped without an error
  (`Pco.AcceptedExactly`).
- A decoded session management message is hidden by a mobility management message that the
  object already held (`NasMessages.RelayExact`).
- The PFCP body is located by message type and not by the S flag (`Pfcp.BodyStartExact`).

Panics of the Go code and returned errors are both modelled as failure of the call.

## Model

| member | source | states |
|---|---|---|
| PerRoundTrip.RoundTrip | lib/aper/aper.go:634-838 | For every schema tree and every value whose leaves survive where they are written, whatever `makeField` accepts at any bit offset is read back by `parseField` from any data that start with the encoding, and the reader stops at the writer's bit; each leaf condition is the exact one proved below |
| PerRoundTrip.MessageRoundTrip | lib/aper/marshal.go:755-770 | `Unmarshal` after `Marshal` of a whole message returns the value, without what its slices held beyond the strings |
| PerMessages.Exchange | lib/aper/marshal.go:755-770 | For values that survive: the writer object sends a value if and only if it is accepted, and the reader object then returns it |
| PerLayout.EncodeExact | lib/aper/marshal.go:593-752 | For every schema, value, reference and bit position: a value is accepted if and only if a condition on values, bounds, capacities and referenced integers holds, and then exactly the bits given by its layout are appended |
| PerLayout.MessageBits | lib/aper/marshal.go:761-770 | The octets of a message hold the bits of its layout padded with zeros, or with the remnants of slices where a string leaves some; a message of no bits is one zero octet |
| PerLayout.StringIs | lib/aper/marshal.go:142-321 | A string is its extension bit, set beyond the upper bound, then its octets without a length field for a fixed size, or fragment by fragment |
| PerLayout.FragmentsAre | lib/aper/marshal.go:200-229 | The fragment loop leaves length field, padding and octets of the slice in turn, in pieces of one to four times 16384 units and a last one |
| PerTree.AcceptExact | lib/aper/marshal.go:593-752 | For every schema, value, reference and bit position: accepted if and only if the condition of the tree holds, and then ending at the stated bit |
| PerTree.LookupExact | lib/aper/marshal.go:717-735 | An open type refers to the integer r if and only if the first earlier field of the name is mandatory, there, and holds r directly, in the first field of a SEQUENCE or in the chosen alternative of a CHOICE |
| PerTree.LookupNone | lib/aper/aper.go:792-810 | Without an earlier field of the name there is no reference |
| PerTree.CarriesExact | lib/aper/aper.go:572-594 | Which integer a nested value holds for a reference |
| PerTree.StringExact | lib/aper/marshal.go:142-321 | A string is accepted if and only if its length, its bounds, the capacity of its slice and the bit position meet the stated condition, and then ends at the stated bit |
| PerTree.FragmentsInRange | lib/aper/marshal.go:200-229 | Under a constrained length field the capacity of the slice decides acceptance |
| PerTree.FragmentsEndThere | lib/aper/marshal.go:200-229 | The bit at which the fragment loop ends |
| PerTree.BitmapWritten | lib/aper/marshal.go:643-669 | One bit is written for each OPTIONAL field, set for those present with fewer than 64 optional ones behind them; it is never refused |
| PerFormat.FieldBitsIs | lib/aper/marshal.go:90-120 | For every range up to 255 the loop finds the width of section 10.5.7 of X.691 |
| PerFormat.ConstrainedExact | lib/aper/marshal.go:90-120 | A constrained number is accepted if and only if its range is at most 65536 and the number fits the field, and then is a bit field, one aligned octet or two |
| PerFormat.LengthExact | lib/aper/marshal.go:122-140 | An unconstrained length is one octet, two behind the bits 10, or a count of 16K units behind 11 |
| PerFormat.IntegerFormat | lib/aper/marshal.go:335-440 | For every INTEGER, over all bounds: exactly when it is accepted and exactly which bits are appended |
| PerFormat.EnumeratedFormat | lib/aper/marshal.go:443-471 | For every ENUMERATED: exactly when it is accepted and exactly which bits are appended; the value itself is written, not its distance from the lower bound |
| PerFormat.CountFormat | lib/aper/marshal.go:473-518 | For every element count: exactly when it is accepted and exactly which bits are appended |
| PerFormat.ChoiceFormat | lib/aper/marshal.go:531-546 | For every CHOICE index: exactly when it is accepted and exactly which bits are appended |
| PerReading.ConstrainedReads | lib/aper/aper.go:145-177 | On any data: a constrained number is read if and only if the data hold its field, numbers that the field holds beyond the range included |
| PerReading.LengthReads | lib/aper/aper.go:179-211 | On any data: a length is read if and only if the data hold one octet, two behind 10, or one to four times 16384 behind 11, the last with more to follow |
| PerReading.FragmentsRead | lib/aper/aper.go:345-374 | On any data: the fragment loop ends with these octets if and only if the data hold them fragment by fragment |
| PerReading.FixedReads | lib/aper/aper.go:213-260 | On any data: a string of fixed size is read if and only if it is held, aligned when longer than two octets |
| PerReading.StringReads | lib/aper/aper.go:213-376 | On any data: a string is read if and only if the data hold it, by its bounds and extension bit |
| PerReading.IntegerReads | lib/aper/aper.go:395-479 | On any data: an INTEGER is read if and only if the data hold it in the form of its kind, with its sign or above its bound |
| PerReading.EnumeratedReads | lib/aper/aper.go:482-501 | On any data: an ENUMERATED is read if and only if the data hold its field; one of a single value or of an overflowing range is 0 |
| PerReading.CountReads | lib/aper/aper.go:503-540 | On any data: what an element count is read as; a constrained one that cannot be read counts as its lower bound |
| PerReading.ChoiceReads | lib/aper/aper.go:557-570 | On any data: the index of a CHOICE is read if and only if the extension bit is not set and the data hold it |
| PerReading.AlignReads | lib/aper/aper.go:129-143 | On any data: skipping to the octet boundary succeeds if and only if the skipped bits are zero |
| PerRemnants.NothingLeftBehind | lib/aper/marshal.go:593-752 | A tree that survives leaves no bits of its slices in the unused part of an octet, so the buffer is exactly its encoding |
| PerRoundTrip.OptionalFieldsExact | lib/aper/marshal.go:706-716 | A SEQUENCE whose fields survive is read back if and only if every optional field with 64 or more optional ones behind it is absent |
| PerRoundTrip.BitmapLoses | lib/aper/aper.go:705-838 | A SEQUENCE with such a field present is read back from no data at all |
| PerRoundTrip.EncodeGrows | lib/aper/aper.go:637-640 | A schema without empty nodes never encodes to nothing, so no field starts at the end of the data |
| PerConditions.PresenceTest | lib/aper/marshal.go:643-669 | The number written for the OPTIONAL bitmap says of each optional field, by its bit from the left, whether it is there |
| PerRoundTrip.WrappedReadsBack | lib/aper/marshal.go:548-591 | An open type wrapped in octets and length determinants is unwrapped to the same bits, remnants included |
| PerRoundTrip.RoundTripFields | lib/aper/aper.go:705-838 | From any field of a SEQUENCE on, the field loop of the reader recovers present and absent fields and the reference value each open type depends on, which is the one `PerTree.LookupExact` states |
| PerPrimitives.RunReadsBack | lib/aper/marshal.go:27-140 | Every finite run of writer primitives from any bit offset is replayed by the reader primitives with equal values and equal cursors after every step |
| PerPrimitives.ValueReadsBack | lib/aper/aper.go:82-127 | A number of n bits is read back from any continuation |
| PerPrimitives.ConstrainedReadsBack | lib/aper/aper.go:145-177 | A constrained whole number of range 1 to 65536 is read back at any offset |
| PerPrimitives.LengthReadsBack | lib/aper/aper.go:179-211 | A length determinant in any of its forms is read back, and the repeat flag is set exactly for multiples of 16384 in the unconstrained form |
| PerStrings.FragmentsReadBack | lib/aper/aper.go:345-374 | For every positive length that is not a multiple of 16384 the reader's fragment loop rebuilds the data and stops at the right fragment |
| PerStrings.FullFragmentReadsBack | lib/aper/marshal.go:560-588 | One non-final fragment of 1 to 4 times 16384 units is read back with the repeat flag set |
| PerStrings.FragmentsLose | lib/aper/marshal.go:581-587 | For a positive multiple of 16384 the reader never ends where the writer did with all of the data |
| PerStrings.ManyFragmentsNeedNoBound | lib/aper/marshal.go:289-318 | In a slice without spare capacity a string of several fragments is refused whenever its lower bound is positive |
| PerStrings.BoundRepeated | lib/aper/marshal.go:289-318 | Where a string is written under a lower bound, every fragment repeats the bound: a reader that ends with the writer has collected too many units if there was more than one fragment |
| PerAcceptance.FragmentsAccepted | lib/aper/marshal.go:200-229 | Without a constrained length field the writer accepts a string if and only if the capacity of its slice holds all fragments, each with the lower bound added, and, under a lower bound, its size is no positive multiple of 65536 |
| PerAcceptance.AcceptedWithoutBound | lib/aper/marshal.go:289-318 | Without a lower bound the string's own octets are enough, whatever its length |
| PerAcceptance.MultiplesLost | lib/aper/marshal.go:560-588 | Every string of a positive multiple of 16384 units without a lower bound is accepted at any offset and never read back |
| PerAcceptance.BoundedLost | lib/aper/marshal.go:200-229 | Every string of 16384 and more units above a positive lower bound that finds room in its slice and is no multiple of 65536 is accepted and never read back |
| PerStrings.SplitConstrainedLoses | lib/aper/aper.go:179-183 | Under a constrained length field the reader takes the first fragment only |
| PerSizes.SizedExact | lib/aper/marshal.go:142-321 | A BIT STRING or OCTET STRING that the writer accepts, with any bounds from 0 on, a lower one above the upper one included, any octets beyond its length and any spare capacity, at any bit, is read back with equal cursors if and only if a condition on its length, bounds and bit position holds |
| PerSizes.UnboundedExact | lib/aper/aper.go:646-655 | A string without both bounds is read back if and only if its fragments survive and, when extensible, it starts off an octet boundary, where the missing extension bit is padding |
| PerSizes.StolenFlagLoses | lib/aper/aper.go:646-655 | On an octet boundary no extensible string without both bounds is read back, whatever follows |
| PerSizes.UpperOnlyExact | lib/aper/aper.go:213-226 | A string with an upper bound alone, which the writer ignores, is read back if and only if it is shorter than 128 and the reader's field ends with the length octet |
| PerStrings.VariableExact | lib/aper/marshal.go:196-230 | A string of variable size is read back if and only if it goes out in one unmarked fragment or, without a lower bound, in several with a shorter last one |
| PerStrings.OneFragmentReadsBack | lib/aper/marshal.go:142-233 | A string that goes out in one piece comes back for every bound and length field, only its counted bits being promised |
| PerIntegers.SignedOctetsLeast | lib/aper/marshal.go:373-396 | Over all of int64, the octet count of an unconstrained INTEGER is between 1 and 8, enough for two's complement, and the least such |
| PerIntegers.RangeWidths | lib/aper/marshal.go:405-423 | The writer's and the reader's width of the length field of a wide range, and that they differ exactly on the two bands |
| PerIntegers.WideMismatchExact | lib/aper/aper.go:436-479 | On the two bands a value is read back if and only if it takes one octet and the length field is followed by padding |
| PerIntegers.IntegerExact | lib/aper/marshal.go:335-440 | Every INTEGER the writer accepts, over all of int64, all bounds and bit positions, extensible or not, is read back with equal cursors if and only if the stated condition holds |
| PerIntegers.UnflaggedExact | lib/aper/marshal.go:341-369 | An extensible INTEGER without both bounds is read back off an octet boundary, and makes the reader fail on one |
| PerIntegers.SignedBehindBound | lib/aper/aper.go:466-478 | When the range overflows int64, the reader is right exactly for negative values or the bound 0 |
| PerIntegers.EnumeratedExact | lib/aper/aper.go:482-501 | For all bounds, an ENUMERATED value is read back if and only if it is written at all or is 0; a range of one value or one that overflows int64 is not written |
| PerIntegers.ChoiceIndexReadsBack | lib/aper/aper.go:557-570 | The index of a CHOICE is read back |
| PerIntegers.CountExact | lib/aper/marshal.go:473-518 | For all bounds, the element count of a SEQUENCE OF is read back if and only if it lies in a bound below 65536, or is below 256 and no missing extension bit was due on an octet boundary |
| PerBoundaries.FixedIntegerNeedsRoom | lib/aper/aper.go:637-640 | A single-valued INTEGER takes no bits and is read back exactly when data are left |
| PerBoundaries.NarrowBandLosesValues | lib/aper/marshal.go:405-440 | 256 in the range 0..65536 is never read back |
| PerBoundaries.NarrowBandAccepts | lib/aper/marshal.go:405-440 | The same value is accepted by the writer at every offset |
| PerBoundaries.ExtensionBitMissing | lib/aper/marshal.go:145-169 | An extensible string without bounds at the start of a message: the writer leaves out the bit that the reader expects |
| PerBoundaries.ExtensionBitExact | lib/aper/marshal.go:238-263 | An extensible OCTET STRING field without bounds comes back if and only if it starts off an octet boundary and its fragments survive |
| PerBoundaries.StatusBitmapAccepted | lib/ngap/ngapType/DRBStatusUL18.go:9 | A BIT STRING with bounds 1..131072 is written if and only if its fragments, one bit longer each than announced, fit into the capacity of its slice and it has not 65537 bits |
| PerBoundaries.StatusBitmapWithSpare | lib/ngap/ngapType/DRBStatusUL18.go:9 | With two octets to spare it is written at every length but 65537 |
| PerBoundaries.StatusBitmapWithoutSpare | lib/ngap/ngapType/DRBStatusUL18.go:9 | With none it is written exactly up to 16384 bits and at 16385, 32769 and 49153 |
| PerBoundaries.StatusBitmapLost | lib/ngap/ngapType/DRBStatusUL18.go:9 | Whatever is written of it beyond 16384 bits is never read back |
| PerBoundaries.StatusBitmapWitness | lib/ngap/ngapType/DRBStatusUL18.go:9 | 16385 bits without spare capacity are accepted at every offset and lost whatever follows |
| PerBoundaries.ShortFixedStringAccepted | lib/aper/marshal.go:181-195 | A fixed size up to 16 bits is not enforced by the writer: every shorter string but the empty one goes out, and is read back exactly when it has that size |
| PerBoundaries.FullBlockDropped | lib/aper/marshal.go:562-565 | 65536 octets are accepted, announced as none and dropped, at every offset |
| PerPrimitives.BitsKeepValue | lib/aper/marshal.go:63-88 | The low n bits of any number, most significant first, stand for that number modulo 2^n |
| PerBitString.GetBitString | lib/aper/aper.go:38-80 | For every buffer, offset below 8 and count: succeeds exactly for a positive count inside the data and returns that slice left-aligned and zero-padded |
| PerBitString.GetBitsValue | lib/aper/aper.go:82-98 | The numeric value of that slice, kept in 64 bits |
| PerBuffer.AppendShifted | lib/aper/marshal.go:47-57 | Shifting the source by the offset and joining its first octet appends exactly the given bits and keeps the unused ones zero |
| PerBuffer.AppendInto | lib/aper/marshal.go:43-46 | Few bits are joined into the free part of the last octet |
| PerWriter.RawBitData.AppendAlignBits | lib/aper/marshal.go:27-33 | Fills up to the octet boundary with zeros |
| PerWriter.RawBitData.PutBitString | lib/aper/marshal.go:35-61 | Appends exactly the first numBits bits at any offset, fails without change for none off a boundary, and keeps the unused low bits zero but for earlier remnants |
| PerWriter.RawBitData.PutBitsValue | lib/aper/marshal.go:63-88 | Succeeds exactly when the number fits and then appends its big-endian bits |
| PerWriter.RawBitData.AppendConstraintValue | lib/aper/marshal.go:90-120 | Writes a constrained number as the specification says or fails exactly when it does |
| PerWriter.RawBitData.AppendLength | lib/aper/marshal.go:122-140 | Writes a length determinant of any value, or fails exactly when it does not fit its octet |
| PerWriter.RawBitData.AppendFragments | lib/aper/marshal.go:289-318 | The fragment loop, over the octets up to the slice's capacity, writes the specified fragments and no more, and leaves exactly the specified bits of the slice in the unused part of the last octet |
| PerWriter.RawBitData.AppendBitString | lib/aper/marshal.go:142-233 | Writes a BIT STRING, the last octet masked after its length, also when its slice has more octets or capacity than it needs; which bits of these stay behind is stated too |
| PerWriter.RawBitData.AppendOctetString | lib/aper/marshal.go:235-321 | Writes an OCTET STRING, whatever the capacity of its slice, and leaves nothing behind |
| PerWriter.RawBitData.AppendInteger | lib/aper/marshal.go:335-440 | Writes an INTEGER of any kind |
| PerWriter.RawBitData.AppendEnumerated | lib/aper/marshal.go:443-471 | Writes an ENUMERATED |
| PerWriter.RawBitData.AppendCount | lib/aper/marshal.go:473-518 | Writes the element count of a SEQUENCE OF |
| PerWriter.RawBitData.AppendChoiceIndex | lib/aper/marshal.go:531-546 | Writes the index of a CHOICE |
| PerWriter.RawBitData.MakeOpenType | lib/aper/marshal.go:548-591 | Encodes a field on its own and wraps its octets, remnants included, in fragments |
| PerWriter.RawBitData.MakeField | lib/aper/marshal.go:593-752 | The bits written for any schema and value are those of the specification, characterised by `PerLayout.EncodeExact`; it fails exactly when the specification does, and the buffer holds exactly these bits, but for the specified remnants of slices |
| PerWriter.RawBitData.MakeFields | lib/aper/marshal.go:706-740 | The field loop of a SEQUENCE, bits and remnants, each open type with its reference |
| PerWriter.ScanPresence | lib/aper/marshal.go:643-664 | The first loop over the fields yields the number of optional fields and their presence bits modulo 2^64 |
| PerWriter.MarshalValue | lib/aper/marshal.go:761-770 | The octets of a whole message, remnants of slices included |
| PerReader.BitData.ReadBitString | lib/aper/aper.go:105-116 | Returns the next bits and advances the cursor by as many; on failure the cursor stays |
| PerReader.BitData.ReadBitsValue | lib/aper/aper.go:118-127 | The same for a number |
| PerReader.BitData.ParseAlignBits | lib/aper/aper.go:129-143 | Skips to the octet boundary and refuses set padding bits |
| PerReader.BitData.ParseConstraintValue | lib/aper/aper.go:145-177 | Reads a constrained number as specified |
| PerReader.BitData.ParseLength | lib/aper/aper.go:179-211 | Reads a length determinant and the repeat flag |
| PerReader.BitData.ParseFragments | lib/aper/aper.go:345-374 | The fragment loop collects the specified data, remaining input as its measure |
| PerReader.BitData.ParseSized | lib/aper/aper.go:213-376 | Reads a BIT STRING or OCTET STRING |
| PerReader.BitData.ParseInteger | lib/aper/aper.go:395-479 | Reads an INTEGER of any kind |
| PerReader.BitData.ParseEnumerated | lib/aper/aper.go:482-501 | Reads an ENUMERATED |
| PerReader.BitData.ParseCount | lib/aper/aper.go:503-540 | Reads the element count of a SEQUENCE OF |
| PerReader.BitData.ParseChoiceIndex | lib/aper/aper.go:557-570 | Reads the index of a CHOICE |
| PerReader.BitData.ParseOpenType | lib/aper/aper.go:596-632 | Collects the fragments and reads the wrapped field on its own |
| PerReader.BitData.ParseField | lib/aper/aper.go:634-838 | Reads exactly what the specification says or fails exactly when it does, references as `PerTree.LookupExact` states them; the cursor never moves back or past the end |
| PerReader.UnmarshalValue | lib/aper/aper.go:885-896 | The value of a whole message |
| TlvRoundTrip.RoundTrip | lib/tlv/decode.go:17-126 | For every struct tree with nonzero, per-struct-distinct tags and invertible leaves, whose top fragments fit their length field, `Unmarshal` after `Marshal` gives the tree back up to nil and empty slices |
| TlvRoundTrip.ShortRoundTrip | lib/tlv/encode.go:13-18 | The same for every struct of fewer than 65536 octets, with no condition on nested fragments |
| TlvRoundTrip.LongStringLost | lib/tlv/decode.go:128-151 | A struct with a string or octet slice of 65536 octets or more in a field of its own is returned for no input at all |
| TlvRoundTrip.Reencodes | lib/tlv/encode.go:153-206 | Encoding what was decoded gives the same octets |
| TlvRoundTrip.WireParses | lib/tlv/decode.go:128-151 | Fragments that fit are read back in order, whatever tag and length the loop held before |
| TlvRoundTrip.SelectField | lib/tlv/decode.go:74-107 | Among the fragments of all fields, each field finds its own and nothing else |
| TlvRoundTrip.InterleavingIgnored | lib/tlv/decode.go:67-107 | Two inputs with the same fragments under each field's tag decode alike: order between tags and fragments under foreign tags do not matter |
| TlvAcceptance.MarshalExact | lib/tlv/encode.go:13-18 | `Marshal` accepts a value if and only if it is a struct and each kind in it is as stated, nil allowed exactly for fields that are pointers, octet slices or slices |
| TlvAcceptance.BuildExact | lib/tlv/encode.go:38-210 | The same for every kind on its own: numbers within their width, strings and octet slices, pointers, slices of what can be listed, structs field by field |
| TlvAcceptance.NilIsAbsent | lib/tlv/encode.go:153-158 | A nil field contributes no octets: the encoding is that of the struct without the field |
| TlvAcceptance.NothingThere | lib/tlv/encode.go:153-175 | A struct of nil fields encodes to nothing |
| TlvAcceptance.StructInFragments | lib/tlv/encode.go:153-175 | A struct is the fragments of its fields in order, one for a scalar, one for each element of a slice, none for nil |
| TlvAcceptance.BuildInOctets | lib/tlv/encode.go:38-210 | Every value but a slice is tag and length, cut to 16 bits, and its content; with the tag 0 a struct or a marshaler has no header, everything else keeps it |
| TlvAcceptance.ItemInOctets | lib/tlv/encode.go:20-36 | A fragment is two octets of tag, two of length and the value |
| TlvAcceptance.NumberInOctets | lib/tlv/encode.go:50-140 | A number is the base-256 digits of its two's complement, most significant first |
| TlvAcceptance.MissingIsZero | lib/tlv/decode.go:74-107 | A field without a fragment under its tag is decoded to zero, the empty string or nil |
| TlvAcceptance.CutShort | lib/tlv/decode.go:128-151 | A value that the data cut short is filled up with zeros, or is an error if no octet of it is there; a header cut short leaves a fragment without octets |
| TlvCodec.Fragments.Add | lib/tlv/fragment.go:5-7 | One more value under one tag, all other tags unchanged |
| TlvCodec.ParseTlv | lib/tlv/decode.go:128-151 | Terminates on every input; fails exactly when a value is missing altogether, and otherwise keeps the values of each tag in the order of the input |
| TlvCodec.BuildTlv | lib/tlv/encode.go:38-210 | The octets of any value, kind by kind |
| TlvCodec.BuildSlice | lib/tlv/encode.go:190-203 | The element loop of a slice |
| TlvCodec.BuildStruct | lib/tlv/encode.go:153-175 | The field loop of a struct, nil fields skipped |
| TlvCodec.DecodeValue | lib/tlv/decode.go:17-126 | What a variable holds after decoding into it, merging into what it held |
| TlvCodec.DecodeStruct | lib/tlv/decode.go:74-107 | The loop over the fields and, for each, over the values under its tag |
| Pfcp.HeaderReadsBack | lib/pfcp/header.go:38-103 | Any header comes back cut to the width of its fields, absent fields untouched, whatever follows it |
| Pfcp.LengthCheckExact | lib/pfcp/decode.go:14-17 | The length check passes exactly for bodies that the 16-bit field can count |
| Pfcp.BodyStartExact | lib/pfcp/header.go:105-111 | The body is sliced at its true start if and only if S is set exactly for types from 50 on |
| Pfcp.MessageRoundTrip | lib/pfcp/encode.go:8-32 | A supported message is delivered with the header as sent and its body up to nil and empty slices |
| Pfcp.CanonicalInRange | lib/pfcp/header.go:38-103 | For a 3-bit version, 24-bit sequence number and 4-bit priority the delivered header equals the sent one, absent fields zeroed |
| Pfcp.DeliveredExact | lib/pfcp/decode.go:19-154 | With the S flag right and a countable body, a message is delivered if and only if its type is one of those listed, and rejected otherwise |
| Pfcp.HeaderInOctets | lib/pfcp/header.go:38-72 | The header octet by octet: version, spare, MP and S bits, type, length, SEID when S is set, 24 bits of sequence number, priority when MP is set |
| Pfcp.HeaderOfAnyData | lib/pfcp/header.go:74-103 | The header after any data: a field cut short keeps its value, but the sequence number and an announced priority become 0 |
| Pfcp.FramedLength | lib/pfcp/encode.go:8-32 | The length field counts what follows the first four octets, modulo 2^16 |
| Pfcp.Header.MarshalBinary | lib/pfcp/header.go:38-72 | The octets of a header |
| Pfcp.Header.UnmarshalBinary | lib/pfcp/header.go:74-103 | An empty input is an error that changes nothing, a short one fills what it can |
| Pfcp.Message.Marshal | lib/pfcp/encode.go:8-32 | Sets the length field and returns header and body |
| Pfcp.Message.Unmarshal | lib/pfcp/decode.go:9-154 | Header and body after any input, the error cases included |
| NasRoundTrip.MessageRoundTrip | lib/nas/nasMessage/NAS_RegistrationRequest.go:65-283 | For every layout with separate identifiers and every message with matching lengths, decoding undoes encoding |
| NasRoundTrip.MessageExact | lib/nas/nasMessage/NAS_RegistrationRequest.go:65-283 | A message that is encoded at all comes back if and only if its lengths match and every element is in its own row |
| NasRoundTrip.DecodedIsSound | lib/nas/nasMessage/NAS_RegistrationRequest.go:167-283 | Whatever octets are decoded, the message has matching lengths and every element in its own row |
| NasRoundTrip.DecodedComesBack | lib/nas/nasMessage/NAS_RegistrationRequest.go:65-283 | What was decoded from any octets can be encoded, and decodes to the same message |
| NasRoundTrip.MessageInAnyOrder | lib/nas/nasMessage/NAS_RegistrationRequest.go:167-283 | Any permutation of the encoded optional elements decodes to the same message |
| NasRoundTrip.OrderIgnored | lib/nas/nasMessage/NAS_RegistrationAccept.go:194-331 | The slots after the decoding loop do not depend on the order of distinct elements |
| NasRoundTrip.EntriesDecode | lib/nas/nasMessage/NAS_RegistrationAccept.go:194-331 | Any sequence of elements, repetitions included, fills the slots in order of arrival |
| NasRoundTrip.PartExact | lib/nas/nasMessage/NAS_RegistrationRequest.go:75-84 | One element is read back if and only if its length field matches its content and nothing hides behind it |
| NasRoundTrip.UnknownSkipped | lib/nas/nasMessage/NAS_RegistrationRequest.go:280-282 | Octets that name no row leave no trace |
| NasRoundTrip.IgnoredExact | lib/nas/nasMessage/NAS_RegistrationRequest.go:176-282 | An unknown element is passed over if and only if none of its octets names a row |
| NasMessages.RequestSeparate | lib/nas/nasMessage/NAS_RegistrationRequest.go:42-63 | The 20 identifiers of a registration request are told apart |
| NasMessages.AcceptSeparate | lib/nas/nasMessage/NAS_RegistrationAccept.go:45-70 | The 24 identifiers of a registration accept are told apart |
| NasMessages.SessionSeparate | lib/nas/nasMessage/NAS_PDUSessionEstablishmentAccept.go:34-45 | The 10 identifiers of a PDU session establishment accept are told apart |
| NasMessages.UnknownContentTaken | lib/nas/nasMessage/NAS_RegistrationRequest.go:176-282 | An octet inside an unknown element is taken for a MICO indication |
| NasMessages.PlainRoundTrip | lib/nas/nas.go:171-351 | A plain message whose header repeats its first octets comes back through dispatch, header included |
| NasMessages.RelayExact | lib/nas/nas.go:171-192 | Decoding a consistent message into an object and encoding the object gives the same octets, unless it is a session message and the object already held a mobility message, which is then encoded instead |
| NasDispatch.DispatchExact | lib/nas/nas.go:171-449 | Data are dispatched if and only if the discriminator is known and the type octet is in the family's list, and then decoded in the layout of that type; everything else is refused |
| NasDispatch.EncodeDispatchExact | lib/nas/nas.go:289-489 | A message is encoded if and only if its header's type octet is in the list and its own layout encodes it |
| NasDispatch.RequestRoundTrip | lib/nas/nasMessage/NAS_RegistrationRequest.go:65-283 | Every sound registration request, type 65, is encoded and decoded back through dispatch |
| NasDispatch.AcceptRoundTrip | lib/nas/nasMessage/NAS_RegistrationAccept.go:72-331 | Every sound registration accept, type 66, is encoded and decoded back through dispatch |
| NasDispatch.SessionRoundTrip | lib/nas/nasMessage/NAS_PDUSessionEstablishmentAccept.go:47-177 | Every sound PDU session establishment accept, type 194, is encoded and decoded back through dispatch |
| NasDispatch.RequestFront | lib/nas/nasMessage/NAS_RegistrationRequest.go:65-72 | The mandatory octets of a registration request: four single ones, two of length and the identity |
| NasDispatch.AcceptFront | lib/nas/nasMessage/NAS_RegistrationAccept.go:72-78 | The mandatory octets of a registration accept: three single ones, a length octet and the result |
| NasDispatch.SessionFront | lib/nas/nasMessage/NAS_PDUSessionEstablishmentAccept.go:47-56 | The mandatory octets of a session establishment accept: five single ones, the QoS rules behind two octets of length, the AMBR of six octets behind one |
| NasDispatch.ElementInOctets | lib/nas/nasMessage/NAS_RegistrationRequest.go:73-165 | An optional element is one octet with the identifier in its upper half, or the identifier, one or two octets of length and the content |
| NasDispatch.MessageInOctets | lib/nas/nasMessage/NAS_RegistrationRequest.go:65-165 | Every sound message is its mandatory parts and then the elements it holds, in the order of the rows |
| NasDispatch.ReadExact | lib/nas/nasMessage/NAS_RegistrationRequest.go:167-283 | Any data, too short ones included: a length and so many octets are taken off the front, zeros where they run out; only a length beyond the array of the element fails |
| NasDispatch.SpanExact | lib/nas/nasMessage/NAS_RegistrationRequest.go:73-165 | The lengths that the elements of a row take are exactly those of its span |
| NasDispatch.RequestLengths | lib/nas/nasMessage/NAS_RegistrationRequest.go:42-165 | The span of each of the 20 identifiers of a registration request |
| NasDispatch.AcceptLengths | lib/nas/nasMessage/NAS_RegistrationAccept.go:45-192 | The span of each of the 24 identifiers of a registration accept |
| NasDispatch.SessionLengths | lib/nas/nasMessage/NAS_PDUSessionEstablishmentAccept.go:34-103 | The span of each of the 10 identifiers of a session establishment accept |
| NasMessages.PlainMessage.PlainNasDecode | lib/nas/nas.go:171-287 | Which of the two messages of the object is replaced, by discriminator and type (the types are those of `NasDispatch.DispatchExact`), in success and in failure; each stays of its own family, as encoding requires |
| NasMessages.PlainMessage.PlainNasEncode | lib/nas/nas.go:181-192 | The mobility message if there is one, else the session message |
| NasMessages.NasMessage.EncodeMessage | lib/nas/nasMessage/NAS_RegistrationRequest.go:65-165 | Mandatory parts, then the elements that are there, in the order of the rows |
| NasMessages.NasMessage.DecodeMessage | lib/nas/nasMessage/NAS_RegistrationRequest.go:167-283 | The message object after decoding any input |
| NasMessages.NasMessage.DecodeOptional | lib/nas/nasMessage/NAS_PDUSessionEstablishmentAccept.go:118-176 | The identifier loop consumes the buffer and fills the slots as specified |
| Pco.StepKeepsCount | lib/nas/nasConvert/ProtocolConfigurationOptions.go:92-130 | On every input each turn keeps the byte counter equal to what the reader holds, lowers (octets left, state) and only extends the list |
| Pco.RunParses | lib/nas/nasConvert/ProtocolConfigurationOptions.go:78-134 | The state machine reads exactly the grammar of containers |
| Pco.RoundTripExact | lib/nas/nasConvert/ProtocolConfigurationOptions.go:49-134 | Reading undoes writing if and only if every length matches its contents, empty containers in any position included |
| Pco.AcceptedExactly | lib/nas/nasConvert/ProtocolConfigurationOptions.go:78-134 | Data are accepted if and only if they are one octet and a list of containers, perhaps with a cut-off header behind it, and then that list is what is appended; no data at all are an error |
| Pco.WrittenOctets | lib/nas/nasConvert/ProtocolConfigurationOptions.go:49-76 | The octet 0x80, then each container as two octets of identifier, its length octet and its contents |
| Pco.ProtocolConfigurationOptions.Marshal | lib/nas/nasConvert/ProtocolConfigurationOptions.go:49-76 | The octets of a list |
| Pco.ProtocolConfigurationOptions.UnMarshalInto | lib/nas/nasConvert/ProtocolConfigurationOptions.go:78-134 | The list after reading any input, what was appended before an error included |
| IdGenerator.AllocateFailsWhenFull | lib/idgenerator/id_generator.go:36-57 | A call fails exactly when every identifier is in use, and then changes nothing |
| IdGenerator.AllocateTakesNearest | lib/idgenerator/id_generator.go:36-57 | A call that succeeds takes the first free identifier cyclically from the cursor |
| IdGenerator.UsedIsLive | lib/idgenerator/id_generator.go:27-65 | On every run the used map is exactly issued minus freed |
| IdGenerator.IssuedOnce | lib/idgenerator/id_generator.go:36-57 | Every issued identifier lies in the range and is not live already |
| IdGenerator.FreeingUnissued | lib/idgenerator/id_generator.go:61-65 | Freeing what is not live changes nothing |
| IdGenerator.FailsWhenAllLive | lib/idgenerator/id_generator.go:36-57 | In a run, allocation fails exactly when all identifiers of the range are live |
| IdGenerator.FreeIdIsIssued | lib/idgenerator/id_generator.go:67-70 | An identifier that stays free is issued within as many successful allocations as the range is long |
| IdGenerator.CursorApproaches | lib/idgenerator/id_generator.go:67-70 | Every success that does not issue a free identifier brings the cursor closer to it |
| IdGenerator.IDGenerator.constructor | lib/idgenerator/id_generator.go:27-34 | The state after initialisation for any two bounds; it is usable exactly if the range is not empty |
| IdGenerator.IDGenerator.AllocateId | lib/idgenerator/id_generator.go:36-57 | Terminates and makes the step of the specification |
| IdGenerator.IDGenerator.FreeID | lib/idgenerator/id_generator.go:61-65 | Makes the step of the specification |
| Milenage.ChallengeAgreement | lib/milenage/milenage.go:247-290 | For every cipher, a generated challenge is accepted with the network's RES, CK and IK exactly when the sequence number is newer as the code compares; otherwise resynchronisation is asked for, never refusal |
| Milenage.ResyncRecovers | lib/milenage/milenage.go:292-324 | Whenever the check asks for resynchronisation, `Milenage_auts` accepts its AUTS and recovers the stored number |
| Milenage.ResyncThenAccept | lib/milenage/milenage.go:386-495 | After resynchronisation a challenge above the recovered number is accepted |
| Milenage.NewerIsGreater | lib/milenage/milenage.go:497-509 | The comparison is the numeric order for numbers with the same first octet, and never says newer for others |
| Milenage.AcceptedExact | lib/milenage/milenage.go:386-495 | For every cipher, key and AUTN: accepted if and only if the key has 16, 24 or 32 octets, the sequence number is taken as newer and the MAC is right or wrong in its first octet; asked to resynchronise if and only if it is not taken as newer |
| Milenage.WrongFirstOctetAccepted | lib/milenage/milenage.go:497-509 | A genuine challenge is accepted with its first MAC octet changed to anything else, whatever follows it |
| Milenage.DifferenceDecides | lib/milenage/milenage.go:497-509 | The first differing octet decides the numeric order |
| Milenage.XorRotated | lib/milenage/milenage.go:56-59 | The loop that writes to rotated positions is the rotation of TS 35.206 applied to the sum |
| Milenage.KeysInOctets | lib/milenage/milenage.go:104-245 | In octets: with x the cipher of RAND and OPc, OPc added, each output is the cipher of x moved on by its rotation with the constant added to the last octet, OPc added |
| Milenage.CodesInOctets | lib/milenage/milenage.go:21-102 | In octets: MAC-A and MAC-S are the halves of the cipher of TEMP and the eight-octet moved SQN, AMF, SQN, AMF under OPc, OPc added |
| MilenageLaws.KeysDiffer | lib/milenage/milenage.go:104-245 | For every cipher that is injective under the key, OUT2 to OUT5 are pairwise different, so CK never equals IK |
| MilenageLaws.ChallengeInOctets | lib/milenage/milenage.go:247-290 | AUTN is SQN under AK, AMF and MAC-A, octet by octet, and the other outputs are those of f2 to f5 |
| MilenageLaws.AutsInOctets | lib/milenage/milenage.go:386-495 | AUTS is the stored SQN under AK* and the MAC-S over it with an AMF of zeros |
| MilenageLaws.AutsOpensExact | lib/milenage/milenage.go:292-324 | A request is opened to a number if and only if it is that number under AK* followed by the MAC-S over it |
| Milenage.MilenageF1 | lib/milenage/milenage.go:21-102 | MAC-A and MAC-S as defined by TS 35.206, also octet by octet, exactly for keys of 16, 24 or 32 octets |
| Milenage.MilenageF2345 | lib/milenage/milenage.go:104-245 | RES, CK, IK, AK and AK* as defined by TS 35.206, also octet by octet with rotations 0, 4, 8 and 12 and constants 1, 2, 4 and 8, exactly for keys of 16, 24 or 32 octets |
| Milenage.OsMemcmp | lib/milenage/milenage.go:497-509 | Plus or minus the index of the first difference, 0 if there is none or it is at index 0 |
| Milenage.MilenageGenerate | lib/milenage/milenage.go:247-290 | The challenge and the network's keys, which `MilenageLaws.ChallengeInOctets` gives in octets |
| Milenage.MilenageCheck | lib/milenage/milenage.go:386-495 | The verdict of the subscriber on any AUTN |
| Milenage.MilenageAuts | lib/milenage/milenage.go:292-324 | The recovered sequence number, if the request is genuine |
| Aes.TableRoundRefines | lib/aes/aes.go:554-558 | For any substitution and tables built from it, a table round is SubBytes, ShiftRows, MixColumns and AddRoundKey |
| Aes.LastRoundRefines | lib/aes/aes.go:663-677 | The masked last round is SubBytes, ShiftRows and AddRoundKey |
| Aes.FirstOfBlock | lib/aes/aes.go:388-391 | The line that starts a block of the schedule is RotWord, SubWord and the round constant |
| Aes.MiddleOfBlock | lib/aes/aes.go:493-495 | The line in the middle of a 256-bit block is SubWord alone |
| Aes.ScheduleExpands | lib/aes/aes.go:375-532 | The recursive key schedule is the expansion of section 5.2 of FIPS 197, word by word for all three key sizes |
| AesLaws.RoundExact | lib/aes/aes.go:554-558 | A full round is, in both directions, the step whose octets are a row of the matrix 2, 3, 1, 1 over GF(2^8) applied to substituted and shifted octets, the round key added |
| AesLaws.FinalRoundExact | lib/aes/aes.go:663-677 | The final round is, in both directions, the same step without the matrix |
| AesLaws.CipherExact | lib/aes/aes.go:534-678 | The cipher gives a block if and only if a chain of such steps leads from the plaintext to it |
| AesLaws.Times3IsProduct | lib/aes/aes.go:554-558 | The factor built into the tables is multiplication by 3 in GF(2^8), with the product defined by shift and reduction |
| Aes.RconIsPower | lib/aes/aes.go:338-343 | The literal round constants are the powers of x in GF(2^8) |
| Aes.GetU32 | lib/aes/aes.go:345-347 | Four octets as a word, most significant first |
| Aes.PutU32 | lib/aes/aes.go:356-361 | The four octets of a word, all others unchanged |
| Aes.AesSetupEnc | lib/aes/aes.go:375-532 | The round count and, for 128, 192 and 256 bits, an array whose every word from nk on is the exclusive-or of the word nk before it with the previous word, which is rotated, substituted and given a round constant at multiples of nk and substituted in the middle of a 256-bit block; other sizes load eight words and return 0 |
| Aes.AesEncrypt | lib/aes/aes.go:534-678 | The unrolled cipher is Cipher() of FIPS 197 for 10, 12 and 14 rounds, and what it is for any other count |
| Aes.RoundsFollowSchedule | lib/aes/aes.go:534-678 | The cipher depends on the schedule only through the words of key expansion |
| Aes.EncryptUnderKey | src/amf/nas/nas_security/aes_cmac.go:43-48 | Key setup followed by encryption is the cipher of FIPS 197 under that key |
| Features.GetFeature | lib/openapi/supported_feature.go:28-41 | Feature n, counted from the right end, for every n from 1 on; 0 to -6 count as absent and the others fail |
| Features.NegotiateWith | lib/openapi/supported_feature.go:44-69 | Feature n of the result holds exactly when it holds on both sides, for any two lengths |
| Features.NegotiationIsIntersection | lib/openapi/supported_feature.go:44-69 | Octetwise combination aligned at the right end is set intersection |
| Features.NegotiationLaws | lib/openapi/supported_feature.go:44-69 | Negotiation is commutative, associative and idempotent as a feature set |
| Features.FeatureOfString | lib/openapi/supported_feature.go:11-20 | The features of a string are those its hexadecimal digits name, for an even or odd number of digits |
| Features.StringReadsBack | lib/openapi/supported_feature.go:22-25 | The text of a feature set leads back to its octets |

## Left out

- Reflection, struct-tag parsing and tracing in `lib/aper` and `lib/tlv`: types are schema values.
- PER: that encoding masks the last octet of the caller's own buffer in place.
- PER: fields that are pointers without OPTIONAL are taken by value; a nil one is an ill-typed value.
- PER: the `valueExt` parameter on an open type; Go strings, which are encoded like OCTET STRINGs, have no schema of their own.
- PerSizes.SizedExact: negative size bounds are not modelled.
- PerWriter.RawBitData.AppendBitString: not for a `BitString` with fewer octets than its length needs.
- TLV: pointers to strings, slices or pointers, platform-sized integers and the decimal parsing of tags; leaf marshalers are an abstract invertible codec.
- TlvRoundTrip.RoundTrip: one direction only for structs and slices, because fragments of 65536 octets and more may by accident merge back into the same struct; for strings `TlvRoundTrip.LongStringLost` is the converse.
- PFCP: the body types of the messages are a parameter; UDP sending, timers and transactions are not modelled.
- NAS: the layouts of the other messages, which follow the same pattern, and the accessors of single fields; security-protected messages.
- IdGenerator.IDGenerator.AllocateId: does not model int64 overflow of the range or of offset plus minimum, and concurrency is taken as the sequence of locked calls.
- Milenage: nil output buffers and the GSM conversion function; the cipher is a parameter.
- Aes.AesEncrypt: the literal contents of the five tables are a parameter, constrained by the law they are built by.
- AES-CMAC and the ciphering of NAS messages in the AMF, HMAC/SHA-256 key derivation, lib/fsm, lib/flowdesc, MongoDB, HTTP clients, configuration and the web console.

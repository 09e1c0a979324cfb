# Verified models of the Crypto++ core

The repository vendors Crypto++ and builds on it. This project models the parts of the vendored library whose
correctness is not visible from one function body, and proves what they are for:

- **Scalar multiplication and Euclid.** Signed sliding windows with buckets, the two-base cascade with a
  table, the heap-driven cascade and the extended Euclidean inverse, each against its one-line meaning, over
  any group (any abelian group where the source needs one).
- **CCM** on the authenticated-cipher state machine: a buffered object fed in any chunks agrees with RFC 3610,
  and two such objects undo each other.
- **DER and BER**: lengths, unsigned numbers, object identifiers, and the re-encoder from indefinite to
  definite lengths.
- **Base 2^k codecs**: encoder, grouper and decoder for k from 1 to 7, fed in any chunks.
- **Blum-Blum-Shub**: `Seek` against sequential generation.
- **CMAC, BLAKE2 and Adler-32** as streams, against their one-shot definitions.
- **CAST-128, CAST-256 and Blowfish**: decryption inverts encryption for every schedule and every S-box.

Objects that update fields are classes with the same fields; ghost fields record the whole strings an object
has been given, so a class invariant speaks about every run. Algorithms that work in place keep their arrays.
A block cipher is any function on blocks (`BlockChaining.Cipher`), BLAKE2's compression any function of its
arguments, a group any function values that satisfy the laws. Bytes are naturals below 256, words naturals
below 2^32, and bit operations are defined on their binary digits. Exceptions and error returns
become outcomes. The formats and functions that methods are proved to compute are in turn tied to something
independent of it: a reader that takes it apart, a law of what changes in it, a second definition from the
standard, or the standard's own example. `dafny verify dfyconfig.toml` checks the project.

Five places where the code does less than one might read into it, each with its exact condition:

- `QuotientRing::MultiplicativeInverse` tests for zero by congruence, so an operand that is not below the
  modulus ends its loop after at most one step with the answer zero: it is right exactly when the operand is below the
  modulus in magnitude, has no inverse, or the modulus is one (`Euclid.MultiplicativeInverse`,
  `Euclid.UnreducedOperandFails`).
- `BlumBlumShub::Seek` lands on the sequential state exactly when its reduced exponent is nonzero or the seed
  is prime to both factors; primes congruent to 3 modulo 4, which blumshub.h:45-46 asks for, always qualify
  (`BlumBlumShubGenerator.BlumBlumShub.Seek`, `BlumPrimesSeekEverywhere`). With p = 3, q = 5 and seed 3 the call
  `Seek(1)` goes wrong (`SharedFactorFails`, `SeekGoesWrong`). The equivalence is one of states: on the
  sequential state every later bit agrees, and off it the output bits may still happen to coincide.
- `OID::DEREncode` cuts the first two arcs to one octet; an identifier survives exactly when its second arc is
  below 40 and the octet is not cut (`AsnOid.OidRoundTrip`).
- `BERDecodeUnsigned` reads content as unsigned, of any length and even none, where section 8.3 of X.690 asks
  for the shortest two's complement form. A string it accepts is one that section allows for the number
  returned exactly when its content is minimal and has its sign bit clear, which is exactly the content
  `DEREncodeUnsigned` writes (`AsnUnsigned.AcceptedConforms`); no content, 5 behind a zero octet, and -1 are
  accepted as well, as 0, 5 and 255 (`AsnUnsigned.LaxContent`).
- `MulU` is doubling in the field of 2^(8n) elements for every block of 8 and of 16 bytes. Its constant for 32
  bytes stands for x^256 + x^10 + x^5 + x + 1, which x^2 + x + 1 divides (`CmacField.ReductionFactors`): it is
  doubling there for exactly the blocks whose top bit is clear, whichever irreducible polynomial is meant
  (`CmacField.DoublesInField`, `NoFieldDoublesLike`, `TopBitFails`). So the first subkey is right exactly when
  the enciphered zero block starts with a zero bit, the second exactly when it starts with two, and the tag
  exactly when the subkey it uses is (`CmacField.Subkey1InField`, `Subkey2InField`, `MacInField`).

## Model

| member | source | states |
|---|---|---|
| WindowSliders.WindowSlider.FindNextWindow | 3rd_party/cryptopp/algebra.cpp:220-247 | the next window is odd, below 2^windowSize and past the last one; window plus rest keep the exponent's value, and the rest strictly shrinks although windowModulus may be added |
| WindowSliders.RecodeAll | 3rd_party/cryptopp/algebra.cpp:206-253 | for every exponent the windows are odd digits, windowSize apart (one more with fast negation), whose shifted sum is the exponent |
| WindowSliders.TakeWindow | 3rd_party/cryptopp/algebra.cpp:235-246 | taking a signed digit and carrying keeps the value |
| WindowSliders.NextFits | 3rd_party/cryptopp/algebra.cpp:239-244 | the carry never grows the rest beyond the exponent's bit length |
| WindowSliders.DefaultWindowSizes | 3rd_party/cryptopp/algebra.cpp:212-216 | the window grows by one at each of six exponent lengths |
| SimultaneousMultiplication.SimultaneousMultiply | 3rd_party/cryptopp/algebra.cpp:255-314 | in every group, with or without fast inversion, result i is exponent i times the base |
| SimultaneousMultiplication.Absorb | 3rd_party/cryptopp/algebra.cpp:280-288 | bucket k keeps the signed powers with digit 2k+1, its window moving from the slider into the bucket |
| SimultaneousMultiplication.Scatter | 3rd_party/cryptopp/algebra.cpp:271-297 | every exponent ends up wholly in its buckets after at most as many doublings as the longest exponent has bits |
| SimultaneousMultiplication.Gather | 3rd_party/cryptopp/algebra.cpp:299-313 | the running suffix sums give the sum of (2k+1) times bucket k |
| SimultaneousMultiplication.SuffixSumsWeigh | 3rd_party/cryptopp/algebra.cpp:302-312 | the identity behind the closing loop: twice the suffix sums plus the total weigh coefficient k by 2k+1 |
| CascadeMultiplication.CascadeScalarMultiply | 3rd_party/cryptopp/algebra.cpp:97-170 | in every abelian group and for all exponents the result is e1 times x plus e2 times y |
| CascadeMultiplication.BuildTable | 3rd_party/cryptopp/algebra.cpp:103-129 | every slot whose indices are not both even holds exactly its combination of x and y |
| CascadeMultiplication.ReadTable | 3rd_party/cryptopp/algebra.cpp:154-162 | the slots the main loop reads are filled ones, inside the table |
| CascadeMultiplication.StripTwos | 3rd_party/cryptopp/algebra.cpp:145-151 | common factors of two move behind the addition, and squaresBefore never goes below zero |
| CascadeMultiplication.CloseWindow | 3rd_party/cryptopp/algebra.cpp:140-167 | closing a window appends its digits to both exponents' prefixes |
| GeneralCascade.GeneralCascadeMultiplication | 3rd_party/cryptopp/algebra.cpp:172-204 | in every abelian group and for every non-empty list the result is the sum of exponent times base |
| GeneralCascade.Divide | 3rd_party/cryptopp/algebra.cpp:190-196 | a division step keeps the sum and strictly lowers the total of the exponents |
| GeneralCascade.Trade | 3rd_party/cryptopp/algebra.cpp:191-196 | trading multiples of one base for another leaves the whole sum alone |
| GeneralCascade.MakeHeap | 3rd_party/cryptopp/algebra.cpp:184-184 | a heap on exponents with the same sum and total |
| GeneralCascade.PushHeap | 3rd_party/cryptopp/algebra.cpp:198-198 | restores the heap after the last entry changed, same sum and total |
| GeneralCascade.PopHeap | 3rd_party/cryptopp/algebra.cpp:185-199 | the largest exponent goes last, the rest is a heap, same sum and total |
| Euclid.Gcd | 3rd_party/cryptopp/algebra.cpp:56-68 | the result is a common divisor that every common divisor divides |
| Euclid.MultiplicativeInverse | 3rd_party/cryptopp/algebra.cpp:70-88 | the result is an inverse for units and zero otherwise if and only if the operand is below the modulus in magnitude, or the modulus is one, or there is no inverse |
| Euclid.LiveStep | 3rd_party/cryptopp/algebra.cpp:77-85 | each step keeps g congruent to v times the operand, the divisors, and falls |
| Euclid.UnreducedOperandFails | 3rd_party/cryptopp/algebra.cpp:77-77 | 5 is invertible modulo 3 yet the answer for it is wrong |
| NumberTheory.ReduceExactly | 3rd_party/cryptopp/blumshub.cpp:59-60 | for distinct primes a power with its exponent reduced modulo (p-1)(q-1) is congruent exactly when the reduced exponent is nonzero or the base is prime to both |
| NumberTheory.Fermat | 3rd_party/cryptopp/blumshub.cpp:59-60 | x^(p-1) is 1 modulo a prime that does not divide x, by permuting residues |
| BlumBlumShubGenerator.PublicBlumBlumShub.GenerateBit | 3rd_party/cryptopp/blumshub.cpp:17-26 | the next bit of the stream of squares, and one position on, whether or not the state was used up |
| BlumBlumShubGenerator.PublicBlumBlumShub.GenerateByte | 3rd_party/cryptopp/blumshub.cpp:28-34 | eight stream bits, highest first |
| BlumBlumShubGenerator.PublicBlumBlumShub.GenerateBlock | 3rd_party/cryptopp/blumshub.cpp:36-40 | byte k of the output is eight bits from 8k on |
| BlumBlumShubGenerator.MaxBitsMeans | 3rd_party/cryptopp/blumshub.cpp:12-12 | maxBits is the largest b with 2^b at most the modulus's bit length |
| BlumBlumShubGenerator.StateGivesLowBits | 3rd_party/cryptopp/blumshub.cpp:17-26 | the bits one state gives are its lowest maxBits bits, read as a number |
| BlumBlumShubGenerator.BlumBlumShub.Seek | 3rd_party/cryptopp/blumshub.cpp:55-62 | the generator stands at bit 8 times index, as after sequential generation, if and only if the position is seekable; block ends included. The equivalence is one of states |
| BlumBlumShubGenerator.SeekExponent | 3rd_party/cryptopp/blumshub.cpp:59-60 | the state computed for a block is the sequential one if and only if the reduced exponent is nonzero or the seed is prime to p and q |
| BlumBlumShubGenerator.BlumPrimesSeekEverywhere | 3rd_party/cryptopp/blumshub.h:45-47 | with the primes the header asks for every position is seekable for every seed |
| BlumBlumShubGenerator.SharedFactorFails | 3rd_party/cryptopp/blumshub.cpp:59-60 | with p = 3, q = 5 and seed 3 the block that byte 1 lies in is not usable and its state not the sequential one |
| BlumBlumShubGenerator.SeekGoesWrong | 3rd_party/cryptopp/blumshub.cpp:55-62 | on that generator Seek(1) does not arrive at bit 8 |
| BlockChaining.AdvancedProcessBlocks | 3rd_party/cryptopp/cryptlib.cpp:178-227 | with xored input and fixed pointers it chains all whole blocks and returns the bytes left over |
| BlockChaining.AbsorbAppend | 3rd_party/cryptopp/authenc.cpp:11-46 | chaining may stop anywhere and carry the unfinished block along |
| BlockChaining.AbsorbLast | 3rd_party/cryptopp/cryptlib.cpp:200-224 | the last block is xored into the value of those before it and enciphered |
| Bytes.XorBit | 3rd_party/cryptopp/misc.cpp:28-59 | a bit of an exclusive or is set when just one operand has it |
| Ccm.CCM.SetKey | 3rd_party/cryptopp/authenc.cpp:48-60 | accepts exactly ciphers of block size 16, even digest sizes from 4 to 16 and no nonce or one of 7 to 13 bytes |
| Ccm.CCM.SetKeyWithoutResync | 3rd_party/cryptopp/ccm.cpp:11-26 | refuses exactly other block sizes and other digest sizes |
| Ccm.CCM.Resynchronize | 3rd_party/cryptopp/authenc.cpp:62-73 | exactly nonces of 7 to 13 bytes start a message, in any state with a key |
| Ccm.CCM.FormatB0 | 3rd_party/cryptopp/ccm.cpp:62-64 | the three overlapping stores lay out flags, nonce and length |
| Ccm.CCM.SpecifyDataLengths | 3rd_party/cryptopp/ccm.cpp:51-91 | the exact cases it refuses; otherwise the block laid out from the buffer is chained, which is B_0 when nothing has come in, and the length prefix waits in the buffer |
| Ccm.CCM.AuthenticateData | 3rd_party/cryptopp/authenc.cpp:11-46 | whatever is buffered and however the input is cut, register and buffer are those of the whole string |
| Ccm.CCM.AuthenticateLastBlock | 3rd_party/cryptopp/ccm.cpp:108-113 | xoring in the unfinished block chains the string padded with zeros |
| Ccm.CCM.Update | 3rd_party/cryptopp/authenc.cpp:75-102 | the exact cases it refuses; the header grows by the chunk, and input after the message starts a footer |
| Ccm.CCM.ProcessData | 3rd_party/cryptopp/authenc.cpp:104-134 | the exact cases it refuses; the output is the chunk under the RFC 3610 key stream at its place in the message, and the plaintext side is what gets authenticated |
| Ccm.CCM.TruncatedFinal | 3rd_party/cryptopp/authenc.cpp:136-176 | the exact cases it refuses; after a declared header and message of any chunking the tag is the one of sections 2.2 and 2.3 of RFC 3610 |
| Ccm.CCM.CompleteIsAccepted | 3rd_party/cryptopp/authenc.cpp:138-163 | once the declared lengths have arrived none of the refusals applies |
| Ccm.CCM.ChainIsCbcMac | 3rd_party/cryptopp/ccm.cpp:100-130 | header and message, each padded, chained one after the other from B_0 are the CBC-MAC of RFC 3610 |
| Ccm.CtrStreamIsStream | 3rd_party/cryptopp/ccm.cpp:36-46 | within the length limit the 128-bit counter of CTR mode runs through the A_i of RFC 3610 and never carries into the nonce |
| Rfc3610.CounterFits | 3rd_party/cryptopp/ccm.cpp:36-46 | adding a block number to the zeroed low bytes writes it there |
| Rfc3610.PrefixReads | 3rd_party/cryptopp/ccm.cpp:67-89 | a reader of the table of section 2.2 gets the header's length and the prefix's size back, whatever header follows |
| Rfc3610.PrefixForm | 3rd_party/cryptopp/ccm.cpp:67-89 | two bytes below 0xff00, six starting ff fe below 2^32, ten starting ff ff above, big-endian |
| Rfc3610.B0Form | 3rd_party/cryptopp/ccm.cpp:62-64 | the fields of B_0 read back: header flag, both sizes, nonce and length |
| Rfc3610.AForm | 3rd_party/cryptopp/ccm.cpp:36-46 | the fields of A_i read back |
| Rfc3610.PacketVectorOne | 3rd_party/cryptopp/ccm.cpp:36-73 | B_0, the header's prefix and A_1 of packet vector 1 in section 8 of RFC 3610 |
| Rfc3610.PadForm | 3rd_party/cryptopp/ccm.cpp:108-113 | padding keeps the string and adds fewer than sixteen zeros up to a block |
| Rfc3610.CbcMacFromZero | 3rd_party/cryptopp/ccm.cpp:93-130 | the chaining value is CBC from zero over B_0, padded header and padded message |
| Rfc3610.StreamBlock | 3rd_party/cryptopp/ccm.cpp:43-46 | block i of the key stream is the enciphered A_i |
| Rfc3610.EncryptedByte | 3rd_party/cryptopp/ccm.cpp:46-46 | byte k of the message meets byte k mod 16 of S_(k/16+1) |
| Rfc3610.TagUnmasked | 3rd_party/cryptopp/ccm.cpp:132-136 | taking S_0 off the tag leaves the leading bytes of the chaining value |
| Ccm.MaxMessageLengthFills | 3rd_party/cryptopp/ccm.h:52-53 | the limit is the largest length its L bytes can hold |
| CcmMessages.SelectedMeans | 3rd_party/cryptopp/ccm.cpp:30-33 | the nonce and the length field share fifteen bytes |
| CcmMessages.EncryptAndAuthenticate | 3rd_party/cryptopp/cryptlib.cpp:268-275 | the exact cases it refuses; otherwise ciphertext and tag of RFC 3610, for every tag length the buffer has |
| CcmMessages.DecryptAndVerify | 3rd_party/cryptopp/cryptlib.cpp:277-284 | the exact cases it refuses; otherwise the plaintext, and it verifies if and only if the given tag is the leading part of the RFC 3610 tag |
| CcmMessages.InChunks | 3rd_party/cryptopp/authenc.cpp:75-176 | header and message in any chunks, in either direction: output and tag are those of the whole strings |
| CcmMessages.RoundTrip | 3rd_party/cryptopp/authenc.cpp:104-176 | what one side sends the other recovers under any other chunking, with the same tag, though one authenticates its input and the other its output |
| CcmMessages.SealThenOpen | 3rd_party/cryptopp/cryptlib.cpp:268-284 | what EncryptAndAuthenticate makes, DecryptAndVerify accepts and turns back into the message, for every tag length |
| AsnLength.DERLengthEncode | 3rd_party/cryptopp/asn.cpp:17-36 | puts the distinguished length octets and returns their number |
| AsnLength.BERLengthDecode | 3rd_party/cryptopp/asn.cpp:38-74 | takes exactly the length octets off the queue; a complete long form is accepted if and only if its big-endian value is below 2^64, an incomplete one ends in the missing byte or the overflow, whichever comes first |
| AsnLength.ParseDerLength | 3rd_party/cryptopp/asn.cpp:17-74 | decoding undoes encoding for every 64-bit length, whatever follows |
| AsnLength.DerLengthShortest | 3rd_party/cryptopp/asn.cpp:17-36 | no length octets for the same number are shorter |
| AsnLength.DerLengthForm | 3rd_party/cryptopp/asn.cpp:17-36 | one octet below 128, otherwise their number and the number itself, most significant octet first and not zero |
| AsnLength.LongFormAccepted | 3rd_party/cryptopp/asn.cpp:54-72 | a complete long form is accepted if and only if its big-endian value is below 2^64 |
| AsnLength.CutShort | 3rd_party/cryptopp/asn.cpp:66-67 | fewer octets than announced are never accepted |
| AsnUnsigned.DEREncodeUnsigned | 3rd_party/cryptopp/asn.h:441-466 | tag, length and content for every word size, and the count of bytes put |
| AsnUnsigned.ContentIsMinimal | 3rd_party/cryptopp/asn.h:453-461 | content octets are the shortest two's complement form of the number, section 8.3.2 of X.690 |
| AsnUnsigned.BERDecodeUnsigned | 3rd_party/cryptopp/asn.h:477-510 | accepts exactly the tag, a definite length, all its bytes, and an unsigned value that fits the word and the range; returns that value and takes exactly those bytes |
| AsnUnsigned.ReadContent | 3rd_party/cryptopp/asn.h:495-506 | dropping zeros beyond the word refuses exactly the values that do not fit |
| AsnUnsigned.ParsedUnsigned | 3rd_party/cryptopp/asn.h:477-510 | what is accepted begins with the tag asked for, and its content is the value returned, within word and range |
| AsnUnsigned.KnownUnsigned | 3rd_party/cryptopp/asn.h:441-466 | three encodings, among them 128 behind a zero octet |
| AsnUnsigned.DecodeEncoded | 3rd_party/cryptopp/asn.h:441-510 | decoding undoes encoding for every word size, number in range and tag but BOOLEAN |
| AsnUnsigned.AcceptedConforms | 3rd_party/cryptopp/asn.h:495-509 | accepted content is one that section 8.3 of X.690 allows for the value returned if and only if it is minimal with its sign bit clear, and if and only if it is what the encoder writes |
| AsnUnsigned.OneMinimalForm | 3rd_party/cryptopp/asn.h:453-461 | minimal content with a clear sign bit is the encoder's content of its number |
| AsnUnsigned.LaxContent | 3rd_party/cryptopp/asn.h:495-509 | no content is read as 0, a needless zero in front of 5 as 5, and the encoding of -1 as 255, none of which section 8.3 allows |
| AsnUnsigned.BooleanDecodes | 3rd_party/cryptopp/asn.h:447-451 | under the BOOLEAN tag exactly 0 and 255 survive |
| AsnOid.EncodeValue | 3rd_party/cryptopp/asn.cpp:219-224 | puts the base-128 form of an arc |
| AsnOid.DecodeValue | 3rd_party/cryptopp/asn.cpp:226-243 | accepts exactly a finished run of octets whose value is below 2^32 and takes exactly that run |
| AsnOid.ParseEncodedArc | 3rd_party/cryptopp/asn.cpp:219-243 | every 32-bit arc comes back despite the overflow guard |
| AsnOid.OID.DEREncode | 3rd_party/cryptopp/asn.cpp:245-255 | puts the encoding of the identifier |
| AsnOid.OID.BERDecode | 3rd_party/cryptopp/asn.cpp:257-284 | accepts exactly the strings the grammar of ParseOid reads, with its arcs, and takes exactly their bytes |
| AsnOid.ParseDerOid | 3rd_party/cryptopp/asn.cpp:245-284 | what decoding makes of any encoding, consuming all of it |
| AsnOid.OidRoundTrip | 3rd_party/cryptopp/asn.cpp:245-284 | the same arcs come back if and only if the second is below 40 and the first octet is at most 255 |
| AsnOid.ParsedOid | 3rd_party/cryptopp/asn.cpp:257-284 | what is accepted begins with octet 6, has content, shares its first octet between two arcs and has arcs below 2^32 |
| AsnOid.KnownOid | 3rd_party/cryptopp/asn.cpp:245-255 | the encoding of 1.2.840.113549 |
| AsnOid.LargestArc | 3rd_party/cryptopp/asn.cpp:226-243 | 2^32 - 1 is read and 2^32 refused |
| AsnReencode.DERReencode | 3rd_party/cryptopp/asn.cpp:202-217 | succeeds exactly where an element can be parsed, takes just that element and puts the same tags, leaves and order under distinguished lengths, each an lword |
| AsnReencode.ResultTakesApart | 3rd_party/cryptopp/asn.cpp:202-217 | taking the result apart again, with node contents read as elements, gives the source's tags, leaves and order and uses up all of it |
| AsnReencode.ResultParses | 3rd_party/cryptopp/asn.cpp:513-520 | a result is one element with the source's tag, the shortest definite length and the content |
| AsnReencode.SmallExample | 3rd_party/cryptopp/asn.cpp:202-217 | 30 80 02 01 05 00 00 becomes 30 03 02 01 05 |
| AsnReencode.ConstructedBit | 3rd_party/cryptopp/asn.cpp:402-403 | constructed is bit 6 of the tag |
| AsnReencode.IndefiniteForm | 3rd_party/cryptopp/asn.cpp:419-459 | an indefinite element is tag, 128, its elements and two zero octets |
| AsnReencode.BerParses | 3rd_party/cryptopp/asn.cpp:393-459 | every well-formed element is read back from its encoding, whatever follows |
| AsnReencode.ParsedIsBer | 3rd_party/cryptopp/asn.cpp:393-459 | whatever is read is the encoding of a well-formed element |
| AsnReencode.ReencodedStays | 3rd_party/cryptopp/asn.cpp:202-217 | re-encoding a result changes nothing |
| AsnReencode.DerDetermines | 3rd_party/cryptopp/asn.cpp:202-217 | elements of the same nesting with the same result have the same tags and leaves, so nothing is lost |
| AsnReencode.DerSize | 3rd_party/cryptopp/asn.cpp:513-520 | a result is at most two and a half times as long as its source |
| AsnReencode.LengthsFitInMemory | 3rd_party/cryptopp/asn.cpp:513-520 | so no length of a result is cut to 64 bits for a source of less than 2^62 bytes |
| AsnReencode.BERGeneralDecoder.Init | 3rd_party/cryptopp/asn.cpp:393-404 | the exact cases it accepts, with a primitive tag of indefinite length among the refused |
| AsnReencode.BERGeneralDecoder.MessageEnd | 3rd_party/cryptopp/asn.cpp:445-459 | definite content must be used up, indefinite content must end in two zero octets |
| BaseN.DecodeEncode | 3rd_party/cryptopp/basecode.cpp:48-176 | decoding undoes encoding for every base, alphabet and padding outside it |
| BaseN.DecodeGroupedEncode | 3rd_party/cryptopp/basecode.cpp:48-243 | so it does with any grouping, separator and terminator outside the alphabet |
| BaseN.EncodedIsBase64 | 3rd_party/cryptopp/basecode.cpp:48-113 | with 64 characters and padding the text is section 4 of RFC 4648 |
| BaseN.EncodedIsBase16 | 3rd_party/cryptopp/basecode.cpp:48-113 | with 16 characters the text is section 8 of RFC 4648 |
| BaseN.PaddedToBlocks | 3rd_party/cryptopp/basecode.cpp:103-107 | padding fills the last block and no more |
| BaseN.TerminatorLast | 3rd_party/cryptopp/basecode.cpp:237-240 | the terminator ends the grouped text, whose rest is the groups |
| BaseNFilters.BaseN_Encoder.Put2 | 3rd_party/cryptopp/basecode.cpp:48-113 | for every chunking the text is the regrouped bits of the whole message, zero-filled and padded to a block, and no store leaves the block |
| BaseNFilters.BaseN_Encoder.PutBits | 3rd_party/cryptopp/basecode.cpp:60-84 | or-ing shifted pieces of a byte into the cells appends its eight bits |
| BaseNFilters.BaseN_Decoder.Put2 | 3rd_party/cryptopp/basecode.cpp:133-176 | for every chunking the bytes are the whole bytes in the bits of the characters that are digits |
| BaseNFilters.BaseN_Decoder.PutDigit | 3rd_party/cryptopp/basecode.cpp:147-163 | a digit that straddles two bytes appends its bits without leaving the block |
| BaseNFilters.FindBlockSize | 3rd_party/cryptopp/basecode.cpp:40-43 | the block is the least number of digits that fill whole bytes |
| BaseNFilters.FindByteBlockSize | 3rd_party/cryptopp/basecode.cpp:124-127 | the block is the least number of bytes that whole digits fill |
| BaseNFilters.Grouper.Put2 | 3rd_party/cryptopp/basecode.cpp:214-243 | for every chunking a separator stands between every two groups and nowhere else, the terminator at the end |
| BaseNFilters.InitializeDecodingLookupArray | 3rd_party/cryptopp/basecode.cpp:178-195 | the table says of every character which digit spells it, case folded where asked, and -1 if none does |
| BaseNFilters.TableUndoes | 3rd_party/cryptopp/basecode.cpp:178-195 | such a table undoes the alphabet and refuses every other character |
| BaseNFilters.TableOnCodes | 3rd_party/cryptopp/basecode.cpp:182-195 | on character codes: a digit is read from its character and, without regard to case, from the letter 32 above a capital or below a small one, and from nothing else |
| BaseNFilters.SpellsMeans | 3rd_party/cryptopp/basecode.cpp:182-195 | a character is read as another when it is the same or, without regard to case, the same letter |
| BaseNFilters.UnambiguousMeans | 3rd_party/cryptopp/basecode.cpp:184-193 | the assertions ask that no two characters, or letters of either case, are the same |
| BaseNFilters.DecodedIgnoresCase | 3rd_party/cryptopp/basecode.cpp:133-195 | a text with letters in the other case decodes to the same bytes |
| BaseNFilters.DecodeEitherCase | 3rd_party/cryptopp/basecode.cpp:133-176 | so do two decoders fed such texts in any chunks |
| BaseNFilters.RoundTrip | 3rd_party/cryptopp/basecode.cpp:48-243 | the three stages in a row, each fed in its own chunks, return the bytes |
| BitStrings.RegroupBack | 3rd_party/cryptopp/basecode.cpp:48-176 | regrouping bytes into digits and back is the identity |
| Cmac.MulU | 3rd_party/cryptopp/cmac.cpp:11-41 | the carry loop in place is doubling modulo the constant's polynomial |
| CmacField.ReductionFactors | 3rd_party/cryptopp/cmac.cpp:33-36 | the 32-byte polynomial is x^2 + x + 1 times another |
| CmacField.TimesXIsRemainder | 3rd_party/cryptopp/cmac.cpp:11-41 | the doubling is the remainder of the product with x, for any polynomial of the block's degree |
| CmacField.DoublesInField | 3rd_party/cryptopp/cmac.cpp:11-41 | the doubling is the one of the field for every block of 8 and 16 bytes and, at 32 bytes, if and only if the top bit is clear |
| CmacField.NoFieldDoublesLike | 3rd_party/cryptopp/cmac.cpp:33-36 | for every irreducible polynomial of degree 256 the doubling is the one modulo it if and only if the top bit is clear |
| CmacField.TopBitFails | 3rd_party/cryptopp/cmac.cpp:33-36 | on the 32-byte block that is just the top bit it is another element |
| CmacField.Subkey1InField | 3rd_party/cryptopp/cmac.cpp:52-53 | the first subkey is 2L of the field if and only if the block has 8 or 16 bytes or L starts with a zero bit |
| CmacField.Subkey2InField | 3rd_party/cryptopp/cmac.cpp:52-55 | the second subkey is 4L of the field if and only if the block has 8 or 16 bytes or L starts with two zero bits |
| CmacField.MacInField | 3rd_party/cryptopp/cmac.cpp:103-122 | under a cipher that is one-to-one the tag of a message is the one over the field if and only if the block has 8 or 16 bytes or the subkey for its last block is right |
| Cmac.CMAC.DeriveSubkeys | 3rd_party/cryptopp/cmac.cpp:52-55 | the subkeys are 2L and 4L modulo the constant's polynomial |
| Cmac.CMAC.Update | 3rd_party/cryptopp/cmac.cpp:58-101 | for every chunking all blocks but the last are chained and the last 1 to blockSize bytes held back |
| Cmac.CMAC.TruncatedFinal | 3rd_party/cryptopp/cmac.cpp:103-122 | the tag of the whole message by section 6.2 of SP 800-38B over the constant's polynomial; MacInField says when that is the field's |
| Cmac.MacIsCbc | 3rd_party/cryptopp/cmac.cpp:85-118 | the tag is CBC from zero over the message with its last block made whole and masked |
| Cmac.FinalBlockUnmasked | 3rd_party/cryptopp/cmac.cpp:110-116 | taking the subkey off leaves the last block, or the last bytes, a one bit and zeros |
| Cmac.SubkeyValues | 3rd_party/cryptopp/cmac.cpp:52-55 | the subkeys are the enciphered zero block doubled once and twice |
| CmacField.TermsByExponent | 3rd_party/cryptopp/cmac.cpp:25-36 | the constants by the exponents of their polynomials |
| Cmac.HoldBack | 3rd_party/cryptopp/cmac.cpp:85-91 | chaining length - 1 bytes leaves exactly the last block over |
| Blake2.BLAKE2.Restart | 3rd_party/cryptopp/blake2.cpp:371-407 | the state of an empty message, the key block streamed first |
| Blake2.BLAKE2.Update | 3rd_party/cryptopp/blake2.cpp:409-441 | for every chunking all blocks but the last are compressed in order, each at the count of bytes consumed |
| Blake2.BLAKE2.TruncatedFinal | 3rd_party/cryptopp/blake2.cpp:443-466 | the hash of key and message by section 3.3 of RFC 7693 |
| Blake2.HashByBlocks | 3rd_party/cryptopp/blake2.cpp:409-466 | the hash block by block as section 3.3 of RFC 7693 writes it, counters and both flags included |
| Blake2.KeyBlockForm | 3rd_party/cryptopp/blake2.cpp:403-406 | the key comes first, zeros fill its block, and no key gives no block |
| Blake2.KnownSizes | 3rd_party/cryptopp/blake2.h:39-40 | the block and digest sizes of the two variants |
| Blake2.BLAKE2.IncrementCounter | 3rd_party/cryptopp/blake2.cpp:468-474 | the two words count on with the carry |
| Blake2.CounterIsDoubleWord | 3rd_party/cryptopp/blake2.cpp:468-474 | together they are the byte count modulo 2^(2w) |
| Adler.Adler32.Update | 3rd_party/cryptopp/adler32.cpp:8-54 | for every chunking the sums are those reduced after every byte (section 2.2 of RFC 1950), end below 65521, and no 32-bit sum wraps |
| Adler.ChecksumInFull | 3rd_party/cryptopp/adler32.cpp:8-54 | one plus the sum of all bytes and the sum of those sums, reduced modulo 65521 only at the end |
| Adler.Adler32.TruncatedFinal | 3rd_party/cryptopp/adler32.cpp:56-80 | the checksum in network byte order, cut to size |
| Feistel.Undoes | 3rd_party/cryptopp/blowfish.cpp:79-92 | any rounds in the opposite order on exchanged halves retrace every step, by induction on their number |
| Words32.RotatedBits | 3rd_party/cryptopp/misc.h:1362-1368 | rotation moves the top bits to the bottom |
| Words32.BytesOfWord | 3rd_party/cryptopp/cast.cpp:10-14 | the four bytes are the word, byte 3 the most significant |
| Cast.TypeOneReads | 3rd_party/cryptopp/cast.cpp:17-20 | only the sum of masking key and data counts, and each box reads its byte of that, rotated |
| Cast.TypeOneCombines | 3rd_party/cryptopp/cast.cpp:17-20 | the fourth box is added, the third subtracted, the first two xored before that |
| Cast.TypeTwoReads | 3rd_party/cryptopp/cast.cpp:21-24 | only the exclusive or of masking key and data counts, and each box reads its byte of that, rotated |
| Cast.TypeTwoCombines | 3rd_party/cryptopp/cast.cpp:21-24 | the fourth box is xored last, the third added before that, the second subtracted from the first |
| Cast.TypeThreeReads | 3rd_party/cryptopp/cast.cpp:25-28 | only the masking key less the data counts, and each box reads its byte of that, rotated |
| Cast.TypeThreeCombines | 3rd_party/cryptopp/cast.cpp:25-28 | the fourth box is subtracted last, the third xored before that, the first two added |
| Cast.KnownRound | 3rd_party/cryptopp/cast.cpp:17-28 | one round of each type with a single box that is not zero |
| Cast.RoundTypes | 3rd_party/cryptopp/cast.cpp:43-60 | which rounds are of which type and under which keys, section 2.2 of RFC 2144 |
| Cast.RoundCounts | 3rd_party/cryptopp/cast.cpp:56-61 | twelve rounds for short keys and sixteen for the others |
| Cast.AfterIsHalves | 3rd_party/cryptopp/cast.cpp:43-63 | the rounds are the recurrences for L and R of that section |
| Cast.CAST128.Encrypt | 3rd_party/cryptopp/cast.cpp:36-64 | the twelve or sixteen rounds in order, with the round function and keys of each |
| Cast.CAST128.Decrypt | 3rd_party/cryptopp/cast.cpp:66-95 | the same rounds in the opposite order |
| Cast.RoundTrip128 | 3rd_party/cryptopp/cast.cpp:36-95 | decryption inverts encryption for every schedule and S-boxes, in both round counts |
| Cast256.ReverseForward | 3rd_party/cryptopp/cast.cpp:199-209 | QBar undoes Q |
| Cast256.ForwardReverse | 3rd_party/cryptopp/cast.cpp:199-209 | Q undoes QBar |
| Cast256.ForwardReads | 3rd_party/cryptopp/cast.cpp:199-203 | which masks, counts and words each step of a forward quad round uses |
| Cast256.StepsInOrder | 3rd_party/cryptopp/cast.cpp:219-233 | groups 0 to 5 go forward and 6 to 11 in reverse, in that order |
| Cast256.StepsBack | 3rd_party/cryptopp/cast.cpp:214-236 | under the swapped schedule the twelve quad rounds retrace those under the original |
| Cast256.CAST256.ProcessBlock | 3rd_party/cryptopp/cast.cpp:214-236 | the in-place macros are six forward and six reverse quad rounds |
| Cast256.CAST256.SwapKeys | 3rd_party/cryptopp/cast.cpp:276-291 | the nested swaps put the twelve key groups into the opposite order |
| Cast256.RoundTrip256 | 3rd_party/cryptopp/cast.cpp:199-291 | the same procedure under the swapped schedule inverts itself for every schedule and S-boxes |
| Blowfish.Cipher.ProcessBlock | 3rd_party/cryptopp/blowfish.cpp:71-95 | the two-rounds-a-turn loop is the Feistel network with whitening, for any even number of rounds |
| Blowfish.CryptIsPublished | 3rd_party/cryptopp/blowfish.cpp:76-94 | the network is the published sequence of xors and exchanges with its last exchange undone |
| Blowfish.FReads | 3rd_party/cryptopp/blowfish.cpp:83-89 | each table reads its byte of the word |
| Blowfish.FCombines | 3rd_party/cryptopp/blowfish.cpp:83-89 | the fourth table is added last, the third xored before that, the first two added |
| Blowfish.Cipher.ReverseKeys | 3rd_party/cryptopp/blowfish.cpp:38-40 | the swap loop reverses the P-array |
| Blowfish.CryptBack | 3rd_party/cryptopp/blowfish.cpp:38-97 | the reversed P-array inverts the cipher, by induction for any number of rounds |
| Blowfish.RoundTrip | 3rd_party/cryptopp/blowfish.cpp:38-97 | a decryption object inverts an encryption object |

## Left out

- src/: sockets, timers, JSON and option parsing, which depend on libraries that are not part of this model.
- Blocking and resumption of `Put2` through the `FILTER_*` macros: every call takes all its input.
- `EncodedObjectFilter`, X.509 and PKCS #8 wrappers, strings and bit strings of asn.cpp: thin layers over what is modelled.
- Insides of `Integer`, `ModularArithmetic`, `CTR_Mode`, `ByteQueue` and the S-box tables: mathematical integers, a key stream by position, a sequence of bytes, and any tables. The heap operations are modelled as a binary heap.
- Negative exponents and moduli, and p equal to q: outside what the callers pass.
- `PublicBlumBlumShub::ProcessData`: the bytes of GenerateBlock xored onto the input.
- AbstractGroup::ScalarMultiply: stands for SimultaneousMultiply with one exponent.
- BLAKE2's compression and `Restart` with a caller's parameter block; the initial state is a parameter.
- CmacField.FieldTerms: that the field polynomials for 8, 16 and 32 bytes are irreducible is taken from SP 800-38B and from tables; NoFieldDoublesLike needs no particular one.
- CMAC on block sizes other than 8, 16 and 32: the constructor's precondition, where the source throws or not depending on a carry of the key.
- Key schedules of CAST and Blowfish, and the conversion of blocks between bytes and words: the inversion theorems hold for every schedule.
- Aliasing of input and output buffers, the `mutable result` members, alignment and wiping.
- BlockChaining.AdvancedProcessBlocks: models the flags BT_XorInput and BT_DontIncrementInOutPointers together, the use made of it here; reverse direction and in-block counters are not modelled.
- Ccm.CCM.Resynchronize: takes the nonce with its length; the default length of -1, which stands for 8, is not modelled.
- Ccm.CCM.SpecifyDataLengths: a second declaration or one after data reads the nonce out of a buffer that has been written over; what is chained then is stated, but cryptlib.h:1150-1155 asks for one declaration before any data, and the tag theorem is about that protocol.
- Ccm.CCM.TruncatedFinal: requires a size of at most 16, all that the chaining register has; the source checks no size here and would copy what lies behind it. Its test of the header length cannot fail, since no lword exceeds the limit. Header and message shorter than 2^64 bytes, as their counters wrap there.
- CcmMessages.EncryptAndAuthenticate: requires a size of at most 16, for the same reason.
- AsnReencode.DERReencode: what a failed call has already written is not stated (destructors put partial output); nested decoders read the same queue, because one of indefinite length hands every read on unchanged.
- AsnLength.BERLengthDecode: size_t is as wide as lword, so the narrowing check never fails.
- BERDecodeUnsigned's `SecByteBlock` allocation of the announced length before the bytes are there: memory limits are not modelled.
- BaseNFilters.InitializeDecodingLookupArray: letters are those of ASCII; its assertions that no entry is taken twice are the precondition.

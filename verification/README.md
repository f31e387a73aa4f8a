# ASN.1 macros and BIGNUM normal form

A Dafny 4.11 model of the two places where the OpenSSL 1.0.2 headers of this
repository compute something themselves: the ASN.1 codec written as macros in
`include/asn1_mac.h`, and the macros of `include/bn.h` that keep a BIGNUM
normal, look at it and grow it. `dafny verify dfyconfig.toml` verifies the whole
project.

## What is modelled

**The codec.** `Schema.Type` is the shape the macros are expanded for: a leaf
whose codec is a parameter that keeps a contract (`Schema.KeepsContract`), a
record of fields, or a SET OF / SEQUENCE OF. `Schema.Field` names the macro pair
that handles a field: plain, optional, IMPLICIT, EXPLICIT, optional list. Types
nest without bound. `Encode.Enc` and `Decode.Dec` say what is written and what is
read as functions; `Encoder.I2D` and `Decoder.D2I` are the macros as code over a
buffer: two passes and a moving pointer on one side, the `ASN1_const_CTX` cursor,
the overwritten input octet, the allocations and the error exits on the other.
Each method is proved against its function, and the theorems about the functions
hold for the code through that.

`Grammar` is the independent reference, section 8 of ITU-T X.690: `Grammar.IsBer`
relates objects and octets, with a bound on the octets a length may take (126 in
X.690), and `Grammar.Ber` gives an encoding for every choice of length forms.
`Grammar.Proper` is a walk over octets that looks at headers and guards only. Two
theorems tie them to the reader. Of the encodings X.690 allows, the reader takes
those in which no length takes more than eight octets, and refuses the others
(`WideLengths.ReadWhenWithin`). Octets are such an encoding of an object if and
only if they are read as that object to their end and the walk finds no fault
(`Accepted.EncodingsAreAccepted`). `Encode.Canon` is the object a reader gets back
from what the macros wrote; it differs from the object written only where an
optional list is present but empty (it comes back as NULL) and where a SET OF is
not in the order of its encodings. The encodings of a leaf are those its own codec
takes.

`Passes.Announced` and `Passes.Output` are the two passes of the writer as computed
in ints, and `Passes.PassesAgree` ties them to `Encode.Enc`.

**Bodies that are not in the two headers.** `include/asn1.h` only declares the
header primitives and the list codecs. Their bodies are taken from the other
ASN.1 implementation in this repository, `Pods/BoringSSL/crypto/asn1`
(`asn1_lib.c` for ASN1_get_object, ASN1_put_object and ASN1_object_size,
`tasn_enc.c` for the order of a SET OF, `tasn_dec.c` for the list reader and the
end-of-contents test). What they write follows sections 8.1.2, 8.1.3, 8.1.5 and
11.6 of X.690. What they read is more than section 8.1.2 allows: the form of a
high tag is taken for tags below 31 and with leading zero digits
(`Header.LeadingDigits`, `Accepted.UnusualIdentifiers`), so an accepted header
need not be one that X.690 describes. asn1_GetSequence and asn1_const_Finish have
no body anywhere here; they follow sections 8.1.3, 8.1.5 and 8.9 of X.690, as the
sequence reader of `tasn_dec.c` does. BN_num_bits, bn_expand2, BN_init and
bn_set_words come from `Pods/BoringSSL/crypto/fipsmodule/bn/bn.c` in the same way.

**Where the code is not what one might expect.**

- get_EXP_opt does not check that a definite EXPLICIT wrapper is filled, while
  `tasn_dec.c` (lines 572-580) does. `Ends.ExplicitEnds` says on the octets when
  the field ends with its wrapper: exactly when the walk `Ends.Reach`, over headers
  and guards inside the wrapper, goes to the wrapper's end. A definite inner header
  tells at once. For an indefinite one the extent of the encoding tells only when
  there is no fault inside; `Ends.EndsEarly` has octets where it does not.
  `Theorems.ExplicitNeedNotBeFilled` with `Theorems.OverrunIsNotWritten` gives
  octets that are read as two fields and are not what is written for them.
- X.690 allows a length in up to 126 octets, more than it needs; asn1_get_length
  has room for eight. An encoding with a wider length anywhere is refused
  (`WideLengths.ReadWhenWithin`, `WideLengths.BerRoundTrip`);
  `WideLengths.NineOctets` has one of the empty record.
- ASN1_object_size answers -1 when a sum reaches INT_MAX, and
  M_ASN1_I2D_len_EXP_opt adds that to the length like any other. When no int
  overflows, the two passes agree exactly when the encoding is smaller than INT_MAX
  (`Passes.LengthsAgreeExactly`); `Passes.TooLongForItsWrapper` has an object for
  which the length pass returns 3.
- get_EXP_opt holds back two octets of an indefinite wrapper without asking
  whether there are two. When there are not (`Straying.NoRoom`), the inner d2i is
  given a length of -1 or -2, ASN1_get_object turns away only a length of 0, and
  it reads octets behind the window, with a high tag any number of them
  (`HeaderCode.ReadHeader`, `HeaderCode.NoBound`). `Straying.CutOffWrapper` has
  the input; `Decoder.D2I` says for every window whether that happens in the run.
  Such a run always fails, so no encoding leads to it (`Straying.StrayingFails`,
  `Straying.EncodingsStayInside`).
- A call that fails on an object it was given leaves in it what was read before
  the failure. `Failures.HalfRead` has an input, `Failures.FailureKeepsObject`
  the exact condition under which the object is as it was, and
  `Failures.FailureKeepsNothing` what that comes to for an object with every
  field NULL: only the d2i of the first field whose guard takes the first octet
  of the contents matters.
- An EXPLICIT field is written with any tag and read back exactly for the tags up
  to 31 and for 63, 159 and 191; with another tag its own guard does not take it
  (`Theorems.ExplicitTags`).
- An optional list that is empty is not read back (`Theorems.EmptyListIsAbsent`),
  and the object itself comes back exactly when it is canonical
  (`Theorems.ExactRoundTrip`).
- ASN1_put_object writes universal tags above 255 that ASN1_get_object rejects
  (`Header.HeaderRoundTrip`).

## Files

| file | contents |
|---|---|
| Octets, Masks | octets, C integer widths, masks as arithmetic and as bits |
| Header, HeaderCode | identifier and length octets as functions, and as code over a buffer |
| Guards | the guards of the get macros take the tag of their field and no other |
| Schema | types, fields, objects, the contract of a field codec, tag conditions |
| Encode, Decode | what is written and what is read |
| Grammar | X.690 encodings as a function, as a relation, and as a walk over octets |
| RoundTrip, WideLengths | which X.690 encodings are read, and which are refused |
| Unambiguous | octets determine the object, for every X.690 encoding |
| Canonical | SET OF order, canonical form, what is written is X.690 |
| Theorems | main results about whole objects |
| Accepted, Ends | which octets are accepted, and where they end |
| Failures | what a failing call leaves in the caller's object |
| Straying | when a negative length is handed on |
| Primitives, Examples | the contract is kept by every primitive type; whole encodings octet by octet |
| Passes | the lengths and octets of the two writing passes, in ints |
| Objects | what the objects of a value are, and how they are counted |
| Encoder, Decoder, EndToEnd | the macros as code, and ASN1_dup over both |
| Loops | a writer and a reader with a loop over the elements of a sequence |
| Words, BigNum | words and magnitudes, the BIGNUM structure |

## Model

| member | source | states |
|---|---|---|
| Theorems.EncodeDecode | include/asn1_mac.h:87-96 | Reading what was written, into any object and before any trailing octets, takes exactly the octets written and lays the canonical object over the old one, for every record over every mix of fields at any depth. |
| Theorems.ExactRoundTrip | include/asn1_mac.h:106-177 | Into a new object the canonical form comes back, and the very object exactly when no optional list is present but empty and every SET OF is in order. |
| Theorems.SameEncoding | include/asn1_mac.h:380-386 | Two objects with anything behind them give the same octets exactly when their canonical forms and what is behind them agree, so the octets identify the object and no encoding begins another. |
| WideLengths.ReadWhenWithin | Pods/BoringSSL/crypto/asn1/asn1_lib.c:182-213 | Of all encodings of an object that X.690 allows, those in which no length takes more than eight octets are read, and the others are refused. |
| WideLengths.WideIsRefused | Pods/BoringSSL/crypto/asn1/asn1_lib.c:197-200 | A length in more than eight octets at any depth stops the run, into any object. |
| WideLengths.NineOctets | Pods/BoringSSL/crypto/asn1/asn1_lib.c:197-200 | The empty record with its length of 0 in nine octets is an X.690 encoding and is refused. |
| RoundTrip.ObjectRoundTrip | include/asn1_mac.h:277-300 | An encoding with no length in more than eight octets is read as its object, laid over any old one, and taken exactly, whatever follows. |
| WideLengths.BerRoundTrip | include/asn1_mac.h:277-300 | Every choice of indefinite, shortest and longer definite lengths at every depth is read when no place that is used asks for more than eight octets, and refused otherwise. |
| Accepted.EncodingsAreAccepted | include/asn1_mac.h:87-177 | Octets are an encoding of an object with no length in more than eight octets exactly when they are read as that object and taken to their end, every identifier is in its proper form and every definite EXPLICIT wrapper is filled. |
| Accepted.AcceptedExactly | include/asn1_mac.h:277-300 | What a d2i takes from a window is an encoding of what it delivers, as X.690 allows it, exactly when the walk finds no fault; so of what the reader takes it should not take, there are those two kinds and no other. |
| Unambiguous.NoAmbiguity | include/asn1_mac.h:149-177 | With tags that the guards can tell apart, no octets begin with encodings of two objects, or with two encodings, for all encodings X.690 allows. |
| Accepted.UnusualIdentifiers | Pods/BoringSSL/crypto/asn1/asn1_lib.c:121-147 | A SEQUENCE with its tag in the high form, or with leading zero digits, is read, and is not a proper encoding. |
| RoundTrip.FieldsRoundTrip | include/asn1_mac.h:149-177 | With tags that can be told apart, each get macro of a record takes its own field or skips an absent one, up to the end of the contents. |
| Guards.PassedBy | include/asn1_mac.h:149-300 | For every get macro with a guard: a field is passed by, with nothing read and its object kept, when nothing is left or the next identifier octet shows another class or number, or, for EXPLICIT and list fields, is not constructed; otherwise it is read. |
| Examples.OptionalIsPassedBy | include/asn1_mac.h:149-154 | The tags of an optional NULL and an octet string can be told apart, and 30 02 04 00 is read as the second alone. |
| Examples.EveryKindIsWellTagged | include/asn1_mac.h:149-300 | So can those of a record with a field of every kind. |
| Examples.EveryKindOctets | include/asn1_mac.h:475-562 | The sixteen octets written for it with every field set. |
| Examples.IndefiniteRecord | include/asn1_mac.h:564-568 | 30 80 05 00 00 00 is read as a record with a NULL in it. |
| Examples.PrimitiveHeaderOfList | Pods/BoringSSL/crypto/asn1/tasn_dec.c:607-647 | 11 00 is read as an empty SET OF: its header need not be that of a constructed encoding. |
| RoundTrip.OverNothing | include/asn1_mac.h:75-85 | Reading into a new object adds nothing to what was written. |
| Theorems.FormsAgree | include/asn1_mac.h:564-568 | Two choices of length forms for one object are each read exactly when no place asks for more than eight octets, and then as the same object. |
| Theorems.ExplicitFormsAgree | include/asn1_mac.h:277-300 | An EXPLICIT field wrapped with length 0x80 and two zero octets, or with any definite length form of up to eight octets, is read as the same object, and each step takes exactly its own octets; a wider form stops the run. |
| RoundTrip.ExplicitRoundTrip | include/asn1_mac.h:285-299 | The EXPLICIT step reads a wrapper of any length form of up to eight octets; of an indefinite one the two octets held back are left for the check after the inner d2i. |
| WideLengths.ExplicitStops | include/asn1_mac.h:285-292 | It stops at a wrapper with a wider length, and leaves the field as it was. |
| Theorems.ExplicitTags | include/asn1_mac.h:277-279 | For every int tag and length form: the guard takes its own field exactly for the tags up to 31 and for 63, 159 and 191, and the field is then read back unless its length is too wide; for all other tags nothing is read. |
| Ends.ExplicitEnds | include/asn1_mac.h:285-299 | An indefinite EXPLICIT field is closed right behind the encoding inside it; a definite one ends where its wrapper ends exactly when the walk over headers and guards inside goes to the end of it. A definite inner header decides alone, and the extent of the inner encoding does when there is no fault inside. |
| Ends.TakesReach | include/asn1_mac.h:277-300 | What is accepted is taken as far as that walk goes, for every type, into any object. |
| Ends.EndsEarly | include/asn1_mac.h:285-299 | Octets whose inner encoding extends to the end of the wrapper and whose field ends two octets before. |
| Theorems.ExplicitNeedNotBeFilled | include/asn1_mac.h:291-299 | A wrapper that runs on over the next field is read as both fields, for all types and objects. |
| Theorems.OverrunIsNotWritten | include/asn1_mac.h:529-534 | Those octets are not what the put macros write for the two fields. |
| RoundTrip.RetagUntag | include/asn1_mac.h:163-177 | The IMPLICIT guard takes the octet put_IMP_opt wrote and get_imp rebuilds the octet the inner i2d wrote, with the length unchanged. |
| Encode.Retag | include/asn1_mac.h:477-483 | Only the first octet changes; its constructed bit is kept and its class and number are replaced. |
| Masks.MasksAreBits | include/asn1_mac.h:149-173 | The masks taken from an octet are the arithmetic on octets used here. |
| Masks.ImplicitIsBits | include/asn1_mac.h:477-483 | The octets that put_IMP_opt and get_imp build with bitwise or are the sums used here. |
| Masks.GuardIsBits | include/asn1_mac.h:277-279 | The number each guard compares with, built with bitwise or, is the one used here, for every int tag. |
| Theorems.EmptyListIsAbsent | include/asn1_mac.h:450-472 | In any record an empty optional list is written as a NULL one is and comes back as NULL. |
| Theorems.DecFits | include/asn1_mac.h:98-104 | A d2i function delivers an object of its type, and a failing one leaves a NULL slot NULL. |
| Theorems.DecCompletes | include/asn1_mac.h:129-133 | What a successful d2i delivers has every mandatory field, at every depth, provided the object it was given had, or was NULL. |
| Theorems.AcceptedIsWritable | include/asn1_mac.h:129-177 | Whatever is accepted can be written, and what is then written is read back as its canonical form. |
| Theorems.AcceptedList | Pods/BoringSSL/crypto/asn1/tasn_dec.c:607-679 | Accepted octets of a SET OF or SEQUENCE OF carry its own tag and class and are taken to exactly their announced end or through their end-of-contents. |
| Accepted.TakesAnnounced | Pods/BoringSSL/crypto/asn1/tasn_dec.c:607-679 | Whatever the type, what is accepted has a header, and a definite encoding is taken exactly as far as it announces. |
| Canonical.CanonCorrect | include/asn1_mac.h:197-211 | The canonical form is canonical and is written as the object is. |
| Canonical.CanonFixed | include/asn1_mac.h:197-211 | A canonical object is its own canonical form. |
| Canonical.CanonOfRecord | include/asn1_mac.h:197-211 | The canonical form of a record has the canonical form of each field in its place, and NULL for just those fields that are NULL or an empty list under an optional list or EXPLICIT macro. |
| Canonical.CanonOfList | include/asn1_mac.h:485-527 | That of a list has the canonical form of each element as often as it was there, in place unless it is a SET OF. |
| Canonical.WrittenIsBer | include/asn1_mac.h:475-562 | What the macros write for a canonical object is an X.690 encoding of that very object, and for any other one of its canonical form. |
| Canonical.EncIsBer | include/asn1_mac.h:443-472 | What the macros write for a canonical object is its X.690 encoding with every length definite. |
| Canonical.BeforeIsPrecedes | Pods/BoringSSL/crypto/asn1/tasn_enc.c:410-419 | der_cmp is the order of section 11.6: the lesser octet at the first difference, or the beginning of the other. |
| Canonical.SortOrders | Pods/BoringSSL/crypto/asn1/tasn_enc.c:410-482 | The encodings of a SET OF come out ascending in that order and each as often as it went in. |
| Examples.SetIsAscending | Pods/BoringSSL/crypto/asn1/tasn_enc.c:465-472 | The strings 02 and 01 in a SET OF are written as 31 06 04 01 01 04 01 02. |
| Canonical.OneOrder | Pods/BoringSSL/crypto/asn1/tasn_enc.c:465-472 | There is only one ascending arrangement, so any sorting routine with der_cmp writes the same octets. |
| Canonical.SortMatches | include/asn1_mac.h:388-397 | Putting the objects in order and then writing them is writing them and then ordering the encodings. |
| Header.HeaderRoundTrip | Pods/BoringSSL/crypto/asn1/asn1_lib.c:110-246 | A header that was written is read back, for every int tag, class and length, exactly unless it is universal above 255. |
| Header.IndefiniteRoundTrip | include/asn1_mac.h:564-566 | The same for a header with indefinite length. |
| Header.HeaderInRoundTrip | Pods/BoringSSL/crypto/asn1/asn1_lib.c:182-213 | A header with its length in any X.690 form is read back exactly when the length takes at most eight octets. |
| Header.ShortestHeader | Pods/BoringSSL/crypto/asn1/asn1_lib.c:110-276 | What is written is the shortest header read as that tag, class and length, and the only one of its size. |
| Header.LengthRoundTrip | Pods/BoringSSL/crypto/asn1/asn1_lib.c:182-276 | The shortest length octets of every long, and so of every int that is written, are read back. |
| Header.LeadingDigits | Pods/BoringSSL/crypto/asn1/asn1_lib.c:124-142 | Any number of leading zero digits of a high tag is passed over. |
| Header.TagRoundTrip | Pods/BoringSSL/crypto/asn1/asn1_lib.c:124-142 | The base-128 octets of every int tag are read back through the overflow checks. |
| Header.HeaderBounds | Pods/BoringSSL/crypto/asn1/asn1_lib.c:134-167 | The tag of an accepted header fits an int and is at most 255 when universal, its length fits a long, and its contents are in the window. |
| HeaderCode.ObjectSize | Pods/BoringSSL/crypto/asn1/asn1_lib.c:278-304 | For each of the forms 0, 1 and 2 the size announced is that of what ASN1_put_object and ASN1_put_eoc add, plus the contents, or -1 when that is INT_MAX or more. |
| HeaderCode.PutHeader | Pods/BoringSSL/crypto/asn1/asn1_lib.c:218-276 | In the primitive, constructed and indefinite forms the loops write exactly the header octets at the pointer, change nothing else and move past them. |
| HeaderCode.ReadHeader | Pods/BoringSSL/crypto/asn1/asn1_lib.c:110-180 | The loops read the header in the window, with the result flags of each outcome: 0x80 alone for no header, 0x80 besides the others for contents that reach out of the window. The pointer moves only inside the window. For a negative length, which is not turned away, octets behind the window are looked at, and how many. |
| HeaderCode.NoBound | Pods/BoringSSL/crypto/asn1/asn1_lib.c:124-136 | With a negative length the loop over a high tag can go on behind the window for any number of octets. |
| Straying.StrayingFails | include/asn1_mac.h:289-292 | A run in which a negative length is handed on fails, into any object. |
| Straying.EncodingsStayInside | include/asn1_mac.h:289-292 | No encoding of an object that X.690 allows leads to a negative length, whether it is read or refused, whatever follows. |
| Straying.WrittenStaysInside | include/asn1_mac.h:289-292 | Nothing the macros write does. |
| Straying.CutOffWrapper | include/asn1_mac.h:289-292 | The indefinite header a0 80 with no octet or one behind it does, for every inner type. |
| Failures.FailureKeepsObject | include/asn1_mac.h:75-104 | A failing call leaves the caller's object as it was exactly when its header is refused, or it is a record whose fields before the failing one bring nothing new and whose failing field keeps its object; a list is freed otherwise. |
| Failures.FailureKeepsNothing | include/asn1_mac.h:75-104 | With every field NULL: exactly when the header is refused, no guard takes the first octet of the contents, or the d2i of the first guard that does refuses. |
| Failures.FieldsBehindStay | include/asn1_mac.h:129-133 | The fields behind the failing one are not touched. |
| Failures.HalfRead | include/asn1_mac.h:149-153 | Two NULL fields, the first optional, and the octets 30 02 05 00: the call fails and leaves the first field set. |
| Theorems.DecIsOver | include/asn1_mac.h:75-85 | The caller's object has no part in what is accepted or how far; what is read is laid over it. |
| HeaderCode.ReadTag | Pods/BoringSSL/crypto/asn1/asn1_lib.c:124-142 | The high-tag loop reads the tag exactly when it ends before the counter comes down to zero and no int overflows; a counter below zero never ends it. |
| Loops.PutSequence | include/asn1_mac.h:564-568 | A writer that opens with an indefinite length, puts each element and closes writes the indefinite form of their encodings and nothing else. |
| Loops.LoopIsRead | include/asn1_mac.h:564-568 | What it writes is read as a SEQUENCE OF with the canonical form of each element, up to the end it wrote. |
| Loops.GetSequenceOf | include/asn1_mac.h:124-126 | A reader that loops until end_sequence reads what the reader of a SEQUENCE OF reads, but only when constructed, hands on a negative length exactly when that one does, and frees the elements on failure. |
| Primitives.PrimitiveKeepsContract | include/asn1.h:941-943 | Every universal primitive type keeps the contract the macros ask of a field codec. |
| Primitives.PrimitiveContents | include/asn1.h:941-943 | The octets behind the header are the contents, one by one, when written and when read. |
| Encoder.I2D | include/asn1_mac.h:380-386 | With no buffer the result is the length announced, which is a sum with -1 in it where a part is too long; with one, exactly the octets of the put pass are written at the pointer, nothing else changes and the pointer moves past them. |
| Passes.LengthsAgreeExactly | include/asn1_mac.h:443-448 | When no int overflows, the length pass of a record or list returns as many octets as the put pass writes exactly when the encoding is smaller than INT_MAX, and then the put pass writes the encoding. |
| Passes.PassesAgree | include/asn1_mac.h:443-562 | Below INT_MAX the put pass writes the encoding, the length pass returns its length, and no int overflows. |
| Passes.TooLongForItsWrapper | include/asn1_mac.h:443-448 | For an EXPLICIT field whose wrapper reaches INT_MAX, behind a NULL, the length pass returns 3 and the put pass writes more than INT_MAX octets. |
| Encoder.LenFields | include/asn1_mac.h:443-472 | The length pass adds up what is announced for the fields and keeps for each EXPLICIT field the length its put macro needs. |
| Encoder.PutFields | include/asn1_mac.h:475-562 | The put pass writes the fields one behind the other with the lengths kept. |
| Encoder.PutImplicit | include/asn1_mac.h:477-483 | Rewriting the octet in place gives the retagged encoding. |
| Encoder.PutItems | Pods/BoringSSL/crypto/asn1/tasn_enc.c:410-482 | A list is written in order; a SET OF is then arranged ascending. |
| Decoder.D2I | include/asn1_mac.h:75-104 | Every run leaves the input octets as they were; on success the slot holds the object and the pointer has moved past it, on failure the pointer has not moved; allocated and not freed is exactly what the slot gained; and a negative length is handed on exactly when Straying.Strays says so of the window. |
| Decoder.D2IRecord | include/asn1_mac.h:87-108 | vars, Init, start_sequence, the get macros and Finish together are the reader of a record; a new object is freed on failure and only then. |
| Objects.NodesExact | include/asn1_mac.h:81-103 | What is counted as allocated and freed with a value is the number of places in it: the root, and whatever each field that is set and each element leads to. |
| Decoder.GetFields | include/asn1_mac.h:129-177 | Over any sequence of get macros, failing or not, the pointer stays between where it was and the end of the contents and the input is as it was; when all succeed the pointer and the length left add up to the same. |
| Decoder.ConstCtx.Get | include/asn1_mac.h:129-133 | The length left falls by the octets taken. |
| Decoder.ConstCtx.GetImplicit | include/asn1_mac.h:163-169 | The octet overwritten for the inner d2i is put back on success and on failure. |
| Decoder.ConstCtx.GetExplicit | include/asn1_mac.h:277-300 | The header, the window, the inner d2i and the end check are those of the EXPLICIT step, and a negative length is handed on exactly when an indefinite header has fewer than two octets behind it. |
| Decoder.ConstCtx.GetField | include/asn1_mac.h:149-300 | Each guard takes or skips the field, and looks at an octet only when one is left. |
| Decoder.ConstCtx.GetSequence | include/asn1_mac.h:106-108 | The header of a SEQUENCE is read and the cursor set to its contents. |
| Decoder.ConstCtx.EndSequence | include/asn1_mac.h:124-126 | The loop test is true when nothing is left or when the end-of-contents is next, which it then takes and remembers. |
| Decoder.ConstCtx.Finished | include/asn1_mac.h:91-96 | Nothing is left over, or the end-of-contents is taken, unless it was taken before. |
| Decoder.D2IItems | Pods/BoringSSL/crypto/asn1/tasn_dec.c:649-679 | The elements up to the end are read, and freed when one fails. |
| EndToEnd.WrittenIsRead | include/asn1_mac.h:558-571 | A window over what i2d wrote, or more, is read as the canonical object and taken to where i2d left its pointer, without a look outside it. |
| EndToEnd.Duplicate | Pods/BoringSSL/crypto/asn1/a_dup.c:62-85 | ASN1_dup returns the canonical object of its argument and keeps nothing else alive. |
| BigNum.BIGNUM.CorrectTop | include/bn.h:835-848 | The top comes down to the last word that is not zero, reading only used words and writing none; the value stays and zero loses its sign. |
| Words.StrippedCorrect | include/bn.h:839-844 | Dropping zero words from the top keeps the magnitude and stops at the first word that is not zero. |
| Words.StrippedLeast | include/bn.h:839-844 | No smaller top has only zero words above it. |
| Words.SameMagnitude | include/bn.h:804-812 | Any two word arrays have the same magnitude exactly when they agree after bn_correct_top. |
| BigNum.NormalUnique | include/bn.h:804-812 | Two normal numbers are equal exactly when sign and words are. |
| BigNum.PredicatesExact | include/bn.h:401-406 | On a normal number BN_is_zero, BN_is_one, BN_is_word and BN_is_odd hold exactly for the values they name, for any word size. |
| BigNum.AbsIsWordExact | include/bn.h:401-402 | BN_abs_is_word asks for the low word of its argument; it is exact for every argument that fits in a word and never right for one that does not. |
| BigNum.ZeroWithoutNormalForm | include/bn.h:403 | On words that are not normal BN_is_zero is right unless there are words and all are zero. |
| BigNum.BIGNUM.constructor | Pods/BoringSSL/crypto/fipsmodule/bn/bn.c:69-85 | A new number is a normal zero, for each word size up to 64 bits. |
| BigNum.BIGNUM.SetWords | Pods/BoringSSL/crypto/fipsmodule/bn/bn.c:290-300 | Any words become the normal form of the number they stand for, when there is or can be room for them, with the words array replaced only when too small. |
| BigNum.BIGNUM.Zero | include/bn.h:409-414 | The result is a normal zero. |
| Words.NumBitsCorrect | Pods/BoringSSL/crypto/fipsmodule/bn/bn.c:230-238 | On a normal number BN_num_bits is the bit length of the number. |
| Words.NumBytesCorrect | include/bn.h:398 | BN_num_bytes is the fewest octets that hold the number. |
| BigNum.BIGNUM.Expand | include/bn.h:725-734 | A non-negative bit count is refused where bits+BN_BITS2-1 would exceed an int; otherwise a number with too few words gets exactly the ceiling in words, and one that has them already is untouched. |
| BigNum.BIGNUM.WExpand | include/bn.h:736 | Words are kept and the words array is replaced only when it was too small. |
| Words.WordsForExact | include/bn.h:730-733 | That many words hold every number below 2^bits, and 2^(bits-1) needs all of them. |

## Left out

- Error codes, the error queue and `c.line`: they are only reported.
- Failure of malloc: an allocation always succeeds.
- A NULL `a` and a NULL `*a` are one case (the macros treat them alike), and nested objects are values: sharing of one object by two fields is not modelled.
- Objects are counted when they are allocated and freed; their memory layout is not modelled.
- Sums of lengths that overflow an int: C gives them no meaning, so `Encoder.I2D` requires that none occurs; below INT_MAX none does (`Passes.PassesAgree`).
- A field codec that fails: it is taken to leave its object alone. That is not part of `Schema.KeepsContract`, and a codec that frees or changes the object would do so.
- What the `func()` of M_ASN1_D2I_vars sets in a new object (as with M_ASN1_New): a new object has every field NULL.
- What a field codec takes as an encoding of its own type: the X.690 relation takes it as given, so the length forms of leaves are theirs.
- `long` is taken to have 64 bits, as `sizeof` in asn1_get_length is 8.
- IMPLICIT tags from 31 on: put_IMP_opt and get_IMP_opt build one identifier octet, which holds a tag below 31 (section 8.1.2.2 of X.690); `Schema.ImpOpt` has no others.
- A field codec that is given a negative length: it is taken to fail, as ASN1_get_object does; what octets it looks at is its own.
- What lies behind the buffer: `HeaderCode.ReadHeader` counts the octets looked at behind a window up to the end of the buffer it has.
- M_ASN1_D2I_begin and M_ASN1_D2I_Finish_nolen: a record without a surrounding SEQUENCE.
- M_ASN1_D2I_get_x, get_int, get_set_strings and the `_type` forms: the same steps around another callee.
- The comparison and sort of a SET OF are functions; the in-place qsort is not modelled, and `Canonical.OneOrder` says why its steps do not matter.
- The table in BN_num_bits_word: its result is taken as the bit length of a word.
- bn_pollute, BN_with_flags, static flags other than the one bn_expand2 looks at, and all BIGNUM arithmetic.

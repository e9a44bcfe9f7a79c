# PdfSharpCore signature handler, modelled in Dafny

This project models `PdfSignatureHandler`, the signing session of
PdfSharpCore. The session embeds a detached signature into a PDF in two
phases around a save.

- **Before the save** (`AddSignatureComponents`):
  - it makes sure the document has an interactive form (AcroForm);
  - it forces the form's `/SigFlags` to 3;
  - it reuses the signature field named in the options, or creates one;
  - it reserves two placeholders in that field: a `/Contents` hex string of
    the maximum signature length and a `/ByteRange` array padded to 36
    characters;
  - it attaches a new field to page 0's `/Annots` and to the form's `/Fields`.
- **After the save** (`ComputeSignatureAndRange`), on the saved bytes:
  - it writes the real ByteRange `[0, cStart, cEnd, len - cEnd]` over its
    placeholder;
  - it signs every byte outside the Contents placeholder `[cStart, cEnd)`;
  - it rejects a signature longer than the reservation;
  - otherwise it writes the signature's lower-case hexadecimal text in place,
    one byte past the placeholder's opening `<`.

The ByteRange and Contents entries are those of a signature dictionary
(section 12.8.1 of ISO 32000-1). SigFlags 3 sets the SignaturesExist and
AppendOnly bits of the interactive form dictionary (section 12.7.2 of
ISO 32000-1).

Modules, in dependency order:

- `Wrappers`: `Option`, for C#'s `null` and `int?`.
- `Streams`: bytes, and the in-place overwrite of a saved stream (`array<byte>`).
- `Hex`: `FormatHex`, the ASCII bytes written, and a decoder that proves the
  text reads back as the signature.
- `ByteRanges`: `GetRangeToSign`, the signed view of the file, and the
  ByteRange descriptor.
- `Documents`: the form, its fields, the pages and the document, as classes
  updated in place.
- `Signatures`: the `SignatureHandler` class (constructor, `AttachToDocument`,
  `AddSignatureComponents`, `ComputeSignatureAndRange`) and `SignAndPatch`.
  `SignAndPatch` is the pure meaning of the after-save step; the lemmas about
  the saved bytes are stated over it.

The C# events become ordered calls: the caller runs `AttachToDocument`, then
`AddSignatureComponents`, then `ComputeSignatureAndRange`. The source's
exceptions become outcome values:

- `NoFirstPage` for `Pages[0]` on a document without pages;
- `AnnotsNotArray` for the null `as PdfArray` cast;
- `SignatureTooLong` for the size check.

Whatever the source changed before it threw stays changed in the model.

## Model

| member | source | states |
|---|---|---|
| Signatures.SignatureHandler.constructor | PdfSharpCore/Pdf.Signatures/PdfSignatureHandler.cs:51-56 | The signer, the options and the optional maximum signature length are stored as given; no document and no placeholders yet. |
| Signatures.SignatureHandler.AttachToDocument | PdfSharpCore/Pdf.Signatures/PdfSignatureHandler.cs:38-49 | The document is remembered. A known maximum length is kept and nothing is reported. Otherwise the signer is probed once on the single byte 0, and the length of its output becomes the maximum and is reported (the SignatureSizeComputed value). |
| Signatures.SignatureHandler.AddSignatureComponents | PdfSharpCore/Pdf.Signatures/PdfSignatureHandler.cs:100-157 | The form exists afterwards: the old one, or a fresh one. Its entries are the old ones with exactly one /SigFlags, holding 3. The named existing signature field is reused; otherwise a fresh signature field is made, with /T `FieldName ?? "Signature1"`. The field ends up Filled. No other field changes. A reused field leaves page 0 and /Fields as they were. A new field is appended once to page 0's /Annots (an array is created when the entry is missing) and once to /Fields. With no page the outcome is NoFirstPage; with a non-array /Annots it is AnnotsNotArray, and /Fields is unchanged in both cases. |
| Signatures.SignatureHandler.ReserveField | PdfSharpCore/Pdf.Signatures/PdfSignatureHandler.cs:114-146 | The field is new exactly when no existing signature field was found. A new field is fresh, a signature field, named `FieldName ?? "Signature1"`. Either way the field ends up Filled, from its old rectangle and appearance (a new field's are the default rectangle and none). |
| Signatures.SignatureHandler.FillField | PdfSharpCore/Pdf.Signatures/PdfSignatureHandler.cs:122-146 | Filled: the rectangle is replaced only when the field is new or the option is neither Empty nor the all-zero default. The Contents placeholder has width maximumSignatureLength and the ByteRange placeholder is `[0 0 0 0]` padded to 36; both are what the trackers hold. Reason and location come from the options. A visible field gets the appearance: the caller's appearance handler when one is given, otherwise the default one carrying location, reason and the signer's name; an invisible field keeps its own. |
| Signatures.SignatureHandler.AttachNewField | PdfSharpCore/Pdf.Signatures/PdfSignatureHandler.cs:148-156 | No page: NoFirstPage, nothing changed. /Annots neither missing nor an array: AnnotsNotArray and /Fields unchanged. Otherwise page 0's /Annots is the old array (or an empty one) plus the field, and /Fields is the old list plus the field. |
| Signatures.SignatureHandler.ComputeSignatureAndRange | PdfSharpCore/Pdf.Signatures/PdfSignatureHandler.cs:58-78 | The outcome and the stream's new bytes are exactly SignAndPatch of the old bytes, the descriptor text and the maximum length. The lemmas below give what that means. |
| Signatures.SignAndPatch | PdfSharpCore/Pdf.Signatures/PdfSignatureHandler.cs:58-78 | The after-save step as a function of the saved bytes. The patched file always has the saved file's length. |
| Signatures.SignAndPatchEmbedsSignature | PdfSharpCore/Pdf.Signatures/PdfSignatureHandler.cs:68-77 | After a successful patch the file embeds the signature. The signer's output over the patched file's own signed bytes lies hex-encoded in the Contents placeholder, from `cStart + 1` and ending before the closing delimiter at `cEnd - 1`, and decodes back to that output. |
| Signatures.SignAndPatchRejectsLongSignature | PdfSharpCore/Pdf.Signatures/PdfSignatureHandler.cs:70-72 | The outcome is SignatureTooLong if and only if the signature is longer than the maximum. In that case only the ByteRange text has been written, so when the ByteRange placeholder lies outside `[cStart, cEnd)` the Contents placeholder is exactly as saved. Otherwise the outcome carries the signature, which fits the maximum. |
| Signatures.SignAndPatchTouchesOnlyPlaceholders | PdfSharpCore/Pdf.Signatures/PdfSignatureHandler.cs:61-77 | Outside the ByteRange text, a rejected signature leaves every byte as saved. A written signature changes only its hexadecimal digits, twice as many as its bytes, from `cStart + 1`, so the unused padding of the placeholder is kept. |
| Signatures.SignAndPatchKeepsDelimiters | PdfSharpCore/Pdf.Signatures/PdfSignatureHandler.cs:74-77 | When the ByteRange placeholder lies outside the Contents placeholder, the Contents delimiters at `cStart` and `cEnd - 1` keep their saved bytes, whatever the outcome. |
| Signatures.SignAndPatchKeepsByteRange | PdfSharpCore/Pdf.Signatures/PdfSignatureHandler.cs:61-77 | When the ByteRange placeholder lies outside the Contents placeholder, the ByteRange text written first is still there at the end. |
| ByteRanges.RangeToSign | PdfSharpCore/Pdf.Signatures/PdfSignatureHandler.cs:90-96 | Two ranges. For a placeholder inside the stream both lie in bounds, and an offset is covered by one of them if and only if it lies outside `[cStart, cEnd)`. |
| ByteRanges.RangedView | PdfSharpCore/Pdf.Signatures/PdfSignatureHandler.cs:92-96 | Reading the ranged stream over in-bounds ranges to the end yields as many bytes as the ranges' lengths add up to; RangedViewOfTwo gives their content. |
| ByteRanges.RangeToSignView | PdfSharpCore/Pdf.Signatures/PdfSignatureHandler.cs:90-98 | The two ranges `(0, cStart)` and `(cEnd, len - cEnd)` lie inside the stream. Read in order, they give exactly the stream with `[cStart, cEnd)` cut out. |
| ByteRanges.RangedViewOfTwo | PdfSharpCore/Pdf.Signatures/PdfSignatureHandler.cs:92-96 | A ranged stream over two in-bounds ranges reads the first window, then the second. |
| ByteRanges.SignedViewExcludesPlaceholder | PdfSharpCore/Pdf.Signatures/PdfSignatureHandler.cs:90-96 | The signed bytes are `len - (cEnd - cStart)` long. The `j`-th signed byte is the stream byte at StreamIndex, which is never in `[cStart, cEnd)`. Every stream byte outside `[cStart, cEnd)` is one of them. |
| ByteRanges.PatchInsidePlaceholder | PdfSharpCore/Pdf.Signatures/PdfSignatureHandler.cs:74-77 | A write that stays inside `[cStart, cEnd)` leaves the signed bytes unchanged. |
| ByteRanges.Descriptor | PdfSharpCore/Pdf.Signatures/PdfSignatureHandler.cs:62-65 | The ByteRange array has four entries; their meaning is DescriptorPartitionsFile. |
| ByteRanges.DescriptorPartitionsFile | PdfSharpCore/Pdf.Signatures/PdfSignatureHandler.cs:61-66 | Read as (offset, length) pairs, the written descriptor names exactly the ranges that are signed. The first span, the placeholder and the second span add up to the file length. Every offset lies in exactly one of them. An offset is signed if and only if it is outside `[cStart, cEnd)`. |
| Hex.FormatHex | PdfSharpCore/Pdf.Signatures/PdfSignatureHandler.cs:80-88 | The loop builds exactly HexText of the bytes. |
| Hex.HexText | PdfSharpCore/Pdf.Signatures/PdfSignatureHandler.cs:84-85 | The text has two characters per byte, all lower-case hexadecimal digits. |
| Hex.HexTextAt | PdfSharpCore/Pdf.Signatures/PdfSignatureHandler.cs:84-85 | Characters `2i` and `2i + 1` spell byte `i` (`{0:x2}`), so the digits come in byte order. |
| Hex.ByteHex | PdfSharpCore/Pdf.Signatures/PdfSignatureHandler.cs:85 | Two lower-case digits whose value, high nibble first, is the byte. |
| Hex.Digit | PdfSharpCore/Pdf.Signatures/PdfSignatureHandler.cs:85 | A nibble prints as a lower-case hexadecimal digit, a decimal digit exactly when it is below 10. |
| Hex.HexTextAppend | PdfSharpCore/Pdf.Signatures/PdfSignatureHandler.cs:84-85 | The text of a concatenation is the concatenation of the texts. |
| Hex.Ascii | PdfSharpCore/Pdf.Signatures/PdfSignatureHandler.cs:74 | Encoding ASCII text gives one byte per character, with the character's code. |
| Hex.HexBytes | PdfSharpCore/Pdf.Signatures/PdfSignatureHandler.cs:74 | The bytes written for a signature are twice as many as the signature's bytes. |
| Hex.DecodeHex | PdfSharpCore/Pdf.Signatures/PdfSignatureHandler.cs:74 | A successful decoding yields half as many bytes as it reads. |
| Hex.DecodeHexBytes | PdfSharpCore/Pdf.Signatures/PdfSignatureHandler.cs:74-77 | Decoding the written bytes gives the signature back. |
| Hex.DecodeHexOnlyHexBytes | PdfSharpCore/Pdf.Signatures/PdfSignatureHandler.cs:74-77 | Decoding succeeds only on bytes that HexBytes writes for the decoded value. Together with DecodeHexBytes, the two are inverse. |
| Streams.Overwrite | PdfSharpCore/Pdf.Signatures/PdfSignatureHandler.cs:76-77 | After a seek and a write that ends inside the stream, the length is unchanged. The window holds the data and every other byte is as before. |
| Streams.OverwriteKeepsWindow | PdfSharpCore/Pdf.Signatures/PdfSignatureHandler.cs:61-77 | A write keeps every window it does not touch. |
| Streams.WriteAt | PdfSharpCore/Pdf.Signatures/PdfSignatureHandler.cs:76-77 | Writing into the array in place leaves it equal to Overwrite of its old contents. |
| Documents.ForceSigFlags | PdfSharpCore/Pdf.Signatures/PdfSignatureHandler.cs:107-111 | The keys are the old keys plus /SigFlags, /SigFlags holds 3, and every other entry is kept. |
| Documents.AcroForm.SetSigFlags | PdfSharpCore/Pdf.Signatures/PdfSignatureHandler.cs:107-111 | The Remove-if-present then Add leaves the entries equal to ForceSigFlags of the old ones. |
| Documents.AcroForm.constructor | PdfSharpCore/Pdf.Signatures/PdfSignatureHandler.cs:105 | A new form has no entries and no fields. |
| Documents.Document.EnsureAcroForm | PdfSharpCore/Pdf.Signatures/PdfSignatureHandler.cs:104-105 | Afterwards there is a form: the old one if there was one, otherwise a fresh empty one. |
| Documents.Document.PrepareForm | PdfSharpCore/Pdf.Signatures/PdfSignatureHandler.cs:102-111 | The form returned is the document's: the old one, or a fresh one. Its entries are ForceSigFlags of the old entries, its fields are the old fields, and the pages are untouched. |
| Documents.Field.NewSignature | PdfSharpCore/Pdf.Signatures/PdfSignatureHandler.cs:118-119 | A new signature field with the given /T and nothing else set. |
| Documents.FindByName | PdfSharpCore/Pdf.Signatures/PdfSignatureHandler.cs:113 | The first position from `from` on whose /T is the name, or None when there is none. |
| Documents.ResolveSignatureField | PdfSharpCore/Pdf.Signatures/PdfSignatureHandler.cs:113 | Some exactly when the first field with that /T is a signature field, and then it is that field. |
| Documents.ExistingSignatureField | PdfSharpCore/Pdf.Signatures/PdfSignatureHandler.cs:113 | None when no field name is given. Otherwise any result is a signature field of the document's form, carrying that name. |

## Left out

- Signatures.SignatureHandler.AttachToDocument: the BeforeSave and AfterSave subscriptions are not modelled. The caller makes the two calls in order instead. Attaching twice therefore does not register the hooks twice as the source does. There is no error for a second attachment or a stale position, because the code has none.
- Signatures.SignatureHandler.AttachToDocument: the SignatureSizeComputed event is its return value.
- Signatures.SignatureHandler.ComputeSignatureAndRange: the Contents and ByteRange positions come from PositionTracker, which is not part of this model. They are parameters, under the preconditions `contentsStart < contentsEnd <= len < 2^31` and `contentsStart + 2 + 2 * maximum <= contentsEnd`. The second says the hex text of a signature of the maximum length fits between the placeholder's opening `<` and its closing `>`. The source does not show how the padded PdfString width relates to twice the maximum, so this is a precondition.
- Signatures.SignatureHandler.ComputeSignatureAndRange: PdfArray.Write, the serializer, is the parameter `writeArray`. Its text for the descriptor is required to fit the 36 reserved bytes.
- Signatures.SignatureHandler.ComputeSignatureAndRange: the `(int)` casts are exact under `len < 2^31`, so truncation is not modelled.
- Signatures.SignatureHandler.ComputeSignatureAndRange: RangedStream is not part of this model. ByteRanges.RangedView stands for reading it to the end.
- Signatures.SignatureHandler.ComputeSignatureAndRange: Encoding.Default is taken to be ASCII on the hexadecimal digits.
- Signer: the CMS/PKCS#7 signing of ISigner is a total function value `sign`, and GetName is the string `name`. Exceptions raised inside the signer are not modelled.
- Signatures.SignatureHandler.FillField: `IsVisible` of the field is not part of this model. It is the parameter `isVisible` applied to the field's rectangle.
- Signatures.SignatureHandler.FillField: RenderAppearance and the appearance handlers are recorded as the Appearance value the field is rendered with; their drawing is not modelled.
- Signatures.SignatureHandler.FillField: the placeholders are recorded as values (width, padding, initial array) rather than serialized PdfString and PdfArray objects.
- Documents.ResolveSignatureField: the `Fields[name]` indexer is not part of this model. It is taken to return the first field whose /T equals the name; dotted hierarchical names and child fields are not modelled.
- Documents.Field.NewSignature: setting /T right after `new PdfSignatureField` is folded into the constructor, and a field's /T is fixed. The handler never renames a field.
- Documents.Rect: XRect's double coordinates are integers. Only equality with `XRect.Empty` and the all-zero default matters here.
- Documents.Annots: an /Annots entry that is not a direct array, including an indirect reference, is AnnotsNotArray, the null cast of the source.
- SignatureTestConsole/Program.cs, the demo harness with its file I/O, certificates and drawing, is not modelled.
- ISignatureAppearanceHandler.cs, a rendering interface without logic, is only the Appearance value.

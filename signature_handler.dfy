/**
 * PdfSignatureHandler: one signing session. Before the document is saved it
 * reserves a /Contents placeholder and a /ByteRange placeholder in a signature
 * field; after the save it patches the real ByteRange and the hex-encoded
 * signature into the saved bytes, in place, without changing their length.
 */
module Signatures {
  import opened Wrappers
  import opened Streams
  import opened Hex
  import opened ByteRanges
  import opened Documents

  /** Room kept for the ByteRange array, enough to replace `[0 0 0 0]` by the real values. */
  const ByteRangePaddingLength: nat := 36

  /** The /T given to a new field when the options name none. */
  const DefaultFieldName := "Signature1"

  /** The one-byte input the signer is probed with to size the placeholder. */
  const ProbeInput: seq<byte> := [0]

  /** ISigner: GetSignedCms, as a total function of the signed bytes, and GetName. */
  datatype Signer = Signer(sign: seq<byte> -> seq<byte>, name: string)

  /** PdfSignatureOptions, with the appearance handler given by an identity. */
  datatype Options = Options(
    fieldName: Option<string>,
    rectangle: Rect,
    reason: string,
    location: string,
    appearanceHandler: Option<nat>)

  /** How AddSignatureComponents ends: normally, or by the exception it raises. */
  datatype PrepareOutcome =
    | Prepared
    | NoFirstPage     // the document has no page to attach the field to
    | AnnotsNotArray  // page 0 has an /Annots entry that is not a direct array

  /** How ComputeSignatureAndRange ends. */
  datatype SignOutcome =
    | Signed(signature: seq<byte>)
    | SignatureTooLong(length: nat, maximum: int)  // the signature outgrew the length reserved for it

  /**
   * What a completed save must satisfy: the Contents placeholder, one byte past
   * its opening `<`, holds the hexadecimal text of the signer's output over the
   * file's own signed bytes, and that text ends before the placeholder's
   * closing `>`.
   */
  ghost predicate EmbedsSignature(s: seq<byte>, cStart: nat, cEnd: nat, signer: Signer)
    requires cStart <= cEnd <= |s|
  {
    var signature := signer.sign(SignedView(s, cStart, cEnd));
    && cStart + 2 + 2 * |signature| <= cEnd
    && DecodeHex(s[cStart + 1..cStart + 1 + 2 * |signature|]) == Some(signature)
  }

  /** The outcome of the after-save step and the bytes it leaves behind. */
  datatype Patched = Patched(outcome: SignOutcome, bytes: seq<byte>)

  /**
   * What ComputeSignatureAndRange does to the saved bytes `s`: write the
   * ByteRange text at `rangeStart`, sign the bytes outside `[cStart, cEnd)`,
   * give up if the signature is longer than `maximum`, and otherwise write its
   * hexadecimal text one byte past the placeholder's `<`.
   */
  function SignAndPatch(s: seq<byte>, cStart: nat, cEnd: nat, rangeStart: nat, rangeText: seq<byte>,
                        signer: Signer, maximum: int): (r: Patched)
    requires cStart < cEnd <= |s| && cStart + 2 + 2 * maximum <= cEnd
    requires rangeStart + |rangeText| <= |s|
    ensures |r.bytes| == |s|
  {
    var ranged := Overwrite(s, rangeStart, rangeText);
    var signature := signer.sign(SignedView(ranged, cStart, cEnd));
    if |signature| > maximum then
      Patched(SignatureTooLong(|signature|, maximum), ranged)
    else
      Patched(Signed(signature), Overwrite(ranged, cStart + 1, HexBytes(signature)))
  }

  /**
   * A completed patch embeds the signature: the hexadecimal write stays inside
   * the placeholder, so the signed bytes of the patched file are those that
   * were signed, and the text written decodes to the signature.
   */
  lemma SignAndPatchEmbedsSignature(s: seq<byte>, cStart: nat, cEnd: nat, rangeStart: nat, rangeText: seq<byte>,
                                    signer: Signer, maximum: int)
    requires cStart < cEnd <= |s| && cStart + 2 + 2 * maximum <= cEnd
    requires rangeStart + |rangeText| <= |s|
    ensures var r := SignAndPatch(s, cStart, cEnd, rangeStart, rangeText, signer, maximum);
      r.outcome.Signed? ==> EmbedsSignature(r.bytes, cStart, cEnd, signer)
  {
    var ranged := Overwrite(s, rangeStart, rangeText);
    var signature := signer.sign(SignedView(ranged, cStart, cEnd));
    if |signature| <= maximum {
      var patched := Overwrite(ranged, cStart + 1, HexBytes(signature));
      PatchInsidePlaceholder(ranged, cStart, cEnd, cStart + 1, HexBytes(signature));
      assert patched[cStart + 1..cStart + 1 + 2 * |signature|] == HexBytes(signature);
      DecodeHexBytes(signature);
    }
  }

  /**
   * The size check comes before any Contents byte is written: a signature
   * longer than the reservation is reported, never truncated, and only the
   * ByteRange text has been written, so a Contents placeholder apart from
   * the ByteRange one is as it was saved.
   */
  lemma SignAndPatchRejectsLongSignature(s: seq<byte>, cStart: nat, cEnd: nat, rangeStart: nat, rangeText: seq<byte>,
                                         signer: Signer, maximum: int)
    requires cStart < cEnd <= |s| && cStart + 2 + 2 * maximum <= cEnd
    requires rangeStart + |rangeText| <= |s|
    ensures var r := SignAndPatch(s, cStart, cEnd, rangeStart, rangeText, signer, maximum);
      var signature := signer.sign(SignedView(Overwrite(s, rangeStart, rangeText), cStart, cEnd));
      && (r.outcome.SignatureTooLong? <==> |signature| > maximum)
      && (r.outcome.SignatureTooLong? ==> r.bytes == Overwrite(s, rangeStart, rangeText))
      && (r.outcome.Signed? ==> r.outcome.signature == signature && |signature| <= maximum)
      && (r.outcome.SignatureTooLong? && (rangeStart + |rangeText| <= cStart || cEnd <= rangeStart) ==>
            r.bytes[cStart..cEnd] == s[cStart..cEnd])
  {
    if rangeStart + |rangeText| <= cStart || cEnd <= rangeStart {
      OverwriteKeepsWindow(s, rangeStart, rangeText, cStart, cEnd);
    }
  }

  /**
   * Only the bytes written change: outside the ByteRange text, a rejected
   * signature leaves every byte as saved, and a written one changes only its
   * `2 * |signature|` hexadecimal digits from `cStart + 1`, so the rest of
   * the placeholder's padding is kept.
   */
  lemma SignAndPatchTouchesOnlyPlaceholders(s: seq<byte>, cStart: nat, cEnd: nat, rangeStart: nat, rangeText: seq<byte>,
                                            signer: Signer, maximum: int, i: nat)
    requires cStart < cEnd <= |s| && cStart + 2 + 2 * maximum <= cEnd
    requires rangeStart + |rangeText| <= |s|
    requires i < |s| && !(rangeStart <= i < rangeStart + |rangeText|)
    ensures var r := SignAndPatch(s, cStart, cEnd, rangeStart, rangeText, signer, maximum);
      && (r.outcome.SignatureTooLong? ==> r.bytes[i] == s[i])
      && (r.outcome.Signed? && !(cStart + 1 <= i < cStart + 1 + 2 * |r.outcome.signature|) ==> r.bytes[i] == s[i])
  {
    var ranged := Overwrite(s, rangeStart, rangeText);
    assert ranged[i] == s[i];
  }

  /**
   * The placeholder's delimiters survive: when the ByteRange placeholder lies
   * outside the Contents one, the opening `<` at `cStart` and the closing `>`
   * at `cEnd - 1` are the saved bytes, whatever the outcome.
   */
  lemma SignAndPatchKeepsDelimiters(s: seq<byte>, cStart: nat, cEnd: nat, rangeStart: nat, rangeText: seq<byte>,
                                    signer: Signer, maximum: int)
    requires cStart < cEnd <= |s| && cStart + 2 + 2 * maximum <= cEnd
    requires rangeStart + |rangeText| <= |s|
    requires rangeStart + |rangeText| <= cStart || cEnd <= rangeStart
    ensures var r := SignAndPatch(s, cStart, cEnd, rangeStart, rangeText, signer, maximum);
      r.bytes[cStart] == s[cStart] && r.bytes[cEnd - 1] == s[cEnd - 1]
  {
    SignAndPatchTouchesOnlyPlaceholders(s, cStart, cEnd, rangeStart, rangeText, signer, maximum, cStart);
    SignAndPatchTouchesOnlyPlaceholders(s, cStart, cEnd, rangeStart, rangeText, signer, maximum, cEnd - 1);
  }

  /**
   * The ByteRange text written first is still there at the end when the
   * ByteRange placeholder lies outside the Contents placeholder.
   */
  lemma SignAndPatchKeepsByteRange(s: seq<byte>, cStart: nat, cEnd: nat, rangeStart: nat, rangeText: seq<byte>,
                                   signer: Signer, maximum: int)
    requires cStart < cEnd <= |s| && cStart + 2 + 2 * maximum <= cEnd
    requires rangeStart + |rangeText| <= |s|
    requires rangeStart + |rangeText| <= cStart || cEnd <= rangeStart
    ensures SignAndPatch(s, cStart, cEnd, rangeStart, rangeText, signer, maximum).bytes[rangeStart..rangeStart + |rangeText|]
            == rangeText
  {
    var ranged := Overwrite(s, rangeStart, rangeText);
    var signature := signer.sign(SignedView(ranged, cStart, cEnd));
    if |signature| <= maximum {
      OverwriteKeepsWindow(ranged, cStart + 1, HexBytes(signature), rangeStart, rangeStart + |rangeText|);
    }
  }

  class SignatureHandler {
    const signer: Signer
    const options: Options
    var maximumSignatureLength: Option<int>
    var document: Document?
    var contentsTracker: Option<Placeholder>
    var rangeTracker: Option<Placeholder>

    /** The appearance a visible field is rendered with. */
    function AppearanceFor(): Appearance
    {
      match options.appearanceHandler
      case Some(h) => Custom(h)
      case None => Default(options.location, options.reason, signer.name)
    }

    /** The length is fixed by the caller when one is given; otherwise it waits for the probe. */
    constructor (signer: Signer, options: Options, signatureMaximumLength: Option<int>)
      ensures this.signer == signer && this.options == options
      ensures maximumSignatureLength == signatureMaximumLength
      ensures document == null && contentsTracker.None? && rangeTracker.None?
    {
      this.signer := signer;
      this.maximumSignatureLength := signatureMaximumLength;
      this.options := options;
      this.document := null;
      this.contentsTracker := None;
      this.rangeTracker := None;
    }

    /**
     * AttachToDocument: remembers the document and, only if no length is known
     * yet, probes the signer once with the byte 0 and keeps the length of its
     * output. `computed` is the value the SignatureSizeComputed event carries,
     * when it is raised.
     */
    method AttachToDocument(documentToSign: Document) returns (computed: Option<int>)
      modifies this`document, this`maximumSignatureLength
      ensures document == documentToSign
      ensures old(maximumSignatureLength).Some? ==>
        maximumSignatureLength == old(maximumSignatureLength) && computed.None?
      ensures old(maximumSignatureLength).None? ==>
        maximumSignatureLength == Some(|signer.sign(ProbeInput)|) && computed == maximumSignatureLength
    {
      document := documentToSign;
      computed := None;
      if maximumSignatureLength.None? {
        maximumSignatureLength := Some(|signer.sign(ProbeInput)|);
        computed := maximumSignatureLength;
      }
    }

    /**
     * The field as AddSignatureComponents leaves it, given whether it was
     * created and the rectangle and appearance it had before: the rectangle
     * is replaced only on a new field or by an explicit non-empty one; fresh
     * Contents and ByteRange placeholders are set and bound to the trackers;
     * reason and location come from the options; a visible field gets the
     * appearance, an invisible one keeps what it had.
     */
    ghost predicate Filled(field: Field, isNew: bool, isVisible: Rect -> bool, rectBefore: Rect,
                           appearanceBefore: Option<Appearance>)
      reads this, field
    {
      && maximumSignatureLength.Some?
      && field.rect ==
           (if isNew || (options.rectangle != Empty && options.rectangle != DefaultRect)
            then options.rectangle
            else rectBefore)
      && field.contents == contentsTracker == Some(HexContents(maximumSignatureLength.value))
      && field.byteRange == rangeTracker == Some(RangeArray(ByteRangePaddingLength, [0, 0, 0, 0]))
      && field.reason == options.reason && field.location == options.location
      && field.appearance == (if isVisible(field.rect) then Some(AppearanceFor()) else appearanceBefore)
    }

    /**
     * AddSignatureComponents, run before the save. `isVisible` stands for the
     * field's IsVisible test on its rectangle. The ghost `field` is the field
     * signed into: the existing signature field named in the options, or a new one.
     */
    method AddSignatureComponents(isVisible: Rect -> bool)
      returns (outcome: PrepareOutcome, ghost field: Field, ghost reused: bool)
      requires document != null && maximumSignatureLength.Some?
      modifies this`contentsTracker, this`rangeTracker
      modifies document, document.acroForm, document.Fields(), document.FirstPage()
      ensures document == old(document) && document.pages == old(document.pages)
      ensures unchanged(this`maximumSignatureLength)
      // the form exists afterwards, with exactly one /SigFlags, set to 3
      ensures document.acroForm != null
      ensures old(document.acroForm) != null ==> document.acroForm == old(document.acroForm)
      ensures old(document.acroForm) == null ==> fresh(document.acroForm)
      ensures document.acroForm.entries == ForceSigFlags(old(document.Entries()))
      // an existing signature field of that name is reused, otherwise a new one is made
      ensures var found := old(ExistingSignatureField(document, options.fieldName));
        reused == found.Some? && (reused ==> field == found.value)
      ensures !reused ==>
        fresh(field) && field.isSignature && field.name == Some(options.fieldName.GetOr(DefaultFieldName))
      // its rectangle, placeholders, reason, location and appearance
      ensures reused ==> Filled(field, false, isVisible, old(field.rect), old(field.appearance))
      ensures !reused ==> Filled(field, true, isVisible, DefaultRect, None)
      // no other field changes
      ensures forall f :: f in old(document.Fields()) && f != field ==> unchanged(f)
      // a reused field is not attached again
      ensures reused ==>
        outcome == Prepared && document.acroForm.fields == old(document.Fields()) &&
        forall p :: p in old(document.FirstPage()) ==> unchanged(p)
      // a new field is appended once to page 0's /Annots and once to /Fields
      ensures !reused ==>
        if old(document.pages) == [] then
          outcome == NoFirstPage && document.acroForm.fields == old(document.Fields())
        else
          var page := document.pages[0];
          match old(page.annots)
          case AnnotOther =>
            outcome == AnnotsNotArray && page.annots == AnnotOther &&
            document.acroForm.fields == old(document.Fields())
          case NoAnnots =>
            outcome == Prepared && page.annots == AnnotArray([field]) &&
            document.acroForm.fields == old(document.Fields()) + [field]
          case AnnotArray(items) =>
            outcome == Prepared && page.annots == AnnotArray(items + [field]) &&
            document.acroForm.fields == old(document.Fields()) + [field]
    {
      var doc := document;
      ghost var found := ExistingSignatureField(doc, options.fieldName);
      ghost var oldAnnots := if doc.pages == [] then NoAnnots else doc.pages[0].annots;
      var form := doc.PrepareForm();
      var existing := if options.fieldName.None? then None else ResolveSignatureField(form.fields, options.fieldName.value);
      assert existing == found;

      var signature, isNew := ReserveField(existing, isVisible);
      field, reused := signature, !isNew;

      outcome := Prepared;
      if isNew {
        assert doc.pages != [] ==> doc.pages[0].annots == oldAnnots;
        outcome := AttachNewField(doc, signature);
      }
    }

    /**
     * The middle of AddSignatureComponents: given the signature field found
     * under the requested name, if any, reuse it or create and name a new
     * one, and fill it in.
     */
    method ReserveField(existing: Option<Field>, isVisible: Rect -> bool) returns (signature: Field, isNew: bool)
      requires maximumSignatureLength.Some?
      modifies this`contentsTracker, this`rangeTracker, if existing.Some? then {existing.value} else {}
      ensures isNew == existing.None? && (!isNew ==> signature == existing.value)
      ensures isNew ==>
        fresh(signature) && signature.isSignature && signature.name == Some(options.fieldName.GetOr(DefaultFieldName))
      ensures !isNew ==> Filled(signature, false, isVisible, old(signature.rect), old(signature.appearance))
      ensures isNew ==> Filled(signature, true, isVisible, DefaultRect, None)
    {
      isNew := existing.None?;
      if isNew {
        signature := new Field.NewSignature(options.fieldName.GetOr(DefaultFieldName));
      } else {
        signature := existing.value;
      }
      FillField(signature, isNew, isVisible);
    }

    /**
     * The part of AddSignatureComponents that writes into the field: its
     * rectangle (only for a new field or an explicit non-empty one), fresh
     * Contents and ByteRange placeholders bound to the trackers, the reason
     * and location, and the appearance when the field is visible.
     */
    method FillField(signature: Field, isNew: bool, isVisible: Rect -> bool)
      requires maximumSignatureLength.Some?
      modifies signature`rect, signature`contents, signature`byteRange, signature`reason,
               signature`location, signature`appearance, this`contentsTracker, this`rangeTracker
      ensures Filled(signature, isNew, isVisible, old(signature.rect), old(signature.appearance))
    {
      if isNew || (options.rectangle != Empty && options.rectangle != DefaultRect) {
        signature.rect := options.rectangle;
      }

      var paddedContents := HexContents(maximumSignatureLength.value);
      var paddedRange := RangeArray(ByteRangePaddingLength, [0, 0, 0, 0]);
      contentsTracker := Some(paddedContents);
      rangeTracker := Some(paddedRange);

      signature.contents := Some(paddedContents);
      signature.byteRange := Some(paddedRange);
      signature.reason := options.reason;
      signature.location := options.location;

      if isVisible(signature.rect) {
        signature.appearance := Some(AppearanceFor());
      }
    }

    /**
     * The last step of AddSignatureComponents for a new field: page 0 gets an
     * /Annots array if it has none, the field is appended to it, then to the
     * form's /Fields.
     */
    method AttachNewField(doc: Document, signature: Field) returns (outcome: PrepareOutcome)
      requires doc.acroForm != null
      modifies doc.FirstPage(), doc.acroForm`fields
      ensures
        if old(doc.pages) == [] then
          outcome == NoFirstPage && doc.acroForm.fields == old(doc.acroForm.fields)
        else
          var page := doc.pages[0];
          match old(page.annots)
          case AnnotOther =>
            outcome == AnnotsNotArray && page.annots == AnnotOther &&
            doc.acroForm.fields == old(doc.acroForm.fields)
          case NoAnnots =>
            outcome == Prepared && page.annots == AnnotArray([signature]) &&
            doc.acroForm.fields == old(doc.acroForm.fields) + [signature]
          case AnnotArray(items) =>
            outcome == Prepared && page.annots == AnnotArray(items + [signature]) &&
            doc.acroForm.fields == old(doc.acroForm.fields) + [signature]
    {
      if doc.pages == [] {
        return NoFirstPage;
      }
      var page := doc.pages[0];
      if page.annots.NoAnnots? {
        page.annots := AnnotArray([]);
      }
      if !page.annots.AnnotArray? {
        return AnnotsNotArray;
      }
      page.annots := AnnotArray(page.annots.items + [signature]);
      doc.acroForm.fields := doc.acroForm.fields + [signature];
      outcome := Prepared;
    }

    /**
     * ComputeSignatureAndRange, run after the save on the saved bytes. The
     * trackers have resolved the Contents placeholder to `[contentsStart,
     * contentsEnd)` and the ByteRange placeholder to start at `rangeStart`;
     * `writeArray` is the serializer's text for a PDF integer array.
     */
    method ComputeSignatureAndRange(stream: array<byte>, contentsStart: nat, contentsEnd: nat, rangeStart: nat,
                                    writeArray: seq<int> -> seq<byte>)
      returns (outcome: SignOutcome)
      requires maximumSignatureLength.Some? && contentsTracker.Some? && rangeTracker.Some?
      requires contentsStart < contentsEnd <= stream.Length < 0x8000_0000
      requires contentsStart + 2 + 2 * maximumSignatureLength.value <= contentsEnd
      requires rangeStart + ByteRangePaddingLength <= stream.Length
      requires |writeArray(Descriptor(contentsStart, contentsEnd, stream.Length))| <= ByteRangePaddingLength
      modifies stream
      ensures var r := SignAndPatch(old(stream[..]), contentsStart, contentsEnd, rangeStart,
                                    writeArray(Descriptor(contentsStart, contentsEnd, stream.Length)),
                                    signer, maximumSignatureLength.value);
        outcome == r.outcome && stream[..] == r.bytes
    {
      var len := stream.Length;
      var rangeArray := Descriptor(contentsStart, contentsEnd, len);
      WriteAt(stream, rangeStart, writeArray(rangeArray));

      var rangeToSign := RangeToSign(contentsStart, contentsEnd, len);
      RangeToSignView(stream[..], contentsStart, contentsEnd);
      var signature := signer.sign(RangedView(stream[..], rangeToSign));
      if |signature| > maximumSignatureLength.value {
        return SignatureTooLong(|signature|, maximumSignatureLength.value);
      }

      var hexFormatted := FormatHex(signature);
      WriteAt(stream, contentsStart + 1, Ascii(hexFormatted));
      outcome := Signed(signature);
    }
  }
}

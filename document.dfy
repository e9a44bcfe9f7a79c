/**
 * The parts of a PDF document the signature handler touches: the interactive
 * form (AcroForm) with its entries and its field list, the pages with their
 * /Annots arrays, and the signature fields, which are shared objects updated
 * in place.
 */
module Documents {
  import opened Wrappers

  /**
   * A rectangle. `Empty` is the empty rectangle; `DefaultRect` is the default value, all
   * zeros. Coordinates are whole numbers here.
   */
  datatype Rect = Empty | Box(x: int, y: int, width: int, height: int)

  const DefaultRect := Box(0, 0, 0, 0)

  /** The values a dictionary entry can hold, as far as the handler cares. */
  datatype PdfValue = PdfInteger(n: int) | PdfName(name: string) | PdfText(text: string) | PdfOther

  const SigFlagsKey := "/SigFlags"

  /**
   * SigFlags 3 sets bit 1, SignaturesExist, and bit 2, AppendOnly, of the
   * interactive form dictionary (section 12.7.2 of ISO 32000-1).
   */
  const SigFlagsValue := 3

  /**
   * The placeholders a PositionTracker is bound to: a padded hexadecimal
   * string for /Contents and a padded array for /ByteRange.
   */
  datatype Placeholder = HexContents(width: int) | RangeArray(padding: nat, values: seq<int>)

  /** Who draws a visible field: a caller-supplied handler or the default one. */
  datatype Appearance = Custom(handler: nat) | Default(location: string, reason: string, signer: string)

  /**
   * A form field. Only signature fields (`PdfSignatureField`) can be signed
   * into. Its /T name is fixed when the field is made: the handler names a new
   * field right after creating it and never renames one.
   */
  class Field {
    const isSignature: bool
    const name: Option<string>
    var rect: Rect
    var contents: Option<Placeholder>
    var byteRange: Option<Placeholder>
    var reason: string
    var location: string
    var appearance: Option<Appearance>

    /** A new signature field, named when it is made, with nothing else set. */
    constructor NewSignature(name: string)
      ensures isSignature && this.name == Some(name) && rect == DefaultRect
      ensures contents.None? && byteRange.None? && appearance.None?
    {
      isSignature := true;
      this.name := Some(name);
      rect := DefaultRect;
      contents := None;
      byteRange := None;
      reason := "";
      location := "";
      appearance := None;
    }
  }

  /** The interactive form dictionary: its entries other than /Fields, and /Fields. */
  class AcroForm {
    var entries: map<string, PdfValue>
    var fields: seq<Field>

    /** A new interactive form: no entries and no fields. */
    constructor ()
      ensures entries == map[] && fields == []
    {
      entries := map[];
      fields := [];
    }

    /** Removes /SigFlags if present, then adds /SigFlags 3. */
    method SetSigFlags()
      modifies this`entries
      ensures entries == ForceSigFlags(old(entries))
    {
      if SigFlagsKey in entries {
        entries := entries - {SigFlagsKey};
      }
      entries := entries[SigFlagsKey := PdfInteger(SigFlagsValue)];
    }
  }

  /** A page's /Annots entry: absent, a direct array, or something else. */
  datatype Annots = NoAnnots | AnnotArray(items: seq<object>) | AnnotOther

  class Page {
    var annots: Annots

    /** A page with the given /Annots entry. */
    constructor (annots: Annots)
      ensures this.annots == annots
    {
      this.annots := annots;
    }
  }

  /** The document catalog's AcroForm (null when the document has none) and the page list. */
  class Document {
    var acroForm: AcroForm?
    var pages: seq<Page>

    /** A document with the given form, or none, and the given pages. */
    constructor (acroForm: AcroForm?, pages: seq<Page>)
      ensures this.acroForm == acroForm && this.pages == pages
    {
      this.acroForm := acroForm;
      this.pages := pages;
    }

    function Fields(): seq<Field>
      reads this, acroForm
    {
      if acroForm == null then [] else acroForm.fields
    }

    function Entries(): map<string, PdfValue>
      reads this, acroForm
    {
      if acroForm == null then map[] else acroForm.entries
    }

    function FirstPage(): set<Page>
      reads this
    {
      if pages == [] then {} else {pages[0]}
    }

    /** Gives the catalog an empty interactive form when it has none; an existing form is kept. */
    method EnsureAcroForm()
      modifies this`acroForm
      ensures acroForm != null
      ensures old(acroForm) != null ==> acroForm == old(acroForm)
      ensures old(acroForm) == null ==> fresh(acroForm) && acroForm.entries == map[] && acroForm.fields == []
    {
      if acroForm == null {
        acroForm := new AcroForm();
      }
    }

    /**
     * The form the handler signs into: created when missing, its /SigFlags
     * forced to 3, its fields left as they were.
     */
    method PrepareForm() returns (form: AcroForm)
      modifies this`acroForm, acroForm
      ensures acroForm == form
      ensures old(acroForm) != null ==> form == old(acroForm)
      ensures old(acroForm) == null ==> fresh(form)
      ensures form.entries == ForceSigFlags(old(Entries())) && form.fields == old(Fields())
      ensures unchanged(this`pages)
    {
      EnsureAcroForm();
      form := acroForm;
      form.SetSigFlags();
    }
  }

  /**
   * The AcroForm entries after the handler removes any /SigFlags and adds
   * /SigFlags 3: one /SigFlags entry, holding 3, and every other entry kept.
   */
  function ForceSigFlags(m: map<string, PdfValue>): (r: map<string, PdfValue>)
    ensures r.Keys == m.Keys + {SigFlagsKey}
    ensures r[SigFlagsKey] == PdfInteger(SigFlagsValue)
    ensures forall k :: k in m && k != SigFlagsKey ==> r[k] == m[k]
  {
    m[SigFlagsKey := PdfInteger(SigFlagsValue)]
  }

  /** The position of the first field from `from` on whose /T is `name`. */
  function FindByName(fields: seq<Field>, name: string, from: nat): (r: Option<nat>)
    requires from <= |fields|
    ensures r.Some? ==> from <= r.value < |fields| && fields[r.value].name == Some(name)
    ensures r.Some? ==> forall j :: from <= j < r.value ==> fields[j].name != Some(name)
    ensures r.None? ==> forall j :: from <= j < |fields| ==> fields[j].name != Some(name)
    decreases |fields| - from
  {
    if from == |fields| then None
    else if fields[from].name == Some(name) then Some(from)
    else FindByName(fields, name, from + 1)
  }

  /**
   * The field looked up by name in the form, kept only when it is a
   * signature field: the first field called `name`, when it is a signature
   * field; None when no field has that name or
   * the first one that does is of another kind.
   */
  function ResolveSignatureField(fields: seq<Field>, name: string): (r: Option<Field>)
    ensures r.Some? <==> exists i :: 0 <= i < |fields| && fields[i].name == Some(name) && fields[i].isSignature &&
                                  forall j :: 0 <= j < i ==> fields[j].name != Some(name)
    ensures r.Some? ==> r.value in fields && r.value.isSignature && r.value.name == Some(name)
  {
    match FindByName(fields, name, 0)
    case None => None
    case Some(i) => if fields[i].isSignature then Some(fields[i]) else None
  }

  /** The existing field the handler reuses for `fieldName`, if any. */
  function ExistingSignatureField(doc: Document, fieldName: Option<string>): (r: Option<Field>)
    reads doc, doc.acroForm
    ensures r.Some? ==> fieldName.Some? && r.value in doc.Fields() && r.value.isSignature && r.value.name == fieldName
  {
    if fieldName.None? then None else ResolveSignatureField(doc.Fields(), fieldName.value)
  }
}

/** `generatePdf` (src/js/pdf.js:53-322) as the source runs it: one mutable
    cursor `yPos`, a document whose page count grows, and the marks drawn so far,
    updated statement by statement. Every method is proved to perform exactly the
    step the functions of `PdfLayout` describe, so the guarantees proved there
    hold for the document this class produces. */
module PdfWriter {
  import opened FormData
  import opened PdfNames
  import opened PdfLayout

  class Writer {
    /** `doc.internal.pageSize` and the active language, fixed for one run. */
    const geometry: Geometry
    const lang: string
    /** `yPos`. */
    var yPos: real
    /** `doc.internal.getNumberOfPages()`. */
    var pageCount: nat
    /** What has been drawn so far, in drawing order. */
    var marks: seq<Mark>

    function State(): Doc
      reads this
    {
      Doc(yPos, pageCount, marks)
    }

    /** `new jsPDF(...)` and `let yPos = margin`. */
    constructor (geometry: Geometry, lang: string)
      ensures this.geometry == geometry && this.lang == lang
      ensures State() == Start
    {
      this.geometry := geometry;
      this.lang := lang;
      yPos := Margin;
      pageCount := 1;
      marks := [];
    }

    /** `checkPageBreak(neededHeight)`. */
    method CheckPageBreak(neededHeight: real) returns (broke: bool)
      modifies this
      ensures broke <==> Breaks(old(State()), neededHeight, geometry)
      ensures State() == Reserve(old(State()), neededHeight, geometry)
    {
      if yPos + neededHeight > geometry.height - BottomReserve {
        pageCount := pageCount + 1;
        yPos := Margin;
        return true;
      }
      return false;
    }

    /** The two-line title (lines 90-100). */
    method AddTitle()
      modifies this
      ensures State() == Title(old(State()), lang)
    {
      marks := marks + [Heading(pageCount, yPos, "pdfTitle")];
      if lang != "pt" {
        yPos := yPos + 6.0;
      }
      yPos := yPos + 10.0;
    }

    /** One field row (the body of `fields.forEach`, lines 129-164). */
    method AddRow(f: Field)
      modifies this
      ensures State() == PdfLayout.AddRow(old(State()), geometry, lang, f)
    {
      if f.value == "" {
        return;
      }
      var rowHeight := if lang == "pt" then 8.0 else 12.0;
      var broke := CheckPageBreak(rowHeight);
      var startY := yPos;
      marks := marks + [Row(pageCount, yPos, f.labelKey, f.value)];
      if lang != "pt" {
        yPos := yPos + 4.0;
      }
      var valueY := startY;
      var i := 0;
      while i < f.lines
        invariant 0 <= i <= f.lines
        invariant valueY == startY + LineHeight * (i as real)
      {
        valueY := valueY + LineHeight;
        i := i + 1;
      }
      yPos := Max(yPos, valueY - LineHeight) + 5.0;
    }

    /** `addSection(titleKey, fields)` (lines 107-167). */
    method AddSection(titleKey: string, fields: seq<Field>)
      modifies this
      ensures State() == PdfLayout.AddSection(old(State()), geometry, lang, titleKey, fields)
    {
      var broke := CheckPageBreak(30.0);
      marks := marks + [Heading(pageCount, yPos, titleKey)];
      if lang != "pt" {
        yPos := yPos + 5.0;
      }
      yPos := yPos + 2.0;
      yPos := yPos + 6.0;
      ghost var head := State();
      assert head == SectionHeading(old(State()), geometry, lang, titleKey);
      var i := 0;
      while i < |fields|
        invariant 0 <= i <= |fields|
        invariant State() == AddRows(head, geometry, lang, fields[..i])
      {
        AddRow(fields[i]);
        assert fields[..i + 1][..i] == fields[..i];
        i := i + 1;
      }
      assert fields[..|fields|] == fields;
      yPos := yPos + 3.0;
    }

    /** One attachment (the body of the loop at lines 239-286): the caption, then
        the fitted image or, when decoding fails, the error marker. */
    method AddAttachment(a: Attachment)
      modifies this
      ensures State() == PlaceAttachment(old(State()), geometry, a)
    {
      var broke := CheckPageBreak(AttachmentBudget);
      marks := marks + [Caption(pageCount, yPos, a.caption + ":")];
      yPos := yPos + 5.0;
      match a.image {
        case Loaded(w, h) =>
          var size := FitImage(w, h, ContentWidth(geometry));
          marks := marks + [Picture(pageCount, yPos, size.0, size.1)];
          yPos := yPos + size.1 + 10.0;
        case Failed =>
          marks := marks + [ImageError(pageCount, yPos)];
          yPos := yPos + 10.0;
      }
    }

    /** The attachments block (lines 219-287). */
    method AddAttachments(atts: seq<Attachment>)
      modifies this
      ensures State() == AttachmentBlock(old(State()), geometry, lang, atts)
    {
      if |atts| == 0 {
        return;
      }
      yPos := yPos + 10.0;
      var broke := CheckPageBreak(40.0);
      marks := marks + [Heading(pageCount, yPos, "attachments")];
      if lang != "pt" {
        yPos := yPos + 5.0;
      }
      yPos := yPos + 2.0;
      yPos := yPos + 8.0;
      ghost var head := State();
      assert head == AttachmentsHeading(old(State()), geometry, lang);
      for i := 0 to |atts|
        invariant State() == PlaceAttachments(head, geometry, atts[..i])
      {
        AddAttachment(atts[i]);
        assert atts[..i + 1][..i] == atts[..i];
      }
      assert atts[..|atts|] == atts;
    }

    /** The footer pass (lines 289-302): `addFooter(i, totalPages)` for every page,
        then the "generated" line on the last page. */
    method AddFooters(now: string)
      modifies this
      ensures State() == StampFooters(old(State()), now)
    {
      var totalPages := pageCount;
      for i := 1 to totalPages + 1
        invariant marks == old(marks) + FooterMarks(i - 1)
        invariant pageCount == totalPages && yPos == old(yPos)
      {
        marks := marks + [Footer(i, i)];
      }
      marks := marks + [Generated(totalPages, now)];
    }
  }

  /** `generatePdf(form)` without the download: lays out the record and the
      decoded attachments on a fresh document and returns it with the filename
      the source saves it under. `now` is the stamp of the current time and
      `today` the current date as `YYYY-MM-DD`, both from the caller's clock. */
  method GeneratePdf(geometry: Geometry, lang: string, data: Record, svc: Services,
                     atts: seq<Attachment>, now: string, today: string)
    returns (doc: Doc, filename: string)
    ensures doc == Layout(geometry, lang, data, svc, atts, now)
    ensures filename == DeriveFilename(data, today)
  {
    var w := new Writer(geometry, lang);
    w.AddTitle();
    w.AddSection("personalInfo", PersonalInfo(data, svc));
    w.AddSection("travelDocument", TravelDocument(data, svc));
    w.AddSection("travelDetails", TravelDetails(data, svc));
    w.AddSection("accommodation", Accommodation(data, svc));
    ghost var d5 := w.State();
    if Get(data, "phone") != "" || Get(data, "email") != "" {
      w.AddSection("contactInfo", Contact(data, svc));
    }
    assert w.State() == ContactBlock(d5, geometry, lang, data, svc);
    w.AddAttachments(atts);
    assert w.State() == LayoutContent(geometry, lang, data, svc, atts);
    w.AddFooters(now);
    doc := w.State();
    var checkinPart := if Get(data, "checkinDate") != "" then Get(data, "checkinDate") else today;
    filename := Filename(checkinPart, PlacePart(data), NamePart(data));
  }
}

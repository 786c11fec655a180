/** The layout arithmetic of `generatePdf` (src/js/pdf.js:53-322) as functions
    on the state of one generation: the vertical cursor, the number of pages and
    the list of marks written so far. The class `PdfWriter.Writer` performs these
    steps in place; the lemmas here state what the layout guarantees. jsPDF itself
    is not modelled: a mark records what the source asks jsPDF to draw and where. */
module PdfLayout {
  import opened FormData
  import opened PdfNames

  /** Top, left and right margin in mm; a new page starts writing here. */
  const Margin: real := 20.0
  /** Content must end above `pageHeight - BottomReserve`; the footer lives below. */
  const BottomReserve: real := 25.0
  /** Vertical distance between two wrapped lines of a field value. */
  const LineHeight: real := 4.0
  /** Height cap of an embedded image. */
  const MaxImageHeight: real := 100.0
  /** Space `checkPageBreak` asks for before each attachment. */
  const AttachmentBudget: real := 120.0

  datatype PageSize = PageSize(width: real, height: real)

  /** The page size jsPDF reports; the content width must be positive. */
  type Geometry = p: PageSize | p.width > 2.0 * Margin witness PageSize(210.0, 297.0)

  /** `contentWidth = pageWidth - margin * 2`. */
  function ContentWidth(g: Geometry): (w: real)
    ensures w > 0.0
  {
    g.width - 2.0 * Margin
  }

  /** Portuguese is always printed; any other language adds a second line. */
  predicate IsPrimary(lang: string) {
    lang == "pt"
  }

  /** What the source draws, on which page and at which height. A heading stands
      for its Portuguese line (the translated line, when there is one, sits just
      below it). */
  datatype Mark =
    | Heading(page: nat, y: real, key: string)
    | Row(page: nat, y: real, labelKey: string, value: string)
    | Caption(page: nat, y: real, text: string)
    | Picture(page: nat, y: real, width: real, height: real)
    | ImageError(page: nat, y: real)
    | Footer(page: nat, number: nat)
    | Generated(page: nat, stamp: string)
  {
    /** Written while laying out content, before the footer pass. */
    predicate IsContent() {
      !Footer? && !Generated?
    }
  }

  /** The state of one generation: `yPos`, the document's page count, the marks. */
  datatype Doc = Doc(y: real, pages: nat, marks: seq<Mark>)

  /** The state right after `new jsPDF(...)` and `let yPos = margin`. */
  const Start: Doc := Doc(Margin, 1, [])

  /** At least one page, every mark on an existing page, and only content marks. */
  ghost predicate Wf(d: Doc) {
    && d.pages >= 1
    && forall i :: 0 <= i < |d.marks| ==> 1 <= d.marks[i].page <= d.pages && d.marks[i].IsContent()
  }

  /** `e` comes after `d`: pages are only added, on the same page the cursor never
      moves up, and marks are only appended. */
  ghost predicate Advances(d: Doc, e: Doc) {
    && d.pages <= e.pages
    && (e.pages == d.pages ==> d.y <= e.y)
    && d.marks <= e.marks
  }

  lemma AdvancesTrans(a: Doc, b: Doc, c: Doc)
    requires Advances(a, b) && Advances(b, c)
    ensures Advances(a, c)
  {
  }

  // ---------------------------------------------------------------------------
  // checkPageBreak

  /** `checkPageBreak(neededHeight)` decides to start a new page. */
  predicate Breaks(d: Doc, neededHeight: real, g: Geometry) {
    d.y + neededHeight > g.height - BottomReserve
  }

  /** `checkPageBreak(neededHeight)`: a new page, with the cursor back at the top
      margin, exactly when the needed height does not fit above the bottom reserve. */
  function Reserve(d: Doc, neededHeight: real, g: Geometry): (e: Doc)
  {
    if Breaks(d, neededHeight, g) then d.(y := Margin, pages := d.pages + 1) else d
  }

  /** After the reservation, a block no taller than the page's writable band fits
      between the cursor and the bottom reserve, and nothing else changed. */
  lemma ReserveFits(d: Doc, neededHeight: real, g: Geometry)
    requires 0.0 <= neededHeight <= g.height - BottomReserve - Margin
    ensures Reserve(d, neededHeight, g).y + neededHeight <= g.height - BottomReserve
    ensures Reserve(d, neededHeight, g).marks == d.marks
    ensures Breaks(d, neededHeight, g) <==> Reserve(d, neededHeight, g).pages == d.pages + 1
    ensures !Breaks(d, neededHeight, g) <==> Reserve(d, neededHeight, g) == d
  {
  }

  lemma ReserveAdvances(d: Doc, neededHeight: real, g: Geometry)
    requires Wf(d)
    ensures Wf(Reserve(d, neededHeight, g)) && Advances(d, Reserve(d, neededHeight, g))
  {
  }

  // ---------------------------------------------------------------------------
  // Title and headings

  /** Extra height of a heading's translated line. */
  function SecondLine(lang: string, height: real): real {
    if IsPrimary(lang) then 0.0 else height
  }

  /** The document title at the top of the first page (lines 90-100). */
  function Title(d: Doc, lang: string): (e: Doc)
  {
    Doc(d.y + SecondLine(lang, 6.0) + 10.0, d.pages, d.marks + [Heading(d.pages, d.y, "pdfTitle")])
  }

  /** The title block of `addSection` (lines 108-124): reserve 30, write the
      heading, then the rule and its spacing. */
  function SectionHeading(d: Doc, g: Geometry, lang: string, titleKey: string): (e: Doc)
  {
    var r := Reserve(d, 30.0, g);
    Doc(r.y + SecondLine(lang, 5.0) + 2.0 + 6.0, r.pages, r.marks + [Heading(r.pages, r.y, titleKey)])
  }

  /** The heading before the attachments (lines 220-237): a gap of 10, reserve 40,
      the heading, the rule and its spacing. */
  function AttachmentsHeading(d: Doc, g: Geometry, lang: string): (e: Doc)
  {
    var r := Reserve(d.(y := d.y + 10.0), 40.0, g);
    Doc(r.y + SecondLine(lang, 5.0) + 2.0 + 8.0, r.pages, r.marks + [Heading(r.pages, r.y, "attachments")])
  }

  lemma TitleAdvances(d: Doc, lang: string)
    requires Wf(d)
    ensures Wf(Title(d, lang)) && Advances(d, Title(d, lang))
    ensures Title(d, lang).y >= d.y + 10.0
  {
  }

  lemma SectionHeadingAdvances(d: Doc, g: Geometry, lang: string, titleKey: string)
    requires Wf(d)
    ensures Wf(SectionHeading(d, g, lang, titleKey)) && Advances(d, SectionHeading(d, g, lang, titleKey))
  {
    ReserveAdvances(d, 30.0, g);
  }

  lemma AttachmentsHeadingAdvances(d: Doc, g: Geometry, lang: string)
    requires Wf(d)
    ensures Wf(AttachmentsHeading(d, g, lang)) && Advances(d, AttachmentsHeading(d, g, lang))
  {
    ReserveAdvances(d.(y := d.y + 10.0), 40.0, g);
  }

  // ---------------------------------------------------------------------------
  // Field rows

  /** One `{ labelKey, value }` of a section, with the number of lines
      `splitTextToSize` wraps the value into (a jsPDF font metric, given). */
  datatype Field = Field(labelKey: string, value: string, lines: nat)

  /** `rowHeight`: the space reserved for a row, whatever the length of its value. */
  function RowHeight(lang: string): real {
    if IsPrimary(lang) then 8.0 else 12.0
  }

  function Max(a: real, b: real): real {
    if a < b then b else a
  }

  /** Where the cursor ends after a row that starts at `startY`: below the lower of
      the label block (one or two lines) and the last wrapped value line, plus 5. */
  function RowEnd(startY: real, lang: string, lines: nat): (y: real)
  {
    var labelBottom := startY + SecondLine(lang, 4.0);
    var valueY := startY + LineHeight * (lines as real);
    Max(labelBottom, valueY - LineHeight) + 5.0
  }

  /** The row always ends strictly below its start, at least 5 below its lowest
      label line and at least 5 below its last value line. */
  lemma RowEndBounds(startY: real, lang: string, lines: nat)
    ensures RowEnd(startY, lang, lines) >= startY + SecondLine(lang, 4.0) + 5.0
    ensures lines >= 1 ==> RowEnd(startY, lang, lines) >= startY + LineHeight * ((lines - 1) as real) + 5.0
    ensures lines >= 1 ==>
      RowEnd(startY, lang, lines) == Max(startY + SecondLine(lang, 4.0), startY + LineHeight * ((lines - 1) as real)) + 5.0
    ensures RowEnd(startY, lang, lines) > startY
    ensures RowEnd(startY, lang, lines) >= startY + LineHeight * (lines as real)
  {
  }

  /** One iteration of `fields.forEach` (lines 129-164): an empty value is skipped. */
  function AddRow(d: Doc, g: Geometry, lang: string, f: Field): (e: Doc)
  {
    if f.value == "" then d
    else
      var r := Reserve(d, RowHeight(lang), g);
      Doc(RowEnd(r.y, lang, f.lines), r.pages, r.marks + [Row(r.pages, r.y, f.labelKey, f.value)])
  }

  /** The rows of `fields`, in order. */
  function AddRows(d: Doc, g: Geometry, lang: string, fields: seq<Field>): (e: Doc)
    decreases |fields|
  {
    if fields == [] then d
    else AddRow(AddRows(d, g, lang, fields[..|fields| - 1]), g, lang, fields[|fields| - 1])
  }

  /** `addSection(titleKey, fields)` (lines 107-167). */
  function AddSection(d: Doc, g: Geometry, lang: string, titleKey: string, fields: seq<Field>): (e: Doc)
  {
    var rows := AddRows(SectionHeading(d, g, lang, titleKey), g, lang, fields);
    rows.(y := rows.y + 3.0)
  }

  /** A row with a value is drawn on the page the reservation leaves the cursor on,
      at the reserved height, and moves the cursor strictly down that page. */
  lemma AddRowAdvances(d: Doc, g: Geometry, lang: string, f: Field)
    requires Wf(d)
    ensures Wf(AddRow(d, g, lang, f)) && Advances(d, AddRow(d, g, lang, f))
    ensures f.value == "" ==> AddRow(d, g, lang, f) == d
    ensures f.value != "" ==>
      var r := Reserve(d, RowHeight(lang), g);
      && AddRow(d, g, lang, f).pages == r.pages
      && AddRow(d, g, lang, f).y > r.y
      && AddRow(d, g, lang, f).marks == d.marks + [Row(r.pages, r.y, f.labelKey, f.value)]
  {
    ReserveAdvances(d, RowHeight(lang), g);
    if f.value != "" {
      RowEndBounds(Reserve(d, RowHeight(lang), g).y, lang, f.lines);
    }
  }

  lemma {:induction false} AddRowsAdvances(d: Doc, g: Geometry, lang: string, fields: seq<Field>)
    requires Wf(d)
    ensures Wf(AddRows(d, g, lang, fields)) && Advances(d, AddRows(d, g, lang, fields))
    decreases |fields|
  {
    if fields != [] {
      var init := fields[..|fields| - 1];
      AddRowsAdvances(d, g, lang, init);
      AddRowAdvances(AddRows(d, g, lang, init), g, lang, fields[|fields| - 1]);
    }
  }

  lemma AddSectionAdvances(d: Doc, g: Geometry, lang: string, titleKey: string, fields: seq<Field>)
    requires Wf(d)
    ensures Wf(AddSection(d, g, lang, titleKey, fields)) && Advances(d, AddSection(d, g, lang, titleKey, fields))
  {
    SectionHeadingAdvances(d, g, lang, titleKey);
    AddRowsAdvances(SectionHeading(d, g, lang, titleKey), g, lang, fields);
  }

  /** The fields whose value is non-empty, in order. */
  function NonEmpty(fields: seq<Field>): (r: seq<Field>)
    ensures |r| <= |fields|
    ensures forall i :: 0 <= i < |r| ==> r[i].value != "" && r[i] in fields
    decreases |fields|
  {
    if fields == [] then []
    else
      var init := NonEmpty(fields[..|fields| - 1]);
      if fields[|fields| - 1].value == "" then init else init + [fields[|fields| - 1]]
  }

  /** Fields with an empty value take no space and draw nothing: laying out a list
      of fields is laying out its non-empty fields alone. */
  lemma {:induction false} EmptyFieldsTakeNoSpace(d: Doc, g: Geometry, lang: string, fields: seq<Field>)
    ensures AddRows(d, g, lang, fields) == AddRows(d, g, lang, NonEmpty(fields))
    decreases |fields|
  {
    if fields != [] {
      var init, last := fields[..|fields| - 1], fields[|fields| - 1];
      EmptyFieldsTakeNoSpace(d, g, lang, init);
      if last.value != "" {
        var ne := NonEmpty(init) + [last];
        assert ne[..|ne| - 1] == NonEmpty(init);
      }
    }
  }

  /** `m` is the row drawn for field `f`. */
  predicate RowFor(m: Mark, f: Field) {
    m.Row? && m.labelKey == f.labelKey && m.value == f.value
  }

  /** One row mark per non-empty field, in field order, and nothing else. */
  lemma {:induction false} RowsDrawNonEmptyFields(d: Doc, g: Geometry, lang: string, fields: seq<Field>)
    ensures |AddRows(d, g, lang, fields).marks| == |d.marks| + |NonEmpty(fields)|
    ensures AddRows(d, g, lang, fields).marks[..|d.marks|] == d.marks
    ensures forall k :: 0 <= k < |NonEmpty(fields)| ==>
      RowFor(AddRows(d, g, lang, fields).marks[|d.marks| + k], NonEmpty(fields)[k])
    decreases |fields|
  {
    if fields != [] {
      var init, last := fields[..|fields| - 1], fields[|fields| - 1];
      RowsDrawNonEmptyFields(d, g, lang, init);
      var before := AddRows(d, g, lang, init);
      var after := AddRows(d, g, lang, fields);
      assert after == AddRow(before, g, lang, last);
      if last.value != "" {
        var ne := NonEmpty(init) + [last];
        assert NonEmpty(fields) == ne;
        var r := Reserve(before, RowHeight(lang), g);
        assert after.marks == before.marks + [Row(r.pages, r.y, last.labelKey, last.value)];
        forall k | 0 <= k < |ne|
          ensures RowFor(after.marks[|d.marks| + k], ne[k])
        {
          if k < |ne| - 1 {
            assert after.marks[|d.marks| + k] == before.marks[|d.marks| + k];
            assert ne[k] == NonEmpty(init)[k];
          } else {
            assert after.marks[|d.marks| + k] == Row(r.pages, r.y, last.labelKey, last.value);
          }
        }
      } else {
        assert after == before;
        assert NonEmpty(fields) == NonEmpty(init);
      }
    }
  }

  /** A value that wraps into `n` lines moves the cursor down by at least `n`
      line heights, even when the row starts a new page. */
  lemma LongValueAdvance(d: Doc, g: Geometry, lang: string, f: Field)
    requires f.value != ""
    ensures var r := Reserve(d, RowHeight(lang), g);
      AddRow(d, g, lang, f).y >= r.y + LineHeight * (f.lines as real)
  {
    RowEndBounds(Reserve(d, RowHeight(lang), g).y, lang, f.lines);
  }

  /** Only the label block is reserved: a row that just fits its reservation but
      wraps into 10 lines ends its value below the page. */
  lemma LongValueCanPassTheBottom(g: Geometry)
    requires g.height > 45.0
    ensures var d := Doc(g.height - BottomReserve - 8.0, 1, []);
      var f := Field("address", "a long address", 10);
      var r := Reserve(d, RowHeight("pt"), g);
      && r == d
      && r.y + LineHeight * ((f.lines - 1) as real) > g.height
  {
  }

  // ---------------------------------------------------------------------------
  // Attachments

  type Dim = x: nat | x > 0 witness 1

  /** The outcome of loading the image (`img.onload` / `img.onerror`). */
  datatype Decode = Loaded(naturalWidth: Dim, naturalHeight: Dim) | Failed

  /** What `getAttachments` hands over for one attachment: its label and, in place
      of the data URL, what decoding it yields. */
  datatype Attachment = Attachment(caption: string, image: Decode)

  /** The size an image is drawn at (lines 258-275): scaled so that the binding
      constraint, width `maxWidth` or height 100, is met exactly. */
  function FitImage(w: Dim, h: Dim, maxWidth: real): (size: (real, real))
    requires maxWidth > 0.0
    ensures 0.0 < size.0 <= maxWidth && 0.0 < size.1 <= MaxImageHeight
    ensures size.0 * (h as real) == size.1 * (w as real)
    ensures size.0 == maxWidth || size.1 == MaxImageHeight
  {
    var nw, nh := w as real, h as real;
    var aspect := nw / nh;
    if nw / maxWidth > nh / MaxImageHeight then
      FitByWidth(nw, nh, maxWidth);
      (maxWidth, maxWidth / aspect)
    else
      FitByHeight(nw, nh, maxWidth);
      (MaxImageHeight * aspect, MaxImageHeight)
  }

  lemma FitByWidth(nw: real, nh: real, maxWidth: real)
    requires nw > 0.0 && nh > 0.0 && maxWidth > 0.0
    requires nw / maxWidth > nh / MaxImageHeight
    ensures 0.0 < maxWidth / (nw / nh) < MaxImageHeight
    ensures maxWidth * nh == (maxWidth / (nw / nh)) * nw
  {
    var aspect := nw / nh;
    assert aspect * nh == nw;
    assert nw * MaxImageHeight > nh * maxWidth by {
      assert nw / maxWidth * maxWidth == nw;
      assert nh / MaxImageHeight * MaxImageHeight == nh;
    }
    var ih := maxWidth / aspect;
    assert ih * aspect == maxWidth;
    assert ih * nw == ih * aspect * nh == maxWidth * nh;
  }

  lemma FitByHeight(nw: real, nh: real, maxWidth: real)
    requires nw > 0.0 && nh > 0.0 && maxWidth > 0.0
    requires !(nw / maxWidth > nh / MaxImageHeight)
    ensures 0.0 < MaxImageHeight * (nw / nh) <= maxWidth
    ensures MaxImageHeight * (nw / nh) * nh == MaxImageHeight * nw
  {
    var aspect := nw / nh;
    assert aspect * nh == nw;
    assert nw * MaxImageHeight <= nh * maxWidth by {
      assert nw / maxWidth * maxWidth == nw;
      assert nh / MaxImageHeight * MaxImageHeight == nh;
    }
  }

  /** Which constraint binds: the width when the image is relatively wider than the
      box, the height of 100 otherwise. */
  lemma FitImageCases(w: Dim, h: Dim, maxWidth: real)
    requires maxWidth > 0.0
    ensures (w as real) / maxWidth > (h as real) / MaxImageHeight ==>
      FitImage(w, h, maxWidth) == (maxWidth, maxWidth * (h as real) / (w as real))
    ensures !((w as real) / maxWidth > (h as real) / MaxImageHeight) ==>
      FitImage(w, h, maxWidth) == (MaxImageHeight * (w as real) / (h as real), MaxImageHeight)
  {
    var nw, nh := w as real, h as real;
    var size := FitImage(w, h, maxWidth);
    if nw / maxWidth > nh / MaxImageHeight {
      assert size.0 == maxWidth;
      assert size.1 * nw == maxWidth * nh;
      assert size.1 == maxWidth * nh / nw;
      assert size == (maxWidth, maxWidth * nh / nw);
      assert nw == w as real && nh == h as real;
      assert maxWidth * nh / nw == maxWidth * (h as real) / (w as real);
      assert size == FitImage(w, h, maxWidth);
    } else {
      assert size.1 == MaxImageHeight;
      assert size.0 * nh == MaxImageHeight * nw;
      assert size.0 == MaxImageHeight * nw / nh;
      assert size == (MaxImageHeight * nw / nh, MaxImageHeight);
    }
  }

  /** A 2000 x 1000 image in a 170 mm wide column is drawn 170 x 85. */
  lemma FitImageExample()
    ensures FitImage(2000, 1000, 170.0) == (170.0, 85.0)
  {
    FitImageCases(2000, 1000, 170.0);
  }

  /** One iteration of `for (const attachment of attachments)` (lines 239-286):
      reserve 120, write the caption, then either the fitted image and a gap of 10
      or the error marker and a step of 10. */
  function PlaceAttachment(d: Doc, g: Geometry, a: Attachment): (e: Doc)
  {
    var r := Reserve(d, AttachmentBudget, g);
    var top := r.y + 5.0;
    var captioned := r.marks + [Caption(r.pages, r.y, a.caption + ":")];
    match a.image
    case Loaded(w, h) =>
      var size := FitImage(w, h, ContentWidth(g));
      Doc(top + size.1 + 10.0, r.pages, captioned + [Picture(r.pages, top, size.0, size.1)])
    case Failed =>
      Doc(top + 10.0, r.pages, captioned + [ImageError(r.pages, top)])
  }

  /** The attachments, strictly one after the other. */
  function PlaceAttachments(d: Doc, g: Geometry, atts: seq<Attachment>): (e: Doc)
    decreases |atts|
  {
    if atts == [] then d
    else PlaceAttachment(PlaceAttachments(d, g, atts[..|atts| - 1]), g, atts[|atts| - 1])
  }

  /** Lines 219-287: nothing at all without attachments. */
  function AttachmentBlock(d: Doc, g: Geometry, lang: string, atts: seq<Attachment>): (e: Doc)
  {
    if atts == [] then d else PlaceAttachments(AttachmentsHeading(d, g, lang), g, atts)
  }

  /** The two marks one attachment leaves: its caption, then its picture or, when
      decoding failed, the error marker. */
  predicate AttachmentMarks(a: Attachment, caption: Mark, body: Mark) {
    && caption.Caption? && caption.text == a.caption + ":"
    && (a.image.Failed? <==> body.ImageError?)
    && (a.image.Loaded? <==> body.Picture?)
  }

  /** Each attachment moves the cursor by 5 plus the image height and 10, or by 5
      plus 10 on failure; an image never reaches into the bottom reserve. */
  lemma PlaceAttachmentStep(d: Doc, g: Geometry, a: Attachment)
    requires g.height >= AttachmentBudget + BottomReserve + Margin
    ensures var r := Reserve(d, AttachmentBudget, g);
      var e := PlaceAttachment(d, g, a);
      && e.pages == r.pages
      && |e.marks| == |d.marks| + 2 && e.marks[..|d.marks|] == d.marks
      && AttachmentMarks(a, e.marks[|d.marks|], e.marks[|d.marks| + 1])
      && (a.image.Failed? ==> e.y == r.y + 5.0 + 10.0)
      && (a.image.Loaded? ==> e.y == r.y + 5.0 + FitImage(a.image.naturalWidth, a.image.naturalHeight, ContentWidth(g)).1 + 10.0)
      && (a.image.Loaded? ==> e.y <= g.height - BottomReserve)
  {
    ReserveFits(d, AttachmentBudget, g);
  }

  lemma PlaceAttachmentAdvances(d: Doc, g: Geometry, a: Attachment)
    requires Wf(d)
    ensures Wf(PlaceAttachment(d, g, a)) && Advances(d, PlaceAttachment(d, g, a))
  {
    ReserveAdvances(d, AttachmentBudget, g);
  }

  /** A failed image does not stop the loop: every attachment, in order, leaves its
      caption and its picture or error marker. */
  lemma {:induction false} EveryAttachmentPlaced(d: Doc, g: Geometry, atts: seq<Attachment>)
    ensures |PlaceAttachments(d, g, atts).marks| == |d.marks| + 2 * |atts|
    ensures PlaceAttachments(d, g, atts).marks[..|d.marks|] == d.marks
    ensures forall k :: 0 <= k < |atts| ==>
      var ms := PlaceAttachments(d, g, atts).marks;
      AttachmentMarks(atts[k], ms[|d.marks| + 2 * k], ms[|d.marks| + 2 * k + 1])
    decreases |atts|
  {
    if atts != [] {
      var init := atts[..|atts| - 1];
      EveryAttachmentPlaced(d, g, init);
      var before := PlaceAttachments(d, g, init);
      var after := PlaceAttachments(d, g, atts);
      assert after.marks[..|before.marks|] == before.marks;
      forall k | 0 <= k < |atts|
        ensures AttachmentMarks(atts[k], after.marks[|d.marks| + 2 * k], after.marks[|d.marks| + 2 * k + 1])
      {
        if k < |atts| - 1 {
          assert after.marks[|d.marks| + 2 * k] == before.marks[|d.marks| + 2 * k];
          assert after.marks[|d.marks| + 2 * k + 1] == before.marks[|d.marks| + 2 * k + 1];
          assert atts[k] == init[k];
        }
      }
    }
  }

  lemma {:induction false} PlaceAttachmentsAdvances(d: Doc, g: Geometry, atts: seq<Attachment>)
    requires Wf(d)
    ensures Wf(PlaceAttachments(d, g, atts)) && Advances(d, PlaceAttachments(d, g, atts))
    decreases |atts|
  {
    if atts != [] {
      var init := atts[..|atts| - 1];
      PlaceAttachmentsAdvances(d, g, init);
      PlaceAttachmentAdvances(PlaceAttachments(d, g, init), g, atts[|atts| - 1]);
    }
  }

  lemma AttachmentBlockAdvances(d: Doc, g: Geometry, lang: string, atts: seq<Attachment>)
    requires Wf(d)
    ensures Wf(AttachmentBlock(d, g, lang, atts)) && Advances(d, AttachmentBlock(d, g, lang, atts))
  {
    if atts != [] {
      AttachmentsHeadingAdvances(d, g, lang);
      PlaceAttachmentsAdvances(AttachmentsHeading(d, g, lang), g, atts);
    }
  }

  // ---------------------------------------------------------------------------
  // Footers

  /** `addFooter(i, totalPages)` for i = 1..n: the footer of page i carries the
      number i (the total is passed but not printed). */
  function FooterMarks(n: nat): (ms: seq<Mark>)
  {
    if n == 0 then [] else FooterMarks(n - 1) + [Footer(n, n)]
  }

  lemma {:induction false} FooterMarksAt(n: nat)
    ensures |FooterMarks(n)| == n
    ensures forall i :: 0 <= i < n ==> FooterMarks(n)[i] == Footer(i + 1, i + 1)
  {
    if n > 0 {
      FooterMarksAt(n - 1);
    }
  }

  /** The footer pass (lines 289-302): a footer on every page, then the
      "generated" stamp on the last page; the cursor and the page count stay. */
  function StampFooters(d: Doc, now: string): (e: Doc)
  {
    d.(marks := d.marks + FooterMarks(d.pages) + [Generated(d.pages, now)])
  }

  /** The footer marks among `ms`, in order. */
  function FootersOf(ms: seq<Mark>): (r: seq<Mark>)
    decreases |ms|
  {
    if ms == [] then []
    else if ms[|ms| - 1].Footer? then FootersOf(ms[..|ms| - 1]) + [ms[|ms| - 1]]
    else FootersOf(ms[..|ms| - 1])
  }

  /** The "generated" stamps among `ms`, in order. */
  function StampsOf(ms: seq<Mark>): (r: seq<Mark>)
    decreases |ms|
  {
    if ms == [] then []
    else if ms[|ms| - 1].Generated? then StampsOf(ms[..|ms| - 1]) + [ms[|ms| - 1]]
    else StampsOf(ms[..|ms| - 1])
  }

  lemma {:induction false} FilterAppend(a: seq<Mark>, b: seq<Mark>)
    ensures FootersOf(a + b) == FootersOf(a) + FootersOf(b)
    ensures StampsOf(a + b) == StampsOf(a) + StampsOf(b)
    decreases |b|
  {
    if b == [] {
      assert a + b == a;
    } else {
      var init := b[..|b| - 1];
      FilterAppend(a, init);
      assert (a + b)[..|a + b| - 1] == a + init;
    }
  }

  lemma {:induction false} ContentHasNoFooters(ms: seq<Mark>)
    requires forall i :: 0 <= i < |ms| ==> ms[i].IsContent()
    ensures FootersOf(ms) == [] && StampsOf(ms) == []
    decreases |ms|
  {
    if ms != [] {
      ContentHasNoFooters(ms[..|ms| - 1]);
    }
  }

  lemma {:induction false} FooterMarksFiltered(n: nat)
    ensures FootersOf(FooterMarks(n)) == FooterMarks(n)
    ensures StampsOf(FooterMarks(n)) == []
  {
    if n > 0 {
      FooterMarksFiltered(n - 1);
      FilterAppend(FooterMarks(n - 1), [Footer(n, n)]);
    }
  }

  /** After the footer pass over laid-out content, page i (1 <= i <= N) has exactly
      one footer and it reads i, the only "generated" stamp is on page N, and the
      page count is unchanged. */
  lemma StampFootersOnEveryPage(d: Doc, now: string)
    requires Wf(d)
    ensures var e := StampFooters(d, now);
      && e.pages == d.pages && e.y == d.y
      && |FootersOf(e.marks)| == d.pages
      && (forall i :: 0 <= i < d.pages ==> FootersOf(e.marks)[i] == Footer(i + 1, i + 1))
      && StampsOf(e.marks) == [Generated(d.pages, now)]
  {
    var fs, stamp := FooterMarks(d.pages), [Generated(d.pages, now)];
    var ms := StampFooters(d, now).marks;
    assert FootersOf(ms) == fs && StampsOf(ms) == stamp by {
      ContentHasNoFooters(d.marks);
      FooterMarksFiltered(d.pages);
      FilterAppend(d.marks, fs);
      FilterAppend(d.marks + fs, stamp);
      assert FootersOf(stamp) == [] && StampsOf(stamp) == stamp;
    }
    FooterMarksAt(d.pages);
  }

  // ---------------------------------------------------------------------------
  // The whole document

  /** The collaborators `generatePdf` calls for text: the Portuguese label table,
      the active-language lookup `t`, `getCountryName`, the locale date format and
      the number of lines `splitTextToSize` wraps a value into. */
  datatype Services = Services(
    ptLabel: string -> string,
    translate: string -> string,
    countryName: string -> string,
    localeDate: string -> string,
    wrap: string -> nat)

  /** `formatDate`: empty for an empty date, otherwise the locale format. */
  function FormatDate(svc: Services, date: string): (r: string)
    ensures date == "" ==> r == ""
  {
    if date == "" then "" else svc.localeDate(date)
  }

  /** An enumerated choice shown as "Portuguese label / translated label"; an
      unset choice shows nothing. */
  function ChoiceValue(svc: Services, raw: string, key: string): (r: string)
    ensures r == "" <==> raw == ""
  {
    if raw == "" then "" else svc.ptLabel(key) + " / " + svc.translate(key)
  }

  function MakeField(svc: Services, labelKey: string, value: string): Field {
    Field(labelKey, value, svc.wrap(value))
  }

  /** The label keys of a section's fields, in order. */
  function LabelKeys(fields: seq<Field>): seq<string> {
    seq(|fields|, i requires 0 <= i < |fields| => fields[i].labelKey)
  }

  /** Each field of a section is labelled by the record entry it shows, is wrapped
      by `splitTextToSize`, and, when that entry is unset, shows nothing (given
      that `getCountryName` of nothing is nothing), so `addSection` skips it. */
  ghost predicate ShowsRecord(fields: seq<Field>, data: Record, svc: Services) {
    forall i :: 0 <= i < |fields| ==>
      && fields[i].lines == svc.wrap(fields[i].value)
      && (Get(data, fields[i].labelKey) == "" && svc.countryName("") == "" ==> fields[i].value == "")
  }

  /** Every row drawn for a section shows a record entry that is set: an unset
      entry takes no row. */
  lemma UnsetFieldsDrawNoRow(d: Doc, g: Geometry, lang: string, fields: seq<Field>, data: Record, svc: Services)
    requires ShowsRecord(fields, data, svc) && svc.countryName("") == ""
    ensures var e := AddRows(d, g, lang, fields);
      forall k :: |d.marks| <= k < |e.marks| ==> e.marks[k].Row? && Get(data, e.marks[k].labelKey) != ""
  {
    RowsDrawNonEmptyFields(d, g, lang, fields);
    var e, ne := AddRows(d, g, lang, fields), NonEmpty(fields);
    forall k | |d.marks| <= k < |e.marks|
      ensures e.marks[k].Row? && Get(data, e.marks[k].labelKey) != ""
    {
      assert RowFor(e.marks[|d.marks| + (k - |d.marks|)], ne[k - |d.marks|]);
      assert ne[k - |d.marks|] in fields;
    }
  }

  /** `personalInfo`: names, sex, date and place of birth, country of birth and
      nationality. */
  function PersonalInfo(data: Record, svc: Services): (r: seq<Field>)
    ensures LabelKeys(r) == ["firstName", "lastName", "sex", "dateOfBirth", "placeOfBirth", "countryOfBirth", "nationality"]
    ensures ShowsRecord(r, data, svc)
  {
    [ MakeField(svc, "firstName", Get(data, "firstName")),
      MakeField(svc, "lastName", Get(data, "lastName")),
      MakeField(svc, "sex", ChoiceValue(svc, Get(data, "sex"), SexLabelKey(Get(data, "sex")))),
      MakeField(svc, "dateOfBirth", FormatDate(svc, Get(data, "dateOfBirth"))),
      MakeField(svc, "placeOfBirth", Get(data, "placeOfBirth")),
      MakeField(svc, "countryOfBirth", svc.countryName(Get(data, "countryOfBirth"))),
      MakeField(svc, "nationality", svc.countryName(Get(data, "nationality"))) ]
  }

  /** `travelDocument`: type, number, issuing country, issue and expiry dates. */
  function TravelDocument(data: Record, svc: Services): (r: seq<Field>)
    ensures LabelKeys(r) == ["documentType", "documentNumber", "issuingCountry", "issueDate", "expiryDate"]
    ensures ShowsRecord(r, data, svc)
  {
    [ MakeField(svc, "documentType", ChoiceValue(svc, Get(data, "documentType"), DocTypeLabelKey(Get(data, "documentType")))),
      MakeField(svc, "documentNumber", Get(data, "documentNumber")),
      MakeField(svc, "issuingCountry", svc.countryName(Get(data, "issuingCountry"))),
      MakeField(svc, "issueDate", FormatDate(svc, Get(data, "issueDate"))),
      MakeField(svc, "expiryDate", FormatDate(svc, Get(data, "expiryDate"))) ]
  }

  /** `travelDetails`: date of entry, country of origin, purpose and destination. */
  function TravelDetails(data: Record, svc: Services): (r: seq<Field>)
    ensures LabelKeys(r) == ["dateOfEntry", "countryOfOrigin", "purposeOfStay", "intendedDestination"]
    ensures ShowsRecord(r, data, svc)
  {
    [ MakeField(svc, "dateOfEntry", FormatDate(svc, Get(data, "dateOfEntry"))),
      MakeField(svc, "countryOfOrigin", svc.countryName(Get(data, "countryOfOrigin"))),
      MakeField(svc, "purposeOfStay", ChoiceValue(svc, Get(data, "purposeOfStay"), PurposeLabelKey(Get(data, "purposeOfStay")))),
      MakeField(svc, "intendedDestination", Get(data, "intendedDestination")) ]
  }

  /** `accommodation`: name, address, postal code, city, check-in and check-out. */
  function Accommodation(data: Record, svc: Services): (r: seq<Field>)
    ensures LabelKeys(r) == ["accommodationName", "address", "postalCode", "city", "checkinDate", "checkoutDate"]
    ensures ShowsRecord(r, data, svc)
  {
    [ MakeField(svc, "accommodationName", Get(data, "accommodationName")),
      MakeField(svc, "address", Get(data, "address")),
      MakeField(svc, "postalCode", Get(data, "postalCode")),
      MakeField(svc, "city", Get(data, "city")),
      MakeField(svc, "checkinDate", FormatDate(svc, Get(data, "checkinDate"))),
      MakeField(svc, "checkoutDate", FormatDate(svc, Get(data, "checkoutDate"))) ]
  }

  /** `contactInfo`: phone and e-mail. */
  function Contact(data: Record, svc: Services): (r: seq<Field>)
    ensures LabelKeys(r) == ["phone", "email"]
    ensures ShowsRecord(r, data, svc)
  {
    [ MakeField(svc, "phone", Get(data, "phone")),
      MakeField(svc, "email", Get(data, "email")) ]
  }

  /** The contact section is laid out only when a phone or an e-mail is given. */
  predicate HasContact(data: Record) {
    Get(data, "phone") != "" || Get(data, "email") != ""
  }

  function ContactBlock(d: Doc, g: Geometry, lang: string, data: Record, svc: Services): (e: Doc) {
    if HasContact(data) then AddSection(d, g, lang, "contactInfo", Contact(data, svc)) else d
  }

  /** Without a phone and an e-mail nothing is drawn for the contact section;
      with either, the section's heading is the next mark drawn. */
  lemma ContactOnlyWithPhoneOrEmail(d: Doc, g: Geometry, lang: string, data: Record, svc: Services)
    requires Wf(d)
    ensures !HasContact(data) ==> ContactBlock(d, g, lang, data, svc) == d
    ensures HasContact(data) ==>
      var e := ContactBlock(d, g, lang, data, svc);
      |d.marks| < |e.marks| && e.marks[|d.marks|].Heading? && e.marks[|d.marks|].key == "contactInfo"
  {
    if HasContact(data) {
      var h := SectionHeading(d, g, lang, "contactInfo");
      SectionHeadingAdvances(d, g, lang, "contactInfo");
      AddRowsAdvances(h, g, lang, Contact(data, svc));
      var e := ContactBlock(d, g, lang, data, svc);
      assert e.marks[..|h.marks|] == h.marks;
      assert h.marks[|d.marks|] == Heading(Reserve(d, 30.0, g).pages, Reserve(d, 30.0, g).y, "contactInfo");
    }
  }

  /** The content of the document: title, the four fixed sections, the optional
      contact section and the attachments. */
  function LayoutContent(g: Geometry, lang: string, data: Record, svc: Services, atts: seq<Attachment>): Doc {
    var d1 := Title(Start, lang);
    var d2 := AddSection(d1, g, lang, "personalInfo", PersonalInfo(data, svc));
    var d3 := AddSection(d2, g, lang, "travelDocument", TravelDocument(data, svc));
    var d4 := AddSection(d3, g, lang, "travelDetails", TravelDetails(data, svc));
    var d5 := AddSection(d4, g, lang, "accommodation", Accommodation(data, svc));
    var d6 := ContactBlock(d5, g, lang, data, svc);
    AttachmentBlock(d6, g, lang, atts)
  }

  /** The whole document: the content, then the footer pass. */
  function Layout(g: Geometry, lang: string, data: Record, svc: Services, atts: seq<Attachment>, now: string): Doc {
    StampFooters(LayoutContent(g, lang, data, svc, atts), now)
  }

  lemma LayoutContentWf(g: Geometry, lang: string, data: Record, svc: Services, atts: seq<Attachment>)
    ensures Wf(LayoutContent(g, lang, data, svc, atts))
  {
    var d1 := Title(Start, lang);
    TitleAdvances(Start, lang);
    var d2 := AddSection(d1, g, lang, "personalInfo", PersonalInfo(data, svc));
    AddSectionAdvances(d1, g, lang, "personalInfo", PersonalInfo(data, svc));
    var d3 := AddSection(d2, g, lang, "travelDocument", TravelDocument(data, svc));
    AddSectionAdvances(d2, g, lang, "travelDocument", TravelDocument(data, svc));
    var d4 := AddSection(d3, g, lang, "travelDetails", TravelDetails(data, svc));
    AddSectionAdvances(d3, g, lang, "travelDetails", TravelDetails(data, svc));
    var d5 := AddSection(d4, g, lang, "accommodation", Accommodation(data, svc));
    AddSectionAdvances(d4, g, lang, "accommodation", Accommodation(data, svc));
    var d6 := ContactBlock(d5, g, lang, data, svc);
    if HasContact(data) {
      AddSectionAdvances(d5, g, lang, "contactInfo", Contact(data, svc));
    }
    AttachmentBlockAdvances(d6, g, lang, atts);
  }

  /** Every generated document has at least one page, a single footer per page
      carrying that page's number, and the "generated" stamp on its last page only. */
  lemma LayoutFooters(g: Geometry, lang: string, data: Record, svc: Services, atts: seq<Attachment>, now: string)
    ensures var e := Layout(g, lang, data, svc, atts, now);
      && e.pages >= 1
      && |FootersOf(e.marks)| == e.pages
      && (forall i :: 0 <= i < e.pages ==> FootersOf(e.marks)[i] == Footer(i + 1, i + 1))
      && StampsOf(e.marks) == [Generated(e.pages, now)]
  {
    LayoutContentWf(g, lang, data, svc, atts);
    StampFootersOnEveryPage(LayoutContent(g, lang, data, svc, atts), now);
  }
}

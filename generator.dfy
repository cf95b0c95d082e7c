/**
 * The form-filling endpoint `POST /api/generate-pdf`. It validates the
 * multipart form, then fills one copy of the PDF template per requested
 * subject, skipping a subject whenever its copy cannot be produced, and
 * answers with the single PDF or with a zip archive of all of them.
 *
 * pdf-lib and JSZip are foreign code. The model replaces them by an
 * environment `Env`: whether the template file exists and loads, its page
 * count and first-page height, an embedding oracle that gives the size of an
 * image decoded in a format (or nothing when pdf-lib throws), and a saving
 * oracle that gives the bytes of the template with a list of drawing
 * operations applied (or nothing when drawing or saving throws). The drawing
 * operations themselves, the scale factors, the file names, the skipping loop,
 * the zip entries and the choice of response are computed by the model.
 */
module Generator {
  import opened Text
  import opened Seqs
  import opened Catalog

  type Bytes = seq<bv8>

  /** An uploaded file (a `File` object, which is always truthy). */
  datatype Upload = Upload(fileName: string, content: Bytes)

  /** The `subjects` field: absent or empty (both falsy), text that `JSON.parse`
      rejects (with the exception's message), or a parsed list of records. */
  datatype SubjectsField = NoSubjects | Malformed(message: string) | Parsed(list: seq<Subject>)

  /** The form fields read by the route; `None` is a field that `formData.get`
      does not find. The route also receives `semester` and `academicYear`, but
      does not read them (lines 24-25 of route.ts are commented out). */
  datatype Form = Form(
    signature: Option<Upload>,
    idPhoto: Option<Upload>,
    name: Option<string>,
    studentNumber: Option<string>,
    studentYear: Option<string>,
    subjects: SubjectsField,
    displayStyle: Option<string>)

  /** JavaScript truthiness of a string field: present and non-empty. */
  predicate Truthy(v: Option<string>) {
    v.Some? && v.value != ""
  }

  /** The presence test of the first validation. */
  predicate HasRequiredFields(form: Form) {
    && form.signature.Some? && form.idPhoto.Some?
    && Truthy(form.name) && Truthy(form.studentNumber) && Truthy(form.studentYear)
    && !form.subjects.NoSubjects?
  }

  /** A generated file: a PDF, or an entry of the zip archive. */
  datatype NamedFile = NamedFile(fileName: string, content: Bytes)

  datatype Response =
    | Failure(status: nat, error: string)        // `NextResponse.json({ error }, { status })`
    | PdfFile(fileName: string, content: Bytes)  // `application/pdf`
    | ZipFile(entries: seq<NamedFile>)           // `application/zip`

  function ContentType(r: Response): string {
    match r
    case Failure(_, _) => "application/json"
    case PdfFile(_, _) => "application/pdf"
    case ZipFile(_) => "application/zip"
  }

  /** The `Content-Disposition` header of a successful response. */
  function ContentDisposition(r: Response): string
    requires !r.Failure?
  {
    if r.PdfFile? then "attachment; filename=" + r.fileName
    else "attachment; filename=completed-forms.zip"
  }

  /** What the per-subject loop works from, once the form is validated. */
  datatype Job = Job(
    signature: Bytes,
    idPhoto: Bytes,
    name: string,
    studentNumber: string,
    studentYear: string,
    style: string)

  datatype Checked = Rejected(response: Response) | Accepted(job: Job, subjects: seq<Subject>)

  /** `formData.get('displayStyle') || 'stacked'`. */
  function StyleOf(v: Option<string>): string {
    if Truthy(v) then v.value else "stacked"
  }

  /** Lines 19-45: the presence test, then `JSON.parse`, then the empty-list test. */
  function Validate(form: Form): (c: Checked)
    ensures c.Rejected? ==> c.response.Failure?
    ensures c.Accepted? <==> HasRequiredFields(form) && form.subjects.Parsed? && |form.subjects.list| > 0
    ensures c.Accepted? ==> c.subjects == form.subjects.list && c.job.style == StyleOf(form.displayStyle)
  {
    if !HasRequiredFields(form) then Rejected(Failure(400, "Missing required fields"))
    else if form.subjects.Malformed? then Rejected(Failure(500, "Error: " + form.subjects.message))
    else if |form.subjects.list| == 0 then Rejected(Failure(400, "No subjects selected"))
    else Accepted(Job(form.signature.value.content, form.idPhoto.value.content,
                      form.name.value, form.studentNumber.value, form.studentYear.value,
                      StyleOf(form.displayStyle)),
                  form.subjects.list)
  }

  // ---------------------------------------------------------------------------
  // The environment

  datatype Format = Png | Jpg

  /** Image sizes in pixels; a decoded image is at least one pixel wide and high. */
  type Pixels = n: nat | n >= 1 witness 1

  datatype Size = Size(width: Pixels, height: Pixels)

  datatype Picture = Signature | IdPhoto

  /** One call of `page.drawImage` or `page.drawText` (the colour is always black). */
  datatype DrawOp =
    | DrawImage(picture: Picture, x: real, y: real, width: real, height: real)
    | DrawText(text: string, x: real, y: real, size: real)

  datatype Env = Env(
    templateFound: bool,                     // `fsPromises.access` succeeds
    loads: bool,                             // `PDFDocument.load` of the template succeeds
    pageCount: nat,
    pageHeight: real,                        // height of the first page
    embed: (Format, Bytes) -> Option<Size>,  // `embedPng`/`embedJpg`: the image size, or `None` when it throws
    save: seq<DrawOp> -> Option<Bytes>,      // the template saved with these drawings, or `None` when this throws
    date: string)                            // `toLocaleDateString` of the current date

  // ---------------------------------------------------------------------------
  // Image embedding with a fallback format

  /** The signature is tried as PNG, then as JPEG (lines 97-107). */
  const SignatureFormats: seq<Format> := [Png, Jpg]

  /** The ID photo is tried as JPEG, then as PNG (lines 109-119). */
  const IdPhotoFormats: seq<Format> := [Jpg, Png]

  /** The first format, in order, in which the image embeds. */
  function EmbedFirst(embed: (Format, Bytes) -> Option<Size>, formats: seq<Format>, bytes: Bytes): (r: Option<Size>)
    ensures r.None? <==> forall k :: 0 <= k < |formats| ==> embed(formats[k], bytes).None?
    decreases |formats|
  {
    if formats == [] then None
    else match embed(formats[0], bytes)
      case Some(size) => Some(size)
      case None => EmbedFirst(embed, formats[1..], bytes)
  }

  /** A successful embedding is the one of the first format that succeeds. */
  lemma {:induction false} EmbedFirstPicksFirst(embed: (Format, Bytes) -> Option<Size>, formats: seq<Format>, bytes: Bytes)
    requires EmbedFirst(embed, formats, bytes).Some?
    ensures exists k :: 0 <= k < |formats| && embed(formats[k], bytes) == EmbedFirst(embed, formats, bytes) &&
                        forall j :: 0 <= j < k ==> embed(formats[j], bytes).None?
    decreases |formats|
  {
    if embed(formats[0], bytes).None? {
      EmbedFirstPicksFirst(embed, formats[1..], bytes);
      var k :| 0 <= k < |formats[1..]| && embed(formats[1..][k], bytes) == EmbedFirst(embed, formats[1..], bytes) &&
               forall j :: 0 <= j < k ==> embed(formats[1..][j], bytes).None?;
      assert embed(formats[k + 1], bytes) == EmbedFirst(embed, formats, bytes);
      forall j | 0 <= j < k + 1
        ensures embed(formats[j], bytes).None?
      {
        if j > 0 {
          assert formats[j] == formats[1..][j - 1];
        }
      }
    } else {
      assert embed(formats[0], bytes) == EmbedFirst(embed, formats, bytes);
    }
  }

  /** With two formats: the first one's image when it embeds, else the second one's. */
  lemma EmbedTwo(embed: (Format, Bytes) -> Option<Size>, first: Format, second: Format, bytes: Bytes)
    ensures EmbedFirst(embed, [first, second], bytes) ==
      if embed(first, bytes).Some? then embed(first, bytes) else embed(second, bytes)
  {
    assert [first, second][1..] == [second];
    assert [second][1..] == [];
  }

  // ---------------------------------------------------------------------------
  // Scaling an image into its box

  function Min(a: real, b: real): real {
    if a <= b then a else b
  }

  /** `Math.min(maxWidth / width, maxHeight / height)`. */
  function ScaleFactor(maxWidth: real, maxHeight: real, s: Size): real {
    Min(maxWidth / s.width as real, maxHeight / s.height as real)
  }

  /** The signature box is 100 by 50 points (lines 126-127). */
  function ScaledSignature(s: Size): (real, real) {
    var f := ScaleFactor(100.0, 50.0, s);
    (s.width as real * f, s.height as real * f)
  }

  /** The ID photo box is 150 by 150 points (lines 137-138). */
  function ScaledIdPhoto(s: Size): (real, real) {
    var f := ScaleFactor(150.0, 150.0, s);
    (s.width as real * f, s.height as real * f)
  }

  /** The scaled image fits its box, meets the box on at least one side and
      keeps the image's proportions. */
  lemma ScaleFits(maxWidth: real, maxHeight: real, s: Size)
    requires maxWidth > 0.0 && maxHeight > 0.0
    ensures var f, w, h := ScaleFactor(maxWidth, maxHeight, s), s.width as real, s.height as real;
      && f > 0.0
      && w * f <= maxWidth && h * f <= maxHeight
      && (w * f == maxWidth || h * f == maxHeight)
      && (w * f) / (h * f) == w / h
  {
    var w, h := s.width as real, s.height as real;
    var a, b := maxWidth / w, maxHeight / h;
    assert w * a == maxWidth && h * b == maxHeight;
    var f := Min(a, b);
    if a <= b {
      assert h * f <= h * b by { MultiplyMonotone(h, f, b); }
    } else {
      assert w * f <= w * a by { MultiplyMonotone(w, f, a); }
    }
    assert (w * f) / (h * f) == w / h by { CancelFactor(w, h, f); }
  }

  lemma MultiplyMonotone(c: real, x: real, y: real)
    requires c > 0.0 && x <= y
    ensures c * x <= c * y
  {}

  lemma CancelFactor(w: real, h: real, f: real)
    requires h > 0.0 && f > 0.0
    ensures (w * f) / (h * f) == w / h
  {}

  /** An image that already fits its box is drawn at least at its own size,
      and one that does not fit is shrunk. */
  lemma ScaleEnlargesSmallImages(maxWidth: real, maxHeight: real, s: Size)
    requires maxWidth > 0.0 && maxHeight > 0.0
    ensures s.width as real <= maxWidth && s.height as real <= maxHeight
      <==> ScaleFactor(maxWidth, maxHeight, s) >= 1.0
  {
    var w, h := s.width as real, s.height as real;
    assert maxWidth / w >= 1.0 <==> w <= maxWidth;
    assert maxHeight / h >= 1.0 <==> h <= maxHeight;
  }

  // ---------------------------------------------------------------------------
  // The drawing of one page

  /** Lines 178-208: the subject's lines, in the "stacked" style or else inline. */
  function SubjectLines(subject: Subject, style: string, height: real): (ops: seq<DrawOp>)
    ensures |ops| == if style == "stacked" then 3 else 1
    ensures forall k :: 0 <= k < |ops| ==> ops[k].DrawText? && ops[k].x == 250.0
    ensures forall k :: 0 <= k < |ops| ==> ops[k].size == if style == "stacked" then 8.0 else 12.0
    ensures OccursAt(ops[0].text, subject.code, 0)
  {
    if style == "stacked" then
      [DrawText(subject.code, 250.0, height - 80.0, 8.0),
       DrawText(subject.name, 250.0, height - 90.0, 8.0),
       DrawText("FEU Tech", 250.0, height - 100.0, 8.0)]
    else
      [DrawText(subject.code + " / FEU Tech", 250.0, height - 95.0, 12.0)]
  }

  const BottomPadding: real := 10.0

  /** Lines 122-236: the three images first, then the subject's lines, then the
      student's name, year, number and the date. */
  function PageOps(job: Job, subject: Subject, height: real, date: string, sig: Size, id: Size): seq<DrawOp> {
    var (sw, sh) := ScaledSignature(sig);
    var (iw, ih) := ScaledIdPhoto(id);
    [DrawImage(Signature, 400.0, height - 650.0, sw, sh),
     DrawImage(Signature, 20.0, BottomPadding + 50.0, sw, sh),
     DrawImage(IdPhoto, 20.0 + sw + 30.0, BottomPadding, iw, ih)]
    + SubjectLines(subject, job.style, height)
    + [DrawText(job.name, 380.0, height - 655.0, 12.0),
       DrawText(job.studentYear + " - BSCpE", 380.0, height - 670.0, 12.0),
       DrawText(job.studentNumber, 380.0, height - 682.0, 12.0),
       DrawText(date, 380.0, height - 695.0, 12.0)]
  }

  /** The images are drawn before every text, so that they end up behind it;
      both copies of the signature have the same size, each image fits its box,
      and the ID photo starts 30 points to the right of the lower signature. */
  lemma PageLayout(job: Job, subject: Subject, height: real, date: string, sig: Size, id: Size)
    ensures var ops := PageOps(job, subject, height, date, sig, id);
      && (forall i, j :: 0 <= i < j < |ops| && ops[j].DrawImage? ==> ops[i].DrawImage?)
      && ops[0].picture == ops[1].picture == Signature && ops[2].picture == IdPhoto
      && ops[0].width == ops[1].width <= 100.0 && ops[0].height == ops[1].height <= 50.0
      && ops[2].width <= 150.0 && ops[2].height <= 150.0
      && ops[2].x == ops[1].x + ops[1].width + 30.0
  {
    var ops := PageOps(job, subject, height, date, sig, id);
    var lines := SubjectLines(subject, job.style, height);
    ScaleFits(100.0, 50.0, sig);
    ScaleFits(150.0, 150.0, id);
  }

  // ---------------------------------------------------------------------------
  // File names

  /** `\w`: ASCII letters, digits and '_'. */
  predicate IsWordChar(c: char) {
    IsLower(c) || IsUpper(c) || IsDigit(c) || c == '_'
  }

  /** The characters that `[^\w\s-]` does not match. */
  predicate Kept(c: char) {
    IsWordChar(c) || IsSpace(c) || c == '-'
  }

  /** `replace(/[^\w\s-]/g, '')`: drops every character that is not a word
      character, white space or '-'. */
  function StripSpecial(s: string): (r: string)
    ensures |r| <= |s|
    ensures forall k :: 0 <= k < |r| ==> Kept(r[k])
  {
    if s == [] then []
    else if Kept(s[0]) then [s[0]] + StripSpecial(s[1..])
    else StripSpecial(s[1..])
  }

  /** `replace(/\s+/g, '_')`: every run of white space becomes one '_'. */
  function CollapseSpaces(s: string): (r: string)
    ensures |r| <= |s|
    ensures forall k :: 0 <= k < |r| ==> !IsSpace(r[k])
    decreases |s|
  {
    if s == [] then []
    else if IsSpace(s[0]) then ['_'] + CollapseSpaces(s[LeadingSpaces(s)..])
    else [s[0]] + CollapseSpaces(s[1..])
  }

  /** Collapsing adds no character other than '_'. */
  lemma {:induction false} CollapseSpacesChars(s: string)
    ensures forall k :: 0 <= k < |CollapseSpaces(s)| ==> CollapseSpaces(s)[k] == '_' || CollapseSpaces(s)[k] in s
    decreases |s|
  {
    if s != [] {
      var n := if IsSpace(s[0]) then LeadingSpaces(s) else 1;
      CollapseSpacesChars(s[n..]);
      var r, rest := CollapseSpaces(s), CollapseSpaces(s[n..]);
      assert r[1..] == rest;
      forall k | 0 < k < |r| && r[k] != '_'
        ensures r[k] in s
      {
        assert r[k] == rest[k - 1] && rest[k - 1] in s[n..];
      }
    }
  }

  /** Line 242: the subject name made safe for a file name. */
  function Sanitize(name: string): (r: string)
    ensures |r| <= |name|
    ensures forall k :: 0 <= k < |r| ==> IsWordChar(r[k]) || r[k] == '-'
  {
    var t := StripSpecial(name);
    CollapseSpacesChars(t);
    CollapseSpaces(t)
  }

  /** Line 243. */
  function PdfName(subject: Subject): string {
    subject.code + "_" + Sanitize(subject.name) + ".pdf"
  }

  lemma {:induction false} StripSpecialKeeps(s: string)
    requires forall k :: 0 <= k < |s| ==> Kept(s[k])
    ensures StripSpecial(s) == s
    decreases |s|
  {
    if s != [] {
      StripSpecialKeeps(s[1..]);
    }
  }

  lemma {:induction false} StripSpecialDrops(s: string)
    requires forall k :: 0 <= k < |s| ==> !Kept(s[k])
    ensures StripSpecial(s) == []
    decreases |s|
  {
    if s != [] {
      StripSpecialDrops(s[1..]);
    }
  }

  lemma {:induction false} StripSpecialConcat(a: string, b: string)
    ensures StripSpecial(a + b) == StripSpecial(a) + StripSpecial(b)
    decreases |a|
  {
    if a == [] {
      assert a + b == b;
    } else {
      assert (a + b)[1..] == a[1..] + b;
      StripSpecialConcat(a[1..], b);
    }
  }

  lemma {:induction false} CollapseSpacesOfPlain(s: string)
    requires forall k :: 0 <= k < |s| ==> !IsSpace(s[k])
    ensures CollapseSpaces(s) == s
    decreases |s|
  {
    if s != [] {
      CollapseSpacesOfPlain(s[1..]);
    }
  }

  /** A sanitised name has no white space, and sanitising it again changes nothing. */
  lemma SanitizeIdempotent(name: string)
    ensures forall k :: 0 <= k < |Sanitize(name)| ==> !IsSpace(Sanitize(name)[k])
    ensures Sanitize(Sanitize(name)) == Sanitize(name)
  {
    var r := Sanitize(name);
    StripSpecialKeeps(r);
    CollapseSpacesOfPlain(r);
  }

  /** Appending characters that `StripSpecial` keeps, or drops. */
  lemma StripKeepTail(a: string, b: string)
    requires forall k :: 0 <= k < |b| ==> Kept(b[k])
    ensures StripSpecial(a + b) == StripSpecial(a) + b
  {
    StripSpecialConcat(a, b);
    StripSpecialKeeps(b);
  }

  lemma StripDropTail(a: string, b: string)
    requires forall k :: 0 <= k < |b| ==> !Kept(b[k])
    ensures StripSpecial(a + b) == StripSpecial(a)
  {
    StripSpecialConcat(a, b);
    StripSpecialDrops(b);
    assert StripSpecial(a) + [] == StripSpecial(a);
  }

  /** A word without white space, a run of white space, and the rest: the whole
      run becomes one '_'. */
  lemma {:induction false} CollapseJoin(a: string, w: string, b: string)
    requires forall k :: 0 <= k < |a| ==> !IsSpace(a[k])
    requires w != [] && AllSpace(w)
    requires b == [] || !IsSpace(b[0])
    ensures CollapseSpaces(a + w + b) == a + "_" + CollapseSpaces(b)
    decreases |a|
  {
    if a == [] {
      var s := w + b;
      assert a + w + b == s && s[0] == w[0];
      LeadingSpacesConcat(w, b);
      assert s[|w|..] == b;
    } else {
      assert (a + w + b)[1..] == a[1..] + w + b;
      CollapseJoin(a[1..], w, b);
    }
  }

  /** A one-word name followed by a parenthesised tag, as in "EMBEDDED (LAB)":
      the space becomes '_' and the parentheses disappear. */
  lemma SanitizeTagged(w: string, tag: string)
    requires forall k :: 0 <= k < |w| ==> IsWordChar(w[k])
    requires forall k :: 0 <= k < |tag| ==> IsWordChar(tag[k])
    ensures Sanitize(w + " (" + tag + ")") == w + "_" + tag
  {
    var t := w + " " + tag;
    calc {
      StripSpecial(w + " (" + tag + ")");
    == { assert w + " (" + tag + ")" == w + " " + "(" + tag + ")"; }
      StripSpecial(w + " " + "(" + tag + ")");
    == { StripDropTail(w + " " + "(" + tag, ")"); }
      StripSpecial(w + " " + "(" + tag);
    == { StripKeepTail(w + " " + "(", tag); }
      StripSpecial(w + " " + "(") + tag;
    == { StripDropTail(w + " ", "("); StripSpecialKeeps(w + " "); }
      w + " " + tag;
    }
    CollapseJoin(w, " ", tag);
    CollapseSpacesOfPlain(tag);
  }

  /** The file name of a lecture or laboratory record such as
      "MICROPROCESSORS (LAB)" is its code, '_', the word, '_', the tag and ".pdf". */
  lemma PdfNameTagged(subject: Subject, w: string, tag: string)
    requires subject.name == w + " (" + tag + ")"
    requires forall k :: 0 <= k < |w| ==> IsWordChar(w[k])
    requires forall k :: 0 <= k < |tag| ==> IsWordChar(tag[k])
    ensures PdfName(subject) == subject.code + "_" + w + "_" + tag + ".pdf"
  {
    SanitizeTagged(w, tag);
  }

  /** Two names made of a code without '_', then '_', then anything, differ
      whenever the codes do. */
  lemma JoinDistinct(a: string, b: string, x: string, y: string)
    requires '_' !in a && '_' !in b && a != b
    ensures a + "_" + x != b + "_" + y
  {
    var s, t := a + "_" + x, b + "_" + y;
    if |a| < |b| {
      assert s[|a|] == '_' && t[|a|] == b[|a|];
    } else if |b| < |a| {
      assert t[|b|] == '_' && s[|b|] == a[|b|];
    } else {
      var k :| 0 <= k < |a| && a[k] != b[k];
      assert s[k] == a[k] && t[k] == b[k];
    }
  }

  /** Records whose codes differ and contain no '_' get different file names. */
  lemma PdfNamesDistinct(s: Subject, t: Subject)
    requires '_' !in s.code && '_' !in t.code && s.code != t.code
    ensures PdfName(s) != PdfName(t)
  {
    var x, y := Sanitize(s.name) + ".pdf", Sanitize(t.name) + ".pdf";
    assert PdfName(s) == s.code + "_" + x && PdfName(t) == t.code + "_" + y;
    JoinDistinct(s.code, t.code, x, y);
  }

  // ---------------------------------------------------------------------------
  // One subject

  /** Lines 73-247 for one subject: a fresh copy of the template, its first
      page, the signature and the ID photo embedded with their fallback formats,
      the drawings, and the saved bytes under the subject's file name. `None` is
      a subject that the loop skips (`continue` or the per-subject `catch`). */
  function ProcessSubject(env: Env, job: Job, subject: Subject): (r: Option<NamedFile>)
    ensures r.Some? ==> r.value.fileName == PdfName(subject)
  {
    if !env.loads || env.pageCount == 0 then None
    else match EmbedFirst(env.embed, SignatureFormats, job.signature)
      case None => None
      case Some(sig) =>
        match EmbedFirst(env.embed, IdPhotoFormats, job.idPhoto)
        case None => None
        case Some(id) =>
          match env.save(PageOps(job, subject, env.pageHeight, env.date, sig, id))
          case None => None
          case Some(bytes) => Some(NamedFile(PdfName(subject), bytes))
  }

  /** A subject is skipped exactly when the template does not load or has no
      page, when the signature embeds neither as PNG nor as JPEG, when the ID
      photo embeds neither as JPEG nor as PNG, or when saving the drawn page fails. */
  lemma ProcessSubjectSkips(env: Env, job: Job, subject: Subject)
    ensures ProcessSubject(env, job, subject).None? <==>
      || !env.loads || env.pageCount == 0
      || (env.embed(Png, job.signature).None? && env.embed(Jpg, job.signature).None?)
      || (env.embed(Jpg, job.idPhoto).None? && env.embed(Png, job.idPhoto).None?)
      || var sig := EmbedFirst(env.embed, SignatureFormats, job.signature);
         var id := EmbedFirst(env.embed, IdPhotoFormats, job.idPhoto);
         sig.Some? && id.Some? && env.save(PageOps(job, subject, env.pageHeight, env.date, sig.value, id.value)).None?
  {
    EmbedTwo(env.embed, Png, Jpg, job.signature);
    EmbedTwo(env.embed, Jpg, Png, job.idPhoto);
  }

  /** Whether a subject yields a file. */
  function Produces(env: Env, job: Job): Subject -> bool {
    s => ProcessSubject(env, job, s).Some?
  }

  // ---------------------------------------------------------------------------
  // The loop over the subjects

  /** The `generatedPdfs` list after the loop has run over `ss`. */
  function Generated(env: Env, job: Job, ss: seq<Subject>): (r: seq<NamedFile>)
    ensures |r| <= |ss|
    decreases |ss|
  {
    if ss == [] then []
    else
      var init := Generated(env, job, ss[..|ss| - 1]);
      match ProcessSubject(env, job, ss[|ss| - 1])
      case Some(f) => init + [f]
      case None => init
  }

  /** Lines 72-253: the loop, skipping a subject at each of its `continue`s and
      at its `catch`. */
  method GeneratePdfs(env: Env, job: Job, subjects: seq<Subject>) returns (pdfs: seq<NamedFile>)
    ensures pdfs == Generated(env, job, subjects)
  {
    pdfs := [];
    for i := 0 to |subjects|
      invariant pdfs == Generated(env, job, subjects[..i])
    {
      var subject := subjects[i];
      assert subjects[..i + 1][..i] == subjects[..i];
      if !env.loads || env.pageCount == 0 {
        continue;
      }
      EmbedTwo(env.embed, Png, Jpg, job.signature);
      EmbedTwo(env.embed, Jpg, Png, job.idPhoto);
      var sig := env.embed(Png, job.signature);
      if sig.None? {
        sig := env.embed(Jpg, job.signature);
        if sig.None? {
          continue;
        }
      }
      var id := env.embed(Jpg, job.idPhoto);
      if id.None? {
        id := env.embed(Png, job.idPhoto);
        if id.None? {
          continue;
        }
      }
      var bytes := env.save(PageOps(job, subject, env.pageHeight, env.date, sig.value, id.value));
      if bytes.None? {
        continue;
      }
      pdfs := pdfs + [NamedFile(PdfName(subject), bytes.value)];
    }
    assert subjects[..|subjects|] == subjects;
  }

  /** The generated files are those of the subjects that produce one, in order:
      the loop is `filter` followed by `map`. */
  lemma {:induction false} GeneratedIsFilter(env: Env, job: Job, ss: seq<Subject>)
    ensures var kept := Filter(ss, Produces(env, job));
      && |Generated(env, job, ss)| == |kept|
      && forall k :: 0 <= k < |kept| ==> ProcessSubject(env, job, kept[k]) == Some(Generated(env, job, ss)[k])
    decreases |ss|
  {
    if ss != [] {
      var init, last := ss[..|ss| - 1], ss[|ss| - 1];
      assert ss == init + [last];
      GeneratedIsFilter(env, job, init);
      FilterConcat(init, [last], Produces(env, job));
      assert [last][1..] == [];
    }
  }

  /** Every subject yields its file exactly when nothing is skipped. */
  lemma {:induction false} GeneratedAll(env: Env, job: Job, ss: seq<Subject>)
    ensures |Generated(env, job, ss)| == |ss| <==>
      forall i :: 0 <= i < |ss| ==> ProcessSubject(env, job, ss[i]).Some?
    decreases |ss|
  {
    if ss != [] {
      var init := ss[..|ss| - 1];
      GeneratedAll(env, job, init);
      if forall i :: 0 <= i < |ss| ==> ProcessSubject(env, job, ss[i]).Some? {
        assert forall i :: 0 <= i < |init| ==> ProcessSubject(env, job, init[i]).Some? by {
          forall i | 0 <= i < |init| ensures ProcessSubject(env, job, init[i]).Some? {
            assert init[i] == ss[i];
          }
        }
      } else if ProcessSubject(env, job, ss[|ss| - 1]).Some? {
        var i :| 0 <= i < |ss| && ProcessSubject(env, job, ss[i]).None?;
        assert init[i] == ss[i];
      }
    }
  }

  /** A template that does not load, or has no page, yields no file at all. */
  lemma {:induction false} GeneratedNone(env: Env, job: Job, ss: seq<Subject>)
    requires !env.loads || env.pageCount == 0
    ensures Generated(env, job, ss) == []
    decreases |ss|
  {
    if ss != [] {
      GeneratedNone(env, job, ss[..|ss| - 1]);
    }
  }

  /** The file names are distinct when the subjects' codes are distinct and
      contain no '_'. */
  lemma {:induction false} GeneratedNamesDistinct(env: Env, job: Job, ss: seq<Subject>)
    requires forall i :: 0 <= i < |ss| ==> '_' !in ss[i].code
    requires forall i, j :: 0 <= i < j < |ss| ==> ss[i].code != ss[j].code
    ensures Distinct(Names(Generated(env, job, ss)))
    ensures forall k :: 0 <= k < |Generated(env, job, ss)| ==>
      exists i :: 0 <= i < |ss| && Generated(env, job, ss)[k].fileName == PdfName(ss[i])
    decreases |ss|
  {
    if ss != [] {
      var init, last := ss[..|ss| - 1], ss[|ss| - 1];
      GeneratedNamesDistinct(env, job, init);
      var g := Generated(env, job, init);
      var r := Generated(env, job, ss);
      forall k | 0 <= k < |g|
        ensures r[k] == g[k] && exists i :: 0 <= i < |init| && g[k].fileName == PdfName(ss[i]) && i < |ss| - 1
      {
        var i :| 0 <= i < |init| && g[k].fileName == PdfName(init[i]);
        assert init[i] == ss[i];
      }
      if ProcessSubject(env, job, last).Some? {
        forall k | 0 <= k < |g|
          ensures g[k].fileName != PdfName(last)
        {
          var i :| 0 <= i < |ss| - 1 && g[k].fileName == PdfName(ss[i]);
          PdfNamesDistinct(ss[i], last);
        }
        assert r[|g|].fileName == PdfName(last);
      }
    }
  }

  // ---------------------------------------------------------------------------
  // The zip archive

  /** The file names of a list of files, in order. */
  function Names(fs: seq<NamedFile>): (ns: seq<string>)
    ensures |ns| == |fs|
    ensures forall k :: 0 <= k < |fs| ==> ns[k] == fs[k].fileName
  {
    seq(|fs|, (k: int) requires 0 <= k < |fs| => fs[k].fileName)
  }

  /** The content stored under `name`, if any (the first entry of that name). */
  function Lookup(entries: seq<NamedFile>, name: string): (r: Option<Bytes>)
    ensures r.None? <==> name !in Names(entries)
    decreases |entries|
  {
    if entries == [] then None
    else if entries[0].fileName == name then Some(entries[0].content)
    else
      assert Names(entries[1..]) == Names(entries)[1..];
      Lookup(entries[1..], name)
  }

  /** `zip.file(name, data)`: an entry of the same name is replaced where it
      stands, otherwise the entry is added at the end. */
  function Put(entries: seq<NamedFile>, f: NamedFile): (r: seq<NamedFile>)
    ensures |r| == if f.fileName in Names(entries) then |entries| else |entries| + 1
    decreases |entries|
  {
    if entries == [] then [f]
    else if entries[0].fileName == f.fileName then [f] + entries[1..]
    else
      assert Names(entries[1..]) == Names(entries)[1..];
      [entries[0]] + Put(entries[1..], f)
  }

  /** The archive's entries after adding `pdfs` in order. */
  function ZipOf(pdfs: seq<NamedFile>): (r: seq<NamedFile>)
    ensures |r| <= |pdfs|
    decreases |pdfs|
  {
    if pdfs == [] then [] else Put(ZipOf(pdfs[..|pdfs| - 1]), pdfs[|pdfs| - 1])
  }

  /** Lines 270-274: the archive filled by the loop over the generated files. */
  method BuildZip(pdfs: seq<NamedFile>) returns (entries: seq<NamedFile>)
    ensures entries == ZipOf(pdfs)
  {
    entries := [];
    for i := 0 to |pdfs|
      invariant entries == ZipOf(pdfs[..i])
    {
      assert pdfs[..i + 1][..i] == pdfs[..i];
      entries := Put(entries, pdfs[i]);
    }
    assert pdfs[..|pdfs|] == pdfs;
  }

  /** The content of the last file in `pdfs` with this name: the reference
      meaning of adding files in order, where a later file overwrites an
      earlier one. */
  function LastContent(pdfs: seq<NamedFile>, name: string): Option<Bytes>
    decreases |pdfs|
  {
    if pdfs == [] then None
    else if pdfs[|pdfs| - 1].fileName == name then Some(pdfs[|pdfs| - 1].content)
    else LastContent(pdfs[..|pdfs| - 1], name)
  }

  /** After `Put`, the new name holds the new content and every other name
      keeps its content. */
  lemma {:induction false} PutLookup(entries: seq<NamedFile>, f: NamedFile, name: string)
    ensures Lookup(Put(entries, f), name) == if name == f.fileName then Some(f.content) else Lookup(entries, name)
    decreases |entries|
  {
    if entries != [] && entries[0].fileName != f.fileName {
      PutLookup(entries[1..], f, name);
    }
  }

  /** After `Put`, the names are the old names and the new one. */
  lemma {:induction false} PutNames(entries: seq<NamedFile>, f: NamedFile)
    ensures forall n :: n in Names(Put(entries, f)) <==> n in Names(entries) || n == f.fileName
    decreases |entries|
  {
    if entries != [] {
      var rest := entries[1..];
      assert Names(entries) == [entries[0].fileName] + Names(rest);
      if entries[0].fileName != f.fileName {
        PutNames(rest, f);
        assert Names(Put(entries, f)) == [entries[0].fileName] + Names(Put(rest, f));
      } else {
        assert Names(Put(entries, f)) == Names(entries);
      }
    } else {
      assert Names(Put(entries, f)) == [f.fileName];
    }
  }

  /** `Put` keeps the names distinct. */
  lemma {:induction false} PutDistinct(entries: seq<NamedFile>, f: NamedFile)
    requires Distinct(Names(entries))
    ensures Distinct(Names(Put(entries, f)))
    decreases |entries|
  {
    if entries != [] {
      var rest := entries[1..];
      assert Names(entries) == [entries[0].fileName] + Names(rest);
      DistinctCons(entries[0].fileName, Names(rest));
      if entries[0].fileName != f.fileName {
        PutDistinct(rest, f);
        PutNames(rest, f);
        assert Names(Put(entries, f)) == [entries[0].fileName] + Names(Put(rest, f));
        DistinctCons(entries[0].fileName, Names(Put(rest, f)));
      } else {
        assert Names(Put(entries, f)) == Names(entries);
      }
    }
  }

  /** A file whose name is new is added at the end. */
  lemma {:induction false} PutNew(entries: seq<NamedFile>, f: NamedFile)
    requires f.fileName !in Names(entries)
    ensures Put(entries, f) == entries + [f]
    decreases |entries|
  {
    if entries != [] {
      assert Names(entries[1..]) == Names(entries)[1..];
      PutNew(entries[1..], f);
      assert [entries[0]] + (entries[1..] + [f]) == entries + [f];
    }
  }

  /** Each name of the archive holds the content of the last file of that name. */
  lemma {:induction false} ZipOfLookup(pdfs: seq<NamedFile>, name: string)
    ensures Lookup(ZipOf(pdfs), name) == LastContent(pdfs, name)
    decreases |pdfs|
  {
    if pdfs != [] {
      ZipOfLookup(pdfs[..|pdfs| - 1], name);
      PutLookup(ZipOf(pdfs[..|pdfs| - 1]), pdfs[|pdfs| - 1], name);
    }
  }

  /** The archive's names are distinct and are exactly the files' names. */
  lemma {:induction false} ZipOfNames(pdfs: seq<NamedFile>)
    ensures Distinct(Names(ZipOf(pdfs)))
    ensures forall n :: n in Names(ZipOf(pdfs)) <==> n in Names(pdfs)
    decreases |pdfs|
  {
    if pdfs != [] {
      var init := pdfs[..|pdfs| - 1];
      ZipOfNames(init);
      PutDistinct(ZipOf(init), pdfs[|pdfs| - 1]);
      PutNames(ZipOf(init), pdfs[|pdfs| - 1]);
      assert Names(pdfs) == Names(init) + [pdfs[|pdfs| - 1].fileName];
    }
  }

  /** Files with distinct names become the archive's entries unchanged and in order. */
  lemma {:induction false} ZipOfDistinct(pdfs: seq<NamedFile>)
    requires Distinct(Names(pdfs))
    ensures ZipOf(pdfs) == pdfs
    decreases |pdfs|
  {
    if pdfs != [] {
      var init, last := pdfs[..|pdfs| - 1], pdfs[|pdfs| - 1];
      assert Names(init) == Names(pdfs)[..|pdfs| - 1];
      ZipOfDistinct(init);
      PutNew(init, last);
      assert init + [last] == pdfs;
    }
  }

  // ---------------------------------------------------------------------------
  // The response

  /** The whole route: the validation, the template check, the loop and the
      choice between the single PDF and the archive. */
  function Respond(form: Form, env: Env): Response {
    match Validate(form)
    case Rejected(response) => response
    case Accepted(job, subjects) =>
      if !env.templateFound then Failure(500, "PDF template not found")
      else
        var pdfs := Generated(env, job, subjects);
        if |subjects| == 1 && |pdfs| == 1 then PdfFile(pdfs[0].fileName, pdfs[0].content)
        else ZipFile(ZipOf(pdfs))
  }

  /** `POST`, step by step. */
  method Post(form: Form, env: Env) returns (resp: Response)
    ensures resp == Respond(form, env)
  {
    var checked := Validate(form);
    if checked.Rejected? {
      return checked.response;
    }
    if !env.templateFound {
      return Failure(500, "PDF template not found");
    }
    var pdfs := GeneratePdfs(env, checked.job, checked.subjects);
    if |checked.subjects| == 1 && |pdfs| == 1 {
      return PdfFile(pdfs[0].fileName, pdfs[0].content);
    }
    var entries := BuildZip(pdfs);
    resp := ZipFile(entries);
  }

  /** A form without one of its required fields is answered 400, whatever the
      environment. */
  lemma MissingFields(form: Form, env: Env)
    requires !HasRequiredFields(form)
    ensures Respond(form, env) == Failure(400, "Missing required fields")
  {}

  /** Subjects that do not parse are answered 500 with the parser's message. */
  lemma MalformedSubjects(form: Form, env: Env)
    requires HasRequiredFields(form) && form.subjects.Malformed?
    ensures Respond(form, env) == Failure(500, "Error: " + form.subjects.message)
  {}

  /** An empty subject list is answered 400. */
  lemma NoSubjectsSelected(form: Form, env: Env)
    requires HasRequiredFields(form) && form.subjects == Parsed([])
    ensures Respond(form, env) == Failure(400, "No subjects selected")
  {}

  /** A valid form without the template is answered 500, whatever the template,
      the images and the oracles would do. */
  lemma TemplateMissing(form: Form, env: Env)
    requires Validate(form).Accepted? && !env.templateFound
    ensures Respond(form, env) == Failure(500, "PDF template not found")
  {}

  /** Once the form is valid and the template exists, the route never fails:
      the per-subject errors only leave files out. */
  lemma AcceptedNeverFails(form: Form, env: Env)
    requires Validate(form).Accepted? && env.templateFound
    ensures !Respond(form, env).Failure?
  {}

  /** The answer is a single PDF exactly when one subject was requested and its
      file was produced; that PDF is named after the subject. */
  lemma SinglePdf(form: Form, env: Env)
    requires Validate(form).Accepted? && env.templateFound
    ensures var c := Validate(form);
      Respond(form, env).PdfFile? <==> |c.subjects| == 1 && ProcessSubject(env, c.job, c.subjects[0]).Some?
    ensures Respond(form, env).PdfFile? ==>
      Respond(form, env).fileName == PdfName(Validate(form).subjects[0]) &&
      ContentType(Respond(form, env)) == "application/pdf"
  {
    var c := Validate(form);
    if |c.subjects| == 1 {
      assert c.subjects[..0] == [];
    }
  }

  /** Several subjects always give an archive, and so does a single subject
      whose file could not be produced: then the archive is empty. */
  lemma ArchiveAnswer(form: Form, env: Env)
    requires Validate(form).Accepted? && env.templateFound
    ensures var c := Validate(form);
      |c.subjects| > 1 ==> Respond(form, env).ZipFile?
    ensures var c := Validate(form);
      |c.subjects| == 1 && ProcessSubject(env, c.job, c.subjects[0]).None? ==> Respond(form, env) == ZipFile([])
  {
    var c := Validate(form);
    if |c.subjects| == 1 {
      assert c.subjects[..0] == [];
    }
  }

  /** A template without pages gives an empty archive, however many subjects
      were requested. */
  lemma NoPagesEmptyArchive(form: Form, env: Env)
    requires Validate(form).Accepted? && env.templateFound && env.pageCount == 0
    ensures Respond(form, env) == ZipFile([])
  {
    GeneratedNone(env, Validate(form).job, Validate(form).subjects);
  }

  /** With distinct codes that contain no '_' (as in the course table), the
      archive holds one entry per produced file, in the order of the subjects. */
  lemma ArchiveKeepsEveryFile(form: Form, env: Env)
    requires Validate(form).Accepted? && env.templateFound
    requires var ss := Validate(form).subjects;
      && (forall i :: 0 <= i < |ss| ==> '_' !in ss[i].code)
      && (forall i, j :: 0 <= i < j < |ss| ==> ss[i].code != ss[j].code)
    requires Respond(form, env).ZipFile?
    ensures Respond(form, env).entries == Generated(env, Validate(form).job, Validate(form).subjects)
  {
    var c := Validate(form);
    GeneratedNamesDistinct(env, c.job, c.subjects);
    ZipOfDistinct(Generated(env, c.job, c.subjects));
  }
}

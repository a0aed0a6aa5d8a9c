/**
 * The multer upload configuration: the per-file accept/reject decision taken from the part's
 * field name and original file name, and the size and count limits.
 */
module UploadFilter {
  import opened Wrappers

  /** At most 10 MiB per file. */
  const MaxFileSize: nat := 10 * 1024 * 1024

  /** At most 15 files per request. */
  const MaxFiles: nat := 15

  /** What the filter is handed for one part: its headers, before any byte of its body. */
  datatype IncomingFile = IncomingFile(fieldname: string, originalname: string, encoding: string, mimetype: string)

  datatype Decision = Accept | Reject(message: string)

  // ---------------------------------------------------------------- the two tables

  /** The document fields `allowedTypes` lists. */
  datatype Field =
    | AtoNotice | ProfitLossStatement | ChildSupportAssessment | BankStatements | ProofOfRent
    | IdentityDocument | Payslip1 | Payslip2 | Payslip3 | Payslip4 | CentrelinkStatement

  function FieldName(f: Field): string {
    match f
    case AtoNotice => "atoNotice"
    case ProfitLossStatement => "profitLossStatement"
    case ChildSupportAssessment => "childSupportAssessment"
    case BankStatements => "bankStatements"
    case ProofOfRent => "proofOfRent"
    case IdentityDocument => "identityDocument"
    case Payslip1 => "payslip1"
    case Payslip2 => "payslip2"
    case Payslip3 => "payslip3"
    case Payslip4 => "payslip4"
    case CentrelinkStatement => "centrelinkStatement"
  }

  /** The field a part's name denotes, if it is one of the table's own keys. */
  function FieldNamed(name: string): (r: Option<Field>)
    ensures r.Some? ==> FieldName(r.value) == name
  {
    if name == "atoNotice" then Some(AtoNotice)
    else if name == "profitLossStatement" then Some(ProfitLossStatement)
    else if name == "childSupportAssessment" then Some(ChildSupportAssessment)
    else if name == "bankStatements" then Some(BankStatements)
    else if name == "proofOfRent" then Some(ProofOfRent)
    else if name == "identityDocument" then Some(IdentityDocument)
    else if name == "payslip1" then Some(Payslip1)
    else if name == "payslip2" then Some(Payslip2)
    else if name == "payslip3" then Some(Payslip3)
    else if name == "payslip4" then Some(Payslip4)
    else if name == "centrelinkStatement" then Some(CentrelinkStatement)
    else None
  }

  /** Every field is found under its own name, so no key of the table is shadowed. */
  lemma FieldNamesRoundTrip(f: Field)
    ensures FieldNamed(FieldName(f)) == Some(f)
  {
  }

  /** The extensions the table mentions. */
  datatype Extension = Pdf | Jpg | Jpeg | Png | Xls | Xlsx

  function ExtensionText(e: Extension): string {
    match e
    case Pdf => ".pdf"
    case Jpg => ".jpg"
    case Jpeg => ".jpeg"
    case Png => ".png"
    case Xls => ".xls"
    case Xlsx => ".xlsx"
  }

  function ExtensionNamed(s: string): (r: Option<Extension>)
    ensures r.Some? ==> ExtensionText(r.value) == s
  {
    if s == ".pdf" then Some(Pdf)
    else if s == ".jpg" then Some(Jpg)
    else if s == ".jpeg" then Some(Jpeg)
    else if s == ".png" then Some(Png)
    else if s == ".xls" then Some(Xls)
    else if s == ".xlsx" then Some(Xlsx)
    else None
  }

  lemma ExtensionNamesRoundTrip(e: Extension)
    ensures ExtensionNamed(ExtensionText(e)) == Some(e)
  {
  }

  /** `allowedTypes`: the extensions each field admits, in the table's order. */
  function AllowedExtensions(f: Field): seq<Extension> {
    match f
    case AtoNotice => [Pdf, Jpg, Jpeg, Png]
    case ProfitLossStatement => [Pdf, Xls, Xlsx]
    case ChildSupportAssessment => [Pdf, Jpg, Jpeg, Png]
    case BankStatements => [Pdf]
    case ProofOfRent => [Pdf, Jpg, Jpeg, Png]
    case IdentityDocument => [Pdf, Jpg, Jpeg, Png]
    case Payslip1 => [Pdf, Jpg, Jpeg]
    case Payslip2 => [Pdf, Jpg, Jpeg]
    case Payslip3 => [Pdf, Jpg, Jpeg]
    case Payslip4 => [Pdf, Jpg, Jpeg]
    case CentrelinkStatement => [Pdf]
  }

  /** `allowedMimeTypes`: the content type a lower-case extension must have, if the table lists it. */
  function ExpectedMimeType(ext: string): Option<string> {
    match ExtensionNamed(ext)
    case None => None
    case Some(Pdf) => Some("application/pdf")
    case Some(Jpg) => Some("image/jpeg")
    case Some(Jpeg) => Some("image/jpeg")
    case Some(Png) => Some("image/png")
    case Some(Xls) => Some("application/vnd.ms-excel")
    case Some(Xlsx) => Some("application/vnd.openxmlformats-officedocument.spreadsheetml.sheet")
  }

  /** Every extension some field admits has an entry in the content-type table. */
  lemma MimeTableCoversAllowedExtensions(f: Field, e: Extension)
    requires e in AllowedExtensions(f)
    ensures ExpectedMimeType(ExtensionText(e)).Some?
  {
    ExtensionNamesRoundTrip(e);
  }

  /** `fileExt` is one of the field's listed extensions (`fieldAllowedTypes.includes(fileExt)`). */
  predicate Lists(f: Field, ext: string) {
    exists k | 0 <= k < |AllowedExtensions(f)| :: ExtensionText(AllowedExtensions(f)[k]) == ext
  }

  function ExtensionTexts(es: seq<Extension>): (ts: seq<string>)
    ensures |ts| == |es| && forall k | 0 <= k < |es| :: ts[k] == ExtensionText(es[k])
  {
    if es == [] then [] else [ExtensionText(es[0])] + ExtensionTexts(es[1..])
  }

  // ---------------------------------------------------------------- path.extname

  function StripTrailingSlashes(p: string): (q: string)
    ensures |q| <= |p| && q == p[..|q|]
    ensures q == [] || q[|q| - 1] != '/'
    decreases |p|
  {
    if p != [] && p[|p| - 1] == '/' then StripTrailingSlashes(p[..|p| - 1]) else p
  }

  /** The text after the last `/`. */
  function LastSegment(p: string): (seg: string)
    ensures |seg| <= |p| && seg == p[|p| - |seg|..]
    ensures forall k | 0 <= k < |seg| :: seg[k] != '/'
    decreases |p|
  {
    if p == [] || p[|p| - 1] == '/' then [] else LastSegment(p[..|p| - 1]) + [p[|p| - 1]]
  }

  /** The index of the last `.` in `s`, if any. */
  function LastDot(s: string): (r: Option<nat>)
    ensures r.Some? ==> r.value < |s| && s[r.value] == '.' && forall k | r.value < k < |s| :: s[k] != '.'
    ensures r.None? ==> forall k | 0 <= k < |s| :: s[k] != '.'
    decreases |s|
  {
    if s == [] then None
    else if s[|s| - 1] == '.' then Some(|s| - 1)
    else LastDot(s[..|s| - 1])
  }

  /**
   * The extension of one path segment: from its last `.` to its end; empty when it has no
   * dot after its first character, or when it is `..`.
   */
  function SegmentExt(seg: string): (ext: string)
    ensures |ext| <= |seg| && ext == seg[|seg| - |ext|..]
    ensures ext == [] <==> (forall k | 0 < k < |seg| :: seg[k] != '.') || seg == ".."
    ensures ext != [] ==> |ext| < |seg| && ext[0] == '.' && forall k | 1 <= k < |ext| :: ext[k] != '.'
  {
    match LastDot(seg)
    case None => ""
    case Some(k) =>
      if k == 0 || seg == ".." then ""
      else
        assert seg[k..][0] == '.';
        seg[k..]
  }

  /**
   * Node's POSIX `path.extname`: the extension of the last segment, trailing slashes
   * ignored.
   */
  function ExtName(path: string): (ext: string)
    ensures var seg := LastSegment(StripTrailingSlashes(path));
            && |ext| <= |seg| && ext == seg[|seg| - |ext|..]
            && (ext == [] <==> (forall k | 0 < k < |seg| :: seg[k] != '.') || seg == "..")
            && (ext != [] ==> |ext| < |seg| && ext[0] == '.')
  {
    var seg := LastSegment(StripTrailingSlashes(path));
    var ext := SegmentExt(seg);
    ext
  }

  /** The extension lies inside the last segment, so it holds no `/` and no dot after its first. */
  lemma ExtNameWithinSegment(path: string)
    ensures var ext := ExtName(path);
            forall k | 1 <= k < |ext| :: ext[k] != '.' && ext[k] != '/'
  {
    var seg := LastSegment(StripTrailingSlashes(path));
    var ext := SegmentExt(seg);
    SuffixAvoids(seg, ext, '/');
    assert ExtName(path) == ext;
  }

  /** A suffix of a text without `c` has no `c` either. */
  lemma SuffixAvoids(s: string, t: string, c: char)
    requires forall k | 0 <= k < |s| :: s[k] != c
    requires |t| <= |s| && t == s[|s| - |t|..]
    ensures forall k | 0 <= k < |t| :: t[k] != c
  {
    forall k | 0 <= k < |t|
      ensures t[k] != c
    {
      assert t[k] == s[|s| - |t| + k];
    }
  }

  function LowerChar(c: char): char {
    if 'A' <= c <= 'Z' then (c as int - 'A' as int + 'a' as int) as char else c
  }

  /** `toLowerCase` on the ASCII letters. */
  function ToLower(s: string): string {
    seq(|s|, k requires 0 <= k < |s| => LowerChar(s[k]))
  }

  /** The extension the filter compares: `path.extname(originalname).toLowerCase()`. */
  function LowerExt(name: string): string {
    ToLower(ExtName(name))
  }

  // Lower-casing keeps every `/` and `.` where it is, so it commutes with `path.extname`.

  lemma LowerKeepsSeparators(c: char)
    ensures LowerChar(c) == '/' <==> c == '/'
    ensures LowerChar(c) == '.' <==> c == '.'
  {
  }

  lemma ToLowerSlice(s: string, i: nat, j: nat)
    requires i <= j <= |s|
    ensures ToLower(s)[i..j] == ToLower(s[i..j])
  {
  }

  lemma {:induction false} StripTrailingSlashesLower(p: string)
    ensures StripTrailingSlashes(ToLower(p)) == ToLower(StripTrailingSlashes(p))
    decreases |p|
  {
    if p != [] {
      LowerKeepsSeparators(p[|p| - 1]);
      ToLowerSlice(p, 0, |p| - 1);
      if p[|p| - 1] == '/' {
        StripTrailingSlashesLower(p[..|p| - 1]);
      }
    }
  }

  lemma {:induction false} LastSegmentLower(p: string)
    ensures LastSegment(ToLower(p)) == ToLower(LastSegment(p))
    decreases |p|
  {
    if p != [] {
      var q, c := p[..|p| - 1], p[|p| - 1];
      assert p == q + [c];
      LowerKeepsSeparators(c);
      ToLowerSnoc(q, c);
      assert ToLower(p)[..|p| - 1] == ToLower(q);
      if c != '/' {
        LastSegmentLower(q);
        ToLowerSnoc(LastSegment(q), c);
      }
    }
  }

  lemma ToLowerSnoc(s: string, c: char)
    ensures ToLower(s + [c]) == ToLower(s) + [LowerChar(c)]
  {
  }

  lemma {:induction false} LastDotLower(s: string)
    ensures LastDot(ToLower(s)) == LastDot(s)
    decreases |s|
  {
    if s != [] {
      LowerKeepsSeparators(s[|s| - 1]);
      if s[|s| - 1] != '.' {
        ToLowerSlice(s, 0, |s| - 1);
        LastDotLower(s[..|s| - 1]);
      }
    }
  }

  lemma SegmentExtLower(seg: string)
    ensures SegmentExt(ToLower(seg)) == ToLower(SegmentExt(seg))
  {
    LastDotLower(seg);
    if |seg| == 2 {
      LowerKeepsSeparators(seg[0]);
      LowerKeepsSeparators(seg[1]);
      assert ToLower(seg) == ".." <==> seg == "..";
    }
    if LastDot(seg).Some? {
      ToLowerSlice(seg, LastDot(seg).value, |seg|);
    }
  }

  /** `path.extname` of the lower-cased name is the lower-cased `path.extname`. */
  lemma ExtNameLower(name: string)
    ensures ExtName(ToLower(name)) == ToLower(ExtName(name))
  {
    StripTrailingSlashesLower(name);
    LastSegmentLower(StripTrailingSlashes(name));
    SegmentExtLower(LastSegment(StripTrailingSlashes(name)));
  }

  /** Names that agree up to letter case have the same compared extension, whatever their extensions are. */
  lemma LowerExtIgnoresCase(a: string, b: string)
    requires ToLower(a) == ToLower(b)
    ensures LowerExt(a) == LowerExt(b)
  {
    ExtNameLower(a);
    ExtNameLower(b);
  }

  /** `X.PDF` and `x.pdf` are compared as the same extension. */
  lemma UpperCasePdfName()
    ensures LowerExt("X.PDF") == LowerExt("x.pdf")
  {
    assert ToLower("X.PDF") == ToLower("x.pdf");
    LowerExtIgnoresCase("X.PDF", "x.pdf");
  }

  // ---------------------------------------------------------------- the decision

  function Join(items: seq<string>, sep: string): string {
    if |items| == 0 then ""
    else if |items| == 1 then items[0]
    else items[0] + sep + Join(items[1..], sep)
  }

  /** The rejection for an extension the field does not list. */
  function WrongTypeMessage(file: IncomingFile, f: Field): string {
    "Invalid file type for " + file.fieldname + ". Allowed: " + Join(ExtensionTexts(AllowedExtensions(f)), ", ")
  }

  /**
   * What the filter checks once the field is known: the lower-cased extension is one the
   * field lists, and `mimeLookup` (mime-types' lookup, on the original name) gives the
   * type the table has for it. A failed lookup (`false`) equals no entry of the table, not
   * even a missing one (`undefined`), so it is always a mismatch.
   */
  function CheckExtension(file: IncomingFile, f: Field, mimeLookup: string -> Option<string>): Decision {
    var ext := LowerExt(file.originalname);
    var mimeType := mimeLookup(file.originalname);
    if !Lists(f, ext) then Reject(WrongTypeMessage(file, f))
    else if mimeType.None? || mimeType != ExpectedMimeType(ext) then
      Reject("File MIME type doesn't match extension for " + file.fieldname)
    else Accept
  }

  /** The three conditions under which a file is accepted. */
  predicate Admissible(file: IncomingFile, mimeLookup: string -> Option<string>) {
    var ext := LowerExt(file.originalname);
    && FieldNamed(file.fieldname).Some?
    && Lists(FieldNamed(file.fieldname).value, ext)
    && mimeLookup(file.originalname).Some?
    && mimeLookup(file.originalname) == ExpectedMimeType(ext)
  }

  /** `fileFilter`, with the field table read by own keys only (see `FileFilterAsWritten`). */
  function FileFilter(file: IncomingFile, mimeLookup: string -> Option<string>): (d: Decision)
    ensures FieldNamed(file.fieldname).None? ==> d == Reject("Invalid field name: " + file.fieldname)
    ensures d == Accept <==> Admissible(file, mimeLookup)
    ensures FieldNamed(file.fieldname).Some? && !Lists(FieldNamed(file.fieldname).value, LowerExt(file.originalname)) ==>
              d == Reject(WrongTypeMessage(file, FieldNamed(file.fieldname).value))
    ensures d.Reject? && FieldNamed(file.fieldname).Some? && Lists(FieldNamed(file.fieldname).value, LowerExt(file.originalname)) ==>
              d == Reject("File MIME type doesn't match extension for " + file.fieldname)
  {
    match FieldNamed(file.fieldname)
    case None => Reject("Invalid field name: " + file.fieldname)
    case Some(f) =>
      CheckExtension(file, f, mimeLookup)
  }

  /** The statement fields list `.pdf` alone. */
  lemma OnlyPdfListed(f: Field, ext: string)
    requires f == BankStatements || f == CentrelinkStatement
    requires Lists(f, ext)
    ensures ext == ".pdf"
  {
    assert AllowedExtensions(f) == [Pdf];
  }

  /** No payslip field lists `.png`. */
  lemma PayslipsListNoPng(f: Field)
    requires f in {Payslip1, Payslip2, Payslip3, Payslip4}
    ensures !Lists(f, ".png")
  {
    assert AllowedExtensions(f) == [Pdf, Jpg, Jpeg];
    forall k | 0 <= k < 3
      ensures ExtensionText(AllowedExtensions(f)[k]) != ".png"
    {
      ExtensionNamesRoundTrip(AllowedExtensions(f)[k]);
      assert ExtensionNamed(".png") == Some(Png);
    }
  }

  /** Bank and Centrelink statements are accepted only as `.pdf`. */
  lemma PdfOnlyFields(file: IncomingFile, mimeLookup: string -> Option<string>)
    requires FieldNamed(file.fieldname) == Some(BankStatements) || FieldNamed(file.fieldname) == Some(CentrelinkStatement)
    requires FileFilter(file, mimeLookup) == Accept
    ensures LowerExt(file.originalname) == ".pdf"
  {
    assert Admissible(file, mimeLookup);
    OnlyPdfListed(FieldNamed(file.fieldname).value, LowerExt(file.originalname));
  }

  /** No payslip is accepted as `.png`. */
  lemma PayslipsRejectPng(file: IncomingFile, mimeLookup: string -> Option<string>)
    requires FieldNamed(file.fieldname).Some?
    requires FieldNamed(file.fieldname).value in {Payslip1, Payslip2, Payslip3, Payslip4}
    requires LowerExt(file.originalname) == ".png"
    ensures FileFilter(file, mimeLookup).Reject?
  {
    PayslipsListNoPng(FieldNamed(file.fieldname).value);
    assert !Admissible(file, mimeLookup);
  }

  /** The decision reads neither the client-declared content type nor the transfer encoding. */
  lemma DecisionIgnoresDeclaredType(f: IncomingFile, g: IncomingFile, mimeLookup: string -> Option<string>)
    requires f.fieldname == g.fieldname && f.originalname == g.originalname
    ensures FileFilter(f, mimeLookup) == FileFilter(g, mimeLookup)
  {
  }

  /** Names whose extensions differ only in letter case are judged alike. */
  lemma ExtensionCaseIgnored(f: IncomingFile, g: IncomingFile, mimeLookup: string -> Option<string>)
    requires f.fieldname == g.fieldname
    requires LowerExt(f.originalname) == LowerExt(g.originalname)
    requires mimeLookup(f.originalname) == mimeLookup(g.originalname)
    ensures FileFilter(f, mimeLookup) == FileFilter(g, mimeLookup)
  {
  }

  /** Parts whose names differ only in letter case (and look up alike) are judged alike. */
  lemma NameCaseIgnored(f: IncomingFile, g: IncomingFile, mimeLookup: string -> Option<string>)
    requires f.fieldname == g.fieldname
    requires ToLower(f.originalname) == ToLower(g.originalname)
    requires mimeLookup(f.originalname) == mimeLookup(g.originalname)
    ensures FileFilter(f, mimeLookup) == FileFilter(g, mimeLookup)
  {
    LowerExtIgnoresCase(f.originalname, g.originalname);
    ExtensionCaseIgnored(f, g, mimeLookup);
  }

  // ---------------------------------------------------------------- as written

  /** Members every plain JavaScript object inherits from `Object.prototype`. */
  const ObjectPrototypeMembers: set<string> := {
    "constructor", "__proto__", "toString", "toLocaleString", "valueOf", "hasOwnProperty",
    "isPrototypeOf", "propertyIsEnumerable", "__defineGetter__", "__defineSetter__",
    "__lookupGetter__", "__lookupSetter__"
  }

  /** What `allowedTypes[name]` yields on the object literal. */
  datatype TableEntry = OwnEntry(field: Field) | Inherited | Absent

  function PlainObjectLookup(name: string): TableEntry {
    match FieldNamed(name)
    case Some(f) => OwnEntry(f)
    case None => if name in ObjectPrototypeMembers then Inherited else Absent
  }

  datatype FilterOutcome = Decided(decision: Decision) | Threw(error: string)

  /**
   * `fileFilter` as written: an inherited member is truthy, so it passes the field check,
   * and the call to its `includes` then throws instead of rejecting the file.
   */
  function FileFilterAsWritten(file: IncomingFile, mimeLookup: string -> Option<string>): (o: FilterOutcome)
    ensures FieldNamed(file.fieldname).Some? || file.fieldname !in ObjectPrototypeMembers ==>
              o == Decided(FileFilter(file, mimeLookup))
    ensures FieldNamed(file.fieldname).None? && file.fieldname in ObjectPrototypeMembers ==> o.Threw?
  {
    match PlainObjectLookup(file.fieldname)
    case Absent => Decided(Reject("Invalid field name: " + file.fieldname))
    case Inherited => Threw("TypeError: fieldAllowedTypes.includes is not a function")
    case OwnEntry(f) => Decided(CheckExtension(file, f, mimeLookup))
  }

  /** A part named `constructor` makes the filter as written throw rather than reject it. */
  lemma ConstructorFieldThrows(mimeLookup: string -> Option<string>)
    ensures var file := IncomingFile("constructor", "a.pdf", "7bit", "application/pdf");
            FileFilterAsWritten(file, mimeLookup).Threw? &&
            FileFilter(file, mimeLookup) == Reject("Invalid field name: " + file.fieldname)
  {
    assert FieldNamed("constructor") == None;
  }
}

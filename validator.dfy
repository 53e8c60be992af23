/** The validation service: a structural check of the three required files, and a verdict
    for each free-text acceptance check by keyword rules tried in a fixed order. */
module Validator {
  import opened Wrappers
  import opened Strings
  import opened Files
  import opened Patterns

  /** The files every generated app must carry, in the order they are examined. */
  const RequiredFiles: seq<string> := [IndexHtml, LicenseFile, ReadmeFile]

  /** The parts joined with a comma and a space. */
  function CommaJoin(parts: seq<string>): string {
    if |parts| == 0 then ""
    else if |parts| == 1 then parts[0]
    else parts[0] + ", " + CommaJoin(parts[1..])
  }

  // ===========================================================================
  // Structural check of the required files
  // ===========================================================================

  /** One problem the structural check can report; `Message` renders it. */
  datatype Issue =
    | Missing(name: string)
    | EmptyBytes(name: string)
    | Blank(name: string)
    | NotMit
    | ReadmeShort(length: nat)
    | NoHeadings
    | NoSections
    | NoDoctype
    | NoHtmlTag
    | NoBodyTag
    | NoHeadTag
    | NoTitleTag
  {
    /** The kinds that concern README.md or are only advisory about index.html. */
    predicate IsWarningKind() {
      ReadmeShort? || NoHeadings? || NoSections? || NoDoctype? || NoHeadTag? || NoTitleTag?
    }
  }

  function Message(i: Issue): string {
    match i
    case Missing(n) => "Missing required file: " + n
    case EmptyBytes(n) => n + " is empty (0 bytes)"
    case Blank(n) => n + " is empty or whitespace only"
    case NotMit => "LICENSE file does not appear to be MIT license"
    case ReadmeShort(len) => "README.md is very short (" + NatToString(len) + " chars)"
    case NoHeadings => "README.md lacks markdown headings"
    case NoSections => "README.md lacks section headings (##)"
    case NoDoctype => "index.html missing DOCTYPE declaration"
    case NoHtmlTag => "index.html missing <html> tag"
    case NoBodyTag => "index.html missing <body> tag"
    case NoHeadTag => "index.html missing <head> tag"
    case NoTitleTag => "index.html missing <title> tag"
  }

  function Messages(issues: seq<Issue>): (r: seq<string>)
    ensures |r| == |issues|
  {
    seq(|issues|, k requires 0 <= k < |issues| => Message(issues[k]))
  }

  lemma MessagesConcat(a: seq<Issue>, b: seq<Issue>)
    ensures Messages(a + b) == Messages(a) + Messages(b)
  {
  }

  /** A required file is empty: no bytes, or text made only of whitespace. */
  predicate IsEmpty(c: Content) {
    match c
    case Binary(b) => |b| == 0
    case Text(t) => forall k :: 0 <= k < |t| ==> IsSpace(t[k])
  }

  /** The issue an empty file gets: it depends on whether the content is bytes or text. */
  function EmptyIssue(name: string, c: Content): Issue {
    if c.Binary? then EmptyBytes(name) else Blank(name)
  }

  /** "Missing required file" for each of `names` absent from `files`, in order. */
  function MissingIssues(files: FileSet, names: seq<string>): (r: seq<Issue>)
    ensures forall i :: i in r <==> i.Missing? && i.name in names && i.name !in files
  {
    if names == [] then []
    else (if names[0] in files then [] else [Missing(names[0])]) + MissingIssues(files, names[1..])
  }

  /** The emptiness issue of one present file, if any. */
  function EmptinessOf(name: string, c: Content): (r: seq<Issue>)
    ensures r == [] || r == [EmptyIssue(name, c)]
    ensures r != [] <==> IsEmpty(c)
  {
    match c
    case Binary(b) => if |b| == 0 then [EmptyBytes(name)] else []
    case Text(t) =>
      StripEmptyIffBlank(t);
      if Strip(t) == "" then [Blank(name)] else []
  }

  /** The emptiness issues of `names` in order; defined from the right end so that the loop
      examining the names one by one extends it by one step per iteration. */
  function EmptinessIssues(files: FileSet, names: seq<string>): (r: seq<Issue>)
    ensures forall i :: i in r ==> (i.EmptyBytes? || i.Blank?) && i.name in names && i.name in files
                                   && IsEmpty(files[i.name]) && i == EmptyIssue(i.name, files[i.name])
    ensures forall n :: n in names && n in files && IsEmpty(files[n]) ==> EmptyIssue(n, files[n]) in r
    decreases |names|
  {
    if names == [] then []
    else
      var last := names[|names| - 1];
      var init := names[..|names| - 1];
      assert forall n :: n in names <==> n in init || n == last;
      EmptinessIssues(files, init) + (if last in files then EmptinessOf(last, files[last]) else [])
  }

  /** LICENSE reads as MIT: "mit license" anywhere in the lowered text, or "mit" within its
      first 200 characters. */
  predicate LooksMit(text: string) {
    var low := Lower(text);
    Contains(low, "mit license") || Contains(low[..if |low| < 200 then |low| else 200], "mit")
  }

  function LicenseIssues(files: FileSet, decode: Utf8Decoder): (r: seq<Issue>)
    ensures r == [] || r == [NotMit]
    ensures r == [NotMit] <==> LicenseFile in files && !LooksMit(AsText(files[LicenseFile], decode))
  {
    if LicenseFile in files && !LooksMit(AsText(files[LicenseFile], decode)) then [NotMit] else []
  }

  /** The README text, when README.md is present. */
  function ReadmeText(files: FileSet, decode: Utf8Decoder): Option<string> {
    if ReadmeFile in files then Some(AsText(files[ReadmeFile], decode)) else None
  }

  /** The lowered index.html text, when index.html is present. */
  function HtmlLower(files: FileSet, decode: Utf8Decoder): Option<string> {
    if IndexHtml in files then Some(Lower(AsText(files[IndexHtml], decode))) else None
  }

  function ReadmeIssues(files: FileSet, decode: Utf8Decoder): (r: seq<Issue>)
    ensures forall i :: i in r ==> i.ReadmeShort? || i == NoHeadings || i == NoSections
    ensures forall n :: ReadmeShort(n) in r <==> ReadmeText(files, decode).Some? && n == |ReadmeText(files, decode).value| < 150
    ensures NoHeadings in r <==> ReadmeText(files, decode).Some? && !HasHeadingLine(ReadmeText(files, decode).value)
    ensures NoSections in r <==> ReadmeText(files, decode).Some? && !Contains(ReadmeText(files, decode).value, "##")
  {
    match ReadmeText(files, decode)
    case None => []
    case Some(t) =>
      (if |t| < 150 then [ReadmeShort(|t|)] else [])
      + (if !HasHeadingLine(t) then [NoHeadings] else [])
      + (if !Contains(t, "##") then [NoSections] else [])
  }

  /** The structural problems of index.html that are errors. */
  function HtmlErrorIssues(files: FileSet, decode: Utf8Decoder): (r: seq<Issue>)
    ensures forall i :: i in r ==> i == NoHtmlTag || i == NoBodyTag
    ensures NoHtmlTag in r <==> HtmlLower(files, decode).Some? && !Contains(HtmlLower(files, decode).value, "<html")
    ensures NoBodyTag in r <==> HtmlLower(files, decode).Some? && !Contains(HtmlLower(files, decode).value, "<body")
  {
    match HtmlLower(files, decode)
    case None => []
    case Some(low) =>
      (if !Contains(low, "<html") then [NoHtmlTag] else [])
      + (if !Contains(low, "<body") then [NoBodyTag] else [])
  }

  /** The structural problems of index.html that are only warnings. */
  function HtmlWarningIssues(files: FileSet, decode: Utf8Decoder): (r: seq<Issue>)
    ensures forall i :: i in r ==> i == NoDoctype || i == NoHeadTag || i == NoTitleTag
    ensures NoDoctype in r <==> HtmlLower(files, decode).Some? && !Contains(HtmlLower(files, decode).value, "<!doctype")
    ensures NoHeadTag in r <==> HtmlLower(files, decode).Some? && !Contains(HtmlLower(files, decode).value, "<head")
    ensures NoTitleTag in r <==> HtmlLower(files, decode).Some? && !Contains(HtmlLower(files, decode).value, "<title")
  {
    match HtmlLower(files, decode)
    case None => []
    case Some(low) =>
      (if !Contains(low, "<!doctype") then [NoDoctype] else [])
      + (if !Contains(low, "<head") then [NoHeadTag] else [])
      + (if !Contains(low, "<title") then [NoTitleTag] else [])
  }

  /** The errors of the structural check, in the order they are appended. */
  function StaticErrors(files: FileSet, decode: Utf8Decoder): (r: seq<Issue>)
    ensures forall i :: i in r ==> !i.IsWarningKind()
    ensures NotMit in r <==> LicenseFile in files && !LooksMit(AsText(files[LicenseFile], decode))
    ensures NoHtmlTag in r <==> IndexHtml in files && !Contains(Lower(AsText(files[IndexHtml], decode)), "<html")
    ensures NoBodyTag in r <==> IndexHtml in files && !Contains(Lower(AsText(files[IndexHtml], decode)), "<body")
  {
    var m := MissingIssues(files, RequiredFiles);
    var e := EmptinessIssues(files, RequiredFiles);
    var l := LicenseIssues(files, decode);
    var h := HtmlErrorIssues(files, decode);
    ErrorParts(m, e, l, h);
    m + e + l + h
  }

  /** What the four parts of the structural check contribute to their concatenation. */
  lemma ErrorParts(m: seq<Issue>, e: seq<Issue>, l: seq<Issue>, h: seq<Issue>)
    requires forall i :: i in m ==> i.Missing?
    requires forall i :: i in e ==> i.EmptyBytes? || i.Blank?
    requires l == [] || l == [NotMit]
    requires forall i :: i in h ==> i == NoHtmlTag || i == NoBodyTag
    ensures forall i :: i in m + e + l + h ==> !i.IsWarningKind()
    ensures NotMit in m + e + l + h <==> l == [NotMit]
    ensures NoHtmlTag in m + e + l + h <==> NoHtmlTag in h
    ensures NoBodyTag in m + e + l + h <==> NoBodyTag in h
  {
    assert forall i :: i in m + e + l + h <==> i in m || i in e || i in l || i in h;
  }

  /** Each required file that is absent gets exactly one "Missing required file" error. */
  lemma StaticErrorsMissing(files: FileSet, decode: Utf8Decoder, n: string)
    ensures Missing(n) in StaticErrors(files, decode) <==> n in RequiredFiles && n !in files
  {
  }

  /** A present required file gets an "empty" error exactly when it has no bytes or only
      whitespace; the message names the kind of content. */
  lemma StaticErrorsEmpty(files: FileSet, decode: Utf8Decoder, n: string)
    ensures EmptyBytes(n) in StaticErrors(files, decode) <==> n in RequiredFiles && n in files && files[n].Binary? && IsEmpty(files[n])
    ensures Blank(n) in StaticErrors(files, decode) <==> n in RequiredFiles && n in files && files[n].Text? && IsEmpty(files[n])
  {
    if n in RequiredFiles && n in files && IsEmpty(files[n]) {
      assert EmptyIssue(n, files[n]) in EmptinessIssues(files, RequiredFiles);
    }
  }

  /** The warnings of the structural check, in the order they are appended. */
  function StaticWarnings(files: FileSet, decode: Utf8Decoder): (r: seq<Issue>)
    ensures forall i :: i in r ==> i.IsWarningKind()
    ensures forall n :: ReadmeShort(n) in r <==> ReadmeFile in files && n == |AsText(files[ReadmeFile], decode)| < 150
    ensures NoHeadings in r <==> ReadmeFile in files && !HasHeadingLine(AsText(files[ReadmeFile], decode))
    ensures NoSections in r <==> ReadmeFile in files && !Contains(AsText(files[ReadmeFile], decode), "##")
    ensures NoDoctype in r <==> IndexHtml in files && !Contains(Lower(AsText(files[IndexHtml], decode)), "<!doctype")
    ensures NoHeadTag in r <==> IndexHtml in files && !Contains(Lower(AsText(files[IndexHtml], decode)), "<head")
    ensures NoTitleTag in r <==> IndexHtml in files && !Contains(Lower(AsText(files[IndexHtml], decode)), "<title")
  {
    ReadmeIssues(files, decode) + HtmlWarningIssues(files, decode)
  }

  /** What `validate_static_files` returns. */
  datatype StaticReport = StaticReport(
    passed: bool,
    errors: seq<string>,
    warnings: seq<string>,
    totalFiles: nat,
    filesValidated: seq<string>)

  /** The structural check.  `checks` is accepted and ignored, as in the service.  Each
      block of the check appends its messages through one of the methods below. */
  method ValidateStaticFiles(files: FileSet, checks: seq<string>, decode: Utf8Decoder) returns (report: StaticReport)
    ensures report.errors == Messages(StaticErrors(files, decode))
    ensures report.warnings == Messages(StaticWarnings(files, decode))
    ensures report.passed <==> StaticErrors(files, decode) == []
    ensures report.totalFiles == |files|
    ensures report.filesValidated == RequiredFiles
  {
    var errors := ReportMissing(files);
    var empty := ReportEmpty(files);
    var license := ReportLicense(files, decode);
    errors := errors + empty + license;
    var warnings := ReportReadme(files, decode);
    var htmlErrors, htmlWarnings := ReportHtml(files, decode);
    errors := errors + htmlErrors;
    warnings := warnings + htmlWarnings;
    MessagesConcat(MissingIssues(files, RequiredFiles), EmptinessIssues(files, RequiredFiles));
    MessagesConcat(MissingIssues(files, RequiredFiles) + EmptinessIssues(files, RequiredFiles), LicenseIssues(files, decode));
    MessagesConcat(MissingIssues(files, RequiredFiles) + EmptinessIssues(files, RequiredFiles) + LicenseIssues(files, decode),
                   HtmlErrorIssues(files, decode));
    MessagesConcat(ReadmeIssues(files, decode), HtmlWarningIssues(files, decode));
    report := StaticReport(|errors| == 0, errors, warnings, |files|, RequiredFiles);
  }

  /** "Missing required file" for each required file absent from `files`. */
  method ReportMissing(files: FileSet) returns (errors: seq<string>)
    ensures errors == Messages(MissingIssues(files, RequiredFiles))
  {
    errors := [];
    ghost var issues: seq<Issue> := [];
    if IndexHtml !in files {
      MessagesSnoc(issues, Missing(IndexHtml));
      errors, issues := errors + [Message(Missing(IndexHtml))], issues + [Missing(IndexHtml)];
    }
    if LicenseFile !in files {
      MessagesSnoc(issues, Missing(LicenseFile));
      errors, issues := errors + [Message(Missing(LicenseFile))], issues + [Missing(LicenseFile)];
    }
    if ReadmeFile !in files {
      MessagesSnoc(issues, Missing(ReadmeFile));
      errors, issues := errors + [Message(Missing(ReadmeFile))], issues + [Missing(ReadmeFile)];
    }
    MissingOfRequired(files);
  }

  /** The missing-file issues of the three required files, spelled out. */
  lemma MissingOfRequired(files: FileSet)
    ensures MissingIssues(files, RequiredFiles)
         == (if IndexHtml in files then [] else [Missing(IndexHtml)])
          + (if LicenseFile in files then [] else [Missing(LicenseFile)])
          + (if ReadmeFile in files then [] else [Missing(ReadmeFile)])
  {
    MissingOfThree(files, IndexHtml, LicenseFile, ReadmeFile);
  }

  /** `MissingIssues` over a list of three names, one name at a time. */
  lemma MissingOfThree(files: FileSet, a: string, b: string, c: string)
    ensures MissingIssues(files, [a, b, c])
         == (if a in files then [] else [Missing(a)])
          + (if b in files then [] else [Missing(b)])
          + (if c in files then [] else [Missing(c)])
  {
    var one := if c in files then [] else [Missing(c)];
    var two := (if b in files then [] else [Missing(b)]) + one;
    assert MissingIssues(files, [b, c]) == two by {
      MissingCons(files, c, []);
      MissingCons(files, b, [c]);
    }
    assert MissingIssues(files, [a, b, c]) == (if a in files then [] else [Missing(a)]) + two by {
      MissingCons(files, a, [b, c]);
    }
  }

  /** One step of `MissingIssues`: the first name, then the rest. */
  lemma MissingCons(files: FileSet, n: string, rest: seq<string>)
    ensures MissingIssues(files, [n] + rest) == (if n in files then [] else [Missing(n)]) + MissingIssues(files, rest)
  {
    assert ([n] + rest)[1..] == rest;
  }

  /** The emptiness errors, examining the required files one at a time. */
  method ReportEmpty(files: FileSet) returns (errors: seq<string>)
    ensures errors == Messages(EmptinessIssues(files, RequiredFiles))
  {
    errors := [];
    for k := 0 to |RequiredFiles|
      invariant errors == Messages(EmptinessIssues(files, RequiredFiles[..k]))
    {
      var name := RequiredFiles[k];
      ghost var step := if name in files then EmptinessOf(name, files[name]) else [];
      assert EmptinessIssues(files, RequiredFiles[..k + 1]) == EmptinessIssues(files, RequiredFiles[..k]) + step by {
        assert RequiredFiles[..k + 1][..k] == RequiredFiles[..k];
      }
      MessagesConcat(EmptinessIssues(files, RequiredFiles[..k]), step);
      if name in files {
        var found := ReportEmptiness(name, files[name]);
        errors := errors + found;
      }
    }
    assert RequiredFiles[..|RequiredFiles|] == RequiredFiles;
  }

  /** The emptiness error of one present file: bytes are empty when there are none, text when
      `strip()` leaves nothing. */
  method ReportEmptiness(name: string, c: Content) returns (errors: seq<string>)
    ensures errors == Messages(EmptinessOf(name, c))
  {
    errors := [];
    match c
    case Binary(b) =>
      if |b| == 0 {
        errors := errors + [Message(EmptyBytes(name))];
      }
    case Text(t) =>
      if Strip(t) == "" {
        errors := errors + [Message(Blank(name))];
      }
  }

  method ReportLicense(files: FileSet, decode: Utf8Decoder) returns (errors: seq<string>)
    ensures errors == Messages(LicenseIssues(files, decode))
  {
    errors := [];
    if LicenseFile in files {
      var license := AsText(files[LicenseFile], decode);
      var low := Lower(license);
      if !Contains(low, "mit license") && !Contains(low[..if |low| < 200 then |low| else 200], "mit") {
        errors := errors + [Message(NotMit)];
      }
    }
  }

  method ReportReadme(files: FileSet, decode: Utf8Decoder) returns (warnings: seq<string>)
    ensures warnings == Messages(ReadmeIssues(files, decode))
  {
    warnings := [];
    if ReadmeFile in files {
      var readme := AsText(files[ReadmeFile], decode);
      ghost var issues: seq<Issue> := [];
      if |readme| < 150 {
        MessagesSnoc(issues, ReadmeShort(|readme|));
        warnings, issues := warnings + [Message(ReadmeShort(|readme|))], issues + [ReadmeShort(|readme|)];
      }
      if !HasHeadingLine(readme) {
        MessagesSnoc(issues, NoHeadings);
        warnings, issues := warnings + [Message(NoHeadings)], issues + [NoHeadings];
      }
      if !Contains(readme, "##") {
        MessagesSnoc(issues, NoSections);
        warnings, issues := warnings + [Message(NoSections)], issues + [NoSections];
      }
      assert issues == ReadmeIssues(files, decode);
    }
  }

  method ReportHtml(files: FileSet, decode: Utf8Decoder) returns (errors: seq<string>, warnings: seq<string>)
    ensures errors == Messages(HtmlErrorIssues(files, decode))
    ensures warnings == Messages(HtmlWarningIssues(files, decode))
  {
    errors, warnings := [], [];
    if IndexHtml in files {
      var low := Lower(AsText(files[IndexHtml], decode));
      assert HtmlLower(files, decode) == Some(low);
      ghost var errs: seq<Issue> := [];
      ghost var warns: seq<Issue> := [];
      if !Contains(low, "<!doctype") {
        MessagesSnoc(warns, NoDoctype);
        warnings, warns := warnings + [Message(NoDoctype)], warns + [NoDoctype];
      }
      assert warns == if !Contains(low, "<!doctype") then [NoDoctype] else [];
      if !Contains(low, "<html") {
        MessagesSnoc(errs, NoHtmlTag);
        errors, errs := errors + [Message(NoHtmlTag)], errs + [NoHtmlTag];
      }
      if !Contains(low, "<body") {
        MessagesSnoc(errs, NoBodyTag);
        errors, errs := errors + [Message(NoBodyTag)], errs + [NoBodyTag];
      }
      if !Contains(low, "<head") {
        MessagesSnoc(warns, NoHeadTag);
        warnings, warns := warnings + [Message(NoHeadTag)], warns + [NoHeadTag];
      }
      assert warns == (if !Contains(low, "<!doctype") then [NoDoctype] else [])
                      + (if !Contains(low, "<head") then [NoHeadTag] else []);
      if !Contains(low, "<title") {
        MessagesSnoc(warns, NoTitleTag);
        warnings, warns := warnings + [Message(NoTitleTag)], warns + [NoTitleTag];
      }
      assert errs == HtmlErrorIssues(files, decode);
      assert warns == HtmlWarningIssues(files, decode);
    }
  }

  /** Appending one issue's message extends the rendering by that message. */
  lemma MessagesSnoc(a: seq<Issue>, x: Issue)
    ensures Messages(a + [x]) == Messages(a) + [Message(x)]
  {
  }

  /** Two file sets that agree on which names are present and on the emptiness of each
      present one produce the same emptiness errors. */
  lemma {:induction false} EmptinessAgree(f1: FileSet, f2: FileSet, names: seq<string>)
    requires forall n :: n in names ==> (n in f1 <==> n in f2)
    requires forall n :: n in names && n in f1 && n in f2 ==> EmptinessOf(n, f1[n]) == EmptinessOf(n, f2[n])
    ensures EmptinessIssues(f1, names) == EmptinessIssues(f2, names)
    decreases |names|
  {
    if names != [] {
      var init := names[..|names| - 1];
      assert forall n :: n in init ==> n in names;
      EmptinessAgree(f1, f2, init);
    }
  }

  /** README.md only ever causes warnings: once it is present and not empty, its content has
      no effect on the errors. */
  lemma ReadmeNeverAnError(files: FileSet, decode: Utf8Decoder, c1: Content, c2: Content)
    requires !IsEmpty(c1) && !IsEmpty(c2)
    ensures StaticErrors(files[ReadmeFile := c1], decode) == StaticErrors(files[ReadmeFile := c2], decode)
  {
    var f1 := files[ReadmeFile := c1];
    var f2 := files[ReadmeFile := c2];
    MissingAgree(f1, f2, RequiredFiles);
    ReadmeEmptinessAgree(files, c1, c2);
    OtherFilesAgree(files, decode, c1, c2);
  }

  lemma ReadmeEmptinessAgree(files: FileSet, c1: Content, c2: Content)
    requires !IsEmpty(c1) && !IsEmpty(c2)
    ensures EmptinessIssues(files[ReadmeFile := c1], RequiredFiles) == EmptinessIssues(files[ReadmeFile := c2], RequiredFiles)
  {
    var f1 := files[ReadmeFile := c1];
    var f2 := files[ReadmeFile := c2];
    forall n | n in RequiredFiles && n in f1 && n in f2 ensures EmptinessOf(n, f1[n]) == EmptinessOf(n, f2[n]) {
      if n == ReadmeFile {
        assert EmptinessOf(n, c1) == [] && EmptinessOf(n, c2) == [];
      }
    }
    EmptinessAgree(f1, f2, RequiredFiles);
  }

  lemma OtherFilesAgree(files: FileSet, decode: Utf8Decoder, c1: Content, c2: Content)
    ensures LicenseIssues(files[ReadmeFile := c1], decode) == LicenseIssues(files[ReadmeFile := c2], decode)
    ensures HtmlErrorIssues(files[ReadmeFile := c1], decode) == HtmlErrorIssues(files[ReadmeFile := c2], decode)
  {
    var f1 := files[ReadmeFile := c1];
    var f2 := files[ReadmeFile := c2];
    assert LicenseFile != ReadmeFile && IndexHtml != ReadmeFile;
    assert HtmlLower(f1, decode) == HtmlLower(f2, decode);
  }

  lemma {:induction false} MissingAgree(f1: FileSet, f2: FileSet, names: seq<string>)
    requires forall n :: n in names ==> (n in f1 <==> n in f2)
    ensures MissingIssues(f1, names) == MissingIssues(f2, names)
    decreases |names|
  {
    if names != [] {
      assert forall n :: n in names[1..] ==> n in names;
      MissingAgree(f1, f2, names[1..]);
    }
  }

  /** The structural check passes exactly when every required file is present and not empty,
      LICENSE reads as MIT and index.html has `<html` and `<body`. */
  lemma StaticPassIff(files: FileSet, decode: Utf8Decoder)
    ensures StaticErrors(files, decode) == [] <==>
      (forall n :: n in RequiredFiles ==> n in files && !IsEmpty(files[n]))
      && LooksMit(AsText(files[LicenseFile], decode))
      && Contains(Lower(AsText(files[IndexHtml], decode)), "<html")
      && Contains(Lower(AsText(files[IndexHtml], decode)), "<body")
  {
    var e := StaticErrors(files, decode);
    if e == [] {
      forall n | n in RequiredFiles ensures n in files && !IsEmpty(files[n]) {
        StaticErrorsMissing(files, decode, n);
        StaticErrorsEmpty(files, decode, n);
      }
      assert LicenseFile in RequiredFiles && IndexHtml in RequiredFiles;
    } else {
      var i := e[0];
      assert i in e;
      if i.Missing? {
        StaticErrorsMissing(files, decode, i.name);
      } else if i.EmptyBytes? || i.Blank? {
        StaticErrorsEmpty(files, decode, i.name);
      }
    }
  }

  // ===========================================================================
  // Verdicts for free-text checks
  // ===========================================================================

  /** `True`, `False` or `None` in the result's "passed" field. */
  datatype Verdict = Pass | Fail | Unknown

  datatype CheckResult = CheckResult(check: string, passed: Verdict, message: string)

  /** The keyword rules, in the order they are tried. */
  datatype Rule = LicenseRule | ReadmeRule | ElementIdRule | BootstrapRule | ArithmeticRule

  const Rules: seq<Rule> := [LicenseRule, ReadmeRule, ElementIdRule, BootstrapRule, ArithmeticRule]

  /** Whether a rule claims a check, judged on the lowered check text. */
  predicate Claims(rule: Rule, low: string) {
    match rule
    case LicenseRule => Contains(low, "mit license") || (Contains(low, "mit") && Contains(low, "license"))
    case ReadmeRule => Contains(low, "readme") && (Contains(low, "professional") || Contains(low, "complete"))
    case ElementIdRule => Contains(low, "element") && Contains(low, "id=")
    case BootstrapRule => Contains(low, "bootstrap") && (Contains(low, "cdn") || Contains(low, "load"))
    case ArithmeticRule =>
      Contains(low, "perform") || Contains(low, "operation") || Contains(low, "calculat") || Contains(low, "arithmetic")
  }

  /** The first rule at or after position `from` of `Rules` that claims the check. */
  function FirstClaimFrom(low: string, from: nat): (r: Option<nat>)
    requires from <= |Rules|
    ensures r.Some? ==> from <= r.value < |Rules| && Claims(Rules[r.value], low)
    ensures forall k :: from <= k < |Rules| && (r.None? || k < r.value) ==> !Claims(Rules[k], low)
    decreases |Rules| - from
  {
    if from == |Rules| then None
    else if Claims(Rules[from], low) then Some(from)
    else FirstClaimFrom(low, from + 1)
  }

  /** The rule that decides a check: the first that claims it, or None for the fallback. */
  function RuleFor(check: string): (r: Option<Rule>)
    ensures r.Some? ==> Claims(r.value, Lower(check))
    ensures r.Some? ==> exists k :: 0 <= k < |Rules| && Rules[k] == r.value && forall j :: 0 <= j < k ==> !Claims(Rules[j], Lower(check))
    ensures r.None? <==> forall rule :: !Claims(rule, Lower(check))
  {
    var low := Lower(check);
    var first := FirstClaimFrom(low, 0);
    if first.Some? then
      Some(Rules[first.value])
    else
      forall rule ensures !Claims(rule, low) {
        var k := match rule
          case LicenseRule => 0 case ReadmeRule => 1 case ElementIdRule => 2
          case BootstrapRule => 3 case ArithmeticRule => 4;
        assert Rules[k] == rule;
      }
      None
  }

  // ---------------------------------------------------------------------------
  // Rule 1: MIT licence
  // ---------------------------------------------------------------------------

  function LicenseCheck(files: FileSet, check: string, decode: Utf8Decoder): (r: CheckResult)
    ensures r.check == check && r.passed != Unknown
    ensures r.passed == Pass <==> LicenseFile in files && Contains(Lower(AsText(files[LicenseFile], decode)), "mit")
  {
    if LicenseFile in files then
      if Contains(Lower(AsText(files[LicenseFile], decode)), "mit") then
        CheckResult(check, Pass, "MIT License found")
      else
        CheckResult(check, Fail, "LICENSE exists but does not appear to be MIT")
    else
      CheckResult(check, Fail, "LICENSE file missing")
  }

  // ---------------------------------------------------------------------------
  // Rule 2: README quality
  // ---------------------------------------------------------------------------

  /** README.md reads as professional: a heading line, more than 200 characters and "##". */
  predicate ProfessionalReadme(readme: string) {
    HasHeadingLine(readme) && |readme| > 200 && Contains(readme, "##")
  }

  function ReadmeCheck(files: FileSet, check: string, decode: Utf8Decoder): (r: CheckResult)
    ensures r.check == check && r.passed != Unknown
    ensures r.passed == Pass <==> ReadmeFile in files && ProfessionalReadme(AsText(files[ReadmeFile], decode))
  {
    if ReadmeFile in files then
      var readme := AsText(files[ReadmeFile], decode);
      var hasHeadings := HasHeadingLine(readme);
      var hasContent := |readme| > 200;
      var hasSections := Contains(readme, "##");
      if hasHeadings && hasContent && hasSections then
        CheckResult(check, Pass, "README appears professional (" + NatToString(|readme|) + " chars, has headings)")
      else
        var issues := (if !hasHeadings then ["no headings"] else [])
                      + (if !hasContent then ["too short (" + NatToString(|readme|) + " chars)"] else [])
                      + (if !hasSections then ["no sections"] else []);
        CheckResult(check, Fail, "README quality issues: " + CommaJoin(issues))
    else
      CheckResult(check, Fail, "README.md missing")
  }

  // ---------------------------------------------------------------------------
  // Rule 3: element with an id (the regular-expression path)
  // ---------------------------------------------------------------------------

  function ElementIdCheck(files: FileSet, check: string, decode: Utf8Decoder): (r: CheckResult)
    ensures r.check == check
    ensures r.passed == Unknown <==> ExtractId(check).None?
    ensures ExtractId(check).Some? && IndexHtml !in files ==> r.passed == Fail
    ensures ExtractId(check).Some? && IndexHtml in files ==>
              (r.passed == Pass <==> HasIdAttr(AsText(files[IndexHtml], decode), ExtractId(check).value))
  {
    match ExtractId(check)
    case None => CheckResult(check, Unknown, "Could not extract ID from check string")
    case Some(id) =>
      if IndexHtml in files then
        if HasIdAttr(AsText(files[IndexHtml], decode), id) then
          CheckResult(check, Pass, "Element with id='" + id + "' found (regex match)")
        else
          CheckResult(check, Fail, "Element with id='" + id + "' NOT found in HTML")
      else
        CheckResult(check, Fail, "index.html missing, cannot check for element")
  }

  // ---------------------------------------------------------------------------
  // Rule 4: Bootstrap from a CDN
  // ---------------------------------------------------------------------------

  /** The HTML names one of the known Bootstrap CDN hosts or bundle files. */
  predicate HasBootstrapCdn(html: string) {
    || Contains(html, "cdn.jsdelivr.net/npm/bootstrap")
    || Contains(html, "stackpath.bootstrapcdn.com/bootstrap")
    || Contains(html, "maxcdn.bootstrapcdn.com/bootstrap")
    || Contains(html, "getbootstrap.com")
    || Contains(html, "bootstrap.min.css")
    || Contains(html, "bootstrap.min.js")
  }

  /** The HTML references Bootstrap version 5. */
  predicate HasBootstrap5(html: string) {
    Contains(html, "/5.") || Contains(html, "bootstrap@5")
  }

  function BootstrapCheck(files: FileSet, check: string, decode: Utf8Decoder): (r: CheckResult)
    ensures r.check == check && r.passed != Unknown
    ensures IndexHtml !in files ==> r.passed == Fail
    ensures IndexHtml in files ==>
              var html := AsText(files[IndexHtml], decode);
              (r.passed == Pass <==> HasBootstrapCdn(html) && (Contains(Lower(check), "5") ==> HasBootstrap5(html)))
  {
    var low := Lower(check);
    VersionTestRedundant(low);
    if IndexHtml in files then
      var html := AsText(files[IndexHtml], decode);
      if HasBootstrapCdn(html) then
        if Contains(low, "5") || Contains(low, "bootstrap 5") then
          if HasBootstrap5(html) then
            CheckResult(check, Pass, "Bootstrap 5 CDN link found")
          else
            CheckResult(check, Fail, "Bootstrap found but version may not be 5")
        else
          CheckResult(check, Pass, "Bootstrap CDN link found")
      else
        CheckResult(check, Fail, "No Bootstrap CDN link found in HTML")
    else
      CheckResult(check, Fail, "index.html missing")
  }

  /** Of the two version tests on the check, the second never adds anything: "bootstrap 5"
      contains "5". */
  lemma VersionTestRedundant(low: string)
    ensures Contains(low, "5") || Contains(low, "bootstrap 5") <==> Contains(low, "5")
  {
    if Contains(low, "bootstrap 5") {
      assert PrefixAt("bootstrap 5", 10, "5");
      ContainsTrans(low, "bootstrap 5", "5");
    }
  }

  // ---------------------------------------------------------------------------
  // Rule 5: arithmetic
  // ---------------------------------------------------------------------------

  /** index.html followed by a newline and script.js, each only when present. */
  function CodeToCheck(files: FileSet, decode: Utf8Decoder): string {
    (if IndexHtml in files then AsText(files[IndexHtml], decode) else "")
    + (if ScriptJs in files then "\n" + AsText(files[ScriptJs], decode) else "")
  }


  predicate HasFunctions(code: string) {
    HasFunctionDef(code) || Contains(code, "=>") || HasConstArrow(code)
  }

  /** One of the arithmetic operators " + ", " - ", " * ", " / ", "+=", "-=", "*=", "/=". */
  predicate HasOperators(code: string) {
    || Contains(code, " + ") || Contains(code, " - ") || Contains(code, " * ") || Contains(code, " / ")
    || Contains(code, "+=") || Contains(code, "-=") || Contains(code, "*=") || Contains(code, "/=")
  }

  /** One of the calculation words, in the lowered code. */
  predicate HasCalcKeywords(code: string) {
    var low := Lower(code);
    Contains(low, "calculate") || Contains(low, "compute") || Contains(low, "result")
    || Contains(low, "sum") || Contains(low, "total")
  }

  function ArithmeticCheck(files: FileSet, check: string, decode: Utf8Decoder): (r: CheckResult)
    ensures r.check == check && r.passed != Unknown
    ensures var code := CodeToCheck(files, decode);
            r.passed == Pass <==> HasOperators(code) && (HasFunctions(code) || HasCalcKeywords(code))
  {
    var code := CodeToCheck(files, decode);
    var hasFunctions := HasFunctions(code);
    var hasOperators := HasOperators(code);
    var hasKeywords := HasCalcKeywords(code);
    if hasFunctions && hasOperators then
      CheckResult(check, Pass, "Code contains functions and arithmetic operations")
    else if hasOperators && hasKeywords then
      CheckResult(check, Pass, "Code contains arithmetic operations and calculation logic")
    else
      var missing := (if !hasFunctions then ["no functions"] else [])
                     + (if !hasOperators then ["no arithmetic operators"] else []);
      CheckResult(check, Fail, "Code may not perform operations: " + CommaJoin(missing))
  }

  // ---------------------------------------------------------------------------
  // Fallback: keyword overlap, which only chooses the message
  // ---------------------------------------------------------------------------

  predicate IsStopword(w: string) {
    w == "page" || w == "element" || w == "have" || w == "must" || w == "should" || w == "repo" || w == "file"
  }

  /** The words that are not stop words, in order. */
  function WithoutStopwords(words: seq<string>): (r: seq<string>)
    ensures forall k :: 0 <= k < |r| ==> r[k] in words && !IsStopword(r[k])
    ensures forall w :: w in words && !IsStopword(w) ==> w in r
  {
    if words == [] then []
    else (if IsStopword(words[0]) then [] else [words[0]]) + WithoutStopwords(words[1..])
  }

  /** A word that is kept occurs as often as before, repetitions included. */
  lemma {:induction false} WithoutStopwordsCounts(words: seq<string>, w: string)
    ensures multiset(WithoutStopwords(words))[w] == if IsStopword(w) then 0 else multiset(words)[w]
  {
    if words != [] {
      assert words == [words[0]] + words[1..];
      WithoutStopwordsCounts(words[1..], w);
    }
  }

  /** Filtering keeps the order: the words of a prefix come before those of the rest. */
  lemma {:induction false} WithoutStopwordsAppend(a: seq<string>, b: seq<string>)
    ensures WithoutStopwords(a + b) == WithoutStopwords(a) + WithoutStopwords(b)
  {
    if a != [] {
      var head := if IsStopword(a[0]) then [] else [a[0]];
      assert (a + b)[0] == a[0];
      assert (a + b)[1..] == a[1..] + b;
      assert WithoutStopwords(a + b) == head + WithoutStopwords(a[1..] + b);
      WithoutStopwordsAppend(a[1..], b);
      assert WithoutStopwords(a) == head + WithoutStopwords(a[1..]);
    } else {
      assert a + b == b;
    }
  }

  /** Every match of the word pattern that is no stop word is listed. */
  lemma AllMatchesListed(low: string)
    ensures forall p :: WordMatchAt(low, p) ==> WordAt(low, p) in WordsFrom(low, 0)
  {
    forall p | WordMatchAt(low, p) ensures WordAt(low, p) in WordsFrom(low, 0) {
      WordsFromComplete(low, 0, p);
    }
  }

  /** The words of four or more ASCII letters in the lowered check, without the stopwords. */
  function Keywords(low: string): (r: seq<string>)
    ensures forall k :: 0 <= k < |r| ==> |r[k]| >= 4 && AllAsciiLetters(r[k]) && !IsStopword(r[k]) && Contains(low, r[k])
    ensures forall p :: WordMatchAt(low, p) && !IsStopword(WordAt(low, p)) ==> WordAt(low, p) in r
  {
    AllMatchesListed(low);
    WithoutStopwords(WordsFrom(low, 0))
  }

  /** The keywords follow the matches from left to right: the leftmost match comes first
      unless it is a stop word, then the keywords after its end. */
  lemma KeywordsInOrder(low: string)
    ensures FirstWordMatch(low, 0).None? ==> Keywords(low) == []
    ensures FirstWordMatch(low, 0).Some? ==>
              var p := FirstWordMatch(low, 0).value;
              Keywords(low) == (if IsStopword(WordAt(low, p)) then [] else [WordAt(low, p)])
                               + WithoutStopwords(WordsFrom(low, WordRunEnd(low, p)))
  {
    WordsFromFirstMatch(low, 0);
    if FirstWordMatch(low, 0).Some? {
      var p := FirstWordMatch(low, 0).value;
      WithoutStopwordsAppend([WordAt(low, p)], WordsFrom(low, WordRunEnd(low, p)));
      assert WithoutStopwords([WordAt(low, p)]) == (if IsStopword(WordAt(low, p)) then [] else [WordAt(low, p)]);
    }
  }

  /** The positions of the keywords (with repetition) that occur in `text`. */
  ghost function FoundPositions(keywords: seq<string>, text: string): set<nat> {
    set k: nat | k < |keywords| && Contains(text, keywords[k])
  }

  /** The found positions of a non-empty list are those of all but its last keyword, and the
      last position when that keyword is found. */
  lemma FoundPositionsLast(keywords: seq<string>, text: string)
    requires |keywords| > 0
    ensures var m := |keywords| - 1;
            FoundPositions(keywords, text)
            == FoundPositions(keywords[..m], text) + (if Contains(text, keywords[m]) then {m} else {})
  {
    var m := |keywords| - 1;
    assert forall k :: 0 <= k < m ==> keywords[..m][k] == keywords[k];
  }

  /** How many of the keywords (with repetition) occur in `text`. */
  function CountFound(keywords: seq<string>, text: string): (n: nat)
    ensures n == |FoundPositions(keywords, text)|
    ensures n <= |keywords|
  {
    if keywords == [] then
      assert FoundPositions(keywords, text) == {};
      0
    else
      var m := |keywords| - 1;
      FoundPositionsLast(keywords, text);
      CountFound(keywords[..m], text) + (if Contains(text, keywords[m]) then 1 else 0)
  }

  /** At least half of the keywords of the check occur in the lowered index.html. */
  predicate KeywordOverlap(files: FileSet, check: string, decode: Utf8Decoder) {
    IndexHtml in files &&
    var keywords := Keywords(Lower(check));
    |keywords| > 0 && 2 * CountFound(keywords, Lower(AsText(files[IndexHtml], decode))) >= |keywords|
  }

  function FallbackCheck(files: FileSet, check: string, decode: Utf8Decoder): (r: CheckResult)
    ensures r.check == check && r.passed == Unknown
    ensures r.message == "Some keywords found, but cannot fully validate programmatically"
            <==> KeywordOverlap(files, check, decode)
  {
    if KeywordOverlap(files, check, decode) then
      CheckResult(check, Unknown, "Some keywords found, but cannot fully validate programmatically")
    else
      CheckResult(check, Unknown, "Cannot validate this check programmatically (manual review needed)")
  }

  // ---------------------------------------------------------------------------
  // One check, then all of them
  // ---------------------------------------------------------------------------

  function ApplyRule(rule: Rule, files: FileSet, check: string, decode: Utf8Decoder): CheckResult {
    match rule
    case LicenseRule => LicenseCheck(files, check, decode)
    case ReadmeRule => ReadmeCheck(files, check, decode)
    case ElementIdRule => ElementIdCheck(files, check, decode)
    case BootstrapRule => BootstrapCheck(files, check, decode)
    case ArithmeticRule => ArithmeticCheck(files, check, decode)
  }

  /** The verdict on one check: the first rule that claims it decides, and a check no rule
      claims is Unknown whatever the files hold. */
  function ValidateSingleCheck(files: FileSet, check: string, decode: Utf8Decoder): (r: CheckResult)
    ensures r.check == check
  {
    VerdictFrom(files, check, decode, 0)
  }

  /** The rules are tried in order from position `from` of `Rules`; the fallback answers
      when none claims the check. */
  function VerdictFrom(files: FileSet, check: string, decode: Utf8Decoder, from: nat): (r: CheckResult)
    requires from <= |Rules|
    ensures r.check == check
    decreases |Rules| - from
  {
    if from == |Rules| then FallbackCheck(files, check, decode)
    else if Claims(Rules[from], Lower(check)) then ApplyRule(Rules[from], files, check, decode)
    else VerdictFrom(files, check, decode, from + 1)
  }

  /** Trying the rules in order applies the first one that claims the check. */
  lemma {:induction false} VerdictFromFirstClaim(files: FileSet, check: string, decode: Utf8Decoder, from: nat)
    requires from <= |Rules| && FirstClaimFrom(Lower(check), from).Some?
    ensures VerdictFrom(files, check, decode, from)
            == ApplyRule(Rules[FirstClaimFrom(Lower(check), from).value], files, check, decode)
    decreases |Rules| - from
  {
    var low := Lower(check);
    if !Claims(Rules[from], low) {
      assert FirstClaimFrom(low, from) == FirstClaimFrom(low, from + 1);
      assert VerdictFrom(files, check, decode, from) == VerdictFrom(files, check, decode, from + 1);
      VerdictFromFirstClaim(files, check, decode, from + 1);
    }
  }

  /** When no rule from `from` on claims the check, the fallback answers. */
  lemma {:induction false} VerdictFromNoClaim(files: FileSet, check: string, decode: Utf8Decoder, from: nat)
    requires from <= |Rules|
    requires forall k :: from <= k < |Rules| ==> !Claims(Rules[k], Lower(check))
    ensures VerdictFrom(files, check, decode, from) == FallbackCheck(files, check, decode)
    decreases |Rules| - from
  {
    if from < |Rules| {
      VerdictFromNoClaim(files, check, decode, from + 1);
    }
  }

  /** The verdict on one check comes from the rule that decides it, or from the fallback. */
  lemma SingleCheckDispatch(files: FileSet, check: string, decode: Utf8Decoder)
    ensures RuleFor(check).Some? ==>
              ValidateSingleCheck(files, check, decode) == ApplyRule(RuleFor(check).value, files, check, decode)
    ensures RuleFor(check).None? ==> ValidateSingleCheck(files, check, decode) == FallbackCheck(files, check, decode)
  {
    if FirstClaimFrom(Lower(check), 0).Some? {
      VerdictFromFirstClaim(files, check, decode, 0);
    } else {
      VerdictFromNoClaim(files, check, decode, 0);
    }
  }

  /** A check no rule claims is Unknown whatever the files hold; a claimed one is Unknown
      only when it is an id check whose id cannot be extracted. */
  lemma SingleCheckVerdict(files: FileSet, check: string, decode: Utf8Decoder)
    ensures RuleFor(check).None? ==> ValidateSingleCheck(files, check, decode).passed == Unknown
    ensures ValidateSingleCheck(files, check, decode).passed == Unknown
            <==> RuleFor(check).None? || (RuleFor(check) == Some(ElementIdRule) && ExtractId(check).None?)
  {
    SingleCheckDispatch(files, check, decode);
  }

  /** What `validate_against_checks` returns. */
  datatype ChecksReport = ChecksReport(
    allPassed: bool,
    passedCount: nat,
    failedCount: nat,
    unknownCount: nat,
    totalChecks: nat,
    results: seq<CheckResult>)

  /** How many results carry verdict `v`. */
  function CountVerdict(results: seq<CheckResult>, v: Verdict): (n: nat)
    ensures n <= |results|
  {
    if results == [] then 0
    else (if results[0].passed == v then 1 else 0) + CountVerdict(results[1..], v)
  }

  /** Every result is counted under exactly one verdict. */
  lemma {:induction false} CountsPartition(results: seq<CheckResult>)
    ensures CountVerdict(results, Pass) + CountVerdict(results, Fail) + CountVerdict(results, Unknown) == |results|
  {
    if results != [] {
      CountsPartition(results[1..]);
    }
  }

  /** A verdict is counted zero times exactly when no result carries it. */
  lemma {:induction false} CountZeroIffAbsent(results: seq<CheckResult>, v: Verdict)
    ensures CountVerdict(results, v) == 0 <==> forall k :: 0 <= k < |results| ==> results[k].passed != v
  {
    if results != [] {
      CountZeroIffAbsent(results[1..], v);
      assert forall k :: 1 <= k < |results| ==> results[k] == results[1..][k - 1];
    }
  }

  /** All passed exactly when no result failed and none is unknown. */
  lemma AllPassIffNoOtherVerdict(results: seq<CheckResult>)
    ensures CountVerdict(results, Fail) == 0 && CountVerdict(results, Unknown) == 0
            <==> forall k :: 0 <= k < |results| ==> results[k].passed == Pass
  {
    CountZeroIffAbsent(results, Fail);
    CountZeroIffAbsent(results, Unknown);
  }

  /** One result per check, in order, each for its own check; the counts partition the
      checks, and all passed exactly when every verdict is Pass. */
  method ValidateAgainstChecks(files: FileSet, checks: seq<string>, decode: Utf8Decoder) returns (report: ChecksReport)
    ensures |report.results| == |checks| == report.totalChecks
    ensures forall k :: 0 <= k < |checks| ==> report.results[k] == ValidateSingleCheck(files, checks[k], decode)
    ensures forall k :: 0 <= k < |checks| ==> report.results[k].check == checks[k]
    ensures report.passedCount == CountVerdict(report.results, Pass)
    ensures report.failedCount == CountVerdict(report.results, Fail)
    ensures report.unknownCount == CountVerdict(report.results, Unknown)
    ensures report.passedCount + report.failedCount + report.unknownCount == report.totalChecks
    ensures report.allPassed <==> forall k :: 0 <= k < |checks| ==> report.results[k].passed == Pass
  {
    var results := CheckEach(files, checks, decode);
    var passed := CountVerdict(results, Pass);
    var failed := CountVerdict(results, Fail);
    var unknown := CountVerdict(results, Unknown);
    CountsPartition(results);
    AllPassIffNoOtherVerdict(results);
    report := ChecksReport(failed == 0 && unknown == 0, passed, failed, unknown, |checks|, results);
  }

  /** The loop of `validate_against_checks`: the verdict on each check, in order. */
  method CheckEach(files: FileSet, checks: seq<string>, decode: Utf8Decoder) returns (results: seq<CheckResult>)
    ensures |results| == |checks|
    ensures forall k :: 0 <= k < |checks| ==> results[k] == ValidateSingleCheck(files, checks[k], decode)
    ensures forall k :: 0 <= k < |checks| ==> results[k].check == checks[k]
  {
    results := [];
    for i := 0 to |checks|
      invariant |results| == i
      invariant forall k :: 0 <= k < i ==> results[k] == ValidateSingleCheck(files, checks[k], decode)
    {
      var result := ValidateSingleCheck(files, checks[i], decode);
      results := results + [result];
    }
  }
}

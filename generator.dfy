/** The application generator (services/llm_generator.py): prompts go to a language model,
    replies are parsed into a file set, and the round-1 and round-2 paths merge that file set
    with the licence, the README and the files of an earlier round.  The language model and
    the codecs are parameters; what is modelled is everything done around them. */
module Generator {
  import opened Wrappers
  import opened Strings
  import opened Files
  import opened Patterns
  import opened Models
  import opened Templates
  import Validator

  /** The clock readings stamped into generated files: the year in the licence and the UTC
      time (already formatted) in the README. */
  datatype Clock = Clock(year: nat, utcStamp: string)

  /** What the update prompt shows of one existing file. */
  datatype Preview = BinarySize(size: nat) | TextHead(text: string)

  /** The prompts sent to the model, by the information each one carries.  The wording around
      that information is fixed text and not modelled. */
  datatype Prompt =
    | CreatePrompt(taskId: string, round: int, brief: string, checks: seq<string>, attachments: seq<Attachment>)
    | UpdatePrompt(taskId: string, brief: string, existing: map<string, Preview>, checks: seq<string>,
                   attachments: seq<Attachment>)
    | FixReadmePrompt(taskId: string, current: Content, failed: seq<Validator.CheckResult>)
    | FixHtmlPrompt(current: Content, failed: seq<Validator.CheckResult>)

  /** The language model: the reply's text, or None when the call raises or returns no text. */
  type Llm = Prompt -> Option<string>

  // ===========================================================================
  // Escape normalisation of string values in a JSON reply
  // ===========================================================================

  /** The first pass: the two-character escapes `\n`, `\t`, `\r`, `\"` and `\'` left in a
      value are turned into the characters they stand for, in that order.  Afterwards no `\n`
      or `\t` pair is left: each replacement removes its own pair and none creates one. */
  function NormalizeEscapes(s: string): (r: string)
    ensures !HasPair(r, '\\', 'n') && !HasPair(r, '\\', 't')
  {
    var s1 := ReplaceAll(s, "\\n", "\n");
    var s2 := ReplaceAll(s1, "\\t", "\t");
    var s3 := ReplaceAll(s2, "\\r", "\r");
    var s4 := ReplaceAll(s3, "\\\"", "\"");
    var s5 := ReplaceAll(s4, "\\'", "'");
    ReplaceRemovesPair(s, '\\', 'n', '\n');
    ReplaceKeepsPairAbsent(s1, '\\', 'n', 't', '\t');
    ReplaceRemovesPair(s1, '\\', 't', '\t');
    ReplaceKeepsPairAbsent(s2, '\\', 'n', 'r', '\r');
    ReplaceKeepsPairAbsent(s2, '\\', 't', 'r', '\r');
    ReplaceKeepsPairAbsent(s3, '\\', 'n', '"', '"');
    ReplaceKeepsPairAbsent(s3, '\\', 't', '"', '"');
    ReplaceKeepsPairAbsent(s4, '\\', 'n', '\'', '\'');
    ReplaceKeepsPairAbsent(s4, '\\', 't', '\'', '\'');
    s5
  }

  /** Files whose content gets the second pass: web sources and JSON. */
  predicate IsWebSource(name: string) {
    EndsWith(name, ".html") || EndsWith(name, ".htm") || EndsWith(name, ".js")
    || EndsWith(name, ".css") || EndsWith(name, ".json")
  }

  /** The first 500 characters of a value still show a literal `\n`, `\"` or `\t`. */
  predicate LiteralEscapesRemain(s: string) {
    var head := s[..if |s| < 500 then |s| else 500];
    Contains(head, "\\n") || Contains(head, "\\\"") || Contains(head, "\\t")
  }

  /** After the first pass only a literal `\"` can still trigger the second pass. */
  lemma OnlyQuoteTriggersSecondPass(s: string)
    ensures LiteralEscapesRemain(NormalizeEscapes(s)) <==>
            var r := NormalizeEscapes(s); Contains(r[..if |r| < 500 then |r| else 500], "\\\"")
  {
    var r := NormalizeEscapes(s);
    var n := if |r| < 500 then |r| else 500;
    var head := r[..n];
    NoPairInPrefix(r, n, 'n');
    NoPairInPrefix(r, n, 't');
    HasPairContains(head, '\\', 'n');
    HasPairContains(head, '\\', 't');
  }

  lemma NoPairInPrefix(s: string, n: nat, x: char)
    requires n <= |s|
    requires !HasPair(s, '\\', x)
    ensures !HasPair(s[..n], '\\', x)
  {
    var t := s[..n];
    forall i | 0 <= i < |t| - 1 ensures !(t[i] == '\\' && t[i + 1] == x) {
      assert t[i] == s[i] && t[i + 1] == s[i + 1];
    }
  }

  /** The value stored for one string in the reply: the first pass, then for web sources with
      literal escapes left in their head the `unicode_escape` decoding, kept only when it
      succeeds. */
  function NormalizeValue(name: string, content: string, codecs: Codecs): string {
    var c := NormalizeEscapes(content);
    if IsWebSource(name) && LiteralEscapesRemain(c) then
      match codecs.unicodeEscape(c)
      case Some(d) => d
      case None => c
    else c
  }

  // ===========================================================================
  // Parsing a reply
  // ===========================================================================

  /** The text from the first '{' to the last '}', when the last comes after the first. */
  function JsonSpan(reply: string): (r: Option<string>)
    ensures r.Some? ==> |r.value| >= 2 && r.value[0] == '{' && r.value[|r.value| - 1] == '}'
    ensures r.Some? ==> Contains(reply, r.value)
    ensures r.Some? <==> exists i, j :: 0 <= i < j < |reply| && reply[i] == '{' && reply[j] == '}'
    ensures r.Some? ==> exists i: nat :: PrefixAt(reply, i, r.value) &&
                          (forall k :: 0 <= k < i ==> reply[k] != '{') &&
                          (forall k :: i + |r.value| <= k < |reply| ==> reply[k] != '}')
  {
    PrefixAtChar(reply, '{');
    match FindFrom(reply, "{", 0)
    case None => None
    case Some(start) =>
      var end := RFindChar(reply, '}') + 1;
      if end > start then
        assert reply[start] == '{';
        assert PrefixAt(reply, start, reply[start..end]);
        Some(reply[start..end])
      else None
  }

  /** The object holding the files: the "files" member when there is one, else the whole
      object.  A "files" member that is not an object has no `.items()`, and that error is not
      one the parser catches. */
  function FilesObject(data: map<string, Json>): (r: Result<map<string, Json>>)
    ensures "files" !in data ==> r == Ok(data)
    ensures "files" in data ==> (r.Ok? <==> data["files"].JObject?)
    ensures "files" in data && r.Ok? ==> r.value == data["files"].fields
  {
    if "files" in data then
      match data["files"]
      case JObject(f) => Ok(f)
      case _ => Err("AttributeError: 'files' is not an object")
    else Ok(data)
  }

  predicate AllStrings(f: map<string, Json>) {
    forall k :: k in f ==> f[k].JString?
  }

  /** Every string value normalised under its own name. */
  function NormalizedFiles(f: map<string, Json>, codecs: Codecs): (r: Result<FileSet>)
    ensures r.Ok? <==> AllStrings(f)
    ensures r.Ok? ==> r.value.Keys == f.Keys
    ensures r.Ok? ==> forall k :: k in f ==> r.value[k] == Text(NormalizeValue(k, f[k].s, codecs))
  {
    if AllStrings(f) then Ok(map k | k in f :: Text(NormalizeValue(k, f[k].s, codecs)))
    else Err("file content is not a string")
  }

  /** The code-block fallback: a fenced `html` block (stripped) as index.html, a `css` block
      as style.css, a `javascript` or `js` block as script.js; and only when none of the three
      matched, a `<!DOCTYPE html>`…`</html>` span (unstripped) as index.html. */
  function CodeBlocks(text: string): (r: FileSet)
    ensures forall k :: k in r ==> k == IndexHtml || k == StyleCss || k == ScriptJs
    ensures forall k :: k in r ==> r[k].Text?
    ensures IndexHtml in r <==> (FencedBlock(text, "```html\n").Some? ||
              (FencedBlock(text, "```css\n").None? && FencedBlockEither(text, "```javascript\n", "```js\n").None? &&
               DoctypeSpan(text).Some?))
    ensures FencedBlock(text, "```html\n").None? && FencedBlock(text, "```css\n").None? &&
            FencedBlockEither(text, "```javascript\n", "```js\n").None? && DoctypeSpan(text).Some?
            ==> r == map[IndexHtml := Text(DoctypeSpan(text).value)]
    ensures FencedBlock(text, "```html\n").Some? ==> IndexHtml in r && r[IndexHtml] == Text(Strip(FencedBlock(text, "```html\n").value))
    ensures StyleCss in r <==> FencedBlock(text, "```css\n").Some?
    ensures StyleCss in r ==> r[StyleCss] == Text(Strip(FencedBlock(text, "```css\n").value))
    ensures ScriptJs in r <==> FencedBlockEither(text, "```javascript\n", "```js\n").Some?
    ensures ScriptJs in r ==> r[ScriptJs] == Text(Strip(FencedBlockEither(text, "```javascript\n", "```js\n").value))
    ensures IndexHtml in r && FencedBlock(text, "```html\n").None? ==>
              DoctypeSpan(text).Some? && r == map[IndexHtml := Text(DoctypeSpan(text).value)]
  {
    Blocks(Stripped(FencedBlock(text, "```html\n")), Stripped(FencedBlock(text, "```css\n")),
           Stripped(FencedBlockEither(text, "```javascript\n", "```js\n")), DoctypeSpan(text))
  }

  /** A found block's body, stripped. */
  function Stripped(body: Option<string>): (r: Option<string>)
    ensures r.Some? <==> body.Some?
    ensures r.Some? ==> r.value == Strip(body.value)
  {
    match body
    case None => None
    case Some(b) => Some(Strip(b))
  }

  /** The file set assembled from the three stripped block bodies found and the doctype span. */
  function Blocks(html: Option<string>, css: Option<string>, js: Option<string>, doctype: Option<string>): (r: FileSet)
    ensures forall k :: k in r ==> k == IndexHtml || k == StyleCss || k == ScriptJs
    ensures forall k :: k in r ==> r[k].Text?
    ensures html.Some? ==> IndexHtml in r && r[IndexHtml] == Text(html.value)
    ensures StyleCss in r <==> css.Some?
    ensures css.Some? ==> r[StyleCss] == Text(css.value)
    ensures ScriptJs in r <==> js.Some?
    ensures js.Some? ==> r[ScriptJs] == Text(js.value)
    ensures IndexHtml in r && html.None? ==> doctype.Some? && r == map[IndexHtml := Text(doctype.value)]
    ensures IndexHtml in r <==> html.Some? || (css.None? && js.None? && doctype.Some?)
    ensures html.None? && css.None? && js.None? && doctype.Some? ==> r == map[IndexHtml := Text(doctype.value)]
  {
    var f1: FileSet := if html.Some? then map[IndexHtml := Text(html.value)] else map[];
    var f2 := if css.Some? then f1[StyleCss := Text(css.value)] else f1;
    var f3 := if js.Some? then f2[ScriptJs := Text(js.value)] else f2;
    if html.None? && css.None? && js.None? && doctype.Some? then f3[IndexHtml := Text(doctype.value)] else f3
  }

  /** Every file the fallback extracts is a piece of the reply. */
  lemma CodeBlocksFromReply(text: string)
    ensures forall k :: k in CodeBlocks(text) ==> Contains(text, CodeBlocks(text)[k].text)
  {
    var r := CodeBlocks(text);
    forall k | k in r ensures Contains(text, r[k].text) {
      if k == StyleCss {
        FencedBodyInText(text, "```css\n", FencedBlock(text, "```css\n").value);
      } else if k == ScriptJs {
        var b := FencedBlockEither(text, "```javascript\n", "```js\n").value;
        if Contains(text, "```javascript\n" + b + "```") {
          FencedBodyInText(text, "```javascript\n", b);
        } else {
          FencedBodyInText(text, "```js\n", b);
        }
      } else if FencedBlock(text, "```html\n").Some? {
        FencedBodyInText(text, "```html\n", FencedBlock(text, "```html\n").value);
      } else {
        assert r[k].text == DoctypeSpan(text).value;
      }
    }
  }

  /** The stripped body of a fenced block found in `text` is a piece of `text`. */
  lemma FencedBodyInText(text: string, opener: string, body: string)
    requires Contains(text, opener + body + "```")
    ensures Contains(text, Strip(body))
  {
    var whole := opener + body + "```";
    assert PrefixAt(whole, |opener|, body);
    StripIsInfix(body);
    ContainsTrans(whole, body, Strip(body));
    ContainsTrans(text, whole, Strip(body));
  }

  /** An attachment's content, or None when it is skipped: a URL that is not a data URL, one
      with no ',' to split at, or base64 that does not decode.  The URL splits at its first
      comma into a header and a payload; a header mentioning "base64" means base64, and any
      other payload is stored as its UTF-8 encoding. */
  function AttachmentContent(att: Attachment, codecs: Codecs): (r: Option<Content>)
    ensures r.Some? ==> StartsWith(att.url, "data:") && Contains(att.url, ",") && r.value.Binary?
    ensures !StartsWith(att.url, "data:") || FindChar(att.url, ',') < 0 ==> r.None?
    ensures StartsWith(att.url, "data:") && FindChar(att.url, ',') >= 0 ==>
              var i := FindChar(att.url, ',');
              var header := att.url[..i];
              var payload := att.url[i + 1..];
              att.url == header + "," + payload && ',' !in header &&
              (Contains(header, "base64") ==>
                 (r.Some? <==> codecs.decodeBase64(payload).Some?) &&
                 (r.Some? ==> r.value == Binary(codecs.decodeBase64(payload).value))) &&
              (!Contains(header, "base64") ==> r == Some(Binary(codecs.encodeUtf8(payload))))
  {
    PrefixAtChar(att.url, ',');
    assert FindChar(att.url, ',') >= 0 ==> att.url == att.url[..FindChar(att.url, ',')] + "," + att.url[FindChar(att.url, ',') + 1..];
    if !StartsWith(att.url, "data:") then None
    else
      FindFromContains(att.url, ",");
      match FindFrom(att.url, ",", 0)
      case None => None
      case Some(i) =>
        var header := att.url[..i];
        var encoded := att.url[i + 1..];
        if Contains(header, "base64") then
          match codecs.decodeBase64(encoded)
          case Some(b) => Some(Binary(b))
          case None => None
        else Some(Binary(codecs.encodeUtf8(encoded)))
  }

  /** The file set after storing the attachments in order; a later attachment with the same
      name replaces an earlier one, and a skipped one changes nothing. */
  function WithAttachments(files: FileSet, atts: seq<Attachment>, codecs: Codecs): (r: FileSet)
    ensures files.Keys <= r.Keys
    ensures forall k :: k in r && (forall j :: 0 <= j < |atts| ==> atts[j].name != k) ==> k in files && r[k] == files[k]
    decreases |atts|
  {
    if atts == [] then files
    else
      var before := WithAttachments(files, atts[..|atts| - 1], codecs);
      var last := atts[|atts| - 1];
      match AttachmentContent(last, codecs)
      case Some(c) => before[last.name := c]
      case None => before
  }

  /** A name is in the result exactly when it was parsed or some attachment of that name is
      usable; a parsed file whose attachments are all unusable keeps its content. */
  lemma {:induction false} AttachmentNames(files: FileSet, atts: seq<Attachment>, codecs: Codecs, name: string)
    ensures name in WithAttachments(files, atts, codecs) <==>
              name in files || exists j :: 0 <= j < |atts| && atts[j].name == name && AttachmentContent(atts[j], codecs).Some?
    ensures name in files && (forall j :: 0 <= j < |atts| && atts[j].name == name ==> AttachmentContent(atts[j], codecs).None?)
            ==> WithAttachments(files, atts, codecs)[name] == files[name]
    decreases |atts|
  {
    if atts != [] {
      var init := atts[..|atts| - 1];
      AttachmentNames(files, init, codecs, name);
      assert forall j :: 0 <= j < |init| ==> init[j] == atts[j];
    }
  }

  /** The last usable attachment of a name decides that name's content. */
  lemma {:induction false} LastAttachmentWins(files: FileSet, atts: seq<Attachment>, codecs: Codecs, j: nat)
    requires j < |atts| && AttachmentContent(atts[j], codecs).Some?
    requires forall k :: j < k < |atts| ==> atts[k].name != atts[j].name || AttachmentContent(atts[k], codecs).None?
    ensures atts[j].name in WithAttachments(files, atts, codecs)
    ensures WithAttachments(files, atts, codecs)[atts[j].name] == AttachmentContent(atts[j], codecs).value
    decreases |atts|
  {
    if j < |atts| - 1 {
      var init := atts[..|atts| - 1];
      assert init[j] == atts[j];
      LastAttachmentWins(files, init, codecs, j);
    }
  }

  /** What parsing a reply yields: the JSON files, normalised, or the code-block fallback when
      there is no `{…}` span or it is not valid JSON; then the attachments on top. */
  function ParseReply(reply: string, atts: seq<Attachment>, codecs: Codecs): (r: Result<FileSet>)
    ensures r.Err? ==> JsonSpan(reply).Some? && codecs.parseJson(JsonSpan(reply).value).Some?
    ensures r.Ok? ==> forall j :: 0 <= j < |atts| && AttachmentContent(atts[j], codecs).Some? ==> atts[j].name in r.value
  {
    var base: Result<FileSet> :=
      match JsonSpan(reply)
      case None => Ok(CodeBlocks(reply))
      case Some(span) =>
        match codecs.parseJson(span)
        case None => Ok(CodeBlocks(reply))
        case Some(data) =>
          match FilesObject(data)
          case Err(e) => Err(e)
          case Ok(f) => NormalizedFiles(f, codecs);
    match base
    case Err(e) => Err(e)
    case Ok(files) =>
      UsableAttachmentsStored(files, atts, codecs);
      Ok(WithAttachments(files, atts, codecs))
  }

  /** Every usable attachment ends up in the files under its name. */
  lemma UsableAttachmentsStored(files: FileSet, atts: seq<Attachment>, codecs: Codecs)
    ensures forall j :: 0 <= j < |atts| && AttachmentContent(atts[j], codecs).Some? ==> atts[j].name in WithAttachments(files, atts, codecs)
  {
    forall j | 0 <= j < |atts| && AttachmentContent(atts[j], codecs).Some?
      ensures atts[j].name in WithAttachments(files, atts, codecs)
    {
      AttachmentNames(files, atts, codecs, atts[j].name);
    }
  }

  /** A reply that is not JSON never fails to parse: it falls back to the code blocks. */
  lemma NonJsonReplyFallsBack(reply: string, atts: seq<Attachment>, codecs: Codecs)
    requires JsonSpan(reply).None? || codecs.parseJson(JsonSpan(reply).value).None?
    ensures ParseReply(reply, atts, codecs) == Ok(WithAttachments(CodeBlocks(reply), atts, codecs))
  {
  }

  /** A reply whose JSON parses gives its normalised files with the attachments on top. */
  lemma JsonReplyParsed(reply: string, atts: seq<Attachment>, codecs: Codecs, data: map<string, Json>, f: map<string, Json>)
    requires JsonSpan(reply).Some? && codecs.parseJson(JsonSpan(reply).value) == Some(data)
    requires FilesObject(data) == Ok(f) && AllStrings(f)
    ensures NormalizedFiles(f, codecs).Ok?
    ensures ParseReply(reply, atts, codecs) == Ok(WithAttachments(NormalizedFiles(f, codecs).value, atts, codecs))
  {
  }

  /** Parsing fails exactly when the JSON parses but its files object is not an object or
      holds a value that is not a string. */
  lemma ParseReplyErrIff(reply: string, atts: seq<Attachment>, codecs: Codecs)
    ensures ParseReply(reply, atts, codecs).Err? <==>
              JsonSpan(reply).Some? && codecs.parseJson(JsonSpan(reply).value).Some? &&
              var f := FilesObject(codecs.parseJson(JsonSpan(reply).value).value);
              f.Err? || !AllStrings(f.value)
  {
  }

  /** `_extract_code_blocks`, filling the file set one match at a time. */
  method ExtractCodeBlocks(text: string) returns (files: FileSet)
    ensures files == CodeBlocks(text)
  {
    var html := Stripped(FencedBlock(text, "```html\n"));
    var css := Stripped(FencedBlock(text, "```css\n"));
    var js := Stripped(FencedBlockEither(text, "```javascript\n", "```js\n"));
    files := FillBlocks(html, css, js, text);
  }

  /** The dictionary filled one found block at a time; the doctype span is searched for only
      when it is still empty. */
  method FillBlocks(html: Option<string>, css: Option<string>, js: Option<string>, text: string)
    returns (files: FileSet)
    ensures files == Blocks(html, css, js, DoctypeSpan(text))
  {
    files := map[];
    if html.Some? {
      files := files[IndexHtml := Text(html.value)];
    }
    if css.Some? {
      files := files[StyleCss := Text(css.value)];
    }
    if js.Some? {
      files := files[ScriptJs := Text(js.value)];
    }
    if |files| == 0 {
      var doctype := DoctypeSpan(text);
      if doctype.Some? {
        files := files[IndexHtml := Text(doctype.value)];
      }
    }
  }

  /** The normalisation loop over the parsed object, one file name at a time. */
  method NormalizeFiles(f: map<string, Json>, codecs: Codecs) returns (r: Result<FileSet>)
    ensures r == NormalizedFiles(f, codecs)
  {
    var files: FileSet := map[];
    var todo := f.Keys;
    while todo != {}
      invariant todo <= f.Keys
      invariant files.Keys == f.Keys - todo
      invariant forall k :: k in files ==> f[k].JString? && files[k] == Text(NormalizeValue(k, f[k].s, codecs))
      decreases |todo|
    {
      var name :| name in todo;
      if !f[name].JString? {
        return Err("file content is not a string");
      }
      files := files[name := Text(NormalizeValue(name, f[name].s, codecs))];
      todo := todo - {name};
    }
    assert files == map k | k in f :: Text(NormalizeValue(k, f[k].s, codecs));
    r := Ok(files);
  }

  /** The attachment loop: each usable attachment is stored under its name. */
  method AddAttachments(files: FileSet, atts: seq<Attachment>, codecs: Codecs) returns (r: FileSet)
    ensures r == WithAttachments(files, atts, codecs)
  {
    r := files;
    for i := 0 to |atts|
      invariant r == WithAttachments(files, atts[..i], codecs)
    {
      assert atts[..i + 1][..i] == atts[..i];
      var content := AttachmentContent(atts[i], codecs);
      if content.Some? {
        r := r[atts[i].name := content.value];
      }
    }
    assert atts[..|atts|] == atts;
  }

  /** `_parse_response` */
  method ParseResponse(reply: string, atts: seq<Attachment>, codecs: Codecs) returns (r: Result<FileSet>)
    ensures r == ParseReply(reply, atts, codecs)
  {
    var files: FileSet;
    var span := JsonSpan(reply);
    var data := if span.Some? then codecs.parseJson(span.value) else None;
    if data.Some? {
      var obj := FilesObject(data.value);
      if obj.Err? {
        return Err(obj.msg);
      }
      var normalized := NormalizeFiles(obj.value, codecs);
      if normalized.Err? {
        return Err(normalized.msg);
      }
      files := normalized.value;
    } else {
      files := ExtractCodeBlocks(reply);
    }
    files := AddAttachments(files, atts, codecs);
    r := Ok(files);
  }

  // ===========================================================================
  // Round 1: a new app
  // ===========================================================================

  /** The parsed files with a licence and a README written over whatever the model sent
      under those names. */
  function WithDocs(parsed: FileSet, license: string, readme: string): (r: FileSet)
    ensures forall k :: k in r <==> k in parsed || k == LicenseFile || k == ReadmeFile
    ensures r[LicenseFile] == Text(license) && r[ReadmeFile] == Text(readme)
    ensures forall k :: k in parsed && k != LicenseFile && k != ReadmeFile ==> r[k] == parsed[k]
  {
    parsed[LicenseFile := Text(license)][ReadmeFile := Text(readme)]
  }

  /** The files of a new app: the parsed ones, the MIT licence, and a README generated from
      the brief that lists the files present once the licence is in. */
  function CreateFiles(parsed: FileSet, brief: string, taskId: string, clock: Clock): FileSet {
    WithDocs(parsed, MitLicense(clock.year), GenerateReadme(brief, taskId, parsed.Keys + {LicenseFile}, clock.utcStamp))
  }

  /** What round-1 generation yields: an error when the model call fails or its reply cannot
      be parsed, otherwise the parsed files completed with licence and README. */
  function CreateApp(brief: string, checks: seq<string>, atts: seq<Attachment>, taskId: string, round: int,
                     llm: Llm, codecs: Codecs, clock: Clock): (r: Result<FileSet>)
    ensures llm(CreatePrompt(taskId, round, brief, checks, atts)).None? ==> r.Err?
    ensures r.Ok? ==> LicenseFile in r.value && r.value[LicenseFile] == Text(MitLicense(clock.year)) && ReadmeFile in r.value
    ensures r.Ok? ==> var parsed := ParseReply(llm(CreatePrompt(taskId, round, brief, checks, atts)).value, atts, codecs);
                      parsed.Ok? && r.value.Keys == parsed.value.Keys + {LicenseFile, ReadmeFile}
  {
    match llm(CreatePrompt(taskId, round, brief, checks, atts))
    case None => Err("model call failed")
    case Some(reply) =>
      match ParseReply(reply, atts, codecs)
      case Err(e) => Err(e)
      case Ok(parsed) => Ok(CreateFiles(parsed, brief, taskId, clock))
  }

  /** A file set whose licence reads as MIT and whose README reads as professional raises no
      licence error and no README warning in the structural validation, and passes the
      licence and README rules of the check validation whatever the check's wording. */
  lemma DocsPass(files: FileSet, decode: Utf8Decoder, license: string, readme: string)
    requires LicenseFile in files && files[LicenseFile] == Text(license)
    requires ReadmeFile in files && files[ReadmeFile] == Text(readme)
    requires Validator.LooksMit(license) && Contains(Lower(license), "mit")
    requires Validator.ProfessionalReadme(readme) && |readme| >= 150
    ensures Validator.LicenseIssues(files, decode) == []
    ensures Validator.ReadmeIssues(files, decode) == []
    ensures forall check :: Validator.LicenseCheck(files, check, decode).passed == Validator.Pass
    ensures forall check :: Validator.ReadmeCheck(files, check, decode).passed == Validator.Pass
  {
    ReadmeIssuesOf(files, decode, readme);
  }

  /** The files of a new app hold the generated licence and README, so they pass the
      documentation checks. */
  lemma CreatedFilesDocsPass(parsed: FileSet, brief: string, taskId: string, clock: Clock, decode: Utf8Decoder)
    ensures var files := CreateFiles(parsed, brief, taskId, clock);
            && Validator.LicenseIssues(files, decode) == [] && Validator.ReadmeIssues(files, decode) == []
            && (forall check :: Validator.LicenseCheck(files, check, decode).passed == Validator.Pass)
            && (forall check :: Validator.ReadmeCheck(files, check, decode).passed == Validator.Pass)
  {
    var license := MitLicense(clock.year);
    var readme := GenerateReadme(brief, taskId, parsed.Keys + {LicenseFile}, clock.utcStamp);
    MitLicenseRecognised(clock.year);
    GeneratedReadmeProfessional(brief, taskId, parsed.Keys + {LicenseFile}, clock.utcStamp);
    DocsPass(WithDocs(parsed, license, readme), decode, license, readme);
  }

  /** `_create_new_app` */
  method CreateNewApp(brief: string, checks: seq<string>, atts: seq<Attachment>, taskId: string, round: int,
                      llm: Llm, codecs: Codecs, clock: Clock) returns (r: Result<FileSet>)
    ensures r == CreateApp(brief, checks, atts, taskId, round, llm, codecs, clock)
  {
    var reply := llm(CreatePrompt(taskId, round, brief, checks, atts));
    if reply.None? {
      return Err("model call failed");
    }
    var parsed := ParseResponse(reply.value, atts, codecs);
    if parsed.Err? {
      return Err(parsed.msg);
    }
    var files := AddDocs(parsed.value, brief, taskId, clock);
    r := Ok(files);
  }

  /** The licence is written first, then the README listing the files present by then. */
  method AddDocs(parsed: FileSet, brief: string, taskId: string, clock: Clock) returns (files: FileSet)
    ensures files == CreateFiles(parsed, brief, taskId, clock)
  {
    files := parsed;
    files := files[LicenseFile := Text(MitLicense(clock.year))];
    assert files.Keys == parsed.Keys + {LicenseFile};
    files := files[ReadmeFile := Text(GenerateReadme(brief, taskId, files.Keys, clock.utcStamp))];
  }

  // ===========================================================================
  // Round 2 and later: an update of the existing app
  // ===========================================================================

  /** How one existing file is shown to the model: bytes by their size, text by its first
      3000 characters. */
  function PreviewOf(c: Content): (p: Preview)
    ensures c.Binary? ==> p == BinarySize(|c.data|)
    ensures c.Text? ==> p.TextHead? && |p.text| == (if |c.text| > 3000 then 3000 else |c.text|)
                        && p.text == c.text[..|p.text|]
  {
    match c
    case Binary(b) => BinarySize(|b|)
    case Text(t) => TextHead(if |t| > 3000 then t[..3000] else t)
  }

  /** The existing files shown in the update prompt: all but the licence and the README. */
  function Previews(existing: FileSet): (r: map<string, Preview>)
    ensures r.Keys == existing.Keys - {LicenseFile, ReadmeFile}
    ensures forall k :: k in r ==> r[k] == PreviewOf(existing[k])
  {
    map k | k in existing && k != LicenseFile && k != ReadmeFile :: PreviewOf(existing[k])
  }

  /** The old README as the f-string renders it: its text, the `repr` of its bytes, or
      "N/A" when there was none. */
  function OriginalReadme(existing: FileSet, codecs: Codecs): string {
    if ReadmeFile in existing then
      match existing[ReadmeFile]
      case Text(t) => t
      case Binary(b) => codecs.reprBytes(b)
    else "N/A"
  }

  /** The brief the regenerated README describes. */
  function UpdateBrief(existing: FileSet, brief: string, codecs: Codecs): string {
    "Original: " + OriginalReadme(existing, codecs) + "\n\nUpdate: " + brief
  }

  /** The merge of an update: files the model returned replace or join the existing ones,
      the README is replaced, and the licence is added only when neither side has one. */
  function Merge(existing: FileSet, updated: FileSet, readme: string, license: string): (r: FileSet)
    ensures forall k :: k in r <==> k in existing || k in updated || k == ReadmeFile || k == LicenseFile
    ensures forall k :: k in updated && k != ReadmeFile ==> r[k] == updated[k]
    ensures forall k :: k in existing && k !in updated && k != ReadmeFile ==> r[k] == existing[k]
    ensures r[ReadmeFile] == Text(readme)
    ensures LicenseFile !in existing && LicenseFile !in updated ==> r[LicenseFile] == Text(license)
  {
    var withReadme := (existing + updated)[ReadmeFile := Text(readme)];
    if LicenseFile in withReadme then withReadme else withReadme[LicenseFile := Text(license)]
  }

  /** The files after an update.  The README is generated before a missing licence is
      added, so its file list names LICENSE only when one of the two sides had it. */
  function UpdateFiles(existing: FileSet, updated: FileSet, brief: string, taskId: string, clock: Clock,
                       codecs: Codecs): FileSet
  {
    Merge(existing, updated,
          GenerateReadme(UpdateBrief(existing, brief, codecs), taskId, existing.Keys + updated.Keys, clock.utcStamp),
          MitLicense(clock.year))
  }

  /** What an update yields: an error when the model call fails or its reply cannot be
      parsed, otherwise the merge. */
  function UpdateApp(brief: string, checks: seq<string>, atts: seq<Attachment>, taskId: string, existing: FileSet,
                     llm: Llm, codecs: Codecs, clock: Clock): (r: Result<FileSet>)
    ensures llm(UpdatePrompt(taskId, brief, Previews(existing), checks, atts)).None? ==> r.Err?
    ensures r.Ok? ==> var parsed := ParseReply(llm(UpdatePrompt(taskId, brief, Previews(existing), checks, atts)).value, atts, codecs);
                      parsed.Ok? && r.value.Keys == existing.Keys + parsed.value.Keys + {LicenseFile, ReadmeFile}
  {
    match llm(UpdatePrompt(taskId, brief, Previews(existing), checks, atts))
    case None => Err("model call failed")
    case Some(reply) =>
      match ParseReply(reply, atts, codecs)
      case Err(e) => Err(e)
      case Ok(updated) => Ok(UpdateFiles(existing, updated, brief, taskId, clock, codecs))
  }

  /** An update loses no file and always ends with a README and a licence; the README it
      writes passes the README checks, while a licence that was already there is kept as it
      is. */
  lemma UpdatedAppKeepsFiles(brief: string, checks: seq<string>, atts: seq<Attachment>, taskId: string,
                             existing: FileSet, llm: Llm, codecs: Codecs, clock: Clock, decode: Utf8Decoder)
    requires UpdateApp(brief, checks, atts, taskId, existing, llm, codecs, clock).Ok?
    ensures var files := UpdateApp(brief, checks, atts, taskId, existing, llm, codecs, clock).value;
            && existing.Keys <= files.Keys && LicenseFile in files && ReadmeFile in files
            && (LicenseFile in existing && LicenseFile !in ParseReply(llm(UpdatePrompt(taskId, brief, Previews(existing), checks, atts)).value, atts, codecs).value
                ==> files[LicenseFile] == existing[LicenseFile])
            && Validator.ReadmeIssues(files, decode) == []
  {
    var updated := ParseReply(llm(UpdatePrompt(taskId, brief, Previews(existing), checks, atts)).value, atts, codecs).value;
    var readme := GenerateReadme(UpdateBrief(existing, brief, codecs), taskId, existing.Keys + updated.Keys, clock.utcStamp);
    var files := Merge(existing, updated, readme, MitLicense(clock.year));
    assert UpdateApp(brief, checks, atts, taskId, existing, llm, codecs, clock).value == files;
    GeneratedReadmeProfessional(UpdateBrief(existing, brief, codecs), taskId, existing.Keys + updated.Keys, clock.utcStamp);
    ReadmeIssuesOf(files, decode, readme);
  }

  /** A professional README of at least 150 characters draws no README warning. */
  lemma ReadmeIssuesOf(files: FileSet, decode: Utf8Decoder, readme: string)
    requires ReadmeFile in files && files[ReadmeFile] == Text(readme)
    requires Validator.ProfessionalReadme(readme) && |readme| >= 150
    ensures Validator.ReadmeIssues(files, decode) == []
  {
    assert Validator.ReadmeText(files, decode) == Some(readme);
  }

  /** `_update_existing_app`: copy the existing files, `update` them with the parsed ones,
      regenerate the README, add a licence if none. */
  method UpdateExistingApp(brief: string, checks: seq<string>, atts: seq<Attachment>, taskId: string,
                           existing: FileSet, llm: Llm, codecs: Codecs, clock: Clock) returns (r: Result<FileSet>)
    ensures r == UpdateApp(brief, checks, atts, taskId, existing, llm, codecs, clock)
  {
    var reply := llm(UpdatePrompt(taskId, brief, Previews(existing), checks, atts));
    if reply.None? {
      return Err("model call failed");
    }
    var parsed := ParseResponse(reply.value, atts, codecs);
    if parsed.Err? {
      return Err(parsed.msg);
    }
    var final := existing;
    final := final + parsed.value;
    assert final.Keys == existing.Keys + parsed.value.Keys;
    final := final[ReadmeFile := Text(GenerateReadme(UpdateBrief(existing, brief, codecs), taskId, final.Keys, clock.utcStamp))];
    if LicenseFile !in final {
      final := final[LicenseFile := Text(MitLicense(clock.year))];
    }
    r := Ok(final);
  }

  /** The update path is taken for a round after the first when there are existing files. */
  predicate TakesUpdatePath(round: int, existing: Option<FileSet>) {
    round > 1 && existing.Some? && |existing.value| > 0
  }

  /** `generate_app` */
  method GenerateApp(brief: string, checks: seq<string>, atts: seq<Attachment>, taskId: string, round: int,
                     existing: Option<FileSet>, llm: Llm, codecs: Codecs, clock: Clock) returns (r: Result<FileSet>)
    ensures TakesUpdatePath(round, existing) ==> r == UpdateApp(brief, checks, atts, taskId, existing.value, llm, codecs, clock)
    ensures !TakesUpdatePath(round, existing) ==> r == CreateApp(brief, checks, atts, taskId, round, llm, codecs, clock)
  {
    if round > 1 && existing.Some? && |existing.value| > 0 {
      r := UpdateExistingApp(brief, checks, atts, taskId, existing.value, llm, codecs, clock);
    } else {
      r := CreateNewApp(brief, checks, atts, taskId, round, llm, codecs, clock);
    }
  }

  // ===========================================================================
  // Targeted fixes after a failed validation
  // ===========================================================================

  /** Which file a failed check asks to fix. */
  datatype Bucket = ReadmeBucket | HtmlBucket | OtherBucket

  /** A check mentioning "readme" goes to the README; otherwise one mentioning "element",
      "id=" or "bootstrap" goes to index.html; anything else is not fixed. */
  function BucketOf(check: string): (b: Bucket)
    ensures b == ReadmeBucket <==> Contains(Lower(check), "readme")
    ensures b == HtmlBucket <==>
              && !Contains(Lower(check), "readme")
              && (Contains(Lower(check), "element") || Contains(Lower(check), "id=") || Contains(Lower(check), "bootstrap"))
  {
    var low := Lower(check);
    if Contains(low, "readme") then ReadmeBucket
    else if Contains(low, "element") || Contains(low, "id=") || Contains(low, "bootstrap") then HtmlBucket
    else OtherBucket
  }

  /** The failed checks of one bucket, in their original order. */
  function InBucket(failed: seq<Validator.CheckResult>, b: Bucket): (r: seq<Validator.CheckResult>)
    ensures forall c :: c in r <==> c in failed && BucketOf(c.check) == b
    decreases |failed|
  {
    if failed == [] then []
    else
      var last := failed[|failed| - 1];
      var init := failed[..|failed| - 1];
      assert forall c :: c in failed <==> c in init || c == last;
      InBucket(init, b) + (if BucketOf(last.check) == b then [last] else [])
  }

  /** Every failed check lands in exactly one bucket. */
  lemma {:induction false} BucketsPartition(failed: seq<Validator.CheckResult>)
    ensures |InBucket(failed, ReadmeBucket)| + |InBucket(failed, HtmlBucket)| + |InBucket(failed, OtherBucket)| == |failed|
    decreases |failed|
  {
    if failed != [] {
      BucketsPartition(failed[..|failed| - 1]);
    }
  }

  /** Dropping the fence lines around a reply that opens with "```": the first line goes,
      and the last one too when it is a fence.  With `i` the first newline and `l` the last,
      a one-line reply leaves nothing; otherwise what is kept runs from after `i` to `l` when
      the text after `l` opens with a fence, and to the end when it does not. */
  function StripFences(s: string): (r: string)
    ensures !StartsWith(s, "```") ==> r == s
    ensures StartsWith(s, "```") ==>
              var i := FindChar(s, '\n');
              var l := RFindChar(s, '\n');
              if i < 0 then r == ""
              else if StartsWith(s[l + 1..], "```") then r == (if i == l then "" else s[i + 1..l])
              else r == s[i + 1..]
    ensures Contains(s, r)
    ensures StartsWith(s, "```") ==> |r| < |s|
  {
    if StartsWith(s, "```") then
      var lines := Split(s, '\n');
      var last := if |lines| >= 2 && StartsWith(lines[|lines| - 1], "```") then |lines| - 1 else |lines|;
      FenceLinesDropped(s, lines, last);
      Join(lines[1..last], '\n')
    else
      assert PrefixAt(s, 0, s);
      s
  }

  /** The lines kept from a fenced reply, as a piece of the reply. */
  lemma FenceLinesDropped(s: string, lines: seq<string>, last: nat)
    requires StartsWith(s, "```") && lines == Split(s, '\n')
    requires last == if |lines| >= 2 && StartsWith(lines[|lines| - 1], "```") then |lines| - 1 else |lines|
    ensures var i := FindChar(s, '\n');
            var l := RFindChar(s, '\n');
            var r := Join(lines[1..last], '\n');
            (if i < 0 then r == ""
             else if StartsWith(s[l + 1..], "```") then r == (if i == l then "" else s[i + 1..l])
             else r == s[i + 1..]) &&
            PrefixAt(s, if i < 0 then 0 else i + 1, r)
  {
    var i := FindChar(s, '\n');
    if i < 0 {
      SplitNoSep(s, '\n');
      assert lines[1..last] == [];
      assert PrefixAt(s, 0, "");
    } else {
      var l := RFindChar(s, '\n');
      SplitAround(s, '\n', i, l);
      if StartsWith(s[l + 1..], "```") {
        ClosingFenceDropped(s, lines, last, i, l);
      } else {
        assert last == |lines|;
        assert lines[1..last] == lines[1..];
        assert PrefixAt(s, i + 1, s[i + 1..]);
      }
    }
  }

  /** The case of `FenceLinesDropped` where the last line is a closing fence. */
  lemma ClosingFenceDropped(s: string, lines: seq<string>, last: nat, i: nat, l: nat)
    requires i <= l < |s| && lines == Split(s, '\n') && |lines| >= 2
    requires lines[|lines| - 1] == s[l + 1..] && StartsWith(s[l + 1..], "```")
    requires Join(lines[1..|lines| - 1], '\n') == (if i == l then "" else s[i + 1..l])
    requires last == if |lines| >= 2 && StartsWith(lines[|lines| - 1], "```") then |lines| - 1 else |lines|
    ensures Join(lines[1..last], '\n') == (if i == l then "" else s[i + 1..l])
    ensures PrefixAt(s, i + 1, if i == l then "" else s[i + 1..l])
  {
    var mid := if i == l then "" else s[i + 1..l];
    assert PrefixAt(s, i + 1, mid) by {
      if i < l {
        assert s[i + 1..i + 1 + |mid|] == mid;
      }
    }
  }

  /** `_fix_readme`: the model's stripped reply without fence lines, or the current README
      when the call fails. */
  function FixReadme(current: Content, failed: seq<Validator.CheckResult>, taskId: string, llm: Llm): (r: Content)
    ensures llm(FixReadmePrompt(taskId, current, failed)).None? ==> r == current
    ensures llm(FixReadmePrompt(taskId, current, failed)).Some? ==>
              r == Text(StripFences(Strip(llm(FixReadmePrompt(taskId, current, failed)).value)))
    ensures llm(FixReadmePrompt(taskId, current, failed)).Some? ==>
              r.Text? && Contains(llm(FixReadmePrompt(taskId, current, failed)).value, r.text)
  {
    match llm(FixReadmePrompt(taskId, current, failed))
    case None => current
    case Some(reply) =>
      var s := Strip(reply);
      StripIsInfix(reply);
      ContainsTrans(reply, s, StripFences(s));
      Text(StripFences(s))
  }

  /** `_fix_html`: from a reply mentioning "```html" the body of its first fenced html block,
      stripped (the whole stripped reply when that block does not close); from another reply
      opening with a fence the fence lines dropped; or the current page when the call fails. */
  function FixHtml(current: Content, failed: seq<Validator.CheckResult>, llm: Llm): (r: Content)
    ensures llm(FixHtmlPrompt(current, failed)).None? ==> r == current
    ensures llm(FixHtmlPrompt(current, failed)).Some? ==>
              r == Text(HtmlFromReply(Strip(llm(FixHtmlPrompt(current, failed)).value)))
    ensures llm(FixHtmlPrompt(current, failed)).Some? ==>
              r.Text? && Contains(llm(FixHtmlPrompt(current, failed)).value, r.text)
  {
    match llm(FixHtmlPrompt(current, failed))
    case None => current
    case Some(reply) =>
      var s := Strip(reply);
      StripIsInfix(reply);
      ContainsTrans(reply, s, HtmlFromReply(s));
      Text(HtmlFromReply(s))
  }

  /** The page taken from a stripped reply: the stripped body of the first closed "```html"
      block when the reply mentions "```html" (the reply itself when no such block closes),
      otherwise the reply without its fence lines. */
  function HtmlFromReply(s: string): (r: string)
    ensures Contains(s, r)
    ensures !Contains(s, "```html") && !StartsWith(s, "```") ==> r == s
    ensures Contains(s, "```html") && FencedBlock(s, "```html\n").None? ==> r == s
    ensures Contains(s, "```html") && FencedBlock(s, "```html\n").Some? ==> r == Strip(FencedBlock(s, "```html\n").value)
    ensures !Contains(s, "```html") ==> r == StripFences(s)
  {
    if Contains(s, "```html") then
      match FencedBlock(s, "```html\n")
      case Some(body) =>
        FencedBodyInText(s, "```html\n", body);
        Strip(body)
      case None =>
        assert PrefixAt(s, 0, s);
        s
    else StripFences(s)
  }

  /** What the targeted fixes yield: with no failed checks the files as they are; otherwise
      the README rewritten when a check asks for it, index.html rewritten when a check asks
      for it, and every other file untouched. */
  function FixedFiles(files: FileSet, failed: seq<Validator.CheckResult>, taskId: string, llm: Llm): (r: FileSet)
    ensures r.Keys == files.Keys + (if InBucket(failed, ReadmeBucket) != [] then {ReadmeFile} else {})
                                 + (if InBucket(failed, HtmlBucket) != [] then {IndexHtml} else {})
  {
    var readmeChecks := InBucket(failed, ReadmeBucket);
    var htmlChecks := InBucket(failed, HtmlBucket);
    var f1 := if readmeChecks != [] then
                files[ReadmeFile := FixReadme(Lookup(files, ReadmeFile), readmeChecks, taskId, llm)]
              else files;
    if htmlChecks != [] then f1[IndexHtml := FixHtml(Lookup(files, IndexHtml), htmlChecks, llm)] else f1
  }

  /** A file's content, or empty text when it is absent. */
  function Lookup(files: FileSet, name: string): Content {
    if name in files then files[name] else Text("")
  }

  /** The fixes touch only README.md and index.html, each only when some failed check asks
      for it, and leave everything unchanged when no check failed. */
  lemma FixesAreTargeted(files: FileSet, failed: seq<Validator.CheckResult>, taskId: string, llm: Llm)
    ensures failed == [] ==> FixedFiles(files, failed, taskId, llm) == files
    ensures var r := FixedFiles(files, failed, taskId, llm);
            forall k :: k in files && k != ReadmeFile && k != IndexHtml ==> k in r && r[k] == files[k]
    ensures var r := FixedFiles(files, failed, taskId, llm);
            forall k :: k in r ==> k in files || (k == ReadmeFile && exists c :: c in failed && BucketOf(c.check) == ReadmeBucket)
                                             || (k == IndexHtml && exists c :: c in failed && BucketOf(c.check) == HtmlBucket)
    ensures (forall c :: c in failed ==> BucketOf(c.check) != ReadmeBucket) ==>
              var r := FixedFiles(files, failed, taskId, llm);
              (ReadmeFile in r <==> ReadmeFile in files) && (ReadmeFile in files ==> r[ReadmeFile] == files[ReadmeFile])
    ensures (forall c :: c in failed ==> BucketOf(c.check) != HtmlBucket) ==>
              var r := FixedFiles(files, failed, taskId, llm);
              (IndexHtml in r <==> IndexHtml in files) && (IndexHtml in files ==> r[IndexHtml] == files[IndexHtml])
  {
    var r := FixedFiles(files, failed, taskId, llm);
    var rc := InBucket(failed, ReadmeBucket);
    var hc := InBucket(failed, HtmlBucket);
    if rc != [] {
      assert rc[0] in failed && BucketOf(rc[0].check) == ReadmeBucket;
    }
    if hc != [] {
      assert hc[0] in failed && BucketOf(hc[0].check) == HtmlBucket;
    }
    if failed == [] {
      assert rc == [] && hc == [];
    }
  }

  /** `fix_validation_failures`: the failed checks are sorted into buckets in one pass, then
      the README and the page are rewritten on a copy of the files. */
  method FixValidationFailures(files: FileSet, failed: seq<Validator.CheckResult>, taskId: string, llm: Llm)
    returns (r: FileSet)
    ensures r == FixedFiles(files, failed, taskId, llm)
  {
    if failed == [] {
      return files;
    }
    var readmeChecks: seq<Validator.CheckResult> := [];
    var htmlChecks: seq<Validator.CheckResult> := [];
    var otherChecks: seq<Validator.CheckResult> := [];
    for i := 0 to |failed|
      invariant readmeChecks == InBucket(failed[..i], ReadmeBucket)
      invariant htmlChecks == InBucket(failed[..i], HtmlBucket)
      invariant otherChecks == InBucket(failed[..i], OtherBucket)
    {
      assert failed[..i + 1][..i] == failed[..i];
      var bucket := BucketOf(failed[i].check);
      if bucket == ReadmeBucket {
        readmeChecks := readmeChecks + [failed[i]];
      } else if bucket == HtmlBucket {
        htmlChecks := htmlChecks + [failed[i]];
      } else {
        otherChecks := otherChecks + [failed[i]];
      }
    }
    assert failed[..|failed|] == failed;
    r := files;
    if readmeChecks != [] {
      r := r[ReadmeFile := FixReadme(Lookup(files, ReadmeFile), readmeChecks, taskId, llm)];
    }
    if htmlChecks != [] {
      r := r[IndexHtml := FixHtml(Lookup(files, IndexHtml), htmlChecks, llm)];
    }
  }
}

/** File sets as the generator, validator and pipeline exchange them. */
module Files {
  import opened Wrappers

  newtype byte = x: int | 0 <= x < 256

  /** A file's content: decoded text (`str`) or raw bytes (`bytes`). */
  datatype Content = Text(text: string) | Binary(data: seq<byte>)

  /** A mapping from relative path to content (a Python `dict`). */
  type FileSet = map<string, Content>

  const IndexHtml: string := "index.html"
  const LicenseFile: string := "LICENSE"
  const ReadmeFile: string := "README.md"
  const StyleCss: string := "style.css"
  const ScriptJs: string := "script.js"

  /** `bytes.decode('utf-8', errors='ignore')`, a foreign codec. */
  type Utf8Decoder = seq<byte> -> string

  /** The text the validator reads from a file: text as is, bytes through the decoder. */
  function AsText(c: Content, decode: Utf8Decoder): string {
    match c
    case Text(t) => t
    case Binary(b) => decode(b)
  }

  /** A JSON value, as far as the reply parser looks into it. */
  datatype Json = JString(s: string) | JObject(fields: map<string, Json>) | JOther

  /** The foreign codecs the generator relies on; each is an opaque function of its input. */
  datatype Codecs = Codecs(
    decodeUtf8: Utf8Decoder,
    // `str.encode()`
    encodeUtf8: string -> seq<byte>,
    // `base64.b64decode`, None when it raises
    decodeBase64: string -> Option<seq<byte>>,
    // `json.loads` of a text that starts with '{' and ends with '}', None on JSONDecodeError
    parseJson: string -> Option<map<string, Json>>,
    // re-reading UTF-8 text with Python's `unicode_escape` codec, None when it raises
    unicodeEscape: string -> Option<string>,
    // `str(b)` of a bytes value inside an f-string
    reprBytes: seq<byte> -> string
  )
}

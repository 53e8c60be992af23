/** The request model of the build endpoint (models.py): field shapes, the normalisation of
    `checks` and the constraints checked when a request is accepted. */
module Models {
  import opened Wrappers

  /** A file attachment given as a data URL (`data:<mime>[;base64],<payload>`). */
  datatype Attachment = Attachment(name: string, url: string)

  /** `checks` as it arrives: one string or a list of strings. */
  datatype ChecksField = OneCheck(check: string) | CheckList(checks: seq<string>)

  /** `normalize_checks`: a single check becomes a one-element list; a list is kept. */
  function NormalizeChecks(v: ChecksField): (r: seq<string>)
    ensures v.OneCheck? ==> r == [v.check]
    ensures v.CheckList? ==> r == v.checks
  {
    match v
    case OneCheck(c) => [c]
    case CheckList(cs) => cs
  }

  /** The result is always a list, so normalising it again changes nothing. */
  lemma NormalizeChecksIdempotent(v: ChecksField)
    ensures NormalizeChecks(CheckList(NormalizeChecks(v))) == NormalizeChecks(v)
  {
  }

  /** `attachments` as it arrives: left out, an explicit `null`, or a list. */
  datatype AttachmentsField = Absent | Null | Given(items: seq<Attachment>)

  /** A request body before validation. */
  datatype RawRequest = RawRequest(
    email: string,
    secret: string,
    task: string,
    round: int,
    nonce: string,
    brief: string,
    checks: ChecksField,
    evaluationUrl: string,
    attachments: AttachmentsField)

  /** A validated request.  Only `round` is ever reassigned after validation. */
  class TaskRequest {
    const email: string
    const secret: string
    const task: string
    var round: int
    const nonce: string
    const brief: string
    const checks: seq<string>
    const evaluationUrl: string
    /** None for an explicit `null`; an absent field defaults to the empty list. */
    const attachments: Option<seq<Attachment>>

    constructor (raw: RawRequest)
      requires raw.round >= 1
      ensures email == raw.email && secret == raw.secret && task == raw.task
      ensures round == raw.round && nonce == raw.nonce && brief == raw.brief
      ensures checks == NormalizeChecks(raw.checks) && evaluationUrl == raw.evaluationUrl
      ensures attachments == AttachmentsOf(raw.attachments)
    {
      email := raw.email;
      secret := raw.secret;
      task := raw.task;
      round := raw.round;
      nonce := raw.nonce;
      brief := raw.brief;
      checks := NormalizeChecks(raw.checks);
      evaluationUrl := raw.evaluationUrl;
      attachments := AttachmentsOf(raw.attachments);
    }
  }

  /** The default of the `attachments` field: absent means the empty list. */
  function AttachmentsOf(a: AttachmentsField): (r: Option<seq<Attachment>>)
    ensures a.Absent? ==> r == Some([])
    ensures a.Null? ==> r.None?
    ensures a.Given? ==> r == Some(a.items)
  {
    match a
    case Absent => Some([])
    case Null => None
    case Given(items) => Some(items)
  }

  /** Validation of a request body: a round below 1 is rejected (HTTP 422), every other body
      becomes a request. */
  method ParseRequest(raw: RawRequest) returns (r: Result<TaskRequest>)
    ensures r.Err? <==> raw.round < 1
    ensures r.Ok? ==> fresh(r.value) && r.value.round == raw.round >= 1
    ensures r.Ok? ==> r.value.checks == NormalizeChecks(raw.checks)
    ensures r.Ok? ==> r.value.attachments == AttachmentsOf(raw.attachments)
  {
    if raw.round < 1 {
      return Err("round: Input should be greater than or equal to 1");
    }
    var req := new TaskRequest(raw);
    return Ok(req);
  }
}

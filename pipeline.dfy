/** The orchestration in main.py: the build endpoint's credential gate and the background
    task that derives the repository name, falls back to round 1 when a later round finds no
    files, generates the application, deploys it by creating or updating a repository and
    notifies the evaluation server.  The repository host, the language model and the
    evaluation server are parameters. */
module Pipeline {
  import opened Wrappers
  import opened Strings
  import opened Files
  import opened Models
  import Generator

  // ===========================================================================
  // Repository name
  // ===========================================================================

  /** The repository name: the task id with every dot and underscore turned into a hyphen. */
  function RepoName(task: string): (r: string)
    ensures |r| == |task|
    ensures forall k :: 0 <= k < |r| ==> r[k] == (if task[k] == '.' || task[k] == '_' then '-' else task[k])
  {
    var dotless := ReplaceAll(task, ".", "-");
    ReplaceCharPointwise(task, '.', '-');
    ReplaceCharPointwise(dotless, '_', '-');
    ReplaceAll(dotless, "_", "-")
  }

  /** A repository name holds neither '.' nor '_', and a task id without them is used as it
      is. */
  lemma RepoNameClean(task: string)
    ensures '.' !in RepoName(task) && '_' !in RepoName(task)
    ensures '.' !in task && '_' !in task ==> RepoName(task) == task
  {
    var r := RepoName(task);
    forall c | c in r
      ensures c != '.' && c != '_'
    {
      var k :| 0 <= k < |r| && r[k] == c;
    }
    if '.' !in task && '_' !in task {
      assert forall k :: 0 <= k < |r| ==> r[k] == task[k];
    }
  }

  // ===========================================================================
  // The build endpoint
  // ===========================================================================

  /** The student's configured credentials. */
  datatype Settings = Settings(studentEmail: string, studentSecret: string)

  /** The endpoint's answer: HTTP 403 with a detail, or the immediate acceptance. */
  datatype BuildResponse = Forbidden(detail: string) | Accepted(message: string)

  /** `build_and_deploy`: the e-mail is checked before the secret, and a request is accepted
      only when both match. */
  function BuildAndDeploy(request: TaskRequest, settings: Settings): (r: BuildResponse)
    ensures r.Accepted? <==> request.email == settings.studentEmail && request.secret == settings.studentSecret
    ensures request.email != settings.studentEmail ==> r == Forbidden("Email does not match configured student email")
    ensures request.email == settings.studentEmail && request.secret != settings.studentSecret ==> r == Forbidden("Invalid secret")
    ensures r.Accepted? ==> r.message == "Task " + request.task + " received and processing started"
  {
    if request.email != settings.studentEmail then Forbidden("Email does not match configured student email")
    else if request.secret != settings.studentSecret then Forbidden("Invalid secret")
    else Accepted("Task " + request.task + " received and processing started")
  }

  /** The endpoint followed by the work it schedules: the background task runs exactly when
      the request was accepted, and a rejected request is left as it was. */
  method HandleBuild(request: TaskRequest, settings: Settings, s: Services) returns (response: BuildResponse, outcome: Option<Outcome>)
    modifies request
    ensures response == BuildAndDeploy(request, settings)
    ensures outcome.Some? <==> response.Accepted?
    ensures outcome.Some? ==> (outcome.value, request.round) == Run(request, old(request.round), s)
    ensures outcome.None? ==> request.round == old(request.round)
  {
    response := BuildAndDeploy(request, settings);
    if response.Accepted? {
      var o := ProcessTask(request, s);
      outcome := Some(o);
    } else {
      outcome := None;
    }
  }

  // ===========================================================================
  // The background task
  // ===========================================================================

  /** The record a finished deployment returns. */
  datatype Deployment = Deployment(repoUrl: string, commitSha: string, pagesUrl: string)

  /** What the evaluation server is sent. */
  datatype Notification = Notification(
    email: string,
    task: string,
    round: int,
    nonce: string,
    repoUrl: string,
    commitSha: string,
    pagesUrl: string)

  /** The collaborators of the background task.  An `Err` stands for an exception raised by
      the call. */
  datatype Services = Services(
    // `get_repository_files`: the files of a repository, empty when it does not exist
    fetch: string -> Result<FileSet>,
    llm: Generator.Llm,
    codecs: Codecs,
    clock: Generator.Clock,
    // `create_and_deploy(repo_name, files, task_id)`, run to completion
    create: (string, FileSet, string) -> Result<Deployment>,
    // `update_repository(repo_name, files)`, run to completion
    update: (string, FileSet) -> Result<Deployment>,
    // `notify_evaluation_server(evaluation_url, notification)`: whether it was delivered
    notify: (string, Notification) -> bool)

  /** How the background task ends.  Every exception is caught and logged, so a failure is
      an outcome and never escapes. */
  datatype Outcome =
    | Crashed(error: string)
    | Completed(call: DeployCall, notification: Notification, delivered: bool)

  /** The deployment step that is called: a new repository in round 1, an update otherwise. */
  datatype DeployCall =
    | CreateCall(repo: string, files: FileSet, task: string)
    | UpdateCall(repo: string, files: FileSet)

  /** The value the deployment step hands back.  Awaiting the coroutine runs it and yields its
      record; without `await` the caller holds the coroutine object, whose body never runs. */
  datatype DeployValue = Record(deployment: Deployment) | Coroutine(pending: DeployCall)

  /** The attachments handed to the generator; a null list counts as empty. */
  function AttachmentList(request: TaskRequest): (r: seq<Attachment>)
    ensures request.attachments.Some? ==> r == request.attachments.value
    ensures request.attachments.None? ==> r == []
  {
    match request.attachments
    case Some(atts) => atts
    case None => []
  }

  /** The files of the earlier round: fetched only for a round after the first. */
  function Fetched(repo: string, round: int, s: Services): (r: Result<Option<FileSet>>)
    ensures round <= 1 ==> r == Ok(None)
    ensures round > 1 ==> (r.Ok? <==> s.fetch(repo).Ok?)
    ensures round > 1 && r.Ok? ==> r.value == Some(s.fetch(repo).value)
  {
    if round <= 1 then Ok(None)
    else
      match s.fetch(repo)
      case Err(e) => Err(e)
      case Ok(files) => Ok(Some(files))
  }

  /** The round after the fallback: a later round that finds no files is treated as round 1. */
  function RoundAfterFetch(round: int, existing: Option<FileSet>): (r: int)
    ensures r == round || r == 1
    ensures r != round <==> round > 1 && existing == Some(map[])
  {
    if round > 1 && existing.Some? && |existing.value| == 0 then 1 else round
  }

  /** What `generate_app` yields for these arguments. */
  function Generated(request: TaskRequest, round: int, existing: Option<FileSet>, s: Services): Result<FileSet> {
    if Generator.TakesUpdatePath(round, existing)
    then Generator.UpdateApp(request.brief, request.checks, AttachmentList(request), request.task, existing.value,
                             s.llm, s.codecs, s.clock)
    else Generator.CreateApp(request.brief, request.checks, AttachmentList(request), request.task, round,
                             s.llm, s.codecs, s.clock)
  }

  /** Steps 0 and 1 of the task: the fetch, the round fallback and the generation, with the
      round they leave in the request. */
  function Prepared(request: TaskRequest, round: int, s: Services): (r: (Result<FileSet>, int))
    ensures r.1 == round || r.1 == 1
    ensures r.1 != round <==> round > 1 && s.fetch(RepoName(request.task)) == Ok(map[])
  {
    var repo := RepoName(request.task);
    match Fetched(repo, round, s)
    case Err(e) => (Err(e), round)
    case Ok(existing) =>
      var after := RoundAfterFetch(round, existing);
      (Generated(request, after, existing, s), after)
  }

  /** The deployment step chosen by the round. */
  function CallFor(repo: string, files: FileSet, task: string, round: int): (c: DeployCall)
    ensures c.CreateCall? <==> round == 1
    ensures c.repo == repo && c.files == files
  {
    if round == 1 then CreateCall(repo, files, task) else UpdateCall(repo, files)
  }

  /** Running a deployment step to completion. */
  function Await(call: DeployCall, s: Services): Result<Deployment> {
    match call
    case CreateCall(repo, files, task) => s.create(repo, files, task)
    case UpdateCall(repo, files) => s.update(repo, files)
  }

  /** `deployment[key]`: a record has the three keys, a coroutine cannot be subscripted. */
  function Field(v: DeployValue, key: string): Result<string> {
    match v
    case Coroutine(_) => Err("TypeError: 'coroutine' object is not subscriptable")
    case Record(d) =>
      if key == "repo_url" then Ok(d.repoUrl)
      else if key == "commit_sha" then Ok(d.commitSha)
      else if key == "pages_url" then Ok(d.pagesUrl)
      else Err("KeyError")
  }

  /** Step 3's notification: the request's identity and the round after the fallback,
      with the three addresses read from the deployment value. */
  function NotificationFrom(request: TaskRequest, round: int, v: DeployValue): (r: Result<Notification>)
    ensures v.Coroutine? ==> r.Err?
    ensures v.Record? ==> r == Ok(Notification(request.email, request.task, round, request.nonce,
                                               v.deployment.repoUrl, v.deployment.commitSha, v.deployment.pagesUrl))
  {
    match Field(v, "repo_url")
    case Err(e) => Err(e)
    case Ok(repoUrl) =>
      match Field(v, "commit_sha")
      case Err(e) => Err(e)
      case Ok(commitSha) =>
        match Field(v, "pages_url")
        case Err(e) => Err(e)
        case Ok(pagesUrl) => Ok(Notification(request.email, request.task, round, request.nonce, repoUrl, commitSha, pagesUrl))
  }

  /** The notification step, from whatever the deployment step handed back. */
  function Notified(request: TaskRequest, round: int, call: DeployCall, v: DeployValue, s: Services): Outcome {
    match NotificationFrom(request, round, v)
    case Err(e) => Crashed(e)
    case Ok(n) => Completed(call, n, s.notify(request.evaluationUrl, n))
  }

  /** The background task with the deployment awaited: its outcome and the round it leaves in
      the request.  A task that completes deployed by the step its round selects, under the
      repository name of its task, and sent that deployment's addresses together with its own
      e-mail, task, nonce and round. */
  function Run(request: TaskRequest, round: int, s: Services): (r: (Outcome, int))
    ensures r.1 == Prepared(request, round, s).1
    ensures r.0.Completed? ==> r.0.call.repo == RepoName(request.task) && (r.0.call.CreateCall? <==> r.1 == 1)
    ensures r.0.Completed? ==> Await(r.0.call, s).Ok?
    ensures r.0.Completed? ==>
      var d := Await(r.0.call, s).value;
      r.0.notification == Notification(request.email, request.task, r.1, request.nonce, d.repoUrl, d.commitSha, d.pagesUrl)
    ensures r.0.Completed? ==> r.0.delivered == s.notify(request.evaluationUrl, r.0.notification)
    ensures r.0.Completed? ==> Prepared(request, round, s).0.Ok? && r.0.call.files == Prepared(request, round, s).0.value
  {
    var (generated, after) := Prepared(request, round, s);
    match generated
    case Err(e) => (Crashed(e), after)
    case Ok(files) =>
      var call := CallFor(RepoName(request.task), files, request.task, after);
      match Await(call, s)
      case Err(e) => (Crashed(e), after)
      case Ok(d) => (Notified(request, after, call, Record(d), s), after)
  }

  /** The background task as main.py writes it: the deployment step is called without
      `await`, so the notification step reads its fields from a coroutine. */
  function RunAsWritten(request: TaskRequest, round: int, s: Services): (r: (Outcome, int))
    ensures r.1 == Prepared(request, round, s).1
  {
    var (generated, after) := Prepared(request, round, s);
    match generated
    case Err(e) => (Crashed(e), after)
    case Ok(files) =>
      var call := CallFor(RepoName(request.task), files, request.task, after);
      (Notified(request, after, call, Coroutine(call), s), after)
  }

  /** As written, every task ends in the catch-all: no repository is created or updated and
      the evaluation server is never notified, whatever the collaborators would do. */
  lemma AsWrittenNeverNotifies(request: TaskRequest, round: int, s: Services,
                               create: (string, FileSet, string) -> Result<Deployment>,
                               update: (string, FileSet) -> Result<Deployment>,
                               notify: (string, Notification) -> bool)
    ensures RunAsWritten(request, round, s).0.Crashed?
    ensures RunAsWritten(request, round, s) == RunAsWritten(request, round, s.(create := create, update := update, notify := notify))
  {
    var s' := s.(create := create, update := update, notify := notify);
    var fetched := Fetched(RepoName(request.task), round, s);
    assert fetched == Fetched(RepoName(request.task), round, s');
    if fetched.Ok? {
      var existing := fetched.value;
      assert Generated(request, RoundAfterFetch(round, existing), existing, s)
          == Generated(request, RoundAfterFetch(round, existing), existing, s');
    }
  }

  /** With the deployment awaited, a task whose generation and deployment succeed always
      notifies the server. */
  lemma AwaitedDeploymentNotifies(request: TaskRequest, round: int, s: Services)
    requires Prepared(request, round, s).0.Ok?
    requires Await(CallFor(RepoName(request.task), Prepared(request, round, s).0.value, request.task,
                           Prepared(request, round, s).1), s).Ok?
    ensures Run(request, round, s).0.Completed?
  {
  }

  /** A later round whose repository has no files runs exactly as round 1 does: the model is
      asked to create the application, and a new repository is created. */
  lemma EmptyRepositoryFallsBack(request: TaskRequest, round: int, s: Services)
    requires round > 1 && s.fetch(RepoName(request.task)) == Ok(map[])
    ensures Prepared(request, round, s) == Prepared(request, 1, s)
    ensures Run(request, round, s) == Run(request, 1, s)
  {
    var repo := RepoName(request.task);
    assert Fetched(repo, round, s) == Ok(Some(map[]));
    assert !Generator.TakesUpdatePath(1, Some(map[]));
    assert Generated(request, 1, Some(map[]), s) == Generated(request, 1, None, s);
  }

  /** Round 1 never looks at the repository host's files. */
  lemma FirstRoundIgnoresFetch(request: TaskRequest, s: Services, fetch: string -> Result<FileSet>)
    ensures Run(request, 1, s) == Run(request, 1, s.(fetch := fetch))
  {
    var s' := s.(fetch := fetch);
    assert Generated(request, 1, None, s) == Generated(request, 1, None, s');
    assert Prepared(request, 1, s) == Prepared(request, 1, s');
  }

  /** `process_task` with the deployment awaited.  Only `round` of the request changes. */
  method ProcessTask(request: TaskRequest, s: Services) returns (outcome: Outcome)
    modifies request
    ensures (outcome, request.round) == Run(request, old(request.round), s)
  {
    var repo := RepoName(request.task);
    ghost var round0 := request.round;
    var existing: Option<FileSet> := None;
    if request.round > 1 {
      var fetched := s.fetch(repo);
      if fetched.Err? {
        return Crashed(fetched.msg);
      }
      existing := Some(fetched.value);
      if |fetched.value| == 0 {
        request.round := 1;
      }
    }
    assert existing == Fetched(repo, round0, s).value;
    var generated := Generator.GenerateApp(request.brief, request.checks, AttachmentList(request), request.task,
                                           request.round, existing, s.llm, s.codecs, s.clock);
    if generated.Err? {
      return Crashed(generated.msg);
    }
    var call := CallFor(repo, generated.value, request.task, request.round);
    var deployment := Await(call, s);
    if deployment.Err? {
      return Crashed(deployment.msg);
    }
    var notification := NotificationFrom(request, request.round, Record(deployment.value));
    var delivered := s.notify(request.evaluationUrl, notification.value);
    outcome := Completed(call, notification.value, delivered);
  }

  /** `process_task` as written, the deployment step called without `await`. */
  method ProcessTaskAsWritten(request: TaskRequest, s: Services) returns (outcome: Outcome)
    modifies request
    ensures (outcome, request.round) == RunAsWritten(request, old(request.round), s)
  {
    var repo := RepoName(request.task);
    ghost var round0 := request.round;
    var existing: Option<FileSet> := None;
    if request.round > 1 {
      var fetched := s.fetch(repo);
      if fetched.Err? {
        return Crashed(fetched.msg);
      }
      existing := Some(fetched.value);
      if |fetched.value| == 0 {
        request.round := 1;
      }
    }
    assert existing == Fetched(repo, round0, s).value;
    var generated := Generator.GenerateApp(request.brief, request.checks, AttachmentList(request), request.task,
                                           request.round, existing, s.llm, s.codecs, s.clock);
    if generated.Err? {
      return Crashed(generated.msg);
    }
    var call := CallFor(repo, generated.value, request.task, request.round);
    var deployment := Coroutine(call);
    outcome := Notified(request, request.round, call, deployment, s);
  }
}

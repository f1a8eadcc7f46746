/** A2A v1.0 tasks on the wire: our printer of a task and our parser of another agent's answer. */
module A2A {
  import opened Wrappers
  import opened Strings
  import opened JsonValues

  /** The last is no state of the protocol: the parser's table yields it for a name that every object inherits. */
  datatype State =
    | Submitted | Working | Completed | Failed | Canceled | InputRequired | Rejected | AuthRequired
    | Inherited(name: string)

  /** The states of our own tasks. */
  type TaskState = s: State | !s.InputRequired? && !s.AuthRequired? && !s.Inherited? witness Submitted

  datatype Part =
    | TextPart(text: string)
    | DataPart(data: Json, mediaType: Option<string>)
    | UrlPart(url: string, mediaType: Option<string>, filename: Option<string>)

  datatype TaskRow = TaskRow(
    id: string,
    contextId: string,
    state: TaskState,
    artifact: Option<seq<Part>>,
    statusMessage: Option<string>,
    updatedAt: string)

  datatype Reply = Reply(state: State, parts: seq<Part>, taskId: Option<string>, contextId: Option<string>)

  datatype ParseError =
    | NotAnObject(what: string)
    | NotAList(what: string)
    | BlankText(what: string)
    | NoKnownPart(what: string)
    | NotJsonRpc(what: string)
    | OtherRequest(what: string)
    | Remote(code: Option<Json>, message: string)
    | UnknownState(what: string)

  type Parsed<+T> = Result<T, ParseError>

  // ---- the printer ----

  function WireState(s: TaskState): string {
    match s
    case Submitted => "TASK_STATE_SUBMITTED"
    case Working => "TASK_STATE_WORKING"
    case Completed => "TASK_STATE_COMPLETED"
    case Failed => "TASK_STATE_FAILED"
    case Canceled => "TASK_STATE_CANCELED"
    case Rejected => "TASK_STATE_REJECTED"
  }

  /** A field that is there only when its value is. */
  function Optional(name: string, value: Option<string>): map<string, Json> {
    match value case Some(s) => map[name := JStr(s)] case None => map[]
  }

  function PrintPart(p: Part): Json {
    match p
    case TextPart(text) => JObj(map["text" := JStr(text)])
    case DataPart(data, mediaType) => JObj(map["data" := data] + Optional("mediaType", mediaType))
    case UrlPart(url, mediaType, filename) =>
      JObj(map["url" := JStr(url)] + Optional("mediaType", mediaType) + Optional("filename", filename))
  }

  function PrintParts(parts: seq<Part>): Json {
    JArr(seq(|parts|, i requires 0 <= i < |parts| => PrintPart(parts[i])))
  }

  function StatusMessage(task: TaskRow): map<string, Json> {
    if task.statusMessage.Some? && task.statusMessage.value != "" then
      map["message" := JObj(map[
        "messageId" := JStr(task.id + "-status"),
        "role" := JStr("ROLE_AGENT"),
        "taskId" := JStr(task.id),
        "contextId" := JStr(task.contextId),
        "parts" := PrintParts([TextPart(task.statusMessage.value)])])]
    else map[]
  }

  function Artifacts(task: TaskRow): map<string, Json> {
    match task.artifact
    case Some(parts) =>
      map["artifacts" := JArr([JObj(map[
        "artifactId" := JStr(task.id + "-result"),
        "name" := JStr("result"),
        "parts" := PrintParts(parts)])])]
    case None => map[]
  }

  function PrintStatus(task: TaskRow): Json {
    JObj(map["state" := JStr(WireState(task.state))] + StatusMessage(task) + map["timestamp" := JStr(task.updatedAt)])
  }

  function WireTask(task: TaskRow): Json {
    JObj(map["id" := JStr(task.id), "contextId" := JStr(task.contextId), "status" := PrintStatus(task)]
      + Artifacts(task))
  }

  /** The JSON-RPC answer to SendMessage. */
  function Envelope(requestId: string, task: TaskRow): Json {
    JObj(map["jsonrpc" := JStr("2.0"), "id" := JStr(requestId), "result" := JObj(map["task" := WireTask(task)])])
  }

  // ---- the parser ----

  function Record(value: Option<Json>, what: string): Parsed<map<string, Json>> {
    match value case Some(JObj(fields)) => Success(fields) case _ => Failure(NotAnObject(what))
  }

  function At(fields: map<string, Json>, name: string): Option<Json> {
    if name in fields then Some(fields[name]) else None
  }

  predicate Blank(s: string) {
    Trim(s) == ""
  }

  function Text(value: Option<Json>, what: string): Parsed<string> {
    match value
    case Some(JStr(s)) => if Blank(s) then Failure(BlankText(what)) else Success(s)
    case _ => Failure(BlankText(what))
  }

  function OptionalText(value: Option<Json>, what: string): Parsed<Option<string>> {
    if value.None? then Success(None) else
      var s :- Text(value, what);
      Success(Some(s))
  }

  function StringAt(fields: map<string, Json>, name: string): Option<string> {
    match At(fields, name) case Some(JStr(s)) => Some(s) case _ => None
  }

  function ParsePart(raw: Json, what: string): Parsed<Part> {
    var part :- Record(Some(raw), what);
    if StringAt(part, "text").Some? then Success(TextPart(StringAt(part, "text").value))
    else if "data" in part then
      var mediaType :- OptionalText(At(part, "mediaType"), what + ".mediaType");
      Success(DataPart(part["data"], mediaType))
    else if StringAt(part, "url").Some? then
      var mediaType :- OptionalText(At(part, "mediaType"), what + ".mediaType");
      var filename :- OptionalText(At(part, "filename"), what + ".filename");
      Success(UrlPart(StringAt(part, "url").value, mediaType, filename))
    else Failure(NoKnownPart(what))
  }

  function Indexed(what: string, index: nat): string {
    what + "[" + Decimal(index) + "]"
  }

  /** The parts in order; the first that does not parse fails the list. */
  function ParseItems(items: seq<Json>, what: string): Parsed<seq<Part>> {
    if items == [] then Success([]) else
      var last := |items| - 1;
      var front :- ParseItems(items[..last], what);
      var part :- ParsePart(items[last], Indexed(what, last));
      Success(front + [part])
  }

  function ParseParts(raw: Option<Json>, what: string): Parsed<seq<Part>> {
    match raw case Some(JArr(items)) => ParseItems(items, what) case _ => Failure(NotAList(what))
  }

  /** The parts of all artifacts, one after the other. */
  function ParseArtifacts(artifacts: seq<Json>, what: string): Parsed<seq<Part>> {
    if artifacts == [] then Success([]) else
      var last := |artifacts| - 1;
      var front :- ParseArtifacts(artifacts[..last], what);
      var artifact :- Record(Some(artifacts[last]), Indexed(what + " artifacts", last));
      var parts :- ParseParts(At(artifact, "parts"), Indexed(what + " artifacts", last) + ".parts");
      Success(front + parts)
  }

  /** The value as text, as far as a state's name is concerned: a list of one prints as its element. */
  function StateText(value: Json): string {
    match value
    case JStr(s) => s
    case JArr(items) => if |items| == 1 then StateText(items[0]) else ""
    case _ => ""
  }

  function StateOf(name: string): Option<State> {
    if name == "TASK_STATE_SUBMITTED" then Some(Submitted)
    else if name == "TASK_STATE_WORKING" then Some(Working)
    else if name == "TASK_STATE_COMPLETED" then Some(Completed)
    else if name == "TASK_STATE_FAILED" then Some(Failed)
    else if name == "TASK_STATE_CANCELED" then Some(Canceled)
    else if name == "TASK_STATE_INPUT_REQUIRED" then Some(InputRequired)
    else if name == "TASK_STATE_REJECTED" then Some(Rejected)
    else if name == "TASK_STATE_AUTH_REQUIRED" then Some(AuthRequired)
    else if IsInherited(name) then Some(Inherited(name))
    else None
  }

  function ParseMessage(value: Json, what: string): Parsed<Reply> {
    var message :- Record(Some(value), what + " message");
    var parts :- ParseParts(At(message, "parts"), what + " message.parts");
    Success(Reply(Completed, parts, None, StringAt(message, "contextId")))
  }

  function ParseStatusParts(status: map<string, Json>, what: string): Parsed<seq<Part>> {
    if "message" !in status then Success([]) else
      var message :- Record(At(status, "message"), what + " task.status.message");
      ParseParts(At(message, "parts"), what + " task.status.message.parts")
  }

  function ArtifactList(task: map<string, Json>, what: string): Parsed<seq<Json>> {
    match At(task, "artifacts")
    case None => Success([])
    case Some(JArr(items)) => Success(items)
    case _ => Failure(NotAList(what + " task.artifacts"))
  }

  function ParseTask(value: Option<Json>, what: string): Parsed<Reply> {
    var task :- Record(value, what + " task (neither message nor task was returned)");
    var status :- Record(At(task, "status"), what + " task.status");
    var state := if "state" in status then StateOf(StateText(status["state"])) else None;
    if state.None? then Failure(UnknownState(what)) else
      var artifacts :- ArtifactList(task, what);
      var artifactParts :- ParseArtifacts(artifacts, what);
      var statusParts :- ParseStatusParts(status, what);
      var id :- Text(At(task, "id"), what + " task.id");
      var parts := if |artifactParts| > 0 then artifactParts else statusParts;
      Success(Reply(state.value, parts, Some(id), StringAt(task, "contextId")))
  }

  function RemoteError(value: Json, what: string): ParseError {
    match Record(Some(value), what + " error")
    case Failure(e) => e
    case Success(error) =>
      var message := StringAt(error, "message");
      Remote(At(error, "code"),
        if message.None? then "no message"
        else if |message.value| > 200 then message.value[..200] else message.value)
  }

  function ParseSendMessageResponse(raw: Json, requestId: string, agentName: string): Parsed<Reply> {
    var what := agentName + "'s response";
    var response :- Record(Some(raw), what);
    if At(response, "jsonrpc") != Some(JStr("2.0")) then Failure(NotJsonRpc(what))
    else if At(response, "id") != Some(JStr(requestId)) then Failure(OtherRequest(what))
    else if "error" in response then Failure(RemoteError(response["error"], what))
    else
      var result :- Record(At(response, "result"), what + " result");
      if "message" in result then ParseMessage(result["message"], what) else ParseTask(At(result, "task"), what)
  }

  // ---- parts ----

  predicate NonBlankIfPresent(s: Option<string>) {
    s.Some? ==> !Blank(s.value)
  }

  predicate WellFormedPart(p: Part) {
    match p
    case TextPart(_) => true
    case DataPart(_, mediaType) => NonBlankIfPresent(mediaType)
    case UrlPart(_, mediaType, filename) => NonBlankIfPresent(mediaType) && NonBlankIfPresent(filename)
  }

  predicate WellFormed(parts: seq<Part>) {
    forall i :: 0 <= i < |parts| ==> WellFormedPart(parts[i])
  }

  lemma OptionalFields(base: map<string, Json>, a: string, x: Option<string>, b: string, y: Option<string>,
    what: string)
    requires a !in base && b !in base && a != b
    ensures var fields := base + Optional(a, x) + Optional(b, y);
      && (forall k :: k != a && k != b ==> At(fields, k) == At(base, k))
      && OptionalText(At(fields, a), what) == (if NonBlankIfPresent(x) then Success(x) else Failure(BlankText(what)))
      && OptionalText(At(fields, b), what) == (if NonBlankIfPresent(y) then Success(y) else Failure(BlankText(what)))
  {
  }

  lemma DataRoundTrip(p: Part, what: string)
    requires p.DataPart?
    ensures var r := ParsePart(PrintPart(p), what); if WellFormedPart(p) then r == Success(p) else r.Failure?
  {
    OptionalFields(map["data" := p.data], "mediaType", p.mediaType, "filename", None, what + ".mediaType");
  }

  lemma UrlRoundTrip(p: Part, what: string)
    requires p.UrlPart?
    ensures var r := ParsePart(PrintPart(p), what); if WellFormedPart(p) then r == Success(p) else r.Failure?
  {
    var base := map["url" := JStr(p.url)];
    OptionalFields(base, "mediaType", p.mediaType, "filename", p.filename, what + ".mediaType");
    OptionalFields(base, "mediaType", p.mediaType, "filename", p.filename, what + ".filename");
  }

  /** A printed part parses exactly when it is well-formed, and then to itself. */
  lemma PartRoundTrip(p: Part, what: string)
    ensures var r := ParsePart(PrintPart(p), what); if WellFormedPart(p) then r == Success(p) else r.Failure?
  {
    match p
    case TextPart(_) =>
    case DataPart(_, _) => DataRoundTrip(p, what);
    case UrlPart(_, _, _) => UrlRoundTrip(p, what);
  }

  lemma {:induction false} PartsRoundTrip(parts: seq<Part>, what: string)
    ensures var r := ParseItems(PrintParts(parts).items, what);
      if WellFormed(parts) then r == Success(parts) else r.Failure?
  {
    if parts != [] {
      var front, last := parts[..|parts| - 1], parts[|parts| - 1];
      assert parts == front + [last];
      assert PrintParts(parts).items[..|parts| - 1] == PrintParts(front).items;
      PartsRoundTrip(front, what);
      PartRoundTrip(last, Indexed(what, |parts| - 1));
      assert WellFormed(parts) <==> WellFormed(front) && WellFormedPart(last);
    }
  }

  // ---- tasks ----

  lemma StateRoundTrip(s: TaskState)
    ensures StateOf(WireState(s)) == Some(s)
  {
  }

  /** What the other side is to read: the artifact when it has parts, else the status text, else nothing. */
  function ReplyOf(task: TaskRow): Reply {
    var parts :=
      if task.artifact.Some? && task.artifact.value != [] then task.artifact.value
      else if task.statusMessage.Some? && task.statusMessage.value != "" then [TextPart(task.statusMessage.value)]
      else [];
    Reply(task.state, parts, Some(task.id), Some(task.contextId))
  }

  predicate Readable(task: TaskRow) {
    !Blank(task.id) && (task.artifact.Some? ==> WellFormed(task.artifact.value))
  }

  lemma OneArtifact(fields: map<string, Json>, what: string)
    requires "parts" in fields && fields["parts"].JArr?
    ensures var r := ParseItems(fields["parts"].items, Indexed(what + " artifacts", 0) + ".parts");
      if r.Success? then ParseArtifacts([JObj(fields)], what) == r else ParseArtifacts([JObj(fields)], what).Failure?
  {
    var list := [JObj(fields)];
    assert list[..0] == [];
    assert ParseArtifacts(list[..0], what) == Success([]);
    var r := ParseItems(fields["parts"].items, Indexed(what + " artifacts", 0) + ".parts");
    if r.Success? { assert [] + r.value == r.value; }
  }

  lemma ArtifactsRoundTrip(task: TaskRow, what: string)
    ensures var list := ArtifactList(WireTask(task).fields, what);
      && list.Success?
      && var r := ParseArtifacts(list.value, what);
        if task.artifact.None? then r == Success([])
        else if WellFormed(task.artifact.value) then r == Success(task.artifact.value) else r.Failure?
  {
    if task.artifact.Some? {
      var parts := task.artifact.value;
      PartsRoundTrip(parts, Indexed(what + " artifacts", 0) + ".parts");
      var fields := Artifacts(task)["artifacts"].items[0].fields;
      assert fields["parts"] == PrintParts(parts);
      OneArtifact(fields, what);
    }
  }

  lemma StatusRoundTrip(task: TaskRow, what: string)
    ensures ParseStatusParts(PrintStatus(task).fields, what)
         == Success(if task.statusMessage.Some? && task.statusMessage.value != ""
                      then [TextPart(task.statusMessage.value)] else [])
    ensures "state" in PrintStatus(task).fields && PrintStatus(task).fields["state"] == JStr(WireState(task.state))
  {
    if task.statusMessage.Some? && task.statusMessage.value != "" {
      var parts := [TextPart(task.statusMessage.value)];
      PartsRoundTrip(parts, what + " task.status.message.parts");
      assert WellFormed(parts);
    }
  }

  lemma WireFields(task: TaskRow)
    ensures var fields := WireTask(task).fields;
      && At(fields, "status") == Some(PrintStatus(task))
      && At(fields, "id") == Some(JStr(task.id))
      && StringAt(fields, "contextId") == Some(task.contextId)
  {
  }

  /** A task's fields, each read as stated, make its reply. */
  lemma TaskParts(fields: map<string, Json>, status: map<string, Json>, what: string, state: State,
    artifacts: seq<Json>)
    requires At(fields, "status") == Some(JObj(status)) && "state" in status
      && StateOf(StateText(status["state"])) == Some(state)
    requires ArtifactList(fields, what) == Success(artifacts)
    ensures var r := ParseTask(Some(JObj(fields)), what);
      var parts, statusParts := ParseArtifacts(artifacts, what), ParseStatusParts(status, what);
      var id := Text(At(fields, "id"), what + " task.id");
      if parts.Success? && statusParts.Success? && id.Success? then
        r == Success(Reply(state, if |parts.value| > 0 then parts.value else statusParts.value, Some(id.value),
                           StringAt(fields, "contextId")))
      else r.Failure?
  {
  }

  lemma ReplyRead(task: TaskRow, fields: map<string, Json>, status: map<string, Json>, what: string,
    artifacts: seq<Json>)
    requires At(fields, "status") == Some(JObj(status)) && "state" in status
      && StateOf(StateText(status["state"])) == Some(task.state)
    requires At(fields, "id") == Some(JStr(task.id)) && StringAt(fields, "contextId") == Some(task.contextId)
    requires ArtifactList(fields, what) == Success(artifacts)
    requires var r := ParseArtifacts(artifacts, what);
      if task.artifact.None? then r == Success([])
      else if WellFormed(task.artifact.value) then r == Success(task.artifact.value) else r.Failure?
    requires ParseStatusParts(status, what)
      == Success(if task.statusMessage.Some? && task.statusMessage.value != ""
                   then [TextPart(task.statusMessage.value)] else [])
    ensures var r := ParseTask(Some(JObj(fields)), what);
      if Readable(task) then r == Success(ReplyOf(task)) else r.Failure?
  {
    TaskParts(fields, status, what, task.state, artifacts);
  }

  lemma TaskRoundTrip(task: TaskRow, what: string)
    ensures var r := ParseTask(Some(WireTask(task)), what);
      if Readable(task) then r == Success(ReplyOf(task)) else r.Failure?
  {
    var fields := WireTask(task).fields;
    ArtifactsRoundTrip(task, what);
    StatusRoundTrip(task, what);
    StateRoundTrip(task.state);
    WireFields(task);
    ReplyRead(task, fields, PrintStatus(task).fields, what, ArtifactList(fields, what).value);
  }

  lemma ResultRead(fields: map<string, Json>, result: map<string, Json>, requestId: string, agentName: string)
    requires At(fields, "jsonrpc") == Some(JStr("2.0")) && At(fields, "id") == Some(JStr(requestId))
    requires "error" !in fields && At(fields, "result") == Some(JObj(result)) && "message" !in result
    ensures ParseSendMessageResponse(JObj(fields), requestId, agentName)
      == ParseTask(At(result, "task"), agentName + "'s response")
  {
  }

  /**
   Our answer, read by our parser, is a task's reply exactly when the id is not blank and the parts are well-formed.
   */
  lemma AnswerRoundTrip(task: TaskRow, requestId: string, agentName: string)
    ensures var r := ParseSendMessageResponse(Envelope(requestId, task), requestId, agentName);
      if Readable(task) then r == Success(ReplyOf(task)) else r.Failure?
  {
    var result := map["task" := WireTask(task)];
    ResultRead(Envelope(requestId, task).fields, result, requestId, agentName);
    assert At(result, "task") == Some(WireTask(task));
    TaskRoundTrip(task, agentName + "'s response");
  }

  // ---- what the parser lets through ----

  lemma PartsParsedAreWellFormed(raw: Json, what: string)
    ensures ParsePart(raw, what).Success? ==> WellFormedPart(ParsePart(raw, what).value)
  {
  }

  lemma {:induction false} ItemsParsedAreWellFormed(items: seq<Json>, what: string)
    ensures ParseItems(items, what).Success? ==>
      WellFormed(ParseItems(items, what).value) && |ParseItems(items, what).value| == |items|
  {
    if items != [] {
      ItemsParsedAreWellFormed(items[..|items| - 1], what);
      PartsParsedAreWellFormed(items[|items| - 1], Indexed(what, |items| - 1));
    }
  }

  lemma {:induction false} ArtifactsParsedAreWellFormed(artifacts: seq<Json>, what: string)
    ensures ParseArtifacts(artifacts, what).Success? ==> WellFormed(ParseArtifacts(artifacts, what).value)
  {
    if artifacts != [] {
      var last := |artifacts| - 1;
      ArtifactsParsedAreWellFormed(artifacts[..last], what);
      var artifact := Record(Some(artifacts[last]), Indexed(what + " artifacts", last));
      if artifact.Success? && "parts" in artifact.value && artifact.value["parts"].JArr? {
        ItemsParsedAreWellFormed(artifact.value["parts"].items, Indexed(what + " artifacts", last) + ".parts");
      }
    }
  }

  lemma ListParsedIsWellFormed(raw: Option<Json>, what: string)
    ensures ParseParts(raw, what).Success? ==> WellFormed(ParseParts(raw, what).value)
  {
    match raw
    case Some(JArr(items)) => ItemsParsedAreWellFormed(items, what);
    case _ =>
  }

  lemma MessageParsed(value: Json, what: string)
    ensures var r := ParseMessage(value, what); r.Success? ==>
      WellFormed(r.value.parts) && r.value.taskId.None? && r.value.state.Completed?
  {
    var message := Record(Some(value), what + " message");
    if message.Success? { ListParsedIsWellFormed(At(message.value, "parts"), what + " message.parts"); }
  }

  lemma StatusParsed(status: map<string, Json>, what: string)
    ensures ParseStatusParts(status, what).Success? ==> WellFormed(ParseStatusParts(status, what).value)
  {
    var message := Record(At(status, "message"), what + " task.status.message");
    if message.Success? { ListParsedIsWellFormed(At(message.value, "parts"), what + " task.status.message.parts"); }
  }

  lemma TaskParsed(value: Option<Json>, what: string)
    ensures var r := ParseTask(value, what); r.Success? ==>
      WellFormed(r.value.parts) && r.value.taskId.Some? && !Blank(r.value.taskId.value)
  {
    var r := ParseTask(value, what);
    if r.Success? {
      var task := value.value.fields;
      StatusParsed(At(task, "status").value.fields, what);
      ArtifactsParsedAreWellFormed(ArtifactList(task, what).value, what);
    }
  }

  /**
   An answer is read only from a JSON-RPC 2.0 response to this request without an error, and what is read is
   well-formed.
   */
  lemma AnswerParsed(raw: Json, requestId: string, agentName: string)
    ensures var r := ParseSendMessageResponse(raw, requestId, agentName);
      r.Success? ==>
        && Field(raw, "jsonrpc") == Some(JStr("2.0")) && Field(raw, "id") == Some(JStr(requestId))
          && Field(raw, "error").None?
        && WellFormed(r.value.parts)
        && (r.value.taskId.Some? ==> !Blank(r.value.taskId.value))
        && (r.value.taskId.None? ==> r.value.state.Completed?)
  {
    var r, what := ParseSendMessageResponse(raw, requestId, agentName), agentName + "'s response";
    if r.Success? {
      var result := raw.fields["result"].fields;
      if "message" in result { MessageParsed(result["message"], what); } else { TaskParsed(At(result, "task"), what); }
    }
  }

  /**
   Handing on what another agent answered, as the artifact of a task of ours with its own id and context, gives the next
   reader the same state and the same parts.
   */
  lemma RelayKeepsAnswer(raw: Json, requestId: string, agentName: string, task: TaskRow, nextRequest: string,
    ourName: string)
    requires var r := ParseSendMessageResponse(raw, requestId, agentName);
      r.Success? && task.state == r.value.state && task.artifact == Some(r.value.parts)
        && (task.statusMessage.None? || r.value.parts != [])
    requires !Blank(task.id)
    ensures var reply := ParseSendMessageResponse(raw, requestId, agentName).value;
      ParseSendMessageResponse(Envelope(nextRequest, task), nextRequest, ourName)
        == Success(Reply(reply.state, reply.parts, Some(task.id), Some(task.contextId)))
  {
    AnswerParsed(raw, requestId, agentName);
    AnswerRoundTrip(task, nextRequest, ourName);
  }

  // ---- the wire format, name by name ----

  predicate IsProtocolState(name: string) {
    name in {
      "TASK_STATE_SUBMITTED", "TASK_STATE_WORKING", "TASK_STATE_COMPLETED", "TASK_STATE_FAILED", "TASK_STATE_CANCELED",
      "TASK_STATE_INPUT_REQUIRED", "TASK_STATE_REJECTED", "TASK_STATE_AUTH_REQUIRED"}
  }

  /** The names of the task states, those of our own tasks and those another agent may send. */
  lemma WireNames(name: string)
    ensures WireState(Submitted) == "TASK_STATE_SUBMITTED" && WireState(Working) == "TASK_STATE_WORKING"
    ensures WireState(Completed) == "TASK_STATE_COMPLETED" && WireState(Failed) == "TASK_STATE_FAILED"
    ensures WireState(Canceled) == "TASK_STATE_CANCELED" && WireState(Rejected) == "TASK_STATE_REJECTED"
    ensures StateOf("TASK_STATE_INPUT_REQUIRED") == Some(InputRequired)
    ensures StateOf("TASK_STATE_AUTH_REQUIRED") == Some(AuthRequired)
    ensures StateOf(name).Some? && StateOf(name).value.Inherited? ==> StateOf(name).value.name == name
    ensures IsProtocolState(name) <==> StateOf(name).Some? && !StateOf(name).value.Inherited?
    ensures IsInherited(name) <==> StateOf(name) == Some(Inherited(name))
  {
  }

  /** A task without artifacts and message, by its state. */
  lemma BareTask(name: string, task: map<string, Json>, what: string, state: Option<State>)
    requires At(task, "status") == Some(JObj(map["state" := JStr(name)])) && "artifacts" !in task
    requires HoldsText(task, "id") && Trim(task["id"].s) != "" && StateOf(name) == state
    ensures ParseTask(Some(JObj(task)), what) ==
      if state.None? then Failure(UnknownState(what))
      else Success(Reply(state.value, [], Some(task["id"].s), StringAt(task, "contextId")))
  {
    var status := map["state" := JStr(name)];
    assert StateText(status["state"]) == name;
    if state.Some? { TaskParts(task, status, what, state.value, []); }
  }

  /**
   An unknown state is refused, but for the names that every object inherits: an otherwise sound task is read whose
   state is none of the protocol's.
   */
  lemma RefusedStateExactly(name: string, task: map<string, Json>, what: string)
    requires At(task, "status") == Some(JObj(map["state" := JStr(name)])) && "artifacts" !in task
    requires HoldsText(task, "id") && Trim(task["id"].s) != ""
    ensures var r := ParseTask(Some(JObj(task)), what);
      && (r.Failure? <==> !IsProtocolState(name) && !IsInherited(name))
      && (r.Success? ==> (r.value.state.Inherited? <==> !IsProtocolState(name)))
  {
    WireNames(name);
    BareTask(name, task, what, StateOf(name));
  }

  lemma InheritedStateIsRead(name: string, what: string)
    requires name in {"toString", "constructor"}
    ensures ParseTask(Some(JObj(map["status" := JObj(map["state" := JStr(name)]), "id" := JStr("t1")])), what)
      == Success(Reply(Inherited(name), [], Some("t1"), None))
  {
    BareTask(name, map["status" := JObj(map["state" := JStr(name)]), "id" := JStr("t1")], what, Some(Inherited(name)));
  }

  /** A part on the wire: one of `text`, `data` and `url`, with a media type and a file name where there is one. */
  lemma PartOnTheWire(p: Part)
    ensures PrintPart(p).JObj?
    ensures var fields := PrintPart(p).fields;
      match p
      case TextPart(text) => fields == map["text" := JStr(text)]
      case DataPart(data, mediaType) =>
        && At(fields, "data") == Some(data)
        && fields.Keys == {"data"} + (if mediaType.Some? then {"mediaType"} else {})
        && (mediaType.Some? ==> At(fields, "mediaType") == Some(JStr(mediaType.value)))
      case UrlPart(url, mediaType, filename) =>
        && At(fields, "url") == Some(JStr(url))
        && fields.Keys == {"url"} + (if mediaType.Some? then {"mediaType"} else {})
             + (if filename.Some? then {"filename"} else {})
        && (mediaType.Some? ==> At(fields, "mediaType") == Some(JStr(mediaType.value)))
        && (filename.Some? ==> At(fields, "filename") == Some(JStr(filename.value)))
  {
  }

  /** The fields of a JSON object; none of anything else. */
  function FieldsOf(j: Option<Json>): map<string, Json> {
    match j case Some(JObj(fields)) => fields case _ => map[]
  }

  /** A task on the wire: its id and context, its status, perhaps one artifact. */
  lemma TaskOnTheWire(task: TaskRow)
    ensures WireTask(task).JObj?
    ensures var fields := WireTask(task).fields;
      && fields.Keys == {"id", "contextId", "status"} + (if task.artifact.Some? then {"artifacts"} else {})
      && fields["id"] == JStr(task.id) && fields["contextId"] == JStr(task.contextId)
      && fields["status"] == PrintStatus(task)
  {
  }

  /** The status: the state's name, a time stamp, and a message if there is one to give. */
  lemma StatusOnTheWire(task: TaskRow)
    ensures PrintStatus(task).JObj?
    ensures var status := PrintStatus(task).fields;
      && status.Keys == {"state", "timestamp"}
           + (if task.statusMessage.Some? && task.statusMessage.value != "" then {"message"} else {})
      && status["state"] == JStr(WireState(task.state)) && status["timestamp"] == JStr(task.updatedAt)
  {
  }

  lemma MessageOnTheWire(task: TaskRow)
    requires task.statusMessage.Some? && task.statusMessage.value != ""
    ensures var message := FieldsOf(At(PrintStatus(task).fields, "message"));
      && message.Keys == {"messageId", "role", "taskId", "contextId", "parts"}
      && At(message, "messageId") == Some(JStr(task.id + "-status")) && At(message, "role") == Some(JStr("ROLE_AGENT"))
      && At(message, "taskId") == Some(JStr(task.id)) && At(message, "contextId") == Some(JStr(task.contextId))
      && At(message, "parts") == Some(JArr([JObj(map["text" := JStr(task.statusMessage.value)])]))
  {
    var part := TextPart(task.statusMessage.value);
    assert PrintParts([part]).items == [PrintPart(part)];
  }

  lemma ArtifactOnTheWire(task: TaskRow)
    requires task.artifact.Some?
    ensures var artifacts := At(WireTask(task).fields, "artifacts");
      && artifacts.Some? && artifacts.value.JArr? && |artifacts.value.items| == 1
      && var artifact := FieldsOf(Some(artifacts.value.items[0]));
        && artifact.Keys == {"artifactId", "name", "parts"}
        && At(artifact, "artifactId") == Some(JStr(task.id + "-result")) && At(artifact, "name") == Some(JStr("result"))
        && At(artifact, "parts") == Some(PrintParts(task.artifact.value))
    ensures |PrintParts(task.artifact.value).items| == |task.artifact.value|
    ensures forall i :: 0 <= i < |task.artifact.value| ==>
      PrintParts(task.artifact.value).items[i] == PrintPart(task.artifact.value[i])
  {
  }

  /** A received part: text before data before a url, and nothing else will do. */
  lemma PartReadExactly(fields: map<string, Json>, what: string)
    ensures forall text :: At(fields, "text") == Some(JStr(text)) ==>
      ParsePart(JObj(fields), what) == Success(TextPart(text))
    ensures !HoldsText(fields, "text") && "data" in fields ==>
      var r := ParsePart(JObj(fields), what);
      if MayBeText(fields, "mediaType") then r == Success(DataPart(fields["data"], StringAt(fields, "mediaType")))
      else r == Failure(BlankText(what + ".mediaType"))
    ensures !HoldsText(fields, "text") && "data" !in fields && HoldsText(fields, "url") ==>
      var r := ParsePart(JObj(fields), what);
      if !MayBeText(fields, "mediaType") then r == Failure(BlankText(what + ".mediaType"))
      else if !MayBeText(fields, "filename") then r == Failure(BlankText(what + ".filename"))
      else r == Success(UrlPart(fields["url"].s, StringAt(fields, "mediaType"), StringAt(fields, "filename")))
    ensures !HoldsText(fields, "text") && "data" !in fields && !HoldsText(fields, "url") ==>
      ParsePart(JObj(fields), what) == Failure(NoKnownPart(what))
  {
  }

  predicate HoldsText(fields: map<string, Json>, name: string) {
    name in fields && fields[name].JStr?
  }

  /** The field is absent, or a text that is not blank. */
  predicate MayBeText(fields: map<string, Json>, name: string) {
    name in fields ==> fields[name].JStr? && Trim(fields[name].s) != ""
  }

  lemma {:induction false} ItemsReadExactly(items: seq<Json>, what: string)
    ensures ParseItems(items, what).Success? <==>
      forall i :: 0 <= i < |items| ==> ParsePart(items[i], what + "[" + Decimal(i) + "]").Success?
    ensures ParseItems(items, what).Success? ==> |ParseItems(items, what).value| == |items|
    ensures ParseItems(items, what).Success? ==> forall i :: 0 <= i < |items| ==>
      ParsePart(items[i], what + "[" + Decimal(i) + "]") == Success(ParseItems(items, what).value[i])
  {
    if items != [] {
      var front, last := items[..|items| - 1], |items| - 1;
      ItemsReadExactly(front, what);
      assert forall i :: 0 <= i < last ==> front[i] == items[i];
      assert Indexed(what, last) == what + "[" + Decimal(last) + "]";
    }
  }

  /** A list of parts is read where a list stands. */
  lemma PartsReadExactly(raw: Option<Json>, what: string)
    ensures ParseParts(raw, what) ==
      if raw.Some? && raw.value.JArr? then ParseItems(raw.value.items, what) else Failure(NotAList(what))
  {
  }

  /** The parts of all artifacts are those of each, one after the other. */
  lemma ArtifactsReadExactly(front: seq<Json>, last: Json, all: seq<Json>, what: string)
    requires all == front + [last] && ParseArtifacts(all, what).Success?
    ensures ParseArtifacts(front, what).Success? && last.JObj?
    ensures var own := ParseParts(At(last.fields, "parts"), Indexed(what + " artifacts", |front|) + ".parts");
      own.Success? && ParseArtifacts(all, what).value == ParseArtifacts(front, what).value + own.value
  {
    assert all[..|all| - 1] == front;
  }

  /** What is wrong with an answer, in the order in which it is looked at. */
  lemma AnswerRefused(raw: Json, requestId: string, agentName: string)
    ensures var r, fields := ParseSendMessageResponse(raw, requestId, agentName), FieldsOf(Some(raw));
      var what := agentName + "'s response";
      && (!raw.JObj? ==> r == Failure(NotAnObject(what)))
      && (raw.JObj? && At(fields, "jsonrpc") != Some(JStr("2.0")) ==> r == Failure(NotJsonRpc(what)))
      && (At(fields, "jsonrpc") == Some(JStr("2.0")) && At(fields, "id") != Some(JStr(requestId)) ==>
            r == Failure(OtherRequest(what)))
  {
  }

  /** An error reported by the other agent comes with its code and the first 200 characters of its message. */
  lemma RemoteErrorExactly(fields: map<string, Json>, error: map<string, Json>, requestId: string, agentName: string)
    requires At(fields, "jsonrpc") == Some(JStr("2.0")) && At(fields, "id") == Some(JStr(requestId))
    requires At(fields, "error") == Some(JObj(error))
    ensures var r := ParseSendMessageResponse(JObj(fields), requestId, agentName);
      && r.Failure? && r.error.Remote? && r.error.code == At(error, "code")
      && (!HoldsText(error, "message") ==> r.error.message == "no message")
      && (HoldsText(error, "message") ==>
            && r.error.message <= error["message"].s
            && |r.error.message| == if |error["message"].s| > 200 then 200 else |error["message"].s|)
  {
  }

  /** A direct answer is complete and has the parts of the message; a task has its own state. */
  lemma AnswerReadExactly(fields: map<string, Json>, result: map<string, Json>, requestId: string, agentName: string)
    requires At(fields, "jsonrpc") == Some(JStr("2.0")) && At(fields, "id") == Some(JStr(requestId))
    requires "error" !in fields && At(fields, "result") == Some(JObj(result))
    ensures var r := ParseSendMessageResponse(JObj(fields), requestId, agentName);
      var what := agentName + "'s response";
      && (forall message: map<string, Json> :: At(result, "message") == Some(JObj(message)) && r.Success? ==>
            && At(message, "parts").Some? && At(message, "parts").value.JArr?
            && r.value.state == Completed && r.value.taskId == None
            && r.value.contextId == StringAt(message, "contextId")
            && ParseItems(message["parts"].items, what + " message.parts") == Success(r.value.parts))
      && ("message" in result && r.Success? ==> result["message"].JObj?)
      && ("message" !in result ==> r == ParseTask(At(result, "task"), what))
  {
  }

  /**
   A task is read from its status and its parts: those of its artifacts if there are any, else those of its
   message.
   */
  lemma TaskReadExactly(task: map<string, Json>, status: map<string, Json>, what: string)
    requires At(task, "status") == Some(JObj(status))
    ensures var r := ParseTask(Some(JObj(task)), what);
      r.Success? ==>
        && "state" in status && StateOf(StateText(status["state"])) == Some(r.value.state)
        && HoldsText(task, "id") && r.value.taskId == Some(task["id"].s) && Trim(task["id"].s) != ""
        && r.value.contextId == StringAt(task, "contextId")
        && ArtifactList(task, what).Success?
        && ParseArtifacts(ArtifactList(task, what).value, what).Success? && ParseStatusParts(status, what).Success?
        && var parts := ParseArtifacts(ArtifactList(task, what).value, what).value;
          r.value.parts == if parts != [] then parts else ParseStatusParts(status, what).value
  {
  }

  /** A state is named by a text, or by a list around what names it; nothing else is a state. */
  lemma StateNamed(value: Json, items: seq<Json>)
    ensures value.JStr? ==> StateOf(StateText(value)) == StateOf(value.s)
    ensures !value.JStr? && !value.JArr? ==> StateOf(StateText(value)) == None
    ensures StateOf(StateText(JArr([value]))) == StateOf(StateText(value))
    ensures |items| != 1 ==> StateOf(StateText(JArr(items))) == None
  {
  }

  /** What is wrong with a task before its parts are looked at: the first thing that is. */
  lemma TaskRefused(task: map<string, Json>, what: string)
    ensures var r, status := ParseTask(Some(JObj(task)), what), FieldsOf(At(task, "status"));
      if At(task, "status") != Some(JObj(status)) then r == Failure(NotAnObject(what + " task.status"))
      else if "state" !in status || StateOf(StateText(status["state"])) == None then r == Failure(UnknownState(what))
      else "artifacts" in task && !task["artifacts"].JArr? ==> r == Failure(NotAList(what + " task.artifacts"))
  {
  }

  lemma NoTaskRefused(value: Option<Json>, what: string)
    requires value.None? || !value.value.JObj?
    ensures ParseTask(value, what) == Failure(NotAnObject(what + " task (neither message nor task was returned)"))
  {
  }

  /** And after that, when the task has no artifacts: a message that is no object, or an id that is blank. */
  lemma MessageRefused(task: map<string, Json>, status: map<string, Json>, what: string, state: State)
    requires At(task, "status") == Some(JObj(status)) && "artifacts" !in task
    requires "state" in status && StateOf(StateText(status["state"])) == Some(state)
    ensures var r := ParseTask(Some(JObj(task)), what);
      if "message" in status then
        !status["message"].JObj? ==> r == Failure(NotAnObject(what + " task.status.message"))
      else !HoldsText(task, "id") || Trim(task["id"].s) == "" ==> r == Failure(BlankText(what + " task.id"))
  {
  }

  /** What is wrong with an artifact: the first that is no object, or whose parts are not a list of parts. */
  lemma ArtifactRefused(front: seq<Json>, last: Json, all: seq<Json>, what: string)
    requires all == front + [last] && ParseArtifacts(front, what).Success?
    ensures !last.JObj? ==> ParseArtifacts(all, what) == Failure(NotAnObject(Indexed(what + " artifacts", |front|)))
  {
    var at := |all| - 1;
    assert at == |front| && all[at] == last && all[..at] == front;
  }

  lemma ArtifactPartsRefused(front: seq<Json>, last: map<string, Json>, all: seq<Json>, what: string)
    requires all == front + [JObj(last)] && ParseArtifacts(front, what).Success?
    ensures var own := ParseParts(At(last, "parts"), Indexed(what + " artifacts", |front|) + ".parts");
      own.Failure? ==> ParseArtifacts(all, what) == Failure(own.error)
  {
    var at := |all| - 1;
    assert at == |front| && all[at] == JObj(last) && all[..at] == front;
    assert Record(Some(all[at]), Indexed(what + " artifacts", at)) == Success(last);
  }

  /** What is wrong with the body of an answer to this request. */
  lemma BodyRefused(fields: map<string, Json>, requestId: string, agentName: string)
    requires At(fields, "jsonrpc") == Some(JStr("2.0")) && At(fields, "id") == Some(JStr(requestId))
    ensures var r, what := ParseSendMessageResponse(JObj(fields), requestId, agentName), agentName + "'s response";
      var result := FieldsOf(At(fields, "result"));
      if "error" in fields then !fields["error"].JObj? ==> r == Failure(NotAnObject(what + " error"))
      else if At(fields, "result") != Some(JObj(result)) then r == Failure(NotAnObject(what + " result"))
      else "message" in result && !result["message"].JObj? ==> r == Failure(NotAnObject(what + " message"))
  {
  }
}

/** The G2P/MAUS operation (src/app/obj/tasks/g2p-maus-operation.ts): it aligns the audio of the
    first input with a transcript, taken from the OCTRA step when that is enabled and from the
    ASR step otherwise, and keeps the downloaded annotation as its result. */
module G2pMausOperations {
  import opened Wrappers
  import opened TaskStates
  import opened Strings
  import opened FileInfos
  import opened Tasks
  import opened Providers

  const Endpoint := "runPipelineWebLink?"

  /** LANGUAGE: the language entry's MAUS language when it has one, else the task's language. */
  function MausLanguage(lang: Language, taskLanguage: string): (r: string)
    ensures lang.mausLanguage.None? ==> r == taskLanguage
    ensures lang.mausLanguage.Some? ==> r == lang.mausLanguage.value
  {
    lang.mausLanguage.GetOr(taskLanguage)
  }

  /** The operation whose first result is the transcript: operation 2 (OCTRA) when enabled,
      else operation 1 (ASR). */
  function TextSource(ops: seq<Operation>): (src: Operation)
    requires |ops| >= 3
    reads ops[2]
    ensures src == ops[1] || src == ops[2]
    ensures src == ops[2] <==> ops[2].enabled || ops[1] == ops[2]
  {
    if ops[2].enabled then ops[2] else ops[1]
  }

  /** The request: TEXT, SIGNAL, the G2P_MAUS pipeline in the given language, emuDB output. */
  function RequestURL(host: string, text: string, signal: string, language: string): (r: string)
    ensures |r| == |host| + |text| + |signal| + |language| + 96
    ensures r[|r| - 39..] == "MAUSVARIANT=runPipeline&OUTFORMAT=emuDB"
  {
    var after := "&SIGNAL=" + signal + "&" + "PIPE=G2P_MAUS&LANGUAGE=" + language + "&";
    Framed(host + Endpoint + "TEXT=", text + after, "MAUSVARIANT=runPipeline&OUTFORMAT=emuDB");
    host + Endpoint + "TEXT=" + (text + after) + "MAUSVARIANT=runPipeline&OUTFORMAT=emuDB"
  }

  /** The TEXT parameter comes first and carries the transcript URL: read up to the next '&',
      it gives the transcript URL back when that has no '&' of its own. */
  lemma RequestText(host: string, text: string, signal: string, language: string)
    requires '&' !in text
    ensures var url := RequestURL(host, text, signal, language);
      var key := host + Endpoint + "TEXT=";
      IsPrefix(key, url) && UpTo(url[|key|..], '&') == text
  {
    var url := RequestURL(host, text, signal, language);
    var key := host + Endpoint + "TEXT=";
    var after := "&SIGNAL=" + signal + "&" + "PIPE=G2P_MAUS&LANGUAGE=" + language + "&";
    var tail := after + "MAUSVARIANT=runPipeline&OUTFORMAT=emuDB";
    Regroup3(key, text, after, "MAUSVARIANT=runPipeline&OUTFORMAT=emuDB");
    assert url == key + (text + tail);
    DropPrefix(key, text + tail);
    assert tail == "&" + tail[1..];
    UpToDelimited(text, '&', tail[1..]);
  }

  /** start, up to the request: the protocol is reset and the operation enters PROCESSING,
      stamped with the start time. The request needs the task, its language entry, a third
      operation, a result of the transcript's source and an input; without any of them the
      call throws, after the state change. */
  method Start(op: Operation, lang: Option<Language>, operations: seq<Operation>, inputs: seq<FileInfo>, now: int)
    returns (r: Result<string>)
    modifies op, op.task
    ensures op.protocol == [] && op.state == PROCESSING
    ensures op.stateEvents == old(op.stateEvents) + Emitted(op.id, old(op.state), PROCESSING)
    ensures op.time == old(op.time).(start := now)
    ensures r.Success? <==>
      op.task != null && lang.Some? && |operations| >= 3 && |TextSource(operations).results| >= 1 && inputs != []
    ensures r.Success? ==>
      r.value == RequestURL(lang.value.host, UrlText(TextSource(operations).results[0]), UrlText(inputs[0]),
                            MausLanguage(lang.value, op.task.language))
    ensures op.results == old(op.results) && op.enabled == old(op.enabled) && op.webService == old(op.webService)
    ensures op.parsedProtocol == old(op.parsedProtocol) && op.operations == old(op.operations)
    ensures op.task != null ==>
      op.task.state == old(op.task.state) && op.task.operations == old(op.task.operations)
      && op.task.files == old(op.task.files)
  {
    op.protocol := [];
    var thrown := op.ChangeState(PROCESSING);
    op.time := op.time.(start := now);
    if op.task == null {
      return Failure(TypeErrorMessage("language"));
    }
    if lang.None? {
      return Failure(TypeErrorMessage("mausLanguage"));
    }
    var language := MausLanguage(lang.value, op.task.language);
    if |operations| < 3 {
      return Failure(TypeErrorMessage("enabled"));
    }
    var source := if operations[2].enabled then operations[2] else operations[1];
    if |source.results| == 0 || inputs == [] {
      return Failure(TypeErrorMessage("url"));
    }
    r := Success(RequestURL(lang.value.host, UrlText(source.results[0]), UrlText(inputs[0]), language));
  }

  /** The reply callback of start: the duration is stamped, then the reply is handled. */
  method OnReply(op: Operation, reply: Reply, inputs: seq<FileInfo>, now: int) returns (thrown: bool)
    requires op.task != null && |inputs| >= 1
    modifies op, op.task
    ensures reply.Response? ==> op.time == old(op.time).(duration := now - old(op.time).start)
    ensures op.protocol == ProtocolAfter(old(op.protocol), reply)
    ensures op.state == if thrown then old(op.state) else StateAfter(reply)
    ensures thrown <==> Succeeded(reply) && !Downloadable(reply.downloadLink, old(inputs[0].name))
    ensures !Succeeded(reply) || thrown ==> op.results == old(op.results)
    ensures Succeeded(reply) && !thrown ==>
      |op.results| == |old(op.results)| + 1 && op.results[..|old(op.results)|] == old(op.results)
      && op.results[|old(op.results)|].url == Some(reply.downloadLink)
  {
    thrown := HandleReply(op, reply, inputs[0].name, op.time.(duration := now - op.time.start));
  }

  /** fromAny: a new G2P/MAUS operation with the record's id and state, then its results, time,
      protocol and enabled flag. The first result record that names no file throws. */
  method FromAny(o: OperationRecord, icon: string, task: Task, counter: Counter) returns (r: Result<Operation>)
    modifies counter, task
    ensures r.Success? <==> Restorable(o.results)
    ensures r.Success? ==>
      fresh(r.value) && r.value.kind == G2pMaus && r.value.icon == icon
      && r.value.task == task && RestoresFields(o, r.value)
    ensures counter.value == old(counter.value)
    ensures o.state != FINISHED ==> task.state == old(task.state)
    ensures task.operations == old(task.operations) && task.files == old(task.files)
  {
    var op := new Operation(G2pMaus, o.name, icon, [], None, None, task, Some(o.state), Some(o.id), counter);
    var files := RestoreResults(o.results);
    if files.Failure? {
      return Failure(files.error);
    }
    op.results := files.value;
    op.time := o.time;
    op.protocol := o.protocol;
    op.enabled := o.enabled;
    return Success(op);
  }

  /** clone: a new G2P/MAUS operation with the same name, icon and state, on the given task or
      else on this one, and a fresh id from the counter. */
  method Clone(op: Operation, task: Task?, counter: Counter) returns (c: Operation)
    requires op.state == FINISHED ==> task != null || op.task != null
    modifies counter, if task == null then op.task else task
    ensures fresh(c) && c.kind == G2pMaus && c.name == op.name && c.icon == op.icon && c.state == op.state
    ensures c.task == if task == null then op.task else task
    ensures c.id == old(counter.value) + 1 && counter.value == c.id
    ensures c.results == [] && c.protocol == [] && c.enabled
  {
    var selected := if task == null then op.task else task;
    c := new Operation(G2pMaus, op.name, op.icon, [], None, None, selected, Some(op.state), None, counter);
  }
}

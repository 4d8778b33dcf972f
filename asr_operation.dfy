/** The speech-recognition operation (src/app/obj/tasks/asr-operation.ts): it asks the
    language's ASR pipeline for a transcript of the first input, with the second input as
    text when there is one, and keeps the downloaded transcript as its result. */
module AsrOperations {
  import opened Wrappers
  import opened TaskStates
  import opened Strings
  import opened FileInfos
  import opened Tasks
  import opened Providers

  const Endpoint := "runPipelineWebLink?"

  /** The request `start` posts: TEXT (the second input) only when there is one, then SIGNAL
      (the first input), the ASR pipeline of the language, and the output format. */
  function RequestURL(lang: Language, language: string, inputs: seq<string>): (r: string)
    requires |inputs| >= 1
    ensures IsPrefix(lang.host + Endpoint, r)
    ensures |r| >= 13 && r[|r| - 13..] == "OUTFORMAT=bpf"
  {
    lang.host + Endpoint
    + (if |inputs| > 1 then "TEXT=" + inputs[1] + "&" else "")
    + ("SIGNAL=" + inputs[0] + "&")
    + ("PIPE=ASR_G2P_CHUNKER&ASRType=call" + lang.asr + "ASR&LANGUAGE=" + language + "&"
       + "MAUSVARIANT=runPipeline&OUTFORMAT=bpf")
  }

  /** The request carries a TEXT parameter exactly when there is a second input, and the
      SIGNAL parameter always carries the first. */
  lemma RequestText(lang: Language, language: string, inputs: seq<string>)
    requires |inputs| >= 1
    ensures IsPrefix(lang.host + Endpoint + "TEXT=", RequestURL(lang, language, inputs)) <==> |inputs| > 1
    ensures |inputs| > 1 ==> IsPrefix(lang.host + Endpoint + ("TEXT=" + inputs[1] + "&"), RequestURL(lang, language, inputs))
    ensures exists k :: OccursAt(RequestURL(lang, language, inputs), "SIGNAL=" + inputs[0] + "&", k)
  {
    var head := lang.host + Endpoint;
    var text := if |inputs| > 1 then "TEXT=" + inputs[1] + "&" else "";
    var signal := "SIGNAL=" + inputs[0] + "&";
    var tail := "PIPE=ASR_G2P_CHUNKER&ASRType=call" + lang.asr + "ASR&LANGUAGE=" + language + "&"
      + "MAUSVARIANT=runPipeline&OUTFORMAT=bpf";
    var url := RequestURL(lang, language, inputs);
    Concat4(head, text, signal, tail);
    assert OccursAt(url, signal, |head| + |text|);
    if |inputs| > 1 {
      Concat4(head, "TEXT=", inputs[1] + "&", "");
      assert text == "TEXT=" + (inputs[1] + "&");
      assert (head + text)[..|head + "TEXT="|] == head + "TEXT=";
    } else {
      assert url[|head|] == signal[0] == 'S';
      assert (head + "TEXT=")[|head|] == 'T';
      assert |head + "TEXT="| <= |url| ==> url[..|head + "TEXT="|][|head|] == url[|head|];
    }
  }

  /** Slicing a concatenation of four pieces gives the pieces back. */
  lemma Concat4<T>(a: seq<T>, b: seq<T>, c: seq<T>, d: seq<T>)
    ensures var s := a + b + c + d;
      |s| == |a| + |b| + |c| + |d| && s[..|a| + |b|] == a + b
      && s[|a| + |b|..|a| + |b| + |c|] == c
  {
  }

  /** start, up to the request: the web service becomes the language's ASR, the protocol is
      reset and the operation enters PROCESSING, stamped with the start time; the result is the
      request URL. A missing task or language throws before anything changes; no inputs throws
      once the state has changed. */
  method Start(op: Operation, lang: Option<Language>, inputs: seq<FileInfo>, now: int) returns (r: Result<string>)
    modifies op, op.task
    ensures op.task == null || lang.None? ==>
      r.Failure? && op.state == old(op.state) && op.protocol == old(op.protocol)
      && op.webService == old(op.webService) && op.time == old(op.time) && op.stateEvents == old(op.stateEvents)
    ensures op.task != null && lang.Some? ==>
      op.webService == lang.value.asr + "ASR" && op.protocol == [] && op.state == PROCESSING
      && op.stateEvents == old(op.stateEvents) + Emitted(op.id, old(op.state), PROCESSING)
      && op.time == old(op.time).(start := now)
      && (r.Success? <==> inputs != [])
      && (r.Success? ==> r.value == RequestURL(lang.value, op.task.language, Urls(inputs)))
    ensures op.results == old(op.results) && op.enabled == old(op.enabled)
    ensures op.parsedProtocol == old(op.parsedProtocol) && op.operations == old(op.operations)
    ensures op.task != null ==>
      op.task.state == old(op.task.state) && op.task.language == old(op.task.language)
      && op.task.operations == old(op.task.operations) && op.task.files == old(op.task.files)
  {
    if op.task == null {
      return Failure("Cannot read properties of undefined (reading 'language')");
    }
    if lang.None? {
      return Failure("Cannot read properties of undefined (reading 'asr')");
    }
    op.webService := lang.value.asr + "ASR";
    op.protocol := [];
    var thrown := op.ChangeState(PROCESSING);
    op.time := op.time.(start := now);
    if inputs == [] {
      return Failure("Cannot read properties of undefined (reading 'url')");
    }
    r := Success(RequestURL(lang.value, op.task.language, Urls(inputs)));
  }

  /** The reply callback of start: the duration is stamped, then the reply is handled. */
  method OnReply(op: Operation, reply: Reply, inputs: seq<FileInfo>, now: int) returns (thrown: bool)
    requires op.task != null && |inputs| >= 1
    modifies op, op.task
    ensures reply.Response? ==> op.time == old(op.time).(duration := now - old(op.time).start)
    ensures op.protocol == ProtocolAfter(old(op.protocol), reply)
    ensures op.state == if thrown then old(op.state) else StateAfter(reply)
    ensures thrown <==> Succeeded(reply) && !Downloadable(reply.downloadLink, old(inputs[0].name))
    ensures !Succeeded(reply) || thrown ==> op.results == old(op.results)
    ensures Succeeded(reply) && !thrown ==>
      |op.results| == |old(op.results)| + 1 && op.results[..|old(op.results)|] == old(op.results)
      && op.results[|old(op.results)|].url == Some(reply.downloadLink)
  {
    thrown := HandleReply(op, reply, inputs[0].name, op.time.(duration := now - op.time.start));
  }

  /** What fromAny restores an ASR operation from the record of: name, state, id, protocol,
      time, enabled flag, web service, and the results with their names, types, sizes and URLs. */
  predicate Restores(o: OperationRecord, op: Operation)
    reads op, set f | f in op.results
  {
    RestoresFields(o, op) && op.webService == o.webService
  }

  /** fromAny: a new ASR operation with the record's id and state, then its results, time,
      protocol, enabled flag and web service. The first result record that names no file throws. */
  method FromAny(o: OperationRecord, icon: string, task: Task, counter: Counter) returns (r: Result<Operation>)
    modifies counter, task
    ensures r.Success? <==> Restorable(o.results)
    ensures r.Success? ==>
      fresh(r.value) && r.value.kind == ASR && r.value.icon == icon
      && r.value.task == task && Restores(o, r.value)
    ensures counter.value == old(counter.value)
    ensures o.state != FINISHED ==> task.state == old(task.state)
    ensures task.operations == old(task.operations) && task.files == old(task.files)
  {
    var op := new Operation(ASR, o.name, icon, [], None, None, task, Some(o.state), Some(o.id), counter);
    var files := RestoreResults(o.results);
    if files.Failure? {
      return Failure(files.error);
    }
    Fill(op, o, files.value);
    return Success(op);
  }

  /** The field writes of fromAny after its results loop: the restored files, then time,
      protocol, enabled flag and web service. */
  method Fill(op: Operation, o: OperationRecord, files: seq<FileInfo>)
    requires op.id == o.id && op.name == o.name && op.state == o.state && AllRestored(o.results, files)
    modifies op
    ensures Restores(o, op)
  {
    op.results := files;
    op.time := o.time;
    op.protocol := o.protocol;
    op.enabled := o.enabled;
    op.webService := o.webService;
  }

  /** A pending Promise read as a file record: an object with none of a file record's
      properties (the type and size, undefined there, are written "" and 0). */
  const PendingResult := FileRecord(None, "", 0, None, None, None, None)

  /** toAny as written: each result's `toAny()` Promise is pushed without being awaited, so the
      record holds a pending Promise where each result's record belongs. With no results it is
      the record the awaiting form writes. */
  function ToAnyAsWritten(op: Operation): (o: OperationRecord)
    reads op, set f | f in op.results
    ensures |o.results| == |op.results|
    ensures forall k :: 0 <= k < |o.results| ==> o.results[k] == PendingResult
    ensures op.results == [] ==> o == ToAny(op)
  {
    OperationRecord(op.id, op.name, op.state, op.protocol, op.time, op.enabled, op.webService,
                    seq(|op.results|, k => PendingResult))
  }

  /** The in-memory record toAny writes for an operation with a result is not a record fromAny
      can read: `new FileInfo(undefined, ...)` would throw on the first result. Saving that
      record rejects (a Promise cannot be cloned into IndexedDB), so it is never stored. */
  lemma ToAnyAsWrittenFails(op: Operation)
    requires |op.results| > 0
    ensures !Restorable(ToAnyAsWritten(op).results)
  {
    var o := ToAnyAsWritten(op);
    ExtractAbsent(o.results[0].fullname);
    assert !NamesFile(o.results[0]);
  }

  /** toAny as evidently intended, awaiting each result's record as the base class's toAny
      does: the record with the operation's own web service. */
  function ToAny(op: Operation): (o: OperationRecord)
    reads op, set f | f in op.results
    ensures o.id == op.id && o.name == op.name && o.state == op.state && o.protocol == op.protocol
    ensures o.time == op.time && o.enabled == op.enabled && o.webService == op.webService
    ensures o.results == ResultRecords(op.results)
  {
    RecordOf(op, op.webService)
  }

  /** fromAny reads back what toAny writes: the record of an operation restores every field
      of it, provided its results' names are as the FileInfo constructor makes them. */
  lemma ToAnyRestores(op: Operation)
    requires forall k :: 0 <= k < |op.results| ==> WellFormedParts(NameParts(op.results[k].name, op.results[k].extension))
    ensures Restorable(ToAny(op).results) && Restores(ToAny(op), op)
  {
  }

  /** clone: a new ASR operation with the same name, icon and state, on the given task or
      else on this one, and a fresh id from the counter. */
  method Clone(op: Operation, task: Task?, counter: Counter) returns (c: Operation)
    requires op.state == FINISHED ==> task != null || op.task != null
    modifies counter, if task == null then op.task else task
    ensures fresh(c) && c.kind == ASR && c.name == op.name && c.icon == op.icon && c.state == op.state
    ensures c.task == if task == null then op.task else task
    ensures c.id == old(counter.value) + 1 && counter.value == c.id
    ensures c.results == [] && c.protocol == [] && c.enabled && c.webService == []
  {
    var selected := if task == null then op.task else task;
    c := new Operation(ASR, op.name, op.icon, [], None, None, selected, Some(op.state), None, counter);
  }
}

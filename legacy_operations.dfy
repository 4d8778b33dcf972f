/** The older G2P/MAUS operation (src/app/shared/tasks/obj/g2p-maus-operation.ts): a fixed BAS
    host, TEXT always from the third operation, and the end time stamped instead of a duration.
    Its base class is not part of this model; it is modelled on the same operation. */
module LegacyG2pMausOperations {
  import opened Wrappers
  import opened TaskStates
  import opened FileInfos
  import opened Tasks
  import opened Providers
  import G2pMausOperations

  /** The BAS web services the older operations post to. */
  const BasHost := "https://clarin.phonetik.uni-muenchen.de/BASWebServices/services/"

  /** start, up to the request: PROCESSING, the start time stamped and the end time cleared; the
      protocol is kept. The request needs a third operation with a result, an input and the
      task; without any of them the call throws, after the state change. */
  method Start(op: Operation, operations: seq<Operation>, inputs: seq<FileInfo>, now: int) returns (r: Result<string>)
    modifies op, op.task
    ensures op.state == PROCESSING && op.protocol == old(op.protocol)
    ensures op.stateEvents == old(op.stateEvents) + Emitted(op.id, old(op.state), PROCESSING)
    ensures op.time == old(op.time).(start := now, end := 0)
    ensures r.Success? <==> |operations| >= 3 && |operations[2].results| >= 1 && inputs != [] && op.task != null
    ensures r.Success? ==>
      r.value == G2pMausOperations.RequestURL(BasHost, UrlText(operations[2].results[0]), UrlText(inputs[0]), op.task.language)
    ensures r.Failure? ==> r.error == TypeErrorMessage(
      if |operations| < 3 then "results"
      else if |operations[2].results| == 0 || inputs == [] then "url"
      else "language")
    ensures op.results == old(op.results) && op.enabled == old(op.enabled)
    ensures op.task != null ==> op.task.state == old(op.task.state) && op.task.operations == old(op.task.operations)
  {
    var thrown := op.ChangeState(PROCESSING);
    op.time := op.time.(start := now, end := 0);
    if |operations| < 3 {
      return Failure(TypeErrorMessage("results"));
    }
    if |operations[2].results| == 0 || inputs == [] {
      return Failure(TypeErrorMessage("url"));
    }
    if op.task == null {
      return Failure(TypeErrorMessage("language"));
    }
    r := Success(G2pMausOperations.RequestURL(BasHost, UrlText(operations[2].results[0]), UrlText(inputs[0]), op.task.language));
  }

  /** The reply callback of start: the end time is stamped, then the reply is handled as by the
      newer operations. */
  method OnReply(op: Operation, reply: Reply, inputs: seq<FileInfo>, now: int) returns (thrown: bool)
    requires op.task != null && |inputs| >= 1
    modifies op, op.task
    ensures reply.Response? ==> op.time == old(op.time).(end := now)
    ensures reply.TransportError? ==> op.time == old(op.time)
    ensures op.protocol == ProtocolAfter(old(op.protocol), reply)
    ensures op.state == if thrown then old(op.state) else StateAfter(reply)
    ensures thrown <==> Succeeded(reply) && !Downloadable(reply.downloadLink, old(inputs[0].name))
    ensures !Succeeded(reply) || thrown ==> op.results == old(op.results)
    ensures Succeeded(reply) && !thrown ==>
      |op.results| == |old(op.results)| + 1 && op.results[..|old(op.results)|] == old(op.results)
      && op.results[|old(op.results)|].url == Some(reply.downloadLink)
  {
    thrown := HandleReply(op, reply, inputs[0].name, op.time.(end := now));
  }

  /** clone: a new operation with the same name, icon and state, on the given task or else on
      this one. */
  method Clone(op: Operation, task: Task?, counter: Counter) returns (c: Operation)
    requires op.state == FINISHED ==> task != null || op.task != null
    modifies counter, if task == null then op.task else task
    ensures fresh(c) && c.kind == G2pMaus && c.name == op.name && c.icon == op.icon && c.state == op.state
    ensures c.task == if task == null then op.task else task
    ensures c.results == [] && c.protocol == [] && c.enabled
  {
    var selected := if task == null then op.task else task;
    c := new Operation(G2pMaus, op.name, op.icon, [], None, None, selected, Some(op.state), None, counter);
  }
}

/** The older OCTRA operation (src/app/shared/tasks/obj/octra-operation.ts): it enters PROCESSING
    while the user edits, and its tool URL loads the first result of the first two operations. */
module LegacyOctraOperations {
  import opened Wrappers
  import opened TaskStates
  import opened Strings
  import opened FileInfos
  import opened Tasks
  import opened Providers
  import opened Uri
  import OctraOperations

  /** The OCTRA editor the older tool URL points to. */
  const EditorLoad := "https://www.phonetik.uni-muenchen.de/apps/octra/octra-dev/user/load?"

  /** start: the start time is stamped, the operation list is kept, and the operation enters
      PROCESSING. */
  method Start(op: Operation, operations: seq<Operation>, now: int)
    modifies op, op.task
    ensures op.time == old(op.time).(start := now) && op.operations == Some(operations)
    ensures op.state == PROCESSING
    ensures op.stateEvents == old(op.stateEvents) + Emitted(op.id, old(op.state), PROCESSING)
    ensures op.protocol == old(op.protocol) && op.results == old(op.results) && op.enabled == old(op.enabled)
    ensures op.task != null ==> op.task.state == old(op.task.state) && op.task.operations == old(op.task.operations)
  {
    op.time := op.time.(start := now);
    op.operations := Some(operations);
    var thrown := op.ChangeState(PROCESSING);
  }

  /** The editor URL: `audio`, `transcript` and `embedded=1`, in that order. */
  function ToolLink(audio: string, transcript: string): string {
    EditorLoad + "audio=" + (EncodeURIComponent(audio) + ("&" + ("transcript=" + (EncodeURIComponent(transcript) + ("&" + "embedded=1")))))
  }

  /** Both parameters decode back to the URLs they were made from. */
  lemma ToolLinkValues(audio: string, transcript: string)
    ensures var link := ToolLink(audio, transcript);
      var key := EditorLoad + "audio=";
      var key2 := key + EncodeURIComponent(audio) + "&" + "transcript=";
      IsPrefix(key, link) && Decode(UpTo(link[|key|..], '&')) == Some(audio)
      && IsPrefix(key2, link) && Decode(UpTo(link[|key2|..], '&')) == Some(transcript)
  {
    var key := EditorLoad + "audio=";
    var e := EncodeURIComponent(audio);
    var t := EncodeURIComponent(transcript);
    OctraOperations.EncodedValueReads(key, audio, "transcript=" + (t + ("&" + "embedded=1")));
    Regroup4(key, e, "&", "transcript=", t + ("&" + "embedded=1"));
    OctraOperations.EncodedValueReads(key + e + "&" + "transcript=", transcript, "embedded=1");
  }

  /** The operations of the list start kept, and their results. */
  function ToolFrame(op: Operation): set<object>
    reads op, if op.operations.Some? then set o | o in op.operations.value else {}
  {
    if op.operations.None? then {}
    else (set o: object | o in op.operations.value) + (set o, f | o in op.operations.value && f in o.results :: f as object)
  }

  /** getToolURL: the first result of operation 0 as audio and of operation 1 as transcript. An
      unset operation list or a missing operation or result throws, at the first read that meets
      `undefined`: the audio's operation and result before the transcript's. */
  function ToolURL(op: Operation): (r: Result<string>)
    reads op, ToolFrame(op)
    ensures r.Success? <==>
      op.operations.Some? && |op.operations.value| >= 2
      && op.operations.value[0].results != [] && op.operations.value[1].results != []
    ensures r.Success? ==>
      var ops := op.operations.value;
      r.value == ToolLink(UrlText(ops[0].results[0]), UrlText(ops[1].results[0]))
    ensures r.Failure? ==> r.error == TypeErrorMessage(
      if op.operations.None? then "0"
      else if op.operations.value == [] then "results"
      else if op.operations.value[0].results == [] then "url"
      else if |op.operations.value| < 2 then "results"
      else "url")
  {
    if op.operations.None? then Failure(TypeErrorMessage("0"))
    else
      var ops := op.operations.value;
      if ops == [] then Failure(TypeErrorMessage("results"))
      else if ops[0].results == [] then Failure(TypeErrorMessage("url"))
      else if |ops| < 2 then Failure(TypeErrorMessage("results"))
      else if ops[1].results == [] then Failure(TypeErrorMessage("url"))
      else
        assert ops[0] in ops && ops[0].results[0] in ops[0].results;
        assert ops[1] in ops && ops[1].results[0] in ops[1].results;
        Success(ToolLink(UrlText(ops[0].results[0]), UrlText(ops[1].results[0])))
  }

  /** clone: a new OCTRA operation with the same name, icon and state, on the given task or else
      on this one. */
  method Clone(op: Operation, task: Task?, counter: Counter) returns (c: Operation)
    requires op.state == FINISHED ==> task != null || op.task != null
    modifies counter, if task == null then op.task else task
    ensures fresh(c) && c.kind == OCTRA && c.name == op.name && c.icon == op.icon && c.state == op.state
    ensures c.task == if task == null then op.task else task
    ensures c.results == [] && c.enabled && c.operations.None?
  {
    var selected := if task == null then op.task else task;
    c := new Operation(OCTRA, op.name, op.icon, [], None, None, selected, Some(op.state), None, counter);
  }
}

/** The MAUS operation (src/app/shared/tasks/obj/maus-operation.ts): forced alignment of the
    first input with the BAS Partitur file of the second operation, in German. */
module LegacyMausOperations {
  import opened Wrappers
  import opened TaskStates
  import opened Strings
  import opened FileInfos
  import opened Tasks
  import opened Providers
  import LegacyG2pMausOperations

  const Settings := "&LANGUAGE=deu-DE&OUTFORMAT=emuDB&MAUSVARIANT=runMAUS"

  /** The request: BPF, then SIGNAL, then the fixed language, format and variant. */
  function RequestURL(bpf: string, signal: string): string {
    LegacyG2pMausOperations.BasHost + "runMAUSWebLink?BPF=" + (bpf + ("&SIGNAL=" + signal + Settings))
  }

  /** BPF comes first and reads back as the transcript URL when that has no '&'; the language is
      always deu-DE, at the end. */
  lemma RequestFields(bpf: string, signal: string)
    requires '&' !in bpf
    ensures var url := RequestURL(bpf, signal);
      var key := LegacyG2pMausOperations.BasHost + "runMAUSWebLink?BPF=";
      IsPrefix(key, url) && UpTo(url[|key|..], '&') == bpf
      && |Settings| <= |url| && url[|url| - |Settings|..] == Settings
  {
    var key := LegacyG2pMausOperations.BasHost + "runMAUSWebLink?BPF=";
    var url := RequestURL(bpf, signal);
    DropPrefix(key, bpf + ("&SIGNAL=" + signal + Settings));
    assert "&SIGNAL=" + signal + Settings == "&" + ("SIGNAL=" + signal + Settings);
    UpToDelimited(bpf, '&', "SIGNAL=" + signal + Settings);
    Regroup3(key, bpf, "&SIGNAL=" + signal, Settings);
    assert url == (key + bpf + ("&SIGNAL=" + signal)) + Settings;
  }

  /** start, up to sending the request: PROCESSING and the start time. When building the request
      throws, the catch block sets the protocol to the message and the state to ERROR. The result
      is the request sent, if any. */
  method Start(op: Operation, operations: seq<Operation>, inputs: seq<FileInfo>, now: int) returns (r: Option<string>)
    modifies op, op.task
    ensures op.time == old(op.time).(start := now)
    ensures r.Some? <==> |operations| >= 2 && |operations[1].results| >= 1 && inputs != []
    ensures r.Some? ==>
      r.value == RequestURL(UrlText(operations[1].results[0]), UrlText(inputs[0]))
      && op.state == PROCESSING && op.protocol == old(op.protocol)
      && op.stateEvents == old(op.stateEvents) + Emitted(op.id, old(op.state), PROCESSING)
    ensures r.None? ==>
      op.state == ERROR && op.protocol == TypeErrorMessage(if |operations| < 2 then "results" else "url")
      && op.stateEvents == old(op.stateEvents) + Emitted(op.id, old(op.state), PROCESSING) + Emitted(op.id, PROCESSING, ERROR)
    ensures op.results == old(op.results) && op.enabled == old(op.enabled)
    ensures op.task != null ==> op.task.state == old(op.task.state) && op.task.operations == old(op.task.operations)
  {
    var thrown := op.ChangeState(PROCESSING);
    op.time := op.time.(start := now);
    if |operations| < 2 {
      // the log of operations[1].results
      op.protocol := TypeErrorMessage("results");
      thrown := op.ChangeState(ERROR);
      return None;
    }
    if |operations[1].results| == 0 || inputs == [] {
      op.protocol := TypeErrorMessage("url");
      thrown := op.ChangeState(ERROR);
      return None;
    }
    r := Some(RequestURL(UrlText(operations[1].results[0]), UrlText(inputs[0])));
  }

  /** The protocol the MAUS callbacks leave: an error's message; a response's warnings if it has
      any, its output never. */
  function ProtocolAfterMaus(protocol: string, r: Reply): string {
    match r
    case TransportError(m) => m
    case Response(_, w, _, _) => if w != [] then w else protocol
  }

  /** The MAUS callbacks leave the protocol the other operations' callback leaves except where
      a response has output but no warnings. */
  lemma MausProtocolDiffers(protocol: string, r: Reply)
    ensures ProtocolAfterMaus(protocol, r) == ProtocolAfter(protocol, r) <==>
      r.TransportError? || r.warnings != [] || r.output == [] || r.output == protocol
  {
  }

  /** onloadend and onerror. A response stamps the end time and finishes the operation on
      success (appending no result), fails it otherwise, and only then takes non-empty warnings
      as the protocol; an error sets the protocol to its message and fails. `thrown` is the
      TypeError of finishing an operation without a task, which ends the callback before the
      warnings are copied. */
  method OnReply(op: Operation, reply: Reply, now: int) returns (thrown: bool)
    modifies op, op.task
    ensures op.state == StateAfter(reply)
    ensures thrown <==> Succeeded(reply) && op.task == null
    ensures op.protocol == if thrown then old(op.protocol) else ProtocolAfterMaus(old(op.protocol), reply)
    ensures op.time == if Succeeded(reply) then old(op.time).(end := now) else old(op.time)
    ensures op.stateEvents == old(op.stateEvents) + Emitted(op.id, old(op.state), StateAfter(reply))
    ensures op.results == old(op.results) && op.enabled == old(op.enabled)
  {
    if reply.TransportError? {
      op.protocol := reply.message;
      thrown := op.ChangeState(ERROR);
      return;
    }
    if reply.success == "true" {
      op.time := op.time.(end := now);
      thrown := op.ChangeState(FINISHED);
      if thrown {
        return;
      }
    } else {
      thrown := op.ChangeState(ERROR);
    }
    if reply.warnings != [] {
      op.protocol := reply.warnings;
    }
  }

  /** clone as written. The constructor passes its third argument, the state, on into the base
      constructor's task parameter, so every MAUS operation built with a state, the copy
      included, has no task and no state of its own and starts PENDING. */
  method Clone(op: Operation, counter: Counter) returns (c: Operation)
    modifies counter
    ensures fresh(c) && c.kind == MAUS && c.name == op.name && c.icon == op.icon
    ensures c.state == PENDING && c.task == null
    ensures op.state != PENDING ==> c.state != op.state
    ensures c.id == old(counter.value) + 1
  {
    c := new Operation(MAUS, op.name, op.icon, [], None, None, null, None, None, counter);
  }

  /** clone as the other operations do it: same name, icon and state, on the same task. */
  method CloneKeepingState(op: Operation, counter: Counter) returns (c: Operation)
    requires op.state == FINISHED ==> op.task != null
    modifies counter, op.task
    ensures fresh(c) && c.kind == MAUS && c.name == op.name && c.icon == op.icon
    ensures c.state == op.state && c.task == op.task
    ensures c.id == old(counter.value) + 1
  {
    c := new Operation(MAUS, op.name, op.icon, [], None, None, op.task, Some(op.state), None, counter);
  }
}

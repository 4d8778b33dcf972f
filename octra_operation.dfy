/** The OCTRA tool operation (src/app/obj/operations/octra-operation.ts): the step where the
    transcript is corrected in the OCTRA editor. It makes no request of its own; it waits in
    READY and composes the URL that loads the audio and the transcript into the editor. */
module OctraOperations {
  import opened Wrappers
  import opened TaskStates
  import opened Strings
  import opened Protocols
  import opened FileInfos
  import opened Tasks
  import opened Providers
  import opened Uri

  /** start: the protocol and its parsed records are cleared, the operation list is kept and
      the operation waits for the user in READY. */
  method Start(op: Operation, operations: seq<Operation>)
    modifies op, op.task
    ensures op.protocol == [] && op.parsedProtocol == []
    ensures op.operations == Some(operations) && op.state == READY
    ensures op.stateEvents == old(op.stateEvents) + Emitted(op.id, old(op.state), READY)
    ensures op.results == old(op.results) && op.enabled == old(op.enabled) && op.time == old(op.time)
    ensures op.task != null ==>
      op.task.state == old(op.task.state) && op.task.operations == old(op.task.operations)
  {
    op.UpdateProtocol("");
    op.operations := Some(operations);
    var thrown := op.ChangeState(READY);
  }

  /** clone: a new OCTRA operation with the same name, commands, title, short title and state,
      on the given task or else on this one, and a fresh id from the counter. */
  method Clone(op: Operation, task: Task?, counter: Counter) returns (c: Operation)
    requires op.state == FINISHED ==> task != null || op.task != null
    modifies counter, if task == null then op.task else task
    ensures fresh(c) && c.kind == OCTRA && c.name == op.name && c.commands == op.commands
    ensures c.title == op.title && c.shortTitle == op.shortTitle && c.state == op.state
    ensures c.task == if task == null then op.task else task
    ensures c.id == old(counter.value) + 1 && counter.value == c.id
    ensures c.results == [] && c.protocol == [] && c.enabled && c.operations.None?
  {
    var selected := if task == null then op.task else task;
    c := new Operation(OCTRA, op.name, op.icon, op.commands, Some(op.title), op.shortTitle, selected,
                       Some(op.state), None, counter);
  }

  /** The state fromAny leaves: an operation saved while PROCESSING cannot still be in the
      editor, so it is FINISHED when it has results and READY otherwise. */
  function RepairedState(saved: TaskState, resultCount: nat): (s: TaskState)
    ensures s != PROCESSING
    ensures saved != PROCESSING ==> s == saved
  {
    if saved != PROCESSING then saved
    else if resultCount > 0 then FINISHED
    else READY
  }

  /** The repair is settled: applying it again changes nothing, and it only finishes an
      operation that has results. */
  lemma RepairSettled(saved: TaskState, resultCount: nat)
    ensures RepairedState(RepairedState(saved, resultCount), resultCount) == RepairedState(saved, resultCount)
    ensures RepairedState(saved, resultCount) == FINISHED ==> saved == FINISHED || resultCount > 0
    ensures RepairedState(saved, resultCount) == READY ==> saved == READY || resultCount == 0
  {
  }

  /** The results loop of fromAny: `FileInfo.fromAny` for each record, in order; the first record
      that names no file throws. */
  method RestoreFiles(rs: seq<FileRecord>) returns (r: Result<seq<FileInfo>>)
    ensures r.Success? <==> Restorable(rs)
    ensures r.Success? ==> AllRestored(rs, r.value) && forall k :: 0 <= k < |rs| ==> fresh(r.value[k])
  {
    var files: seq<FileInfo> := [];
    for k := 0 to |rs|
      invariant |files| == k
      invariant Restorable(rs[..k]) && AllRestored(rs[..k], files)
      invariant forall j :: 0 <= j < k ==> fresh(files[j])
    {
      var next := RestoreNext(rs, k, files);
      if next.Failure? {
        return Failure(next.error);
      }
      ghost var before := files;
      files := files + [next.value];
      forall j | 0 <= j < k + 1
        ensures fresh(files[j])
      {
        if j < k {
          assert files[j] == before[j];
        }
      }
    }
    assert rs[..|rs|] == rs;
    return Success(files);
  }

  /** One turn of that loop: the record at `k` restored, or the throw. */
  method RestoreNext(rs: seq<FileRecord>, k: nat, files: seq<FileInfo>) returns (r: Result<FileInfo>)
    requires k < |rs| && |files| == k && Restorable(rs[..k]) && AllRestored(rs[..k], files)
    ensures r.Failure? <==> !NamesFile(rs[k])
    ensures r.Failure? ==> !Restorable(rs)
    ensures r.Success? ==> fresh(r.value) && Restorable(rs[..k + 1]) && AllRestored(rs[..k + 1], files + [r.value])
  {
    r := RestoreFile(rs[k]);
    RestorableStep(rs, k);
    if r.Success? {
      RestoredStep(rs, k, files, r.value);
    }
  }

  /** One record of that loop, restored by `FileInfo.fromAny`. */
  method RestoreFile(o: FileRecord) returns (r: Result<FileInfo>)
    ensures r.Success? <==> NamesFile(o)
    ensures r.Success? ==> fresh(r.value) && ResultRestored(o, r.value)
  {
    r := FileInfos.FromAny(o);
  }

  /** fromAny: a new OCTRA operation with the record's name, state and id and the given commands,
      taking title and short title from `template`; then the results, the state repair, time,
      protocol (parsed), the task's operation list and the enabled flag. */
  method FromAny(o: OperationRecord, template: Operation, commands: seq<string>, task: Task, counter: Counter)
    returns (r: Result<Operation>)
    modifies counter, task
    ensures r.Success? <==> Restorable(o.results)
    ensures r.Success? ==>
      var op := r.value;
      fresh(op) && op.kind == OCTRA && op.id == o.id && op.name == o.name && op.commands == commands
      && op.title == template.title && op.shortTitle == template.shortTitle && op.task == task
      && AllRestored(o.results, op.results) && op.state == RepairedState(o.state, |o.results|)
      && op.time == o.time && op.protocol == o.protocol && op.parsedProtocol == ParseProtocol(o.protocol)
      && op.operations == Some(task.operations) && op.enabled == o.enabled
    ensures counter.value == old(counter.value) && task.operations == old(task.operations)
  {
    var op := new Operation(OCTRA, o.name, template.icon, commands, Some(template.title), template.shortTitle,
                            task, Some(o.state), Some(o.id), counter);
    var files := RestoreFiles(o.results);
    if files.Failure? {
      return Failure(files.error);
    }
    RestoreTail(op, o, files.value, task);
    return Success(op);
  }

  /** The rest of fromAny once the results are restored: the results, the state repair, then
      the remaining fields. The results are files no operation or task owns, so they keep what
      was restored into them. */
  method RestoreTail(op: Operation, o: OperationRecord, files: seq<FileInfo>, task: Task)
    requires op.task == task && op.state == o.state && AllRestored(o.results, files)
    modifies op, task
    ensures op.results == files && op.state == RepairedState(o.state, |o.results|) && op.task == task
    ensures op.time == o.time && op.protocol == o.protocol && op.parsedProtocol == ParseProtocol(o.protocol)
    ensures op.operations == Some(task.operations) && op.enabled == o.enabled
    ensures task.operations == old(task.operations)
  {
    op.results := files;
    if op.state == PROCESSING {
      var thrown := op.ChangeState(if |op.results| > 0 then FINISHED else READY);
    }
    RestoreRest(op, o, task);
  }

  /** The fields fromAny copies after the state repair. */
  method RestoreRest(op: Operation, o: OperationRecord, task: Task)
    modifies op
    ensures op.time == o.time && op.protocol == o.protocol && op.parsedProtocol == ParseProtocol(o.protocol)
    ensures op.operations == Some(task.operations) && op.enabled == o.enabled
    ensures op.state == old(op.state) && op.results == old(op.results)
  {
    op.time := o.time;
    op.UpdateProtocol(o.protocol);
    op.operations := Some(task.operations);
    op.enabled := o.enabled;
  }

  // ---------------------------------------------------------------------------
  // The tool URL

  /** `${commands[0]}` in a template literal: the first command, or `undefined`. */
  function FirstCommand(commands: seq<string>): string {
    if |commands| > 0 then commands[0] else "undefined"
  }

  /** The editor URL: the audio, the transcript when there is one (left empty otherwise, which
      gives '&&'), the encoded language host, and `embedded=1`. */
  function ToolLink(command: string, audio: string, transcript: Option<string>, host: string): (r: string)
    ensures IsPrefix(command + "/user/load?audio=", r)
  {
    command + "/user/load?audio=" + (EncodeURIComponent(audio) + ("&" + (TranscriptParam(transcript) + ("&" + HostParam(host)))))
  }

  function TranscriptParam(transcript: Option<string>): string {
    if transcript.Some? then "transcript=" + EncodeURIComponent(transcript.value) else ""
  }

  function HostParam(host: string): string {
    "host=" + EncodeURIComponent(host) + "&embedded=1"
  }

  /** An encoded query value is read back, up to the '&' after it, as the text it encodes. */
  lemma EncodedValueReads(pre: string, v: string, rest: string)
    ensures var s := pre + (EncodeURIComponent(v) + ("&" + rest));
      UpTo(s[|pre|..], '&') == EncodeURIComponent(v) && Decode(UpTo(s[|pre|..], '&')) == Some(v)
  {
    var e := EncodeURIComponent(v);
    ComponentHasNoDelimiters(v);
    DropPrefix(pre, e + ("&" + rest));
    UpToDelimited(e, '&', rest);
    DecodeEncode(Component, v);
  }

  /** The audio parameter comes first and decodes to the audio URL. */
  lemma ToolLinkAudio(command: string, audio: string, transcript: Option<string>, host: string)
    ensures var link := ToolLink(command, audio, transcript, host);
      var key := command + "/user/load?audio=";
      IsPrefix(key, link) && Decode(UpTo(link[|key|..], '&')) == Some(audio)
  {
    EncodedValueReads(command + "/user/load?audio=", audio, TranscriptParam(transcript) + ("&" + HostParam(host)));
  }

  /** The editor URL cut after the audio parameter's '&'. */
  lemma ToolLinkAfterAudio(command: string, audio: string, transcript: Option<string>, host: string)
    ensures ToolLink(command, audio, transcript, host)
      == (command + "/user/load?audio=" + EncodeURIComponent(audio) + "&") + (TranscriptParam(transcript) + ("&" + HostParam(host)))
  {
    Regroup3(command + "/user/load?audio=", EncodeURIComponent(audio), "&", TranscriptParam(transcript) + ("&" + HostParam(host)));
  }

  /** Two text pieces, one ending and the other starting with '&', join into '&&'. */
  lemma JoinedAmpersands(pre: string, rest: string)
    requires pre != [] && pre[|pre| - 1] == '&' && rest != [] && rest[0] == '&'
    ensures OccursAt(pre + rest, "&&", |pre| - 1)
  {
    var s := pre + rest;
    assert s[|pre| - 1] == '&' && s[|pre|] == '&';
    assert s[|pre| - 1..|pre| + 1] == "&&";
  }

  /** After the audio parameter comes the transcript parameter, which decodes to the transcript
      URL, or, with no transcript, nothing at all: the URL then has '&&'. */
  lemma ToolLinkTranscript(command: string, audio: string, transcript: Option<string>, host: string)
    ensures var link := ToolLink(command, audio, transcript, host);
      var pre := command + "/user/load?audio=" + EncodeURIComponent(audio) + "&";
      IsPrefix(pre, link)
      && (transcript.None? ==> OccursAt(link, "&&", |pre| - 1))
      && (transcript.Some? ==>
            IsPrefix(pre + "transcript=", link)
            && Decode(UpTo(link[|pre + "transcript="|..], '&')) == Some(transcript.value))
  {
    var pre := command + "/user/load?audio=" + EncodeURIComponent(audio) + "&";
    var rest := TranscriptParam(transcript) + ("&" + HostParam(host));
    ToolLinkAfterAudio(command, audio, transcript, host);
    DropPrefix(pre, rest);
    if transcript.Some? {
      Regroup3(pre, "transcript=", EncodeURIComponent(transcript.value), "&" + HostParam(host));
      EncodedValueReads(pre + "transcript=", transcript.value, HostParam(host));
    } else {
      JoinedAmpersands(pre, rest);
    }
  }

  /** The operation before this one in its task's list (`previousOperation`, once a task is
      present). */
  function Previous(op: Operation): (p: Operation?)
    reads op.task
    ensures op.task == null ==> p == null
    ensures p != null ==> op.task != null && p in op.task.operations
  {
    if op.task == null then null else op.PreviousOperation()
  }

  /** What the transcript choice reads: this operation and its task, the previous operation
      and its task, and the one before that. */
  function ChoiceFrame(op: Operation): set<object>
    reads op.task, if Previous(op) == null then null else Previous(op).task
  {
    var p := Previous(op);
    {op} + (if op.task == null then {} else {op.task})
    + (if p == null then {} else {p} + (if p.task == null then {} else {p.task}))
    + (if p == null || Previous(p) == null then {} else {Previous(p)})
  }

  /** The transcript getToolURL chooses, or the TypeError it meets on the way: its own last
      result; else the previous operation's last result; else the last result two steps back
      when that operation has more than one; else none. A missing task or previous operation
      throws. */
  function ChooseTranscript(op: Operation): (t: Result<Option<FileInfo>>)
    reads ChoiceFrame(op)
    ensures op.results != [] ==> t == Success(Some(op.results[|op.results| - 1]))
    ensures op.results == [] && Previous(op) == null ==> t.Failure?
    ensures op.results == [] && Previous(op) != null && Previous(op).results != [] ==>
      t == Success(Some(Previous(op).results[|Previous(op).results| - 1]))
    ensures t == Success(None) ==>
      op.results == [] && Previous(op) != null && Previous(op).results == []
      && Previous(Previous(op)) != null && |Previous(Previous(op)).results| <= 1
  {
    if |op.results| >= 1 then Success(op.LastResult())
    else if op.task == null then Failure("Cannot read properties of undefined (reading 'operations')")
    else
      var p := op.PreviousOperation();
      if p == null then Failure("Cannot read properties of null (reading 'results')")
      else if |p.results| > 0 then Success(p.LastResult())
      else if p.task == null then Failure("Cannot read properties of undefined (reading 'operations')")
      else
        var pp := p.PreviousOperation();
        if pp == null then Failure("Cannot read properties of null (reading 'results')")
        else if |pp.results| > 1 then Success(pp.LastResult())
        else Success(None)
  }

  /** A transcript file as its URL text. */
  function TranscriptText(t: Option<FileInfo>): Option<string>
    reads if t.Some? then {t.value} else {}
  {
    if t.Some? then Some(UrlText(t.value)) else None
  }

  /** getToolURL. `wavFile` is what the first operation's `wavFile` getter gives (the upload
      operation is not part of this model) and `lang` the language entry found for the task.
      The URL is '' while the operation list is unset, without a wav file, or without a language
      entry; an empty operation list or a missing task throws. */
  method ToolURL(op: Operation, wavFile: Option<FileInfo>, lang: Option<Language>) returns (r: Result<string>)
    ensures op.operations.None? ==> r == Success("")
    ensures op.operations == Some([]) ==> r.Failure?
    ensures op.operations.Some? && op.operations.value != [] ==>
      if wavFile.None? then r == Success("")
      else if op.task == null then r.Failure?
      else if lang.None? then r == Success("")
      else
        var t := ChooseTranscript(op);
        (r.Success? <==> t.Success?)
        && (r.Success? ==>
              r.value == ToolLink(FirstCommand(op.commands), UrlText(wavFile.value), TranscriptText(t.value), lang.value.host))
  {
    if op.operations.None? {
      return Success("");
    }
    if op.operations.value == [] {
      return Failure("Cannot read properties of undefined (reading 'wavFile')");
    }
    if wavFile.None? {
      return Success("");
    }
    if op.task == null {
      return Failure("Cannot read properties of undefined (reading 'language')");
    }
    if lang.None? {
      return Success("");
    }
    var t := ChooseTranscript(op);
    if t.Failure? {
      return Failure(t.error);
    }
    var text := TranscriptText(t.value);
    r := Success(ToolLink(FirstCommand(op.commands), UrlText(wavFile.value), text, lang.value.host));
  }
}

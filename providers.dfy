/** What the processing operations share: the language entry they look up, the reply of a
    web service (`WebServiceResponseLink`, once decoded), the protocol a reply leaves, the
    reply callback of the ASR and G2P/MAUS operations, and restoring results from records. */
module Providers {
  import opened Wrappers
  import opened TaskStates
  import opened FileInfos
  import opened Tasks

  /** A language entry of the app configuration (`getLanguageByCode`). */
  datatype Language = Language(code: string, host: string, asr: string, mausLanguage: Option<string>)

  /** A decoded reply, or the error the request ended with. */
  datatype Reply =
    | Response(success: string, warnings: string, output: string, downloadLink: string)
    | TransportError(message: string)

  /** `json.success === 'true'` */
  predicate Succeeded(r: Reply) {
    r.Response? && r.success == "true"
  }

  /** The protocol a reply leaves: a response's warnings if there are any, else its output if
      there is any, else the protocol as it was; an error's message. */
  function ProtocolAfter(protocol: string, r: Reply): string {
    match r
    case TransportError(m) => m
    case Response(_, w, o, _) => if w != [] then w else if o != [] then o else protocol
  }

  /** Warnings take precedence over output, and the old protocol survives only a response that
      has neither. */
  lemma ProtocolPrecedence(protocol: string, r: Reply)
    requires r.Response?
    ensures r.warnings != [] ==> ProtocolAfter(protocol, r) == r.warnings
    ensures r.warnings == [] && r.output != [] ==> ProtocolAfter(protocol, r) == r.output
    ensures ProtocolAfter(protocol, r) == protocol <==>
      if r.warnings != [] then r.warnings == protocol else r.output == [] || r.output == protocol
  {
  }

  /** Handling the same reply twice leaves the protocol the first handling left. */
  lemma ProtocolAfterIdempotent(protocol: string, r: Reply)
    ensures ProtocolAfter(ProtocolAfter(protocol, r), r) == ProtocolAfter(protocol, r)
  {
  }

  /** The message of the TypeError raised when a property is read from `undefined` (a missing
      operation, result or input). */
  function TypeErrorMessage(property: string): string {
    "Cannot read properties of undefined (reading '" + property + "')"
  }

  /** A file's URL as a template literal prints it (`undefined` when unset). */
  function UrlText(f: FileInfo): string
    reads f
  {
    f.url.GetOr("undefined")
  }

  /** The URLs of the inputs, in order. */
  function Urls(fs: seq<FileInfo>): (us: seq<string>)
    reads set f | f in fs
    ensures |us| == |fs| && forall k :: 0 <= k < |fs| ==> us[k] == UrlText(fs[k])
  {
    seq(|fs|, k reads set f | f in fs requires 0 <= k < |fs| => UrlText(fs[k]))
  }

  /** `FileInfo.fromURL(link, name)` yields a file: the name it builds has an extension. */
  predicate Downloadable(link: string, name: string) {
    var x := ExtractFileName(Some(FullnameFromURL(link, Some(name))));
    x.Success? && x.value.Some?
  }

  /** The state a handled reply leaves: FINISHED on success, ERROR otherwise. */
  function StateAfter(r: Reply): TaskState {
    if Succeeded(r) then FINISHED else ERROR
  }

  /** The reply callback of the ASR and G2P/MAUS operations. A response is time-stamped
      (`stamped`), its warnings or output become the protocol, and on success the downloaded
      result is appended and the operation finishes; otherwise it fails. An error sets the
      protocol to its message and fails. `thrown` is the Error `FileInfo.fromURL` throws when the
      download link gives no file name: the callback stops there, before any state change. */
  method HandleReply(op: Operation, r: Reply, inputName: string, stamped: Timing) returns (thrown: bool)
    requires op.task != null
    modifies op, op.task
    ensures op.time == if r.Response? then stamped else old(op.time)
    ensures op.protocol == ProtocolAfter(old(op.protocol), r)
    ensures thrown <==> Succeeded(r) && !Downloadable(r.downloadLink, inputName)
    ensures op.state == if thrown then old(op.state) else StateAfter(r)
    ensures op.stateEvents == old(op.stateEvents) + Emitted(op.id, old(op.state), op.state)
    ensures !Succeeded(r) || thrown ==> op.results == old(op.results)
    ensures Succeeded(r) && !thrown ==>
      var n := |old(op.results)|;
      var parts := ExtractFileName(Some(FullnameFromURL(r.downloadLink, Some(inputName)))).value.value;
      |op.results| == n + 1 && op.results[..n] == old(op.results) && fresh(op.results[n])
      && op.results[n].url == Some(r.downloadLink) && op.results[n].size == 0
      && op.results[n].name == parts.name && op.results[n].extension == parts.extension
    ensures op.task.state == if op.state == FINISHED && !thrown && op.FinishesTask() then FINISHED else old(op.task.state)
    ensures op.task.files == old(op.task.files) && op.task.operations == old(op.task.operations)
    ensures op.enabled == old(op.enabled) && op.parsedProtocol == old(op.parsedProtocol)
    ensures op.webService == old(op.webService) && op.operations == old(op.operations)
  {
    thrown := false;
    if r.TransportError? {
      op.protocol := r.message;
      thrown := op.ChangeState(ERROR);
      return;
    }
    op.time := stamped;
    if r.warnings != [] {
      op.protocol := r.warnings;
    } else if r.output != [] {
      op.protocol := r.output;
    }
    if r.success == "true" {
      var appended := AppendDownload(op, r.downloadLink, inputName);
      if !appended {
        return true;
      }
      thrown := op.ChangeState(FINISHED);
    } else {
      thrown := op.ChangeState(ERROR);
    }
  }

  /** `results.push(FileInfo.fromURL(link, name))`; nothing is appended when fromURL throws. */
  method AppendDownload(op: Operation, link: string, name: string) returns (appended: bool)
    modifies op
    ensures appended <==> Downloadable(link, name)
    ensures !appended ==> op.results == old(op.results)
    ensures appended ==>
      var n := |old(op.results)|;
      var parts := ExtractFileName(Some(FullnameFromURL(link, Some(name)))).value.value;
      |op.results| == n + 1 && op.results[..n] == old(op.results) && fresh(op.results[n])
      && op.results[n].url == Some(link) && op.results[n].size == 0
      && op.results[n].name == parts.name && op.results[n].extension == parts.extension
    ensures op.state == old(op.state) && op.stateEvents == old(op.stateEvents)
    ensures op.time == old(op.time) && op.protocol == old(op.protocol)
    ensures op.enabled == old(op.enabled) && op.parsedProtocol == old(op.parsedProtocol)
    ensures op.webService == old(op.webService) && op.operations == old(op.operations)
  {
    var file := FromURL(link, Some(name), [], 0);
    if file.Failure? {
      return false;
    }
    op.results := op.results + [file.value];
    return true;
  }

  /** A result record is restored into a file with its extracted name, type, size and URL. */
  predicate ResultRestored(o: FileRecord, f: FileInfo)
    reads f
  {
    ExtractFileName(o.fullname) == Success(Some(NameParts(f.name, f.extension)))
    && f.mimeType == o.mimeType && f.size == o.size && f.url == o.url
  }

  /** The record names a file (the FileInfo constructor throws otherwise). */
  predicate NamesFile(o: FileRecord) {
    ExtractFileName(o.fullname).Success? && ExtractFileName(o.fullname).value.Some?
  }

  /** Every result record names a file. */
  predicate Restorable(rs: seq<FileRecord>) {
    forall k :: 0 <= k < |rs| ==> NamesFile(rs[k])
  }

  /** Each result record is restored into the file at the same position. */
  predicate AllRestored(rs: seq<FileRecord>, fs: seq<FileInfo>)
    reads set f | f in fs
  {
    |rs| == |fs| && forall k :: 0 <= k < |rs| ==> ResultRestored(rs[k], fs[k])
  }

  /** The results loop of the ASR and G2P/MAUS fromAny: `new FileInfo(fullname, type, size)`,
      then its URL; the first record that names no file throws. */
  method RestoreResults(rs: seq<FileRecord>) returns (r: Result<seq<FileInfo>>)
    ensures r.Success? <==> Restorable(rs)
    ensures r.Success? ==> AllRestored(rs, r.value) && forall k :: 0 <= k < |rs| ==> fresh(r.value[k])
  {
    var files: seq<FileInfo> := [];
    for k := 0 to |rs|
      invariant |files| == k && forall j :: 0 <= j < k ==> fresh(files[j])
      invariant Restorable(rs[..k]) && AllRestored(rs[..k], files)
    {
      var f := RestoreResult(rs[k]);
      if f.Failure? {
        RestorableStep(rs, k);
        return Failure(f.error);
      }
      RestorableStep(rs, k);
      RestoredStep(rs, k, files, f.value);
      files := files + [f.value];
    }
    assert rs[..|rs|] == rs;
    return Success(files);
  }

  lemma RestorableStep(rs: seq<FileRecord>, k: nat)
    requires k < |rs| && Restorable(rs[..k])
    ensures Restorable(rs[..k + 1]) <==> NamesFile(rs[k])
    ensures !NamesFile(rs[k]) ==> !Restorable(rs)
  {
    var next := rs[..k + 1];
    assert next[k] == rs[k];
    if NamesFile(rs[k]) {
      forall j | 0 <= j < k + 1
        ensures NamesFile(next[j])
      {
        if j < k {
          assert next[j] == rs[..k][j];
        }
      }
    }
  }

  lemma RestoredStep(rs: seq<FileRecord>, k: nat, files: seq<FileInfo>, f: FileInfo)
    requires k < |rs| && AllRestored(rs[..k], files) && ResultRestored(rs[k], f)
    ensures AllRestored(rs[..k + 1], files + [f])
  {
    assert rs[..k + 1] == rs[..k] + [rs[k]];
    RestoredAppend(rs[..k], files, rs[k], f);
  }

  /** One more record restored into one more file. */
  lemma RestoredAppend(rs: seq<FileRecord>, files: seq<FileInfo>, r: FileRecord, f: FileInfo)
    requires AllRestored(rs, files) && ResultRestored(r, f)
    ensures AllRestored(rs + [r], files + [f])
  {
    forall j | 0 <= j < |rs| + 1
      ensures ResultRestored((rs + [r])[j], (files + [f])[j])
    {
      if j < |rs| {
        assert (rs + [r])[j] == rs[j] && (files + [f])[j] == files[j];
      }
    }
  }

  /** One record of the results loop. */
  method RestoreResult(o: FileRecord) returns (r: Result<FileInfo>)
    ensures r.Success? <==> NamesFile(o)
    ensures r.Success? ==> fresh(r.value) && ResultRestored(o, r.value)
  {
    r := NewFileInfo(o.fullname, o.mimeType, o.size, None, None);
    if r.Success? {
      r.value.SetUrl(o.url);
    }
  }

  /** The files a record restores are those the record was written from, when their names
      are as the constructor makes them. */
  lemma RecordsRestore(fs: seq<FileInfo>)
    requires forall k :: 0 <= k < |fs| ==> WellFormedParts(NameParts(fs[k].name, fs[k].extension))
    ensures Restorable(ResultRecords(fs)) && AllRestored(ResultRecords(fs), fs)
  {
    forall k | 0 <= k < |fs|
      ensures ResultRestored(ResultRecords(fs)[k], fs[k])
    {
      RecordNameRoundTrip(fs[k]);
    }
  }

  /** What fromAny restores an operation from the record of: id, name, state, protocol, time,
      enabled flag, and the results with their names, types, sizes and URLs. */
  predicate RestoresFields(o: OperationRecord, op: Operation)
    reads op, set f | f in op.results
  {
    op.id == o.id && op.name == o.name && op.state == o.state && op.protocol == o.protocol
    && op.time == o.time && op.enabled == o.enabled && AllRestored(o.results, op.results)
  }

  /** The record toAny writes restores every field it has, provided the results' names are as
      the FileInfo constructor makes them. */
  lemma RecordOfRestores(op: Operation, webService: string)
    requires forall k :: 0 <= k < |op.results| ==> WellFormedParts(NameParts(op.results[k].name, op.results[k].extension))
    ensures Restorable(RecordOf(op, webService).results) && RestoresFields(RecordOf(op, webService), op)
  {
    RecordsRestore(op.results);
  }
}

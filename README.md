# oh-portal pipeline bookkeeping, modelled in Dafny

The oh-portal is a browser application. A user drops audio and transcript files into it, and they
become tasks. Each task runs through a fixed pipeline of operations: Upload, ASR (speech
recognition), OCTRA (manual transcription), G2P/MAUS (word alignment) and the Emu WebApp. The web
services do the real work. What the browser side does is bookkeeping, and this project models that
bookkeeping:

- **Task lists and services.** The task list holds tasks and task directories. The task service
  counts tasks per state. It picks the next task to start under a cap of running tasks. It merges
  transcripts that arrive after their audio, and it restores the id counters from stored data.
- **Operations.** An operation's state changes are emitted as events. Its protocol text is parsed
  into warning and error lines. Its results are stored as file records and restored from them.
- **Reply handling.** Each web-service operation builds a request URL and handles the reply. A
  reply sets the protocol and the state, and a success adds a download.
- **Tool links.** The OCTRA and Emu tool links carry percent-encoded values that read back as what
  was put in.
- **File names.** File names are split into name and extension, and unsafe characters in them are
  escaped.
- **Input filtering.** Dropped inputs are filtered down to the files the portal accepts.
- **Components.** The proceedings table handles selection, deletion, the mail link and popover
  colours. The queue modal handles the enabled flags of queued tasks and their languages.
- **Legacy copies.** The older service under `src/app/shared` and its operations are modelled
  next to the current ones.

Each TypeScript class whose fields are updated in place becomes a Dafny `class` with those fields:
`FileInfo`, `Operation`, `TaskList`, `TaskService`, `LegacyTaskService`, `BugReportService`,
`QueueModal` and `Proceedings`. Each loop becomes a method proved against a function on sequences.
Lemmas then prove the properties of those functions.

The modules follow the source's files:

| module(s) | models |
|---|---|
| `Tasks` | `operation.ts` |
| `TaskLists` | `TaksList.ts` |
| `FileInfos` | `fileInfo.ts` |
| `Protocols` | the protocol parser of `operation.ts` |
| `Providers` | what the ASR and G2P/MAUS operations share |
| `AsrOperations`, `G2pMausOperations`, `OctraOperations` | the operations under `src/app/obj` |
| `LegacyG2pMausOperations`, `LegacyOctraOperations`, `LegacyMausOperations` | the operations under `src/app/shared/tasks/obj` |
| `InputFilters` | `cleanUpInputArray` |
| `TaskServices` | `src/app/obj/tasks/task.service.ts` |
| `LegacyTaskServices` | `src/app/shared/task.service.ts` |
| `BugReports` | `bug-report.service.ts` |
| `QueueModals` | `queue-modal.component.ts` |
| `ProceedingsTable` | `proceedings.component.ts` |

The helper modules are:

- `Uri`: JavaScript's `encodeURIComponent` and `encodeURI`, with the decoder they round-trip with.
- `Strings`: `lastIndexOf`, `indexOf`, `replace` and number formatting.
- `EnableFlags`: the enabled-flag copy loop that two components share.

## Model

| member | source | states |
|---|---|---|
| Tasks.Counter.Next | src/app/obj/operations/operation.ts:124-125 | a new operation takes the next id: the counter goes up by one and the id is the new counter value |
| Tasks.Emitted | src/app/obj/operations/operation.ts:262-268 | a state change emits at most one event, none exactly when the state does not change, and the event carries the operation's id with its old and new state |
| Tasks.RemoveFirstById | src/app/obj/tasks/TaksList.ts:184-185 | removing a task from a directory drops one entry when some task has the id, changes nothing otherwise, and introduces no task |
| Tasks.FindIndexById | src/app/obj/operations/operation.ts:91-96 | the index found is the first operation with the id, and -1 exactly when no operation has it |
| Tasks.NextAt | src/app/obj/operations/operation.ts:105-120 | the next operation of the one at index i is the one at i+1, or null after the last one |
| Tasks.PreviousAt | src/app/obj/operations/operation.ts:90-103 | the previous operation of the one at index i is the one at i-1, or null for the first one |
| Tasks.NextOfAbsent | src/app/obj/operations/operation.ts:105-120 | an operation missing from its task's list has as next operation the first one of the list (`findIndex` gives -1, and -1+1 = 0), and no previous one |
| Tasks.PreviousOfNext | src/app/obj/operations/operation.ts:90-120 | next and previous are inverse: the previous operation of the next one is the operation itself |
| Tasks.Operation.constructor | src/app/obj/operations/operation.ts:122-146 | an explicit id is kept and the counter is left alone; otherwise the counter is bumped and gives the id. The state defaults to PENDING, and the constructor's changeState emits an event only for a non-PENDING state. A FINISHED operation with no enabled, unskipped successor finishes its task |
| Tasks.Operation.LastResult | src/app/obj/operations/operation.ts:78-83 | there is no last result exactly when there are no results; otherwise it is the last element of the results |
| Tasks.Operation.NextOperation | src/app/obj/operations/operation.ts:105-120 | an operation without a task has no next operation, and a next operation belongs to the same task |
| Tasks.Operation.PreviousOperation | src/app/obj/operations/operation.ts:90-103 | a previous operation belongs to the same task |
| Tasks.Operation.ChangeState | src/app/obj/operations/operation.ts:258-283 | sets the state and appends the event for the change. It throws exactly when a FINISHED state has no task to report to. Reaching FINISHED finishes the task when no enabled, unskipped operation follows. Nothing else of the operation or task changes |
| Tasks.Task.ChangeState | src/app/obj/operations/operation.ts:281 | the task's state becomes the given one, and its files, operations, directory, language and ASR provider stay |
| Tasks.Operation.SetEnabled | src/app/obj/operations/operation.ts:33-36 | sets the flag and changes nothing else |
| Tasks.Operation.ParseProtocolText | src/app/obj/operations/operation.ts:336-357 | the parse of the protocol text is `Protocols.ParseProtocol`, whose lemmas state what it keeps |
| Tasks.Operation.UpdateProtocol | src/app/obj/operations/operation.ts:331-334 | stores the text together with its parse, and changes nothing else |
| Tasks.ResultRecords | src/app/obj/operations/operation.ts:312-324 | one file record per result, in order |
| Tasks.RecordOf | src/app/obj/operations/operation.ts:298-329 | the stored record carries the operation's id, name, state, protocol, time, enabled flag and one record per result |
| Tasks.ToAny | src/app/obj/operations/operation.ts:298-329 | the base `toAny` stores an empty web-service name and the records of the results |
| Protocols.FirstTerminator | src/app/obj/operations/operation.ts:342 | finds the first line terminator, with -1 exactly when there is none |
| Protocols.SplitLines | src/app/obj/operations/operation.ts:342 | splitting at line terminators yields at least one piece, and no piece holds a terminator |
| Protocols.MatchFrom | src/app/obj/operations/operation.ts:342-353 | a matched line yields a non-empty message without a line terminator |
| Protocols.Collect | src/app/obj/operations/operation.ts:342-355 | at most one record per line, each with a non-empty single-line message |
| Protocols.ParseProtocol | src/app/obj/operations/operation.ts:336-357 | an empty protocol parses to nothing. Otherwise there is at most one record per line after `<br/>` becomes a newline, and every message is non-empty and single-line |
| Protocols.ParseProtocolPerLine | src/app/obj/operations/operation.ts:342-355 | parsing yields at most one record per line, once `<br/>` counts as a line break |
| Protocols.RenderLineParses | src/app/obj/operations/operation.ts:342-353 | a rendered `WARNING:`/`ERROR:` line is matched back to the same record |
| Protocols.RenderShape | src/app/obj/operations/operation.ts:342 | rendering records line by line splits back into exactly those lines |
| Protocols.RenderLinesOneLine | src/app/obj/operations/operation.ts:342 | each rendered line of writable records contains no line terminator, so the split cannot cut it |
| Protocols.CollectRendered | src/app/obj/operations/operation.ts:342-355 | collecting the rendered lines gives back the records |
| Protocols.NoBreakTag | src/app/obj/operations/operation.ts:341 | the `<br/>` replacement leaves text without `<` unchanged |
| Protocols.RenderFacts | src/app/obj/operations/operation.ts:336-357 | a rendered protocol is non-empty, untouched by the `<br/>` replacement, and its lines collect back to the records |
| Protocols.ParseRender | src/app/obj/operations/operation.ts:336-357 | round trip: parsing a protocol rendered from records gives back those records |
| Strings.LastIndexOf | src/app/obj/fileInfo.ts:38 | the index is the last occurrence of the character, and -1 exactly when it does not occur |
| Strings.IndexOf | src/app/obj/tasks/task.service.ts:418-429 | the index is the first occurrence of the substring, and -1 exactly when it does not occur |
| Strings.ReplaceAll | src/app/obj/operations/operation.ts:341 | text without the pattern is unchanged |
| Strings.NatToStringRoundTrip | src/app/obj/tasks/task.service.ts:110-111 | a count printed in decimal reads back as the same number |
| Strings.UpToDelimited | src/app/obj/operations/octra-operation.ts:142-146 | reading a URL parameter up to `&` gives back the value put there when the value has no `&` |
| FileInfos.StripPath | src/app/obj/fileInfo.ts:125-129 | the name keeps no `/`, and a name without one is unchanged |
| FileInfos.ExtractFileName | src/app/obj/fileInfo.ts:123-147 | nothing is extracted exactly for null and the empty name, and extracted parts are well formed: no `/`, and an extension that is a dot followed by no further dot |
| FileInfos.ExtractAbsent | src/app/obj/fileInfo.ts:123-146 | a missing or empty full name extracts to nothing rather than failing |
| FileInfos.ExtractFails | src/app/obj/fileInfo.ts:141-143 | extraction throws exactly when the file part has no dot |
| FileInfos.ExtractSplits | src/app/obj/fileInfo.ts:131-140 | a file part with a dot splits at its last dot: name plus extension is the file part, and the extension starts with the dot |
| FileInfos.SplitAtLastDot | src/app/obj/fileInfo.ts:131-140 | in a file part without a slash that has a dot, cutting at the last dot gives back the file part, and the pieces form a well-formed name and extension |
| FileInfos.ExtractJoin | src/app/obj/fileInfo.ts:131-140 | round trip: a well-formed name and extension, joined and extracted, come back unchanged |
| FileInfos.EscapeFileName | src/app/obj/fileInfo.ts:102-104 | same length, no unsafe character left, and every changed character was an unsafe one turned into `_` |
| FileInfos.EscapeIdempotent | src/app/obj/fileInfo.ts:102-104 | escaping twice is escaping once |
| FileInfos.EscapeKeepsSafe | src/app/obj/fileInfo.ts:102-104 | a name without unsafe characters is unchanged |
| FileInfos.SetterDropsDot | src/app/obj/fileInfo.ts:37-43 | the `fullname` setter drops the last dot, unlike the constructor, so the name it sets reads back one character shorter |
| FileInfos.SetterExample | src/app/obj/fileInfo.ts:37-43 | setting `a.wav` yields name `a` and extension `wav` without the dot |
| FileInfos.FullnameFromURL | src/app/obj/fileInfo.ts:88-95 | with a name, the full name is the name, a dot and the URL's extension. Without one, it is the URL's last path segment |
| FileInfos.FromURLExtension | src/app/obj/fileInfo.ts:88-95 | a named download extracts to that name with the URL's extension text |
| FileInfos.FileInfo.Make | src/app/obj/fileInfo.ts:7-18 | the new file info holds the extracted name and extension, the type, size and blob, is online without URL, and has creation time 0 unless one is given |
| FileInfos.FileInfo.Fullname | src/app/obj/fileInfo.ts:33-35 | the getter's full name of well-formed parts extracts back to those parts |
| FileInfos.FileInfo.Available | src/app/obj/fileInfo.ts:23-25 | a file with a blob is available, and an offline file is available exactly when it has a blob |
| FileInfos.FileInfo.SetFullname | src/app/obj/fileInfo.ts:37-43 | name and extension become the setter's split, and nothing else changes |
| FileInfos.FileInfo.SetFile | src/app/obj/fileInfo.ts:60-62 | the blob is set, and the file becomes available exactly when it is online or has a blob |
| FileInfos.FileInfo.SetUrl | src/app/obj/fileInfo.ts:70-72 | the URL is set and nothing else changes |
| FileInfos.FileInfo.SetOnline | src/app/obj/fileInfo.ts:80-82 | the flag is set, and availability follows it |
| FileInfos.NewFileInfo | src/app/obj/fileInfo.ts:7-18 | construction succeeds exactly when the full name extracts to a name and an extension, and the new object holds them and the other arguments |
| FileInfos.FromURL | src/app/obj/fileInfo.ts:88-100 | succeeds exactly when the derived full name extracts. The result has size 0, no blob, the given URL and the derived name |
| FileInfos.FromAny | src/app/obj/fileInfo.ts:149-159 | succeeds exactly when the stored full name extracts to a name. It restores name, extension, type, size, URL, creation time and the attributes' original file name, and non-empty content becomes the blob |
| FileInfos.ToRecord | src/app/obj/fileInfo.ts:202-212 | the record stores the full name, type, size, URL, creation time and the attributes' original file name, with no content |
| FileInfos.RecordNameRoundTrip | src/app/obj/fileInfo.ts:202-212 | the stored full name extracts back to the file's own name and extension |
| FileInfos.RecordRoundTrip | src/app/obj/fileInfo.ts:149-159 | round trip: a file restored from its stored record has the original's name, extension, type, size, URL, creation time and original file name, and no blob |
| Uri.Encode | src/app/obj/operations/octra-operation.ts:142-146 | every output character is unreserved or part of a `%XX` escape, and the output is no shorter than the input |
| Uri.EncodeURIComponent | src/app/obj/operations/octra-operation.ts:118-139 | `encodeURIComponent`: the reader decodes the encoded text back to the text |
| Uri.EncodeURI | src/app/components/proceedings/proceedings.component.ts:248 | `encodeURI`: the reader decodes the encoded text back to the text |
| Uri.Decode | src/app/components/proceedings/proceedings.component.ts:248-249 | the reader's `decodeURIComponent`, the encoders' partner: a decoded text is no longer than its encoding, and text without `%` decodes to itself. Malformed escapes, bytes that cannot start or continue a UTF-8 sequence, surrogates, values past U+10FFFF and overlong forms give None, where the JavaScript function throws URIError |
| Uri.EncodeKeepsKept | src/app/obj/operations/octra-operation.ts:142-146 | text made only of characters the encoder keeps is unchanged |
| Uri.DecodeEncode | src/app/components/proceedings/proceedings.component.ts:248-249 | round trip: decoding the encoding gives back the text |
| Uri.OverlongRejected | src/app/components/proceedings/proceedings.component.ts:248-249 | an overlong form is refused, as `decodeURIComponent('%C0%80')` throws: it writes U+0000 in two bytes |
| Uri.EncodeInjective | src/app/components/proceedings/proceedings.component.ts:248-249 | different texts encode differently |
| Uri.ComponentHasNoDelimiters | src/app/obj/operations/octra-operation.ts:118-146 | `encodeURIComponent` output holds none of `& = ? # /`, so a value cannot break the link's parameters |
| TaskLists.SnapshotOf | src/app/obj/tasks/TaksList.ts:15-28 | one slot per entry, holding a directory's children as they are |
| TaskLists.DirRows | src/app/obj/tasks/TaksList.ts:23 | a directory counts as one row followed by one row per child |
| TaskLists.LengthCountsRows | src/app/obj/tasks/TaksList.ts:15-28 | `length` is the number of rows of the flattened list |
| TaskLists.AllTasksFrom | src/app/obj/tasks/TaksList.ts:88-100 | every task returned comes from some entry |
| TaskLists.AllTasksAreTaskRows | src/app/obj/tasks/TaksList.ts:88-100 | a task is returned exactly when it is a task row of the flattened list |
| TaskLists.FirstIndexOfIdSpec | src/app/obj/tasks/TaksList.ts:102-130 | the index is the first row with the id, and -1 exactly when no row has it |
| TaskLists.IndexByEntry | src/app/obj/tasks/TaksList.ts:102-130 | the first row with the id when there is one, and length−1 when there is none |
| TaskLists.EntryByIndex | src/app/obj/tasks/TaksList.ts:132-159 | an entry exactly for an index on the rows, and it is one of the rows |
| TaskLists.EntryOfIndex | src/app/obj/tasks/TaksList.ts:102-159 | the entry at an entry's index has that entry's id. An absent id gives length−1, which lands on the last row (none for an empty list) |
| TaskLists.IndexOfEntry | src/app/obj/tasks/TaksList.ts:102-159 | with distinct ids, the index of the entry at index k is k |
| TaskLists.FirstInState | src/app/obj/tasks/TaksList.ts:58-66 | the first task in the state, and null exactly when no task is in it |
| TaskLists.FirstTaskWithId | src/app/obj/tasks/TaksList.ts:68-76 | the first task with the id, and null exactly when none has it |
| TaskLists.FindAfterAdd | src/app/obj/tasks/TaksList.ts:42-76 | a task added under a fresh id is found again by that id |
| TaskLists.DirsIn | src/app/obj/tasks/TaksList.ts:161-171 | exactly the top-level directories |
| TaskLists.FirstTop | src/app/obj/tasks/TaksList.ts:192-221 | the first top-level entry that is the one removed, and -1 exactly when there is none |
| TaskLists.RemoveTop | src/app/obj/tasks/TaksList.ts:192-221 | removal introduces no entry |
| TaskLists.RemoveTopGone | src/app/obj/tasks/TaksList.ts:192-221 | after removal no top-level entry is the removed one, and the list is one shorter exactly when it was there |
| TaskLists.TaskList.constructor | src/app/obj/tasks/TaksList.ts:12-14 | starts empty, with no events |
| TaskLists.TaskList.Length | src/app/obj/tasks/TaksList.ts:15-28 | the loop's count is the number of rows |
| TaskLists.TaskList.GetAllTasks | src/app/obj/tasks/TaksList.ts:88-100 | the loop returns the tasks of the flattened list, in order |
| TaskLists.TaskList.GetIndexByEntry | src/app/obj/tasks/TaksList.ts:102-130 | the loop returns the first row with the entry's id |
| TaskLists.TaskList.ScanIndex | src/app/obj/tasks/TaksList.ts:104-129 | the nested loop over entries and children computes the same index |
| TaskLists.TaskList.GetEntryByIndex | src/app/obj/tasks/TaksList.ts:132-159 | the loop returns the row at the index |
| TaskLists.TaskList.FindTaskByState | src/app/obj/tasks/TaksList.ts:58-66 | the loop returns the first task in the state |
| TaskLists.TaskList.FindEntryById | src/app/obj/tasks/TaksList.ts:68-76 | the loop returns the first task with the id |
| TaskLists.TaskList.GetAllTaskDirectories | src/app/obj/tasks/TaksList.ts:161-171 | the loop returns the top-level directories |
| TaskLists.TaskList.AddEntry | src/app/obj/tasks/TaksList.ts:42-56 | an entry is added, with its event, exactly when no task has its id. Otherwise the list and the events are unchanged |
| TaskLists.TaskList.RemoveTopLevel | src/app/obj/tasks/TaksList.ts:192-221 | the entry leaves the top level and a removal event is emitted |
| TaskLists.TaskList.CleanupDir | src/app/obj/tasks/TaksList.ts:227-251 | an empty directory is removed. A directory with one child is replaced by that child at the end of the list. A directory with more children stays |
| TaskLists.TaskList.Cleanup | src/app/obj/tasks/TaksList.ts:227-251 | cleanup acts only on directories |
| TaskLists.TaskList.RemoveEntry | src/app/obj/tasks/TaksList.ts:173-225 | a task inside a directory leaves the directory, which is then cleaned up. Any other entry leaves the top level with a removal event, and a missing entry changes nothing |
| Providers.ProtocolPrecedence | src/app/obj/tasks/asr-operation.ts:45-49 | warnings win over output, and the protocol stays as it was exactly when the reply carries neither or the same text |
| Providers.ProtocolAfterIdempotent | src/app/obj/tasks/g2p-maus-operation.ts:54-58 | handling the same reply twice leaves the protocol as handling it once |
| Providers.Urls | src/app/obj/tasks/g2p-maus-operation.ts:25-38 | one URL text per file, in order |
| Providers.HandleReply | src/app/obj/tasks/asr-operation.ts:36-62 | a reply stamps the time and sets the protocol. Success adds the download and finishes, failure or a transport error gives ERROR. A download link that does not name a file throws before the state changes |
| Providers.AppendDownload | src/app/obj/tasks/asr-operation.ts:51-52 | a download is appended exactly when its link names a file. The new result holds the link, size 0 and the derived name, and the earlier results stay |
| Providers.RestoreResults | src/app/obj/tasks/asr-operation.ts:77-82 | restoring succeeds exactly when every stored result names a file, and each restored file matches its record |
| Providers.RestoreResult | src/app/obj/tasks/asr-operation.ts:78-81 | one stored result is restored exactly when it names a file |
| Providers.RecordsRestore | src/app/obj/operations/operation.ts:312-324 | round trip: the records stored for a list of results restore to files matching them |
| Providers.RecordOfRestores | src/app/obj/operations/operation.ts:298-329 | round trip: an operation's stored record restores its fields and every result |
| AsrOperations.RequestText | src/app/obj/tasks/asr-operation.ts:25-29 | the request carries `TEXT=` exactly when a transcript is given, and always carries the signal |
| AsrOperations.RequestURL | src/app/obj/tasks/asr-operation.ts:25-29 | the request starts at the language's pipeline endpoint and ends with the BPF output format |
| AsrOperations.Start | src/app/obj/tasks/asr-operation.ts:17-35 | without a task or language nothing changes and the start fails. Otherwise the web service is named and the protocol cleared, and the state becomes PROCESSING with its event and the start time. A request is made exactly when there is an input |
| AsrOperations.OnReply | src/app/obj/tasks/asr-operation.ts:36-62 | the reply measures the duration, sets the protocol and finishes with the download or errs |
| AsrOperations.FromAny | src/app/obj/tasks/asr-operation.ts:75-88 | restoring succeeds exactly when every result names a file. It keeps the stored id, so the counter does not move, and it restores every field |
| AsrOperations.Fill | src/app/obj/tasks/asr-operation.ts:77-87 | with the results restored from their records, the time, protocol, enabled flag and web service written afterwards leave the whole operation restored from its record |
| AsrOperations.ToAny | src/app/obj/tasks/asr-operation.ts:90-109 | corrected: the record keeps the operation's fields and the awaited record of every result |
| AsrOperations.ToAnyAsWritten | src/app/obj/tasks/asr-operation.ts:101-106 | as written: one entry per result, and every entry is a pending Promise with no file properties |
| AsrOperations.ToAnyAsWrittenFails | src/app/obj/tasks/asr-operation.ts:75-106 | as written: the in-memory record of an operation with a result cannot be restored, because its entry names no file |
| AsrOperations.ToAnyRestores | src/app/obj/tasks/asr-operation.ts:75-109 | corrected round trip: `fromAny` of the awaiting `toAny` restores the operation |
| AsrOperations.Clone | src/app/obj/tasks/asr-operation.ts:111-114 | a fresh operation with the same name, icon and state, the given or the original task, and a new id |
| G2pMausOperations.MausLanguage | src/app/obj/tasks/g2p-maus-operation.ts:22-24 | the language's MAUS code when it has one, the task's language otherwise |
| G2pMausOperations.TextSource | src/app/obj/tasks/g2p-maus-operation.ts:25-38 | the transcript comes from OCTRA when OCTRA is enabled, from ASR otherwise |
| G2pMausOperations.RequestText | src/app/obj/tasks/g2p-maus-operation.ts:25-38 | the request's `TEXT=` parameter reads back as the transcript URL |
| G2pMausOperations.RequestURL | src/app/obj/tasks/g2p-maus-operation.ts:25-38 | the request holds the host, the texts and the language and 96 fixed characters, and ends with the emuDB output settings |
| G2pMausOperations.Start | src/app/obj/tasks/g2p-maus-operation.ts:16-44 | the state becomes PROCESSING with the protocol cleared. A request is made exactly when a task, a language, the text source's result and an input are present, and it names them |
| G2pMausOperations.OnReply | src/app/obj/tasks/g2p-maus-operation.ts:45-70 | the reply measures the duration, sets the protocol and finishes with the download or errs |
| G2pMausOperations.FromAny | src/app/obj/tasks/g2p-maus-operation.ts:84-97 | restoring succeeds exactly when every result names a file, keeps the stored id and restores every field |
| G2pMausOperations.Clone | src/app/obj/tasks/g2p-maus-operation.ts:99-102 | a fresh operation with the same name, icon and state, the given or the original task, and a new id |
| OctraOperations.Start | src/app/obj/operations/octra-operation.ts:24-29 | the protocol is cleared, the pipeline's operations are kept, and the state becomes READY with its event |
| OctraOperations.Clone | src/app/obj/operations/octra-operation.ts:87-90 | a fresh operation with the same name, commands, titles and state, and a new id |
| OctraOperations.RepairedState | src/app/obj/operations/octra-operation.ts:100-106 | a restored operation is never left PROCESSING, and any other stored state is kept |
| OctraOperations.RepairSettled | src/app/obj/operations/octra-operation.ts:100-106 | the repair is idempotent. It yields FINISHED only when the stored state was FINISHED or there are results, and READY only when the stored state was READY or there are none |
| OctraOperations.RestoreFiles | src/app/obj/operations/octra-operation.ts:95-98 | restoring succeeds exactly when every stored result names a file |
| OctraOperations.RestoreNext | src/app/obj/operations/octra-operation.ts:95-98 | one turn of the results loop throws exactly when the record names no file, and then the whole list cannot be restored; otherwise the new file extends the restored prefix by one |
| OctraOperations.FromAny | src/app/obj/operations/octra-operation.ts:92-113 | restoring succeeds exactly when every result names a file, keeps the stored id and restores every field |
| OctraOperations.RestoreRest | src/app/obj/operations/octra-operation.ts:108-111 | time, protocol (with its parse), the task's operations and the enabled flag are restored |
| OctraOperations.RestoreTail | src/app/obj/operations/octra-operation.ts:98-111 | the results are the restored files, the state is repaired (PROCESSING becomes FINISHED with results and READY without), the remaining fields come from the record, and the task's operation list is untouched |
| OctraOperations.EncodedValueReads | src/app/obj/operations/octra-operation.ts:142-146 | an encoded parameter value reads back, up to the next `&`, as the value |
| OctraOperations.ToolLinkAudio | src/app/obj/operations/octra-operation.ts:142-146 | the link's `audio=` parameter decodes to the audio URL |
| OctraOperations.ToolLink | src/app/obj/operations/octra-operation.ts:142-146 | the link starts with the first command's `/user/load?audio=` |
| OctraOperations.ToolLinkTranscript | src/app/obj/operations/octra-operation.ts:142-146 | the `transcript=` parameter decodes to the transcript URL. Without a transcript the link holds an empty `&&` slot |
| OctraOperations.Previous | src/app/obj/operations/octra-operation.ts:127-133 | the previous operation belongs to the task |
| OctraOperations.ChooseTranscript | src/app/obj/operations/octra-operation.ts:126-140 | the own last result wins, then the previous operation's last result. With no previous operation it fails. The empty transcript arises only when the operation two before has at most one result |
| OctraOperations.ToolURL | src/app/obj/operations/octra-operation.ts:115-152 | no operations, no WAV file or no language give the empty link. Otherwise the link carries the first command, the encoded audio and transcript URLs and the host. It fails where the source throws |
| LegacyG2pMausOperations.Start | src/app/shared/tasks/obj/g2p-maus-operation.ts:15-30 | the state becomes PROCESSING. A request is made exactly when the transcript result, an input and a task are present, and it names them. Otherwise the TypeError's message reads 'results' without a third operation, 'url' without its result or an input, and 'language' without a task |
| LegacyG2pMausOperations.OnReply | src/app/shared/tasks/obj/g2p-maus-operation.ts:31-56 | the reply stamps the end time, sets the protocol and finishes with the download or errs |
| LegacyG2pMausOperations.Clone | src/app/shared/tasks/obj/g2p-maus-operation.ts:69-72 | a fresh operation with the same name, icon and state and the given or the original task |
| LegacyOctraOperations.Start | src/app/shared/tasks/obj/octra-operation.ts:17-21 | keeps the operations and becomes PROCESSING with its event |
| LegacyOctraOperations.ToolLinkValues | src/app/shared/tasks/obj/octra-operation.ts:51-59 | the link's `audio=` and `transcript=` parameters decode to the two URLs |
| LegacyOctraOperations.ToolURL | src/app/shared/tasks/obj/octra-operation.ts:51-59 | a link exists exactly when the first two operations have results, and it is built from their first results. Otherwise the TypeError's message names the first read that meets `undefined`: '0' without an operation list, 'results' for a missing operation, 'url' for a missing result, the audio's before the transcript's |
| LegacyOctraOperations.Clone | src/app/shared/tasks/obj/octra-operation.ts:61-64 | a fresh operation with the same name, icon and state |
| LegacyMausOperations.RequestFields | src/app/shared/tasks/obj/maus-operation.ts:19-23 | the `BPF=` parameter reads back as the BPF URL, and the request ends with the fixed settings |
| LegacyMausOperations.Start | src/app/shared/tasks/obj/maus-operation.ts:13-23 | a request is made exactly when the G2P result and an input exist. Otherwise the operation errs with the TypeError's message: reading 'results' when there is no second operation, reading 'url' when its result or the input is missing |
| LegacyMausOperations.MausProtocolDiffers | src/app/shared/tasks/obj/maus-operation.ts:55-58 | the MAUS reply handler differs from the shared one only when the output is non-empty, new, and not preceded by warnings |
| LegacyMausOperations.OnReply | src/app/shared/tasks/obj/maus-operation.ts:32-59 | the state follows the reply, and a success without a task throws before the protocol is written |
| LegacyMausOperations.Clone | src/app/shared/tasks/obj/maus-operation.ts:67-69 | as written: the copy is PENDING with no task, so a copy of any operation that is not PENDING has a different state |
| LegacyMausOperations.CloneKeepingState | src/app/shared/tasks/obj/maus-operation.ts:9-11 | corrected: the copy keeps the state and the task |
| InputFilters.KeptFiles | src/app/obj/tasks/task.service.ts:590-596 | only accepted files, no more entries than given |
| InputFilters.SubdirsCleaned | src/app/obj/tasks/task.service.ts:597-612 | cleaning the subdirectories one by one is cleaning their list |
| InputFilters.CleanUpAppend | src/app/obj/tasks/task.service.ts:587-617 | the filter distributes over concatenation |
| InputFilters.CleanUpIsClean | src/app/obj/tasks/task.service.ts:587-617 | the result holds only accepted files, and only non-empty directories of accepted files |
| InputFilters.CleanUpKeepsAccepted | src/app/obj/tasks/task.service.ts:587-617 | the result holds exactly the accepted files found at any depth |
| InputFilters.CleanUpInputArray | src/app/obj/tasks/task.service.ts:587-617 | the recursive loop computes the filter |
| InputFilters.ValidTranscript | src/app/obj/tasks/task.service.ts:644-652 | an extension is valid exactly when some converter's extension contains it |
| InputFilters.ConvertsSubstring | src/app/obj/tasks/task.service.ts:644-652 | containment is a substring test, so a fragment of a converter's extension is accepted |
| TaskServices.CountIn | src/app/obj/tasks/task.service.ts:682-721 | a count never exceeds the number of tasks |
| TaskServices.TallyPartitions | src/app/obj/tasks/task.service.ts:682-721 | every task not SKIPPED is counted in exactly one bucket |
| TaskServices.CountStates | src/app/obj/tasks/task.service.ts:682-721 | the loop computes the tally of the tasks' states |
| TaskServices.TaskService.UpdateStatistics | src/app/obj/tasks/task.service.ts:682-721 | the statistics become the tally of the list's tasks as they were on entry, and the overall and processing states are untouched |
| TaskServices.StateLabel | src/app/obj/tasks/task.service.ts:105-137 | the getter returns nothing exactly for the overall state `waiting`, which none of its branches handles |
| TaskServices.StateLabelTable | src/app/obj/tasks/task.service.ts:105-137 | which counts select which label, in both directions |
| TaskServices.StateLabelCount | src/app/obj/tasks/task.service.ts:108-111 | the waiting label starts with the number of waiting tasks, which reads back |
| TaskServices.TaskService.Label | src/app/obj/tasks/task.service.ts:105-137 | the getter's label is the label of the current state and statistics |
| TaskServices.ScanOperations | src/app/obj/tasks/task.service.ts:533-542 | the loop finds a launchable operation exactly when one comes before the first blocking one |
| TaskServices.NextWaitingTask | src/app/obj/tasks/task.service.ts:525-547 | the first runnable task, and null exactly when none is runnable |
| TaskServices.TaskWithHash | src/app/obj/tasks/task.service.ts:947-966 | the first task whose hash matches, and null exactly when none does |
| TaskServices.HashIdentifies | src/app/obj/tasks/task.service.ts:947-966 | with an injective hash, a task matches exactly when it still awaits upload and holds a file of that original name and size |
| TaskServices.FindQueuedPartner | src/app/obj/tasks/task.service.ts:159-165 | the loop returns `Partner`: the first task that is QUEUED and holds a file whose name less `_annot` is the new file's name, or null when none does |
| TaskServices.Partner | src/app/obj/tasks/task.service.ts:159-165 | a partner it returns is one of the tasks whose files match the new name; it is null exactly when no task matches |
| TaskServices.PartnerIsFirst | src/app/obj/tasks/task.service.ts:159-165 | the partner sits at a position before which no task matches, so `find` returns the first match |
| TaskServices.PartnerAt | src/app/obj/tasks/task.service.ts:159-165 | a task that matches with no match before it is the partner |
| TaskServices.MergeFile | src/app/obj/tasks/task.service.ts:167-175 | the file is added exactly when not both are WAV. ASR is then disabled and SKIPPED, and the rest of the task is unchanged |
| TaskServices.MergeLateTranscript | src/app/obj/tasks/task.service.ts:151-176 | the new task becomes QUEUED. The partner is the one found before the merge. A merge happens unless both first files are `.wav`; it appends the new file and skips and disables the partner's ASR; nothing is merged without a partner |
| TaskServices.PickTask | src/app/obj/tasks/task.service.ts:480-487 | a task starts exactly when fewer than the cap are running, none is uploading and some task is runnable, and it is the first runnable one |
| TaskServices.Tick | src/app/obj/tasks/task.service.ts:479-487 | the statistics are the tally of the states on entry. A task starts exactly when fewer than the cap run, nothing uploads and some task is runnable, and the one started is the first runnable task |
| TaskServices.Toggled | src/app/obj/tasks/task.service.ts:665 | toggling yields Processing exactly from a state other than Processing, and Stopped otherwise |
| TaskServices.MaxOpId | src/app/obj/tasks/task.service.ts:313-314 | an upper bound of the operations' ids, no lower than the start |
| TaskServices.TaskStep | src/app/obj/tasks/task.service.ts:309-314 | the maxima grow to bound the task's id and its operations' ids |
| TaskServices.ImportedMaxima | src/app/obj/tasks/task.service.ts:292-372 | as written: the maxima bound the ids of top-level tasks and their operations |
| TaskServices.DirectoryIgnored | src/app/obj/tasks/task.service.ts:341-372 | as written: a stored directory leaves the maxima unchanged |
| TaskServices.DirectoryTaskEscapes | src/app/obj/tasks/task.service.ts:342-384 | as written: a task inside a directory can have an id above the restored counter |
| TaskServices.ChildMaxima | src/app/obj/tasks/task.service.ts:341-372 | corrected: the maxima also bound the children of directories |
| TaskServices.AllMaxima | src/app/obj/tasks/task.service.ts:292-384 | corrected: the maxima are never negative |
| TaskServices.AllMaximaBound | src/app/obj/tasks/task.service.ts:292-384 | corrected: the maxima bound every stored id, at the top level and inside directories |
| TaskServices.MaxOverOperations | src/app/obj/tasks/task.service.ts:313-314 | the loop computes the operations' maximum |
| TaskServices.MaxOverChildren | src/app/obj/tasks/task.service.ts:343-347 | the loop computes the children's maxima |
| TaskServices.MaxOverRecords | src/app/obj/tasks/task.service.ts:292-372 | the loop computes the corrected maxima |
| TaskServices.RestoreCounters | src/app/obj/tasks/task.service.ts:376-384 | each counter becomes the larger of its value and the corrected maximum, which also counts the tasks in directories |
| TaskServices.RestoredIdsFresh | src/app/obj/tasks/task.service.ts:376-384 | after the corrected restore, the next ids collide with no stored task or operation |
| TaskServices.DirRemovals | src/app/obj/tasks/task.service.ts:419-433 | only children of the directory are removed |
| TaskServices.DirCleanups | src/app/obj/tasks/task.service.ts:419-438 | only the directory itself is cleaned up |
| TaskServices.DirPartition | src/app/obj/tasks/task.service.ts:419-438 | each child is removed or causes a cleanup, never both, and every removed child lost its channel |
| TaskServices.ScanSplitDir | src/app/obj/tasks/task.service.ts:416-439 | the loop over the children computes the removals and cleanups |
| TaskServices.CheckFilesScan | src/app/obj/tasks/task.service.ts:410-446 | with prompt `BOTH` nothing is removed; otherwise the loop computes the removals and cleanups |
| TaskServices.ScanEntry | src/app/obj/tasks/task.service.ts:415-440 | one top-level entry of the scan: the removals and cleanups so far extend to those of the entries up to and including this one |
| TaskServices.CleanUpInput | src/app/obj/tasks/task.service.ts:587-617 | the result is the filter with the service's own test, holds only accepted inputs and keeps every one of them |
| TaskServices.TaskService.constructor | src/app/obj/tasks/task.service.ts:39-73 | starts not started, with zero statistics |
| TaskServices.TaskService.Start | src/app/obj/tasks/task.service.ts:476-523 | only while processing. The statistics become the tally, and a started task is the first runnable one, started under the cap with nothing uploading |
| TaskServices.TaskService.ToggleProcessing | src/app/obj/tasks/task.service.ts:664-680 | the overall state toggles, and stopping starts nothing |
| TaskServices.TaskService.AddEntry | src/app/obj/tasks/task.service.ts:458-469 | an entry is added exactly when its id is new, and a directory is then cleaned up |
| TaskServices.TaskService.ItemProcessedTask | src/app/obj/tasks/task.service.ts:151-176 | a processed task becomes QUEUED. Its partner is the first QUEUED listed task with a file of its first file's name. When there is one, the new file is appended and ASR is disabled and SKIPPED exactly when the two first files are not both WAV, and the new task is never registered. Without a partner nothing merges and the task is added when its id is new |
| TaskServices.TaskService.MergeListed | src/app/obj/tasks/task.service.ts:151-176 | the processed task becomes QUEUED. The task found is the first QUEUED listed task with a file of its first file's name. With one, the new file is appended and ASR is disabled and SKIPPED exactly when the two first files are not both WAV. There is no merge without one, and the list itself is unchanged |
| LegacyTaskServices.CountInStates | src/app/shared/task.service.ts:129-157 | the loop counts the tasks in the bucket |
| LegacyTaskServices.OccursCounted | src/app/shared/task.service.ts:129-157 | a task in the bucket makes the count positive |
| LegacyTaskServices.FirstPendingCounted | src/app/shared/task.service.ts:82-84 | when a PENDING task is found, the PENDING count is positive, so the count guard of `start` never rejects the found task |
| LegacyTaskServices.OpRows | src/app/shared/task.service.ts:180-198 | at most one row per operation, each tagged with the task's id, finished or failed, with a non-empty protocol |
| LegacyTaskServices.OpRowsExactly | src/app/shared/task.service.ts:180-198 | a row is in a task's rows exactly when it is the row of one of its operations that is finished or failed and has a protocol |
| LegacyTaskServices.ProtocolRows | src/app/shared/task.service.ts:174-200 | every row is of a finished or failed operation with a non-empty protocol |
| LegacyTaskServices.ProtocolRowsExactly | src/app/shared/task.service.ts:174-200 | a row is collected exactly when it is the row of some task's operation that is finished or failed and has a protocol |
| LegacyTaskServices.ProtocolArrayRows | src/app/shared/task.service.ts:174-218 | the sorted protocol is ordered by task id, has each collected row as often as it was collected, and holds exactly the rows of the listed operations |
| LegacyTaskServices.CountRows | src/app/shared/task.service.ts:184-189 | a count never exceeds the rows |
| LegacyTaskServices.ErrorsAndWarnings | src/app/shared/task.service.ts:184-189 | every row counts as an error or a warning, not both |
| LegacyTaskServices.InsertPermutes | src/app/shared/task.service.ts:208-218 | inserting a row permutes it into the rows |
| LegacyTaskServices.InsertSorted | src/app/shared/task.service.ts:208-218 | inserting into sorted rows keeps them sorted by task id |
| LegacyTaskServices.InsertKeepsOrder | src/app/shared/task.service.ts:208-218 | the rows of each task keep their order: the sort is stable |
| LegacyTaskServices.SortByTaskSpec | src/app/shared/task.service.ts:208-218 | the sort is ordered, a permutation, and stable |
| LegacyTaskServices.SortByTask | src/app/shared/task.service.ts:208-218 | the sort keeps the number of rows |
| LegacyTaskServices.AsWrittenDropsAll | src/app/shared/task.service.ts:229-238 | as written: comparing extensions with `wav` accepts nothing, since extensions begin with a dot |
| LegacyTaskServices.NothingAccepted | src/app/shared/task.service.ts:229-238 | as written: no file is accepted |
| LegacyTaskServices.WavFilesKept | src/app/shared/task.service.ts:221-252 | corrected: every `.wav` file survives the filter |
| LegacyTaskServices.WavAccepted | src/app/shared/task.service.ts:221-252 | corrected: every `.wav` file at any depth is accepted |
| LegacyTaskServices.CollectProtocol | src/app/shared/task.service.ts:174-200 | the loops collect the protocol rows and count errors and warnings |
| LegacyTaskServices.CollectTask | src/app/shared/task.service.ts:174-200 | one task of the outer loop extends the rows and the error and warning counts to those of the tasks up to and including it |
| LegacyTaskServices.CollectOps | src/app/shared/task.service.ts:180-198 | the inner loop appends exactly the rows of the task's operations and counts the errors and warnings among them |
| LegacyTaskServices.LegacyTaskService.constructor | src/app/shared/task.service.ts:34-53 | starts with no protocol and zero counts |
| LegacyTaskServices.LegacyTaskService.AddEntry | src/app/shared/task.service.ts:65-72 | an entry is added exactly when its id is new |
| LegacyTaskServices.LegacyTaskService.CountRunningTasks | src/app/shared/task.service.ts:129-142 | the number of tasks processing or uploading |
| LegacyTaskServices.LegacyTaskService.CountPendingTasks | src/app/shared/task.service.ts:144-157 | the number of pending tasks |
| LegacyTaskServices.LegacyTaskService.PickPending | src/app/shared/task.service.ts:78-83 | the first pending task, when fewer than the cap are running |
| LegacyTaskServices.LegacyTaskService.PendingTask | src/app/shared/task.service.ts:82-83 | the first pending task |
| LegacyTaskServices.LegacyTaskService.Start | src/app/shared/task.service.ts:74-127 | the first pending task starts when fewer than the cap are running, and the protocol is left alone |
| LegacyTaskServices.LegacyTaskService.UpdateProtocolArray | src/app/shared/task.service.ts:168-219 | the protocol becomes the stably sorted rows that `CollectProtocol` collects, which by `ProtocolArrayRows` are exactly those of the listed operations. Errors and warnings are recounted, and a change in the error count is announced |
| BugReports.Errors | src/app/shared/bug-report.service.ts:38-44 | only errors, no more entries than the console |
| BugReports.ErrorsNonEmpty | src/app/shared/bug-report.service.ts:38-44 | there are errors exactly when some entry is an error |
| BugReports.ErrorsAppend | src/app/shared/bug-report.service.ts:38-53 | the filter distributes over appending |
| BugReports.BugReportService.constructor | src/app/shared/bug-report.service.ts:28-33 | the console starts empty |
| BugReports.BugReportService.HasErrors | src/app/shared/bug-report.service.ts:38-44 | true exactly when some entry is an error |
| BugReports.BugReportService.AddEntry | src/app/shared/bug-report.service.ts:46-53 | the entry is appended, and errors appear exactly when there were some or it is one |
| BugReports.BugReportService.Clear | src/app/shared/bug-report.service.ts:55-57 | the console empties and no errors remain |
| BugReports.BugReportService.GetPackage | src/app/shared/bug-report.service.ts:59-76 | the package carries the version, the browser facts and the console as it is |
| EnableFlags.Copied | src/app/modals/queue-modal/queue-modal.component.ts:154-161 | only a PENDING operation takes the template's flag |
| EnableFlags.CopyFlag | src/app/components/proceedings/proceedings.component.ts:258-265 | every task's operation at the index takes the flag if PENDING, keeps it otherwise, and no state changes |
| QueueModals.Queued | src/app/modals/queue-modal/queue-modal.component.ts:98-100 | exactly the queued tasks |
| QueueModals.OrangeCount | src/app/modals/queue-modal/queue-modal.component.ts:63-67 | counts only queued tasks, and is zero exactly when no task is orange |
| QueueModals.AllOrange | src/app/modals/queue-modal/queue-modal.component.ts:52-67 | when every queued task's audio has no blob, every queued task counts |
| QueueModals.ShortCode | src/app/modals/queue-modal/queue-modal.component.ts:76-78 | the last two characters, or the code when shorter |
| QueueModals.QueueModal.constructor | src/app/modals/queue-modal/queue-modal.component.ts:21-32 | starts with nothing saved and not dismissed |
| QueueModals.QueueModal.OnSubmit | src/app/modals/queue-modal/queue-modal.component.ts:52-61 | tasks with a blob become PENDING, the rest keep their state, and the modal is dismissed |
| QueueModals.QueueModal.ChangeLanguageForAllQueuedTasks | src/app/modals/queue-modal/queue-modal.component.ts:80-95 | every queued task takes the selected language, and the queued tasks and the language are saved |
| QueueModals.QueueModal.SetLanguages | src/app/modals/queue-modal/queue-modal.component.ts:85-91 | every filtered task gets the selected language and is saved, in order. States and files are untouched |
| QueueModals.QueueModal.OnAsrLanguageChanged | src/app/modals/queue-modal/queue-modal.component.ts:69-74 | a new language is selected and given to the queued tasks, and the same language changes nothing |
| QueueModals.QueueModal.UpdateEnableState | src/app/modals/queue-modal/queue-modal.component.ts:146-163 | queued tasks copy each template flag into their PENDING operations, nothing else changes, and no state changes |
| QueueModals.QueueModal.CopyFlagOwned | src/app/modals/queue-modal/queue-modal.component.ts:109-121 | one index: queued tasks' PENDING operations take the template's flag, and the templates are untouched |
| QueueModals.QueueModal.CopyTwo | src/app/modals/queue-modal/queue-modal.component.ts:128-139 | two indexes at once, with the same guarantee |
| QueueModals.QueueModal.DeactivateOperation | src/app/modals/queue-modal/queue-modal.component.ts:97-144 | the template flips. Disabling OCTRA enables its predecessor, and disabling ASR enables its successor. The queued tasks then copy the templates |
| QueueModals.QueueModal.Flip | src/app/modals/queue-modal/queue-modal.component.ts:102-141 | the flip and the coupling, copied per index |
| QueueModals.QueueModal.SetTemplate | src/app/modals/queue-modal/queue-modal.component.ts:102-123 | setting a template operation's flag changes no operation of any task, since templates belong to no task |
| ProceedingsTable.IndexOf | src/app/components/proceedings/proceedings.component.ts:137 | the first index of the id, and -1 exactly when absent |
| ProceedingsTable.ToggleFlips | src/app/components/proceedings/proceedings.component.ts:137-142 | the id's selection flips, the others stay, and no duplicate appears |
| ProceedingsTable.Toggled | src/app/components/proceedings/proceedings.component.ts:137-142 | a click removes one occurrence of a selected id, and appends an id not selected at the end |
| ProceedingsTable.ToggleTwice | src/app/components/proceedings/proceedings.component.ts:137-142 | selecting twice restores the selection |
| ProceedingsTable.FindTask | src/app/components/proceedings/proceedings.component.ts:150-154 | the first task with the id, and -1 exactly when absent |
| ProceedingsTable.SpliceOne | src/app/components/proceedings/proceedings.component.ts:156 | `splice(i, 1)`, negative indexes counting from the end |
| ProceedingsTable.AbsentIdDeletesLast | src/app/components/proceedings/proceedings.component.ts:148-161 | as written: a selected id with no task deletes the last task |
| ProceedingsTable.DeleteAsWritten | src/app/components/proceedings/proceedings.component.ts:149-157 | as written: one step always removes one task from a non-empty list, whether or not a task has the id |
| ProceedingsTable.DeletePresent | src/app/components/proceedings/proceedings.component.ts:148-161 | corrected: an absent id deletes nothing |
| ProceedingsTable.DeletePresentRemoves | src/app/components/proceedings/proceedings.component.ts:148-161 | corrected: with unique ids, exactly the task with the id goes |
| ProceedingsTable.DeleteAllPresentFilters | src/app/components/proceedings/proceedings.component.ts:148-161 | corrected: exactly the selected tasks go |
| ProceedingsTable.PresentAgrees | src/app/components/proceedings/proceedings.component.ts:148-161 | for a present id the loop as written and the corrected one agree |
| ProceedingsTable.AsWrittenAgreesWhenPresent | src/app/components/proceedings/proceedings.component.ts:148-161 | when every selected id is present, the loop as written deletes exactly the selected tasks |
| ProceedingsTable.PopoverColor | src/app/components/proceedings/proceedings.component.ts:268-277 | red exactly for errors, yellow exactly for finished with a protocol, blue otherwise |
| ProceedingsTable.MailToLink | src/app/components/proceedings/proceedings.component.ts:240-254 | a link exactly for finished tasks |
| ProceedingsTable.MailBody | src/app/components/proceedings/proceedings.component.ts:244-247 | the body starts with the pipeline heading and ends with the Emu WebApp link |
| ProceedingsTable.MailLinkCarriesBody | src/app/components/proceedings/proceedings.component.ts:240-254 | the link starts with the fixed prefix, and its body decodes to the message with the three result URLs |
| ProceedingsTable.Proceedings.constructor | src/app/components/proceedings/proceedings.component.ts:22-53 | starts with nothing selected and the menu hidden |
| ProceedingsTable.Proceedings.IsTaskSelected | src/app/components/proceedings/proceedings.component.ts:163-170 | true exactly when the id is selected |
| ProceedingsTable.Proceedings.OnRowSelected | src/app/components/proceedings/proceedings.component.ts:135-145 | clicking a non-tool operation flips the task's selection, and a tool operation leaves it |
| ProceedingsTable.Proceedings.OnDeleteTasks | src/app/components/proceedings/proceedings.component.ts:148-161 | the tasks become the loop as written over the selection, which empties, and the menu hides |
| ProceedingsTable.Proceedings.DeactivateOperation | src/app/components/proceedings/proceedings.component.ts:256-266 | the flag flips, the other tasks' PENDING operations at the index copy it, and no state changes |

## Left out

- `Task`, `TaskDirectory`, `UploadOperation`, `EmuOperation` and `DirectoryInfo` are not part of this model. Their source files are not available. `Tasks.Task` and `Tasks.TaskDirectory` carry only the fields and the plain updates the modelled code uses: `changeState`, `addFile`, `setFileObject`, `removeTask`.
- The upload's WAV file and the Emu WebApp's tool URL come from those operations, and are given as parameters.
- Several imported classes are not available, and the model stands in for each with a file that is:
  - `Operation` in src/app/obj/tasks/asr-operation.ts:4 and src/app/obj/tasks/g2p-maus-operation.ts:6 is `./operation`, that is src/app/obj/tasks/operation.ts, which is not part of this model. `Tasks.Operation` models src/app/obj/operations/operation.ts in its place, with the constructor at operation.ts:122.
  - src/app/obj/tasks/task.service.ts:8 and 13 import the G2P-MAUS and ASR classes from `../operations/`, which are not available. `G2pMausOperations` and `AsrOperations` model src/app/obj/tasks/g2p-maus-operation.ts and src/app/obj/tasks/asr-operation.ts in their place.
  - `FileInfo` and `DirectoryInfo` of `@octra/utilities` (src/app/obj/tasks/task.service.ts:23, src/app/obj/operations/octra-operation.ts:9) are assumed to behave as src/app/obj/fileInfo.ts, which `FileInfos` models. Its base class `DataInfo` (fileInfo.ts:1) is not part of this model.
  - `ToolOperation` (octra-operation.ts:5), the base of `OCTRAOperation`, is not available. `OctraOperations` works on `Tasks.Operation`, whose base-class behaviour is that of operation.ts. Whatever `ToolOperation` adds or overrides is not part of this model.
  - `TaskEntry` (task.service.ts:12), which holds the task counter, is not available. `TaskServices` models its counter as a `Tasks.Counter`.
  - src/app/shared/task.service.ts:10 imports `TaskList` from `../obj/TaksList`, that is src/app/obj/TaksList.ts, which is not available. `LegacyTaskServices` uses `TaskLists`, which models src/app/obj/tasks/TaksList.ts, in its place.
  - src/app/shared/task.service.ts:7 imports `OCTRAOperation` from `../obj/tasks/octra-operation`, which is not available. The only OCTRA operation modelled is src/app/obj/operations/octra-operation.ts (`OctraOperations`), with the older src/app/shared/tasks/obj/octra-operation.ts (`LegacyOctraOperations`).
  - The older operations in src/app/shared/tasks/obj/ import `./operation`, `./fileInfo` and `./task` (g2p-maus-operation.ts:4-7, maus-operation.ts:3-5, octra-operation.ts:5-8), and the OCTRA one also imports `./tool-operation`. None of these is available. `LegacyG2pMausOperations`, `LegacyMausOperations` and `LegacyOctraOperations` use `Tasks.Operation` (src/app/obj/operations/operation.ts) and `FileInfos` (src/app/obj/fileInfo.ts) in their place.
  - src/app/components/proceedings/proceedings.component.ts:9 imports `Operation`, `Task`, `ToolOperation`, `EmuOperation` and `FileInfo` from `../../shared/tasks`, which is not available. `ProceedingsTable` uses `Tasks.Operation` and `FileInfos`. It reads `instanceof ToolOperation` as `Tasks.IsTool` of the operation's kind, that is OCTRA or the Emu WebApp.
- Language lookups (`AppSettings.getLanguageByCode`), the converters, the file hash and the current time are parameters.
- The HTTP requests, the XML reply conversion, timers, RxJS subscriptions and promises are left out. A request is its URL, a reply is a value handed to the reply handler, and each promise chain is run to its end.
- Saving to IndexedDB and storage are left out: only the events that announce them are kept.
- Notifications, console output, modal dialogs (`onDismiss`, `open`) and the statistics service are left out, because they only display.
- `getStateIcon` and the icons are left out, because they only build HTML. The same holds for `updateProtocolURL`, which builds a blob URL.
- The browser facts of the bug report are given as a value, because `BrowserInfo` reads a foreign global.
- The directory branch of `itemProcessed` (task.service.ts 177-235) and `processFileInfo`/`processDirectoryInfo` are left out. They sort dropped files into directories and check WAV headers, which needs the audio decoder.
- `toggleProcessing` resumes and stops tasks. Those calls go into `Task` and are left out.
- The `setTimeout` that reschedules `start` is left out. `TaskService.Start` is one pass.
- The legacy `start` subscribes to `opstatechange`. That subscription is left out.
- `TaskServices.TaskService.Start`: does not state the converse (no runnable task means nothing starts). `TaskServices.PickTask` and `TaskServices.Tick` state both directions for the same pass.
- `TaskServices.TaskService.ToggleProcessing`: states only the cap for a started task. `Start` states the rest.
- `QueueModals.QueueModal.DeactivateOperation`: requires a predecessor for OCTRA and a successor for ASR. At those edges the source throws a TypeError.
- `QueueModals.QueueModal.Flip`: the same requirement as `DeactivateOperation`.
- `ProceedingsTable.Proceedings.DeactivateOperation`: requires that every task has an operation at the index. The source throws otherwise.
- `ProceedingsTable.MailToLink`: requires the three results for a finished task. The source throws without them.
- `Tasks.Operation.constructor`: requires a task when the state given is FINISHED. Without one, the source's `changeState` throws in the constructor.
- `AsrOperations.ToAnyAsWritten`: a pending Promise in the in-memory record is modelled as a file record whose type and size are the empty text and 0, where the Promise has none. Saving that record rejects, because IndexedDB cannot clone a Promise (src/app/obj/IndexedDBManager.ts:174), so the task is not persisted. The save itself is not part of this model.
- `FileInfos.ToRecord`: of the `attributes` object only `originalFileName` is kept, and the content of a non-WAV file, which the source reads in asynchronously, is left out.
- `TaskServices.CheckFilesScan`: the model computes the removal and cleanup lists of `checkFiles` but does not apply them. The source starts a `cleanup` of the directory for every task it keeps (src/app/obj/tasks/task.service.ts:436), then a `removeEntry` for every listed task (src/app/obj/tasks/task.service.ts:444-446). Those promise chains remove the directory and re-add a promoted task in `then` steps (src/app/obj/tasks/TaksList.ts:236-240) that run after every synchronous part, so the final list depends on that interleaving. For example, a split directory [A_1, A_2] with `FIRST` ends with A_1 promoted to the top level. The list that results is not stated.
- `QueueModals.QueueModal`: one `operations` sequence stands for both the component's `@Input() operations` that `deactivateOperation` flips (queue-modal.component.ts:103-104) and `taskService.operations` that `updateEnableState` copies from (queue-modal.component.ts:151-152). The model assumes they are the same array: the template that binds the input is not part of this model.
- `LegacyMausOperations.Clone`: the state value that lands in the task slot is modelled as no task. An `Operation` field of type `Task?` cannot hold a state. The legacy base class `shared/tasks/obj/operation.ts` is not part of this model.
- `TaskServices.Formed`, `TaskServices.AllFormed` and `QueueModals.QueueModal.Wired` are assumed where the source reads `files[0]` or `operations[1]`, and `QueueModals.QueueModal.OnSubmit` requires a first file of every task for the same reason. The source throws when those are missing.
- `QueueModals.Orange`: a QUEUED task without files is read as not orange, where `orangeCount` (src/app/modals/queue-modal/queue-modal.component.ts:65) throws on its `files[0]`.

## Findings

| source | as written | input that shows it | evidently intended | confidence | as-written member | corrected member |
|---|---|---|---|---|---|---|
| src/app/shared/tasks/obj/maus-operation.ts:9-11 | the constructor takes (name, icon, state) and calls `super(name, icon, state)`, but the base constructor takes (name, icon, task, state), as `G2pMausOperation` shows at g2p-maus-operation.ts:11-12. The state goes into the task slot, for every MAUS operation built with a state, `clone` included | `clone()` of a MAUS operation in state FINISHED: the copy is PENDING | the constructor takes a task and passes the state in the state slot | not executed | LegacyMausOperations.Clone | LegacyMausOperations.CloneKeepingState |
| src/app/obj/tasks/asr-operation.ts:101-106 | `toAny` pushes each result's `toAny()` Promise into the record without awaiting it | an ASR operation with one result: `results[0]` of the record is a pending Promise, so the IndexedDB save of the task rejects (a Promise cannot be cloned) and the task is not persisted; even in memory that entry has no `fullname` for `fromAny` | await the results' records, as `Operation.toAny` does | not executed | AsrOperations.ToAnyAsWrittenFails | AsrOperations.ToAnyRestores |
| src/app/obj/tasks/task.service.ts:342-384 | `importDBData` raises the counters only for top-level tasks | a stored directory with one task of id 7 and an empty top level: the task counter stays 0 | the counters also cover tasks inside directories | not executed | TaskServices.DirectoryTaskEscapes | TaskServices.RestoredIdsFresh |
| src/app/shared/task.service.ts:229-238 | extensions are compared with `wav`, but an extension begins with its dot | a dropped `a.wav`: the result is empty | keep `.wav` files | not executed | LegacyTaskServices.AsWrittenDropsAll | LegacyTaskServices.WavFilesKept |
| src/app/components/proceedings/proceedings.component.ts:148-161 | `splice(findIndex(...), 1)` with index -1 removes the last task | a selected id with no task: the last task is deleted | delete nothing for an absent id | not executed | ProceedingsTable.AbsentIdDeletesLast | ProceedingsTable.DeleteAllPresentFilters |

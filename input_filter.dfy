/** The filter both task services run over dropped files and folders before they become tasks
    (`cleanUpInputArray` in src/app/obj/tasks/task.service.ts and src/app/shared/task.service.ts):
    only the files a service accepts stay, each folder keeps its accepted files, and its
    sub-folders follow it, cleaned the same way, as folders of their own. */
module InputFilters {
  import opened FileInfos
  import opened Strings

  /** A dropped FileInfo (taken by its name parts) or DirectoryInfo with its entries. */
  datatype InputEntry = InputFile(file: NameParts) | InputDir(path: string, entries: seq<InputEntry>)

  // ---------------------------------------------------------------------------
  // The filter

  /** `dir.entries.filter(a => a instanceof FileInfo && keep(a.extension))` */
  function KeptFiles(es: seq<InputEntry>, keep: string -> bool): (r: seq<InputEntry>)
    ensures |r| <= |es|
    ensures forall i :: 0 <= i < |r| ==> r[i].InputFile? && keep(r[i].file.extension)
  {
    if es == [] then []
    else
      var last := es[|es| - 1];
      KeptFiles(es[..|es| - 1], keep) + (if last.InputFile? && keep(last.file.extension) then [last] else [])
  }

  /** `directory.entries.filter(a => a instanceof DirectoryInfo)` */
  function Subdirs(es: seq<InputEntry>): seq<InputEntry> {
    if es == [] then []
    else Subdirs(es[..|es| - 1]) + (if es[|es| - 1].InputDir? then [es[|es| - 1]] else [])
  }

  /** cleanUpInputArray: each entry in turn contributes what CleanEntry makes of it. */
  function CleanUp(es: seq<InputEntry>, keep: string -> bool): seq<InputEntry> {
    if es == [] then [] else CleanUp(es[..|es| - 1], keep) + CleanEntry(es[|es| - 1], keep)
  }

  /** One entry: an accepted file is kept; a folder becomes its clone with its accepted files
      (dropped when it has none), followed by its cleaned sub-folders. */
  function CleanEntry(e: InputEntry, keep: string -> bool): seq<InputEntry> {
    match e
    case InputFile(f) => if keep(f.extension) then [e] else []
    case InputDir(path, inner) =>
      var kept := KeptFiles(inner, keep);
      (if |kept| > 0 then [InputDir(path, kept)] else []) + CleanSubdirs(inner, keep)
  }

  /** The recursive call on the sub-folders, folder by folder (SubdirsCleaned). */
  function CleanSubdirs(es: seq<InputEntry>, keep: string -> bool): seq<InputEntry> {
    if es == [] then []
    else
      var last := es[|es| - 1];
      CleanSubdirs(es[..|es| - 1], keep) + (if last.InputDir? then CleanEntry(last, keep) else [])
  }

  /** CleanSubdirs is the filter applied to the sub-folders, as the source calls it. */
  lemma {:induction false} SubdirsCleaned(es: seq<InputEntry>, keep: string -> bool)
    ensures CleanSubdirs(es, keep) == CleanUp(Subdirs(es), keep)
  {
    if es != [] {
      var init, last := es[..|es| - 1], es[|es| - 1];
      SubdirsCleaned(init, keep);
      if last.InputDir? {
        var x := Subdirs(init) + [last];
        assert Subdirs(es) == x;
        assert x[..|x| - 1] == Subdirs(init);
        assert CleanUp(x, keep) == CleanUp(Subdirs(init), keep) + CleanEntry(last, keep);
      } else {
        assert Subdirs(es) == Subdirs(init) + [] == Subdirs(init);
        assert CleanSubdirs(es, keep) == CleanSubdirs(init, keep) + [] == CleanSubdirs(init, keep);
      }
    }
  }

  lemma CleanUpAppend(a: seq<InputEntry>, b: seq<InputEntry>, keep: string -> bool)
    ensures CleanUp(a + b, keep) == CleanUp(a, keep) + CleanUp(b, keep)
    decreases |b|
  {
    if b != [] {
      assert (a + b)[..|a + b| - 1] == a + b[..|b| - 1];
      CleanUpAppend(a, b[..|b| - 1], keep);
    } else {
      assert a + b == a;
    }
  }

  // ---------------------------------------------------------------------------
  // What comes out

  /** A result entry: an accepted file, or a non-empty folder of accepted files only. */
  predicate Clean(e: InputEntry, keep: string -> bool) {
    match e
    case InputFile(f) => keep(f.extension)
    case InputDir(_, inner) =>
      |inner| > 0 && forall i :: 0 <= i < |inner| ==> inner[i].InputFile? && keep(inner[i].file.extension)
  }

  predicate AllClean(es: seq<InputEntry>, keep: string -> bool) {
    forall i :: 0 <= i < |es| ==> Clean(es[i], keep)
  }

  lemma AllCleanAppend(a: seq<InputEntry>, b: seq<InputEntry>, keep: string -> bool)
    requires AllClean(a, keep) && AllClean(b, keep)
    ensures AllClean(a + b, keep)
  {
  }

  /** The result is flat: no folder in it holds a folder, and nothing rejected is left. */
  lemma {:induction false} CleanUpIsClean(es: seq<InputEntry>, keep: string -> bool)
    ensures AllClean(CleanUp(es, keep), keep)
  {
    if es != [] {
      CleanUpIsClean(es[..|es| - 1], keep);
      CleanEntryIsClean(es[|es| - 1], keep);
      AllCleanAppend(CleanUp(es[..|es| - 1], keep), CleanEntry(es[|es| - 1], keep), keep);
    }
  }

  lemma {:induction false} CleanEntryIsClean(e: InputEntry, keep: string -> bool)
    ensures AllClean(CleanEntry(e, keep), keep)
  {
    match e
    case InputFile(f) =>
    case InputDir(path, inner) =>
      var kept := KeptFiles(inner, keep);
      CleanSubdirsIsClean(inner, keep);
      AllCleanAppend(if |kept| > 0 then [InputDir(path, kept)] else [], CleanSubdirs(inner, keep), keep);
  }

  lemma {:induction false} CleanSubdirsIsClean(es: seq<InputEntry>, keep: string -> bool)
    ensures AllClean(CleanSubdirs(es, keep), keep)
  {
    if es != [] {
      var last := es[|es| - 1];
      CleanSubdirsIsClean(es[..|es| - 1], keep);
      if last.InputDir? {
        CleanEntryIsClean(last, keep);
      }
      AllCleanAppend(CleanSubdirs(es[..|es| - 1], keep), if last.InputDir? then CleanEntry(last, keep) else [], keep);
    }
  }

  // ---------------------------------------------------------------------------
  // Nothing accepted is lost

  /** Every file of some entries, at any depth. */
  function Files(es: seq<InputEntry>): multiset<NameParts> {
    if es == [] then multiset{} else Files(es[..|es| - 1]) + EntryFiles(es[|es| - 1])
  }

  function EntryFiles(e: InputEntry): multiset<NameParts> {
    match e
    case InputFile(f) => multiset{f}
    case InputDir(_, inner) => Files(inner)
  }

  /** Every accepted file of some entries, at any depth. */
  function Accepted(es: seq<InputEntry>, keep: string -> bool): multiset<NameParts> {
    if es == [] then multiset{} else Accepted(es[..|es| - 1], keep) + EntryAccepted(es[|es| - 1], keep)
  }

  function EntryAccepted(e: InputEntry, keep: string -> bool): multiset<NameParts> {
    match e
    case InputFile(f) => if keep(f.extension) then multiset{f} else multiset{}
    case InputDir(_, inner) => Accepted(inner, keep)
  }

  /** The accepted files of the sub-folders only. */
  function SubdirAccepted(es: seq<InputEntry>, keep: string -> bool): multiset<NameParts> {
    if es == [] then multiset{}
    else
      var last := es[|es| - 1];
      SubdirAccepted(es[..|es| - 1], keep) + (if last.InputDir? then EntryAccepted(last, keep) else multiset{})
  }

  lemma FilesAppend(a: seq<InputEntry>, b: seq<InputEntry>)
    ensures Files(a + b) == Files(a) + Files(b)
    decreases |b|
  {
    if b != [] {
      assert (a + b)[..|a + b| - 1] == a + b[..|b| - 1];
      FilesAppend(a, b[..|b| - 1]);
    } else {
      assert a + b == a;
    }
  }

  /** A folder's accepted files are its own accepted files and those of its sub-folders. */
  lemma {:induction false} AcceptedSplits(es: seq<InputEntry>, keep: string -> bool)
    ensures Accepted(es, keep) == Files(KeptFiles(es, keep)) + SubdirAccepted(es, keep)
  {
    if es != [] {
      var init, last := es[..|es| - 1], es[|es| - 1];
      AcceptedSplits(init, keep);
      var tail := if last.InputFile? && keep(last.file.extension) then [last] else [];
      FilesAppend(KeptFiles(init, keep), tail);
      assert KeptFiles(es, keep) == KeptFiles(init, keep) + tail;
      var sub := if last.InputDir? then EntryAccepted(last, keep) else multiset{};
      assert SubdirAccepted(es, keep) == SubdirAccepted(init, keep) + sub;
      LastAccepted(last, keep);
      assert Accepted(es, keep) == Accepted(init, keep) + (Files(tail) + sub);
      Shuffle(Files(KeptFiles(init, keep)), SubdirAccepted(init, keep), Files(tail), sub);
    }
  }

  lemma Shuffle<T>(a: multiset<T>, b: multiset<T>, c: multiset<T>, d: multiset<T>)
    ensures (a + b) + (c + d) == (a + c) + (b + d)
  {
  }

  /** One entry's accepted files: itself when it is a kept file, its folder's otherwise. */
  lemma LastAccepted(last: InputEntry, keep: string -> bool)
    ensures Files(if last.InputFile? && keep(last.file.extension) then [last] else [])
      + (if last.InputDir? then EntryAccepted(last, keep) else multiset{})
      == EntryAccepted(last, keep)
  {
  }

  /** The filter keeps exactly the accepted files, wherever they were. */
  lemma {:induction false} CleanUpKeepsAccepted(es: seq<InputEntry>, keep: string -> bool)
    ensures Files(CleanUp(es, keep)) == Accepted(es, keep)
  {
    if es != [] {
      var init, last := es[..|es| - 1], es[|es| - 1];
      CleanUpKeepsAccepted(init, keep);
      CleanEntryKeepsAccepted(last, keep);
      FilesAppend(CleanUp(init, keep), CleanEntry(last, keep));
    }
  }

  lemma {:induction false} CleanEntryKeepsAccepted(e: InputEntry, keep: string -> bool)
    ensures Files(CleanEntry(e, keep)) == EntryAccepted(e, keep)
  {
    match e
    case InputFile(f) =>
      if keep(f.extension) {
        assert [e][..0] == [];
      }
    case InputDir(path, inner) =>
      var kept := KeptFiles(inner, keep);
      var head := if |kept| > 0 then [InputDir(path, kept)] else [];
      CleanSubdirsKeepsAccepted(inner, keep);
      AcceptedSplits(inner, keep);
      FilesAppend(head, CleanSubdirs(inner, keep));
      if |kept| > 0 {
        assert head[..0] == [];
      }
  }

  lemma {:induction false} CleanSubdirsKeepsAccepted(es: seq<InputEntry>, keep: string -> bool)
    ensures Files(CleanSubdirs(es, keep)) == SubdirAccepted(es, keep)
  {
    if es != [] {
      var init, last := es[..|es| - 1], es[|es| - 1];
      CleanSubdirsKeepsAccepted(init, keep);
      if last.InputDir? {
        CleanEntryKeepsAccepted(last, keep);
      }
      FilesAppend(CleanSubdirs(init, keep), if last.InputDir? then CleanEntry(last, keep) else []);
    }
  }

  // ---------------------------------------------------------------------------
  // The loop

  /** The number of entries, at any depth: what the recursion on sub-folders spends. */
  function Size(es: seq<InputEntry>): nat {
    if es == [] then 0 else Size(es[..|es| - 1]) + EntrySize(es[|es| - 1])
  }

  function EntrySize(e: InputEntry): nat {
    match e
    case InputFile(_) => 1
    case InputDir(_, inner) => 1 + Size(inner)
  }

  lemma {:induction false} SubdirsSmaller(es: seq<InputEntry>)
    ensures Size(Subdirs(es)) <= Size(es)
  {
    if es != [] {
      var init, last := es[..|es| - 1], es[|es| - 1];
      SubdirsSmaller(init);
      if last.InputDir? {
        var x := Subdirs(init) + [last];
        assert Subdirs(es) == x;
        assert x[..|x| - 1] == Subdirs(init);
        assert Size(x) == Size(Subdirs(init)) + EntrySize(last);
      } else {
        assert Subdirs(es) == Subdirs(init) + [] == Subdirs(init);
        assert Size(es) == Size(init) + EntrySize(last);
      }
    }
  }

  lemma {:induction false} EntryWithin(es: seq<InputEntry>, i: nat)
    requires i < |es|
    ensures EntrySize(es[i]) <= Size(es)
  {
    if i < |es| - 1 {
      EntryWithin(es[..|es| - 1], i);
    }
  }

  /** cleanUpInputArray as the loop it is: entry by entry, recursing into each folder's
      sub-folders. */
  method CleanUpInputArray(entries: seq<InputEntry>, keep: string -> bool) returns (result: seq<InputEntry>)
    ensures result == CleanUp(entries, keep)
    decreases Size(entries)
  {
    result := [];
    for i := 0 to |entries|
      invariant result == CleanUp(entries[..i], keep)
    {
      assert entries[..i + 1][..i] == entries[..i];
      var entry := entries[i];
      match entry {
        case InputFile(f) =>
          if keep(f.extension) {
            result := result + [entry];
          }
        case InputDir(path, inner) =>
          var kept := KeptFiles(inner, keep);
          var rest := Subdirs(inner);
          if |kept| > 0 {
            result := result + [InputDir(path, kept)];
          }
          EntryWithin(entries, i);
          SubdirsSmaller(inner);
          var cleaned := CleanUpInputArray(rest, keep);
          SubdirsCleaned(inner, keep);
          result := result + cleaned;
      }
    }
    assert entries[..|entries|] == entries;
  }

  // ---------------------------------------------------------------------------
  // validTranscript

  /** A converter accepts an extension its own extension contains (`includes`). */
  predicate Converts(converters: seq<string>, extension: string) {
    exists c :: 0 <= c < |converters| && Contains(converters[c], extension)
  }

  /** validTranscript: the `||` over the converters' extensions. */
  method ValidTranscript(converters: seq<string>, extension: string) returns (result: bool)
    ensures result <==> Converts(converters, extension)
  {
    result := false;
    for c := 0 to |converters|
      invariant result <==> exists k :: 0 <= k < c && Contains(converters[k], extension)
    {
      result := result || IndexOf(converters[c], extension) > -1;
    }
  }

  /** `includes` is a substring test: any converter accepts the empty extension, and one whose
      extension is '_annot.json' accepts '.json' as well. */
  lemma ConvertsSubstring(converters: seq<string>, c: nat, extension: string, before: string, after: string)
    requires c < |converters| && converters[c] == before + extension + after
    ensures Converts(converters, extension)
  {
    assert OccursAt(converters[c], extension, |before|) by {
      assert converters[c][|before|..|before| + |extension|] == extension;
    }
  }
}

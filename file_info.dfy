/** A file the portal works on: a name split into name and extension, an optional file
    object or URL, and the static string helpers that split, escape and derive names
    (src/app/obj/fileInfo.ts). */
module FileInfos {
  import opened Wrappers
  import opened Strings

  /** The content of a browser File object; only its presence matters here. */
  datatype Blob = Blob(content: string)

  /** The `{name, extension}` record extractFileName returns. */
  datatype NameParts = NameParts(name: string, extension: string)

  // ---------------------------------------------------------------------------
  // extractFileName

  /** The part of a path after its last '/'. */
  function StripPath(fullname: string): (r: string)
    ensures '/' !in r
    ensures '/' !in fullname ==> r == fullname
  {
    var lastSlash := LastIndexOf(fullname, '/');
    if lastSlash > -1 then fullname[lastSlash + 1..] else fullname
  }

  /** extractFileName: `Success(None)` for null and '', `Failure` where it throws. */
  function ExtractFileName(fullname: Option<string>): (r: Result<Option<NameParts>>)
    ensures r.Success? && r.value.None? <==> fullname.None? || fullname.value == []
    ensures r.Success? && r.value.Some? ==> WellFormedParts(r.value.value)
  {
    if fullname.Some? && fullname.value != [] then
      var stripped := StripPath(fullname.value);
      var extensionBegin := LastIndexOf(stripped, '.');
      if extensionBegin > -1 then
        Success(Some(NameParts(stripped[..extensionBegin], stripped[extensionBegin..])))
      else
        Failure("invalid fullname. Fullname must contain the file extension")
    else Success(None)
  }

  /** A name and extension as extractFileName produces them: no '/' anywhere, and an
      extension that is a '.' followed by no further '.'. */
  predicate WellFormedParts(p: NameParts) {
    '/' !in p.name && '/' !in p.extension
      && |p.extension| >= 1 && p.extension[0] == '.' && '.' !in p.extension[1..]
  }

  /** Null and the empty string have no name. */
  lemma ExtractAbsent(fullname: Option<string>)
    requires fullname.None? || fullname == Some([])
    ensures ExtractFileName(fullname) == Success(None)
  {
  }

  /** extractFileName throws exactly when the part after the last '/' has no '.'. */
  lemma ExtractFails(fullname: string)
    requires fullname != []
    ensures ExtractFileName(Some(fullname)).Failure? <==> '.' !in StripPath(fullname)
  {
  }

  /** The parts of a non-empty name: they concatenate back to the name without its path,
      the path is gone, and the extension starts at the last '.'. */
  lemma ExtractSplits(fullname: string)
    requires fullname != [] && '.' in StripPath(fullname)
    ensures ExtractFileName(Some(fullname)).Success?
    ensures var p := ExtractFileName(Some(fullname)).value;
      p.Some? && p.value.name + p.value.extension == StripPath(fullname) && WellFormedParts(p.value)
  {
    SplitAtLastDot(StripPath(fullname));
  }

  /** Cutting a name without '/' at its last '.' gives well-formed parts that join back. */
  lemma SplitAtLastDot(stripped: string)
    requires '/' !in stripped && '.' in stripped
    ensures var k := LastIndexOf(stripped, '.');
      0 <= k && stripped[..k] + stripped[k..] == stripped
      && WellFormedParts(NameParts(stripped[..k], stripped[k..]))
  {
    var k := LastIndexOf(stripped, '.');
    assert stripped[..k] + stripped[k..] == stripped;
    assert stripped[k..][1..] == stripped[k + 1..];
    assert forall i :: 0 <= i < k ==> stripped[..k][i] in stripped;
    assert forall i :: 0 <= i < |stripped[k..]| ==> stripped[k..][i] in stripped;
  }

  /** Joining well-formed parts and extracting again gives the same parts. */
  lemma ExtractJoin(p: NameParts)
    requires WellFormedParts(p)
    ensures ExtractFileName(Some(p.name + p.extension)) == Success(Some(p))
  {
    var s := p.name + p.extension;
    assert s[|p.name|] == '.';
    assert '/' !in s by {
      forall i | 0 <= i < |s| ensures s[i] != '/' {
        if i < |p.name| { assert s[i] == p.name[i]; } else { assert s[i] == p.extension[i - |p.name|]; }
      }
    }
    assert s[|p.name| + 1..] == p.extension[1..];
    assert s[..|p.name|] == p.name;
    assert s[|p.name|..] == p.extension;
  }

  // ---------------------------------------------------------------------------
  // escapeFileName

  /** The characters of JavaScript's `\s` class. */
  predicate IsJsWhitespace(c: char) {
    c == '\t' || c == '\n' || c == '\U{000B}' || c == '\U{000C}' || c == '\r' || c == ' '
      || c == '\U{00A0}' || c == '\U{1680}' || ('\U{2000}' <= c <= '\U{200A}')
      || c == '\U{2028}' || c == '\U{2029}' || c == '\U{202F}' || c == '\U{205F}'
      || c == '\U{3000}' || c == '\U{FEFF}'
  }

  /** The characters escapeFileName replaces. */
  predicate Unsafe(c: char) {
    IsJsWhitespace(c) || c in "/?!%*()[]{}&:=+#'<>^;,\U{00C2}\U{00E2}\U{00B0}"
  }

  /** escapeFileName: every whitespace and every listed character becomes '_'. */
  function EscapeFileName(name: string): (r: string)
    ensures |r| == |name|
    ensures forall i :: 0 <= i < |r| ==> !Unsafe(r[i])
    ensures forall i :: 0 <= i < |r| ==> r[i] == name[i] || (r[i] == '_' && Unsafe(name[i]))
  {
    if name == [] then []
    else [if Unsafe(name[0]) then '_' else name[0]] + EscapeFileName(name[1..])
  }

  /** Escaping an escaped name changes nothing. */
  lemma EscapeIdempotent(name: string)
    ensures EscapeFileName(EscapeFileName(name)) == EscapeFileName(name)
  {
  }

  /** A name without unsafe characters is left as it is. */
  lemma {:induction false} EscapeKeepsSafe(name: string)
    requires forall i :: 0 <= i < |name| ==> !Unsafe(name[i])
    ensures EscapeFileName(name) == name
  {
    if name != [] { EscapeKeepsSafe(name[1..]); }
  }

  // ---------------------------------------------------------------------------
  // The fullname setter and fromURL

  /** What the fullname setter stores: the text before the last '.' as name and the text
      after it as extension; with no '.', `substr(0, -1)` is '' and the whole value is the
      extension. */
  function SetterParts(value: string): (p: NameParts) {
    var point := LastIndexOf(value, '.');
    NameParts(if point < 0 then [] else value[..point], value[point + 1..])
  }

  /** The setter loses the dot: reading fullname back gives the value without its last '.'. */
  lemma SetterDropsDot(value: string)
    ensures var p := SetterParts(value);
      if '.' in value then
        var k := LastIndexOf(value, '.');
        p.name + p.extension == value[..k] + value[k + 1..] && |p.name + p.extension| == |value| - 1
      else p.name + p.extension == value
  {
  }

  lemma SetterExample()
    ensures SetterParts("a.wav") == NameParts("a", "wav")
  {
    assert LastIndexOf("a.wav", '.') == 1 by {
      assert "a.wav"[1] == '.' && "a.wav"[2..] == "wav";
    }
  }

  /** The fullname fromURL builds: the given name, a '.', and the URL after its last '.';
      without a name, the URL after its last '/'. */
  function FullnameFromURL(url: string, name: Option<string>): (r: string)
    ensures name.Some? ==> IsPrefix(name.value + ".", r) && |r| > |name.value|
    ensures name.None? ==> '/' !in r && (exists k | 0 <= k <= |url| :: r == url[k..])
  {
    if name.Some? then
      name.value + "." + url[LastIndexOf(url, '.') + 1..]
    else
      var k := LastIndexOf(url, '/') + 1;
      url[k..]
  }

  /** With a name and a URL whose last '.' comes after its last '/', the extension found
      again is the URL's own. */
  lemma FromURLExtension(url: string, name: string, k: nat)
    requires '/' !in name && '.' !in name
    requires k < |url| && url[k] == '.' && '.' !in url[k + 1..] && '/' !in url[k + 1..]
    ensures ExtractFileName(Some(FullnameFromURL(url, Some(name)))) == Success(Some(NameParts(name, url[k..])))
  {
    assert LastIndexOf(url, '.') == k;
    assert url[k..][1..] == url[k + 1..];
    assert "." + url[k + 1..] == url[k..];
    assert name + "." + url[k + 1..] == name + url[k..];
    ExtractJoin(NameParts(name, url[k..]));
  }

  // ---------------------------------------------------------------------------
  // The class

  class FileInfo {
    var name: string
    var extension: string
    const mimeType: string
    var size: int
    var file: Option<Blob>
    var url: Option<string>
    var online: bool
    const createdAt: int
    /** `attributes.originalFileName`, set when a file was renamed on import. */
    var originalFileName: Option<string>

    constructor Make(parts: NameParts, mimeType: string, size: int, file: Option<Blob>, createdAt: Option<int>)
      ensures this.name == parts.name && this.extension == parts.extension
      ensures this.mimeType == mimeType && this.size == size && this.file == file
      ensures this.url.None? && this.online
      ensures this.createdAt == createdAt.GetOr(0) && originalFileName.None?
    {
      this.name := parts.name;
      this.extension := parts.extension;
      this.mimeType := mimeType;
      this.size := size;
      this.file := file;
      this.url := None;
      this.online := true;
      this.createdAt := createdAt.GetOr(0);
      this.originalFileName := None;
    }

    /** The `fullname` getter. */
    function Fullname(): (r: string)
      reads this
      ensures WellFormedParts(NameParts(name, extension)) ==>
        ExtractFileName(Some(r)) == Success(Some(NameParts(name, extension)))
    {
      assert WellFormedParts(NameParts(name, extension)) ==>
        ExtractFileName(Some(name + extension)) == Success(Some(NameParts(name, extension))) by {
        if WellFormedParts(NameParts(name, extension)) { ExtractJoin(NameParts(name, extension)); }
      }

      name + extension
    }

    /** The `available` getter: ready for processing when online or holding a file object. */
    predicate Available()
      reads this
      ensures file.Some? ==> Available()
      ensures !online ==> (Available() <==> file.Some?)
    {
      online || file.Some?
    }

    /** The `fullname` setter. */
    method SetFullname(value: string)
      modifies this
      ensures NameParts(name, extension) == SetterParts(value)
      ensures Fullname() == SetterParts(value).name + SetterParts(value).extension
      ensures size == old(size) && file == old(file)
      ensures url == old(url) && online == old(online) && originalFileName == old(originalFileName)
    {
      var point := LastIndexOf(value, '.');
      name := if point < 0 then [] else value[..point];
      extension := value[point + 1..];
    }

    method SetFile(value: Option<Blob>)
      modifies this
      ensures file == value && Available() == (online || value.Some?)
      ensures size == old(size)
      ensures name == old(name) && extension == old(extension) && url == old(url) && online == old(online)
      ensures originalFileName == old(originalFileName)
    {
      file := value;
    }

    method SetUrl(value: Option<string>)
      modifies this
      ensures url == value
      ensures size == old(size)
      ensures name == old(name) && extension == old(extension) && file == old(file) && online == old(online)
      ensures originalFileName == old(originalFileName)
    {
      url := value;
    }

    method SetOnline(value: bool)
      modifies this
      ensures online == value && Available() == (value || file.Some?)
      ensures size == old(size)
      ensures name == old(name) && extension == old(extension) && file == old(file) && url == old(url)
      ensures originalFileName == old(originalFileName)
    {
      online := value;
    }
  }

  /** `new FileInfo(fullname, type, size, file, createdAt)`: fails where the constructor
      throws, which is for null, '' and a name without extension. */
  method NewFileInfo(fullname: Option<string>, mimeType: string, size: int, file: Option<Blob>, createdAt: Option<int>)
    returns (r: Result<FileInfo>)
    ensures r.Success? <==> ExtractFileName(fullname).Success? && ExtractFileName(fullname).value.Some?
    ensures r.Success? ==>
      var p := ExtractFileName(fullname).value.value;
      fresh(r.value) && r.value.name == p.name && r.value.extension == p.extension
      && r.value.mimeType == mimeType && r.value.size == size && r.value.file == file
      && r.value.url.None? && r.value.online && r.value.createdAt == createdAt.GetOr(0)
      && r.value.originalFileName.None?
  {
    var extraction := ExtractFileName(fullname);
    if extraction.Failure? {
      return Failure(extraction.error);
    }
    if extraction.value.None? {
      return Failure("could not extract file name.");
    }
    var f := new FileInfo.Make(extraction.value.value, mimeType, size, file, createdAt);
    return Success(f);
  }

  /** fromURL: size 0, no file object, the URL recorded. */
  method FromURL(url: string, name: Option<string>, mimeType: string, createdAt: int)
    returns (r: Result<FileInfo>)
    ensures var x := ExtractFileName(Some(FullnameFromURL(url, name)));
      r.Success? <==> x.Success? && x.value.Some?
    ensures r.Success? ==>
      var p := ExtractFileName(Some(FullnameFromURL(url, name))).value.value;
      fresh(r.value) && r.value.name == p.name && r.value.extension == p.extension
      && r.value.size == 0 && r.value.file.None? && r.value.url == Some(url)
      && r.value.createdAt == createdAt && r.value.mimeType == mimeType && r.value.online
  {
    var fullname := FullnameFromURL(url, name);
    r := NewFileInfo(Some(fullname), mimeType, 0, None, Some(createdAt));
    if r.Success? {
      r.value.SetUrl(Some(url));
    }
  }

  /** The record toAny writes and fromAny reads (content only for non-wav files). Of the
      `attributes` object only `originalFileName` is kept. */
  datatype FileRecord = FileRecord(
    fullname: Option<string>, mimeType: string, size: int, url: Option<string>,
    createdAt: Option<int>, content: Option<string>, originalFileName: Option<string>)

  /** What fromAny makes of a record: the extracted name and extension, the record's type,
      size, URL, creation time and attributes, and a file object rebuilt from non-empty content. */
  predicate RecordRestored(o: FileRecord, f: FileInfo)
    reads f
  {
    var x := ExtractFileName(o.fullname);
    x.Success? && x.value.Some?
    && f.name == x.value.value.name && f.extension == x.value.value.extension
    && f.mimeType == o.mimeType && f.size == o.size && f.url == o.url
    && f.createdAt == o.createdAt.GetOr(0) && f.originalFileName == o.originalFileName
    && f.file == (if o.content.Some? && o.content.value != [] then Some(Blob(o.content.value)) else None)
  }

  /** fromAny: a file object is rebuilt from non-empty content; the attributes and the URL are
      copied. */
  method FromAny(o: FileRecord) returns (r: Result<FileInfo>)
    ensures var x := ExtractFileName(o.fullname); r.Success? <==> x.Success? && x.value.Some?
    ensures r.Success? ==> fresh(r.value) && RecordRestored(o, r.value)
  {
    var file: Option<Blob> := None;
    if o.content.Some? && o.content.value != [] {
      file := Some(Blob(o.content.value));
    }
    r := NewFileInfo(o.fullname, o.mimeType, o.size, file, o.createdAt);
    if r.Success? {
      r.value.originalFileName := o.originalFileName;
      r.value.SetUrl(o.url);
    }
  }

  /** The synchronous part of toAny (content is filled in asynchronously for non-wav files). */
  function ToRecord(f: FileInfo): (o: FileRecord)
    reads f
    ensures o.fullname == Some(f.Fullname()) && o.size == f.size && o.url == f.url
    ensures o.mimeType == f.mimeType && o.createdAt == Some(f.createdAt)
    ensures o.originalFileName == f.originalFileName && o.content.None?
  {
    FileRecord(Some(f.Fullname()), f.mimeType, f.size, f.url, Some(f.createdAt), None, f.originalFileName)
  }

  /** The full name toAny writes extracts back to the file's own name and extension, provided
      they are as the constructor made them. */
  lemma RecordNameRoundTrip(f: FileInfo)
    requires WellFormedParts(NameParts(f.name, f.extension))
    ensures ExtractFileName(ToRecord(f).fullname) == Success(Some(NameParts(f.name, f.extension)))
  {
    ExtractJoin(NameParts(f.name, f.extension));
  }

  /** fromAny reads back what toAny writes: restoring succeeds, and the restored file has the
      written file's name, extension, type, size, URL, creation time and original file name.
      The file object is not carried, since the record's content is filled in later. */
  lemma RecordRoundTrip(f: FileInfo, g: FileInfo)
    requires WellFormedParts(NameParts(f.name, f.extension))
    requires RecordRestored(ToRecord(f), g)
    ensures var x := ExtractFileName(ToRecord(f).fullname); x.Success? && x.value.Some?
    ensures g.name == f.name && g.extension == f.extension && g.mimeType == f.mimeType
    ensures g.size == f.size && g.url == f.url && g.createdAt == f.createdAt
    ensures g.originalFileName == f.originalFileName && g.file.None?
  {
  }
}

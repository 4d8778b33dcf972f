/** The diagnostic "protocol" text of an operation and its parsed form, a list of
    `{type, message}` records (src/app/obj/operations/operation.ts, parseProtocol). */
module Protocols {
  import opened Strings
  import opened Wrappers

  datatype Severity = WARNING | ERROR

  datatype ProtocolEntry = ProtocolEntry(kind: Severity, message: string)

  /** The characters at which a JavaScript multiline regex's `$` matches and `.` stops. */
  predicate IsLineTerminator(c: char) {
    c == '\n' || c == '\r' || c == ' ' || c == ' '
  }

  predicate NoTerminator(s: string) {
    forall i :: 0 <= i < |s| ==> !IsLineTerminator(s[i])
  }

  function FirstTerminator(s: string): (r: int)
    ensures -1 <= r < |s|
    ensures r >= 0 ==> IsLineTerminator(s[r]) && NoTerminator(s[..r])
    ensures r == -1 <==> NoTerminator(s)
  {
    if s == [] then -1
    else if IsLineTerminator(s[0]) then 0
    else
      var k := FirstTerminator(s[1..]);
      assert NoTerminator(s[1..]) ==> NoTerminator(s) by {
        if NoTerminator(s[1..]) {
          forall i | 0 <= i < |s| ensures !IsLineTerminator(s[i]) {
            if i > 0 { assert s[i] == s[1..][i - 1]; }
          }
        }
      }
      if k < 0 then -1
      else
        assert s[..k + 1] == [s[0]] + s[1..][..k];
        k + 1
  }

  /** The lines of a text, split at every line terminator. */
  function SplitLines(s: string): (r: seq<string>)
    ensures |r| >= 1
    ensures forall i :: 0 <= i < |r| ==> NoTerminator(r[i])
    decreases |s|
  {
    var k := FirstTerminator(s);
    if k < 0 then [s] else [s[..k]] + SplitLines(s[k + 1..])
  }

  const ErrorTag := "ERROR: "
  const WarningTag := "WARNING: "

  /** The match of `((?:ERROR)|(?:WARNING)): (.+)$` starting exactly at position p of a line. */
  function MatchAt(line: string, p: nat): Option<ProtocolEntry>
    requires NoTerminator(line)
  {
    if OccursAt(line, ErrorTag, p) && p + |ErrorTag| < |line| then
      Some(ProtocolEntry(ERROR, line[p + |ErrorTag|..]))
    else if OccursAt(line, WarningTag, p) && p + |WarningTag| < |line| then
      Some(ProtocolEntry(WARNING, line[p + |WarningTag|..]))
    else None
  }

  /** The leftmost match in a line at or after position p; `.+` then runs to the end of the line. */
  function MatchFrom(line: string, p: nat): (r: Option<ProtocolEntry>)
    requires NoTerminator(line)
    ensures r.Some? ==> r.value.message != [] && NoTerminator(r.value.message)
    decreases |line| - p
  {
    if p >= |line| then None
    else
      var m := MatchAt(line, p);
      if m.Some? then
        assert forall i :: 0 <= i < |m.value.message| ==> m.value.message[i] in line;
        m
      else MatchFrom(line, p + 1)
  }

  function Collect(lines: seq<string>): (r: seq<ProtocolEntry>)
    requires forall i :: 0 <= i < |lines| ==> NoTerminator(lines[i])
    ensures |r| <= |lines|
    ensures forall i :: 0 <= i < |r| ==> r[i].message != [] && NoTerminator(r[i].message)
  {
    if lines == [] then []
    else
      var m := MatchFrom(lines[0], 0);
      (if m.Some? then [m.value] else []) + Collect(lines[1..])
  }

  /** The record one line contributes: its match, if any. */
  function LineRecords(line: string): (r: seq<ProtocolEntry>)
    requires NoTerminator(line)
    ensures |r| <= 1
  {
    var m := MatchFrom(line, 0);
    if m.Some? then [m.value] else []
  }

  /** One step of the line-by-line scan: once `acc` holds the records of the lines before i,
      appending line i's record keeps that true for the lines before i + 1. */
  lemma CollectStep(lines: seq<string>, i: nat, acc: seq<ProtocolEntry>)
    requires i < |lines| && forall k :: 0 <= k < |lines| ==> NoTerminator(lines[k])
    requires acc + Collect(lines[i..]) == Collect(lines)
    ensures NoTerminator(lines[i])
    ensures (acc + LineRecords(lines[i])) + Collect(lines[i + 1..]) == Collect(lines)
  {
    CollectCons(lines, i);
    var head, tail := LineRecords(lines[i]), Collect(lines[i + 1..]);
    Regroup(acc, head + tail, head, tail, Collect(lines));
  }

  lemma CollectCons(lines: seq<string>, i: nat)
    requires i < |lines| && forall k :: 0 <= k < |lines| ==> NoTerminator(lines[k])
    ensures NoTerminator(lines[i])
    ensures Collect(lines[i..]) == LineRecords(lines[i]) + Collect(lines[i + 1..])
  {
    assert lines[i..][0] == lines[i];
    assert lines[i..][1..] == lines[i + 1..];
  }

  lemma Regroup<T>(acc: seq<T>, rest: seq<T>, head: seq<T>, tail: seq<T>, whole: seq<T>)
    requires acc + rest == whole && rest == head + tail
    ensures (acc + head) + tail == whole
  {
  }

  /** parseProtocol: the empty text has no records; otherwise `<br/>` counts as a line break and
      every line holding `ERROR: ` or `WARNING: ` with at least one character after it gives one
      record, in text order, whose message is the rest of that line. */
  function ParseProtocol(protocol: string): (r: seq<ProtocolEntry>)
    ensures protocol == [] ==> r == []
    ensures forall i :: 0 <= i < |r| ==> r[i].message != [] && NoTerminator(r[i].message)
  {
    if protocol == [] then []
    else Collect(SplitLines(ReplaceAll(protocol, "<br/>", "\n")))
  }

  /** At most one record per line, once `<br/>` counts as a line break. */
  lemma ParseProtocolPerLine(protocol: string)
    ensures |ParseProtocol(protocol)| <= |SplitLines(ReplaceAll(protocol, "<br/>", "\n"))|
  {
  }

  // ---------------------------------------------------------------------------
  // The partner: writing records out as text, one per line.

  function Tag(kind: Severity): string {
    match kind
    case ERROR => ErrorTag
    case WARNING => WarningTag
  }

  function RenderLine(e: ProtocolEntry): string {
    Tag(e.kind) + e.message
  }

  function Render(es: seq<ProtocolEntry>): string {
    if es == [] then []
    else if |es| == 1 then RenderLine(es[0])
    else RenderLine(es[0]) + "\n" + Render(es[1..])
  }

  /** Messages that survive a trip through the text form: non-empty, on one line, without '<'. */
  predicate Writable(e: ProtocolEntry) {
    e.message != [] && NoTerminator(e.message) && '<' !in e.message
  }

  function RenderLines(es: seq<ProtocolEntry>): seq<string> {
    if es == [] then [] else [RenderLine(es[0])] + RenderLines(es[1..])
  }

  lemma RenderLineParses(e: ProtocolEntry)
    requires Writable(e)
    ensures NoTerminator(RenderLine(e)) && '<' !in RenderLine(e)
    ensures MatchFrom(RenderLine(e), 0) == Some(e)
  {
    var line := RenderLine(e);
    var n := |Tag(e.kind)|;
    assert line[..n] == Tag(e.kind);
    assert line[n..] == e.message;
    forall i | 0 <= i < |line| ensures !IsLineTerminator(line[i]) && line[i] != '<' {
      if i >= n { assert line[i] == e.message[i - n]; }
    }
    if e.kind == WARNING {
      assert !OccursAt(line, ErrorTag, 0) by { assert line[0] == 'W'; }
    }
  }

  lemma FirstTerminatorAt(s: string, k: nat)
    requires k < |s| && IsLineTerminator(s[k]) && NoTerminator(s[..k])
    ensures FirstTerminator(s) == k
  {
    var r := FirstTerminator(s);
    assert forall i :: 0 <= i < k ==> s[..k][i] == s[i];
  }

  lemma SplitLinesCons(a: string, b: string)
    requires NoTerminator(a)
    ensures SplitLines(a + "\n" + b) == [a] + SplitLines(b)
  {
    var s := a + "\n" + b;
    assert s[..|a|] == a;
    FirstTerminatorAt(s, |a|);
    assert s[|a| + 1..] == b;
  }

  lemma {:induction false} RenderShape(es: seq<ProtocolEntry>)
    requires forall i :: 0 <= i < |es| ==> Writable(es[i])
    ensures '<' !in Render(es)
    ensures es != [] ==> Render(es) != [] && SplitLines(Render(es)) == RenderLines(es)
  {
    if es != [] {
      RenderLineParses(es[0]);
      var first := RenderLine(es[0]);
      assert |first| > 0;
      if |es| == 1 {
        assert FirstTerminator(first) == -1;
      } else {
        RenderShape(es[1..]);
        var rest := Render(es[1..]);
        SplitLinesCons(first, rest);
        NoAngleJoin(first, rest);
        assert Render(es) == first + "\n" + rest;
        assert RenderLines(es) == [first] + RenderLines(es[1..]);
      }
    }
  }

  /** Two lines without '<' joined by a newline have none. */
  lemma NoAngleJoin(a: string, b: string)
    requires '<' !in a && '<' !in b
    ensures '<' !in a + "\n" + b
  {
    var s := a + "\n" + b;
    forall i | 0 <= i < |s| ensures s[i] != '<' {
      if i < |a| { assert s[i] == a[i]; }
      else if i > |a| { assert s[i] == b[i - |a| - 1]; }
    }
  }

  lemma {:induction false} CollectRendered(es: seq<ProtocolEntry>)
    requires forall i :: 0 <= i < |es| ==> Writable(es[i])
    ensures forall i :: 0 <= i < |RenderLines(es)| ==> NoTerminator(RenderLines(es)[i])
    ensures Collect(RenderLines(es)) == es
  {
    RenderLinesOneLine(es);
    if es != [] {
      CollectRendered(es[1..]);
      RenderLineParses(es[0]);
      var lines := RenderLines(es);
      assert lines[0] == RenderLine(es[0]) && lines[1..] == RenderLines(es[1..]);
      assert lines[0..] == lines;
      CollectCons(lines, 0);
      assert LineRecords(lines[0]) == [es[0]];
      assert es == [es[0]] + es[1..];
    }
  }

  /** Every rendered line of writable records is a single line. */
  lemma {:induction false} RenderLinesOneLine(es: seq<ProtocolEntry>)
    requires forall i :: 0 <= i < |es| ==> Writable(es[i])
    ensures forall i :: 0 <= i < |RenderLines(es)| ==> NoTerminator(RenderLines(es)[i])
  {
    if es != [] {
      RenderLinesOneLine(es[1..]);
      RenderLineParses(es[0]);
      var lines, rest := RenderLines(es), RenderLines(es[1..]);
      assert lines == [RenderLine(es[0])] + rest;
      forall i | 0 <= i < |lines| ensures NoTerminator(lines[i]) {
        if i > 0 { assert lines[i] == rest[i - 1]; }
      }
    }
  }

  lemma NoBreakTag(text: string)
    requires '<' !in text
    ensures ReplaceAll(text, "<br/>", "\n") == text
  {
    assert !Contains(text, "<br/>") by {
      forall k | 0 <= k <= |text| - 5 ensures !OccursAt(text, "<br/>", k) {
        assert text[k] in text;
      }
    }
  }

  /** The text of writable records: non-empty, free of `<br/>`, and split into their lines. */
  lemma RenderFacts(es: seq<ProtocolEntry>)
    requires es != [] && forall i :: 0 <= i < |es| ==> Writable(es[i])
    ensures Render(es) != []
    ensures ReplaceAll(Render(es), "<br/>", "\n") == Render(es)
    ensures Collect(SplitLines(Render(es))) == es
  {
    RenderShape(es);
    NoBreakTag(Render(es));
    CollectRendered(es);
  }

  /** Records written out one per line are parsed back exactly. */
  lemma ParseRender(es: seq<ProtocolEntry>)
    requires forall i :: 0 <= i < |es| ==> Writable(es[i])
    ensures ParseProtocol(Render(es)) == es
  {
    if es != [] {
      RenderFacts(es);
    }
  }
}

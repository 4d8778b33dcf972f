/** The console buffer the bug-report service keeps and the package it sends
    (src/app/shared/bug-report.service.ts). */
module BugReports {

  datatype ConsoleType = LOG | INFO | WARN | ERROR

  datatype ConsoleEntry = ConsoleEntry(kind: ConsoleType, message: string)

  /** What `BrowserInfo` reports about the browser; it reads a foreign global, so it is given. */
  datatype BrowserFacts = BrowserFacts(osFamily: string, osVersion: string, browser: string, browserVersion: string)

  /** The object `getPackage` builds. */
  datatype Package = Package(
    portalVersion: string,
    osName: string, osVersion: string,
    browser: string, systemVersion: string,
    entries: seq<ConsoleEntry>)

  /** The entries the `hasErrors` filter keeps. */
  function Errors(es: seq<ConsoleEntry>): (r: seq<ConsoleEntry>)
    ensures |r| <= |es|
    ensures forall i :: 0 <= i < |r| ==> r[i].kind == ERROR
  {
    if es == [] then []
    else Errors(es[..|es| - 1]) + (if es[|es| - 1].kind == ERROR then [es[|es| - 1]] else [])
  }

  /** The filter keeps something exactly when some entry is an error. */
  lemma {:induction false} ErrorsNonEmpty(es: seq<ConsoleEntry>)
    ensures |Errors(es)| > 0 <==> exists i :: 0 <= i < |es| && es[i].kind == ERROR
  {
    if es != [] {
      var init := es[..|es| - 1];
      ErrorsNonEmpty(init);
      if exists i :: 0 <= i < |init| && init[i].kind == ERROR {
        var i :| 0 <= i < |init| && init[i].kind == ERROR;
        assert es[i].kind == ERROR;
      }
      if exists i :: 0 <= i < |es| && es[i].kind == ERROR {
        var i :| 0 <= i < |es| && es[i].kind == ERROR;
        if i < |init| {
          assert init[i].kind == ERROR;
        }
      }
    }
  }

  /** Filtering distributes over appending, so adding an entry keeps the earlier errors. */
  lemma {:induction false} ErrorsAppend(a: seq<ConsoleEntry>, b: seq<ConsoleEntry>)
    ensures Errors(a + b) == Errors(a) + Errors(b)
  {
    if b == [] {
      assert a + b == a;
    } else {
      var init, last := b[..|b| - 1], b[|b| - 1];
      var tail := if last.kind == ERROR then [last] else [];
      ErrorsAppend(a, init);
      var ab := a + b;
      assert ab[..|ab| - 1] == a + init && ab[|ab| - 1] == last;
      assert Errors(ab) == Errors(a + init) + tail;
      assert Errors(b) == Errors(init) + tail;
    }
  }

  class BugReportService {
    /** `_console` */
    var console: seq<ConsoleEntry>

    constructor ()
      ensures console == []
    {
      console := [];
    }

    /** `hasErrors` */
    function HasErrors(): (r: bool)
      reads this
      ensures r <==> exists i :: 0 <= i < |console| && console[i].kind == ERROR
    {
      ErrorsNonEmpty(console);
      |Errors(console)| > 0
    }

    /** `addEntry`: one entry at the end, the earlier ones as they were. */
    method AddEntry(kind: ConsoleType, message: string)
      modifies this
      ensures console == old(console) + [ConsoleEntry(kind, message)]
      ensures HasErrors() <==> old(HasErrors()) || kind == ERROR
    {
      ErrorsAppend(console, [ConsoleEntry(kind, message)]);
      ErrorsNonEmpty(console);
      console := console + [ConsoleEntry(kind, message)];
      ErrorsNonEmpty(console);
    }

    /** `clear` */
    method Clear()
      modifies this
      ensures console == [] && !HasErrors()
    {
      console := [];
    }

    /** `getPackage`: the portal version, what the browser reports, and the console as it is. */
    function GetPackage(portalVersion: string, info: BrowserFacts): (p: Package)
      reads this
      ensures p.entries == console && p.portalVersion == portalVersion
      ensures p.osName == info.osFamily && p.osVersion == info.osVersion && p.systemVersion == info.osVersion
      ensures p.browser == info.browser + " " + info.browserVersion
    {
      Package(portalVersion, info.osFamily, info.osVersion, info.browser + " " + info.browserVersion, info.osVersion, console)
    }
  }
}

/** The package checker's decisions, apart from its I/O: the package list is parsed line by
    line into `name@version` entries. A version-less entry takes the recommended version of
    a compatible package. An entry whose package is installed is compared with the installed
    version, and the user is asked about an upgrade or a downgrade. Every entry marked for
    install becomes one install request. */
module PackageChecker {
  import opened Wrappers
  import opened Strings
  import opened VersionCompare

  /** One line of the package list: a package name and, when the line gives one, a version
      (`null` in the C# code). */
  datatype PackageEntry = PackageEntry(name: string, version: Option<string>)

  /** A package the registry offers for this editor, with its recommended version (empty
      when there is none). */
  datatype CompatiblePackage = CompatiblePackage(name: string, recommended: string)

  /** A package already installed in the project. */
  datatype InstalledPackage = InstalledPackage(name: string, version: string)

  /** What the checker decided for one entry: the entry with the version it ended up with,
      and whether it is marked for install. */
  datatype Decision = Decision(entry: PackageEntry, install: bool)

  /** The user's answer to the upgrade or downgrade dialog shown for entry `i` and installed
      package `j`; each such pair is asked about at most once. */
  type Answers = (nat, nat) -> bool

  /** What stops the whole check: a version that does not convert, or (in the code as
      written) a comparison against a missing version. */
  datatype CheckError = Convert(error: ConvertError) | NullReference

  // ---------------------------------------------------------------------------
  // Parsing and formatting

  /** A line split at '@': the name is the text before the first '@', the version the text
      between the first and the second; with no '@' there is no version. */
  function ParseLine(line: string): (e: PackageEntry)
    ensures '@' !in e.name
    ensures e.version.None? <==> '@' !in line
    ensures e.version.None? ==> e.name == line
    ensures e.version.Some? ==>
      var head := e.name + "@" + e.version.value;
      && '@' !in e.version.value
      && |head| <= |line| && line[..|head|] == head
      && (|head| == |line| || line[|head|] == '@')
  {
    var parts := Split(line, '@');
    JoinFront(parts, '@');
    PackageEntry(parts[0], if |parts| > 1 then Some(parts[1]) else None)
  }

  /** The first two parts of a join, and what follows them. */
  lemma JoinFront(parts: seq<string>, sep: char)
    requires |parts| >= 1
    requires forall i :: 0 <= i < |parts| ==> sep !in parts[i]
    ensures |parts| == 1 ==> Join(parts, sep) == parts[0]
    ensures |parts| > 1 ==>
      var head := parts[0] + [sep] + parts[1];
      var s := Join(parts, sep);
      |head| <= |s| && s[..|head|] == head && (|head| == |s| || s[|head|] == sep)
    ensures sep in Join(parts, sep) <==> |parts| > 1
  {
    if |parts| > 1 {
      var s := Join(parts, sep);
      var head := parts[0] + [sep] + parts[1];
      if |parts| == 2 {
        assert s == head;
      } else {
        var rest := Join(parts[2..], sep);
        assert parts[1..][1..] == parts[2..];
        assert s == head + [sep] + rest;
        assert s[|head|] == sep;
      }
      assert s[|parts[0]|] == sep;
    }
  }

  /** The string handed to the package manager: `name@version`, or the bare name when the
      entry has no version. */
  function InstallRequest(e: PackageEntry): (request: string)
    ensures e.version.None? ==> request == e.name
    ensures e.version.Some? ==> |request| == |e.name| + 1 + |e.version.value|
  {
    match e.version
    case None => e.name
    case Some(v) => e.name + "@" + v
  }

  /** Parsing an install request gives back the entry, when neither its name nor its version
      holds an '@'. */
  lemma ParseInstallRequest(e: PackageEntry)
    requires '@' !in e.name
    requires e.version.Some? ==> '@' !in e.version.value
    ensures ParseLine(InstallRequest(e)) == e
  {
    if e.version.Some? {
      var parts := [e.name, e.version.value];
      assert Join(parts, '@') == InstallRequest(e);
      SplitJoin(parts, '@');
    }
  }

  // ---------------------------------------------------------------------------
  // The decision table

  /** A compatible package recommending a version for `name`. */
  predicate Recommends(p: CompatiblePackage, name: string) {
    p.name == name && p.recommended != ""
  }

  /** The scan of the compatible packages for an entry that had no version, from package
      `k` on: each package recommending a version for the entry gives it that version and
      marks it, so the last one wins. */
  function FillScan(d: Decision, compatible: seq<CompatiblePackage>, k: nat): (r: Decision)
    ensures r.entry.name == d.entry.name
    decreases |compatible| - k
  {
    if k >= |compatible| then d
    else
      var p := compatible[k];
      var next := if Recommends(p, d.entry.name) then Decision(d.entry.(version := Some(p.recommended)), true) else d;
      FillScan(next, compatible, k + 1)
  }

  /** The entry once the compatible packages have been scanned; it starts unmarked, and only
      an entry without a version is scanned. */
  function Fill(e: PackageEntry, compatible: seq<CompatiblePackage>): (d: Decision)
    ensures d.entry.name == e.name
  {
    var start := Decision(e, false);
    if e.version.None? then FillScan(start, compatible, 0) else start
  }

  /** An entry with a version is left as it is, unmarked. */
  lemma FillKeepsGivenVersion(e: PackageEntry, compatible: seq<CompatiblePackage>)
    requires e.version.Some?
    ensures Fill(e, compatible) == Decision(e, false)
  {
  }

  /** A version-less entry that no compatible package recommends a version for stays
      version-less and unmarked. */
  lemma {:induction false} FillWithoutRecommendation(d: Decision, compatible: seq<CompatiblePackage>, k: nat)
    requires forall j :: k <= j < |compatible| ==> !Recommends(compatible[j], d.entry.name)
    ensures FillScan(d, compatible, k) == d
    decreases |compatible| - k
  {
    if k < |compatible| {
      FillWithoutRecommendation(d, compatible, k + 1);
    }
  }

  /** A version-less entry takes the version recommended by the last compatible package
      that recommends one, and is marked for install. */
  lemma {:induction false} FillTakesLastRecommendation(d: Decision, compatible: seq<CompatiblePackage>, k: nat, last: nat)
    requires k <= last < |compatible|
    requires Recommends(compatible[last], d.entry.name)
    requires forall j :: last < j < |compatible| ==> !Recommends(compatible[j], d.entry.name)
    ensures FillScan(d, compatible, k) == Decision(d.entry.(version := Some(compatible[last].recommended)), true)
    decreases |compatible| - k
  {
    var p := compatible[k];
    var next := if Recommends(p, d.entry.name) then Decision(d.entry.(version := Some(p.recommended)), true) else d;
    if k < last {
      FillTakesLastRecommendation(next, compatible, k + 1, last);
    } else {
      FillWithoutRecommendation(next, compatible, k + 1);
    }
  }

  /** How one comparison outcome sets the mark: an upgrade (1) or a downgrade (-1) follows
      the user's answer, a match (0) clears it. */
  function Verdict(comparison: int, answer: bool, install: bool): (r: bool)
    ensures comparison == 0 ==> !r
    ensures comparison == 1 || comparison == -1 ==> r == answer
  {
    if comparison == 1 then answer
    else if comparison == 0 then false
    else if comparison == -1 then answer
    else install
  }

  /** The scan of the installed packages for entry `i`, from package `j` on. Every installed
      package of the entry's name is compared with the entry's version, and the last one
      decides; a comparison that fails stops the check. An entry still without a version is
      not compared. */
  function InstallScan(i: nat, d: Decision, installed: seq<InstalledPackage>, answers: Answers, j: nat): (r: Result<Decision, CheckError>)
    ensures r.Success? ==> r.value.entry == d.entry
    ensures r.Failure? ==> r.error.Convert?
    decreases |installed| - j
  {
    if j >= |installed| then Success(d)
    else if installed[j].name != d.entry.name || d.entry.version.None? then
      InstallScan(i, d, installed, answers, j + 1)
    else
      match CompareVersion(d.entry.version.value, installed[j].version)
      case Failure(error) => Failure(Convert(error))
      case Success(c) => InstallScan(i, d.(install := Verdict(c, answers(i, j), d.install)), installed, answers, j + 1)
  }

  /** The decision for entry `i` of the list. */
  function DecideEntry(i: nat, e: PackageEntry, compatible: seq<CompatiblePackage>,
                       installed: seq<InstalledPackage>, answers: Answers): (r: Result<Decision, CheckError>)
    ensures r.Success? ==> r.value.entry == Fill(e, compatible).entry
  {
    InstallScan(i, Fill(e, compatible), installed, answers, 0)
  }

  /** Whether some installed package from `j` on has the given name. */
  predicate InstalledFrom(installed: seq<InstalledPackage>, name: string, j: nat) {
    exists k :: j <= k < |installed| && installed[k].name == name
  }

  /** An entry whose package is not installed keeps what the compatible scan gave it. */
  lemma {:induction false} NotInstalledKeepsFill(i: nat, d: Decision, installed: seq<InstalledPackage>, answers: Answers, j: nat)
    requires !InstalledFrom(installed, d.entry.name, j)
    ensures InstallScan(i, d, installed, answers, j) == Success(d)
    decreases |installed| - j
  {
    if j < |installed| {
      assert installed[j].name != d.entry.name;
      NotInstalledKeepsFill(i, d, installed, answers, j + 1);
    }
  }

  /** An entry still without a version is not compared with anything. */
  lemma {:induction false} VersionlessIsNotCompared(i: nat, d: Decision, installed: seq<InstalledPackage>, answers: Answers, j: nat)
    requires d.entry.version.None?
    ensures InstallScan(i, d, installed, answers, j) == Success(d)
    decreases |installed| - j
  {
    if j < |installed| {
      VersionlessIsNotCompared(i, d, installed, answers, j + 1);
    }
  }

  /** An entry that names its version but whose package is not installed is never marked. */
  lemma GivenVersionNotInstalledIsSkipped(i: nat, e: PackageEntry, compatible: seq<CompatiblePackage>,
                                          installed: seq<InstalledPackage>, answers: Answers)
    requires e.version.Some?
    requires !InstalledFrom(installed, e.name, 0)
    ensures DecideEntry(i, e, compatible, installed, answers) == Success(Decision(e, false))
  {
    NotInstalledKeepsFill(i, Decision(e, false), installed, answers, 0);
  }

  /** Every comparison of the entry's version with an installed package of its name, from
      `j` on, converts. */
  predicate ComparisonsConvert(e: PackageEntry, installed: seq<InstalledPackage>, j: nat)
    requires e.version.Some?
  {
    forall k :: j <= k < |installed| && installed[k].name == e.name ==>
      CompareVersion(e.version.value, installed[k].version).Success?
  }

  lemma ConvertsLater(e: PackageEntry, installed: seq<InstalledPackage>, j: nat)
    requires e.version.Some?
    requires ComparisonsConvert(e, installed, j)
    ensures ComparisonsConvert(e, installed, j + 1)
  {
  }

  /** For an entry with a version, the last installed package of its name decides: a match
      clears the mark, an upgrade or a downgrade follows the user's answer to that dialog. */
  lemma {:induction false} LastInstalledDecides(i: nat, d: Decision, installed: seq<InstalledPackage>, answers: Answers, j: nat, last: nat)
    requires d.entry.version.Some?
    requires j <= last < |installed| && installed[last].name == d.entry.name
    requires !InstalledFrom(installed, d.entry.name, last + 1)
    requires ComparisonsConvert(d.entry, installed, j)
    ensures var c := CompareVersion(d.entry.version.value, installed[last].version).value;
      InstallScan(i, d, installed, answers, j) == Success(d.(install := if c == 0 then false else answers(i, last)))
    decreases |installed| - j
  {
    ConvertsLater(d.entry, installed, j);
    if installed[j].name != d.entry.name {
      assert j + 1 <= last;
      assert ComparisonsConvert(d.entry, installed, j + 1);
      assert !InstalledFrom(installed, d.entry.name, last + 1);
      LastInstalledDecides(i, d, installed, answers, j + 1, last);
    } else {
      var next := ComparedStep(i, d, installed, answers, j);
      if j < last {
        LastInstalledDecides(i, next, installed, answers, j + 1, last);
      } else {
        NotInstalledKeepsFill(i, next, installed, answers, j + 1);
      }
    }
  }

  /** One comparison that converts: the mark is set by its verdict and the scan goes on. */
  lemma ComparedStep(i: nat, d: Decision, installed: seq<InstalledPackage>, answers: Answers, j: nat) returns (next: Decision)
    requires d.entry.version.Some?
    requires j < |installed| && installed[j].name == d.entry.name
    requires CompareVersion(d.entry.version.value, installed[j].version).Success?
    ensures var c := CompareVersion(d.entry.version.value, installed[j].version).value;
      next == d.(install := Verdict(c, answers(i, j), d.install))
    ensures InstallScan(i, d, installed, answers, j) == InstallScan(i, next, installed, answers, j + 1)
  {
    var c := CompareVersion(d.entry.version.value, installed[j].version).value;
    next := d.(install := Verdict(c, answers(i, j), d.install));
  }

  /** A comparison that does not convert stops the check, unless an earlier one already
      has. */
  lemma {:induction false} ComparisonErrorStops(i: nat, d: Decision, installed: seq<InstalledPackage>, answers: Answers, j: nat, bad: nat)
    requires d.entry.version.Some?
    requires j <= bad < |installed| && installed[bad].name == d.entry.name
    requires CompareVersion(d.entry.version.value, installed[bad].version).Failure?
    ensures InstallScan(i, d, installed, answers, j).Failure?
    decreases |installed| - j
  {
    if j < bad {
      if installed[j].name == d.entry.name {
        match CompareVersion(d.entry.version.value, installed[j].version)
        case Failure(_) =>
        case Success(c) =>
          ComparisonErrorStops(i, d.(install := Verdict(c, answers(i, j), d.install)), installed, answers, j + 1, bad);
      } else {
        ComparisonErrorStops(i, d, installed, answers, j + 1, bad);
      }
    }
  }

  // ---------------------------------------------------------------------------
  // The whole list

  /** The decisions for entries `i` on, in list order; the first entry whose decision fails
      stops the check. */
  function DecideFrom(entries: seq<PackageEntry>, compatible: seq<CompatiblePackage>,
                      installed: seq<InstalledPackage>, answers: Answers, i: nat): (r: Result<seq<Decision>, CheckError>)
    requires i <= |entries|
    ensures r.Success? <==> forall k :: i <= k < |entries| ==> DecideEntry(k, entries[k], compatible, installed, answers).Success?
    ensures r.Success? ==> |r.value| == |entries| - i
    ensures r.Success? ==> forall k :: i <= k < |entries| ==> r.value[k - i] == DecideEntry(k, entries[k], compatible, installed, answers).value
    decreases |entries| - i
  {
    if i >= |entries| then Success([])
    else
      var d :- DecideEntry(i, entries[i], compatible, installed, answers);
      var rest :- DecideFrom(entries, compatible, installed, answers, i + 1);
      Success([d] + rest)
  }

  /** The positions, from `i` on and in increasing order, of the decisions marked for
      install: each one once, and no other. */
  function MarkedFrom(decisions: seq<Decision>, i: nat): (pos: seq<nat>)
    requires i <= |decisions|
    ensures forall m :: 0 <= m < |pos| ==> i <= pos[m] < |decisions| && decisions[pos[m]].install
    ensures forall m, n :: 0 <= m < n < |pos| ==> pos[m] < pos[n]
    ensures forall k :: i <= k < |decisions| && decisions[k].install ==> k in pos
    ensures |pos| <= |decisions| - i
    decreases |decisions| - i
  {
    if i == |decisions| then []
    else
      var rest := MarkedFrom(decisions, i + 1);
      if decisions[i].install then [i] + rest else rest
  }

  /** The install requests for decisions `i` on: one `Client.Add` per marked decision, in
      list order. */
  function RequestsFrom(decisions: seq<Decision>, i: nat): (requests: seq<string>)
    requires i <= |decisions|
    ensures |requests| == |MarkedFrom(decisions, i)|
    ensures forall m :: 0 <= m < |requests| ==>
      requests[m] == InstallRequest(decisions[MarkedFrom(decisions, i)[m]].entry)
    decreases |decisions| - i
  {
    if i == |decisions| then []
    else
      var rest := RequestsFrom(decisions, i + 1);
      var later := MarkedFrom(decisions, i + 1);
      if decisions[i].install then
        var requests := [InstallRequest(decisions[i].entry)] + rest;
        assert MarkedFrom(decisions, i) == [i] + later;
        assert forall m :: 0 < m < |requests| ==> requests[m] == rest[m - 1] && ([i] + later)[m] == later[m - 1];
        requests
      else
        assert MarkedFrom(decisions, i) == later;
        rest
  }

  /** The install requests, in list order, for the marked decisions. */
  function Requests(decisions: seq<Decision>): (requests: seq<string>)
    ensures |requests| == |MarkedFrom(decisions, 0)| <= |decisions|
    ensures forall m :: 0 <= m < |requests| ==>
      requests[m] == InstallRequest(decisions[MarkedFrom(decisions, 0)[m]].entry)
  {
    RequestsFrom(decisions, 0)
  }

  /** Requests are made for the marked decisions and for nothing else. */
  lemma RequestsAreMarked(decisions: seq<Decision>)
    ensures forall r :: r in Requests(decisions) ==> exists d :: d in decisions && d.install && r == InstallRequest(d.entry)
    ensures forall d :: d in decisions && d.install ==> InstallRequest(d.entry) in Requests(decisions)
  {
    var requests := Requests(decisions);
    var pos := MarkedFrom(decisions, 0);
    forall r | r in requests ensures exists d :: d in decisions && d.install && r == InstallRequest(d.entry) {
      var m :| 0 <= m < |requests| && requests[m] == r;
      assert decisions[pos[m]] in decisions;
    }
    forall d | d in decisions && d.install ensures InstallRequest(d.entry) in requests {
      var k :| 0 <= k < |decisions| && decisions[k] == d;
      var m :| 0 <= m < |pos| && pos[m] == k;
      assert requests[m] == InstallRequest(d.entry);
    }
  }

  /** The entries of the package list, one per line. */
  function Entries(lines: seq<string>): (entries: seq<PackageEntry>)
    ensures |entries| == |lines|
    ensures forall k :: 0 <= k < |lines| ==> entries[k] == ParseLine(lines[k])
  {
    Map(ParseLine, lines)
  }

  /** The decision for line `k`. */
  function Decided(k: nat, lines: seq<string>, compatible: seq<CompatiblePackage>,
                   installed: seq<InstalledPackage>, answers: Answers): Result<Decision, CheckError>
    requires k < |lines|
  {
    DecideEntry(k, Entries(lines)[k], compatible, installed, answers)
  }

  /** The package check: parse each line, decide each entry, and request an install for
      each marked one. An exception anywhere in the decisions means nothing is installed. */
  function CheckPackages(lines: seq<string>, compatible: seq<CompatiblePackage>,
                         installed: seq<InstalledPackage>, answers: Answers): (r: Result<seq<string>, CheckError>)
    ensures r.Success? ==> |r.value| <= |lines|
  {
    var decisions :- DecideFrom(Entries(lines), compatible, installed, answers, 0);
    Success(Requests(decisions))
  }

  /** The check succeeds exactly when no line's decision throws. */
  lemma CheckPackagesSucceeds(lines: seq<string>, compatible: seq<CompatiblePackage>,
                              installed: seq<InstalledPackage>, answers: Answers)
    ensures CheckPackages(lines, compatible, installed, answers).Success?
      <==> forall k :: 0 <= k < |lines| ==> Decided(k, lines, compatible, installed, answers).Success?
  {
    var entries := Entries(lines);
    var decided := DecideFrom(entries, compatible, installed, answers, 0);
    assert CheckPackages(lines, compatible, installed, answers).Success? <==> decided.Success?;
    assert forall k :: 0 <= k < |lines| ==>
      Decided(k, lines, compatible, installed, answers) == DecideEntry(k, entries[k], compatible, installed, answers);
  }

  /** The decisions of a check that succeeds, one per line. */
  function Decisions(lines: seq<string>, compatible: seq<CompatiblePackage>,
                     installed: seq<InstalledPackage>, answers: Answers): (ds: seq<Decision>)
    requires CheckPackages(lines, compatible, installed, answers).Success?
    ensures |ds| == |lines|
    ensures forall k :: 0 <= k < |lines| ==>
      Decided(k, lines, compatible, installed, answers).Success? && ds[k] == Decided(k, lines, compatible, installed, answers).value
  {
    DecideFrom(Entries(lines), compatible, installed, answers, 0).value
  }

  /** A successful check makes one install request per line marked for install, in the
      order of the lines. */
  lemma CheckPackagesRequestsInOrder(lines: seq<string>, compatible: seq<CompatiblePackage>,
                                     installed: seq<InstalledPackage>, answers: Answers)
    requires CheckPackages(lines, compatible, installed, answers).Success?
    ensures |CheckPackages(lines, compatible, installed, answers).value|
         == |MarkedFrom(Decisions(lines, compatible, installed, answers), 0)|
    ensures forall m :: 0 <= m < |CheckPackages(lines, compatible, installed, answers).value| ==>
      CheckPackages(lines, compatible, installed, answers).value[m]
        == InstallRequest(Decided(MarkedFrom(Decisions(lines, compatible, installed, answers), 0)[m],
                                  lines, compatible, installed, answers).value.entry)
  {
    var ds := Decisions(lines, compatible, installed, answers);
    assert CheckPackages(lines, compatible, installed, answers).value == Requests(ds);
  }

  /** A successful check requests an install for every line decided for install, and for
      nothing else. */
  lemma CheckPackagesRequests(lines: seq<string>, compatible: seq<CompatiblePackage>,
                              installed: seq<InstalledPackage>, answers: Answers)
    requires CheckPackages(lines, compatible, installed, answers).Success?
    ensures forall k :: 0 <= k < |lines| && Decided(k, lines, compatible, installed, answers).value.install ==>
      InstallRequest(Decided(k, lines, compatible, installed, answers).value.entry)
        in CheckPackages(lines, compatible, installed, answers).value
    ensures forall request :: request in CheckPackages(lines, compatible, installed, answers).value ==>
      exists k :: (0 <= k < |lines| && Decided(k, lines, compatible, installed, answers).value.install
                   && request == InstallRequest(Decided(k, lines, compatible, installed, answers).value.entry))
  {
    var decisions := DecideFrom(Entries(lines), compatible, installed, answers, 0).value;
    var requests := Requests(decisions);
    assert CheckPackages(lines, compatible, installed, answers).value == requests;
    forall request | request in requests
      ensures exists k :: (0 <= k < |lines| && Decided(k, lines, compatible, installed, answers).value.install
                           && request == InstallRequest(Decided(k, lines, compatible, installed, answers).value.entry))
    {
      var d :| d in decisions && d.install && request == InstallRequest(d.entry);
      var k :| 0 <= k < |decisions| && decisions[k] == d;
      assert decisions[k] == Decided(k, lines, compatible, installed, answers).value;
    }
    forall k | 0 <= k < |lines| && Decided(k, lines, compatible, installed, answers).value.install
      ensures InstallRequest(Decided(k, lines, compatible, installed, answers).value.entry) in requests
    {
      assert decisions[k] == Decided(k, lines, compatible, installed, answers).value;
      assert decisions[k] in decisions;
    }
  }

  // ---------------------------------------------------------------------------
  // The scan as written: a version-less entry is compared as well

  /** The installed scan exactly as the C# code writes it: the comparison is made even
      when the entry has no version, and `CompareVersion(null, ...)` throws a
      `NullReferenceException` at its first statement. */
  function InstallScanAsWritten(i: nat, d: Decision, installed: seq<InstalledPackage>, answers: Answers, j: nat): (r: Result<Decision, CheckError>)
    ensures r.Success? ==> r.value.entry == d.entry
    decreases |installed| - j
  {
    if j >= |installed| then Success(d)
    else if installed[j].name != d.entry.name then InstallScanAsWritten(i, d, installed, answers, j + 1)
    else if d.entry.version.None? then Failure(NullReference)
    else
      match CompareVersion(d.entry.version.value, installed[j].version)
      case Failure(error) => Failure(Convert(error))
      case Success(c) => InstallScanAsWritten(i, d.(install := Verdict(c, answers(i, j), d.install)), installed, answers, j + 1)
  }

  function DecideEntryAsWritten(i: nat, e: PackageEntry, compatible: seq<CompatiblePackage>,
                                installed: seq<InstalledPackage>, answers: Answers): (r: Result<Decision, CheckError>)
    ensures r.Success? ==> r.value.entry == Fill(e, compatible).entry
  {
    InstallScanAsWritten(i, Fill(e, compatible), installed, answers, 0)
  }

  /** The two scans differ exactly on an entry that is still version-less and installed:
      the C# code throws, the corrected scan leaves the entry as the compatible scan left
      it. Everywhere else they agree. */
  lemma {:induction false} AsWrittenDiffersOnlyWhenVersionMissing(i: nat, d: Decision, installed: seq<InstalledPackage>, answers: Answers, j: nat)
    ensures d.entry.version.None? && InstalledFrom(installed, d.entry.name, j) ==>
      && InstallScanAsWritten(i, d, installed, answers, j) == Failure(NullReference)
      && InstallScan(i, d, installed, answers, j) == Success(d)
    ensures d.entry.version.Some? || !InstalledFrom(installed, d.entry.name, j) ==>
      InstallScanAsWritten(i, d, installed, answers, j) == InstallScan(i, d, installed, answers, j)
    decreases |installed| - j
  {
    if j < |installed| {
      if installed[j].name != d.entry.name {
        AsWrittenDiffersOnlyWhenVersionMissing(i, d, installed, answers, j + 1);
        assert InstalledFrom(installed, d.entry.name, j) <==> InstalledFrom(installed, d.entry.name, j + 1);
      } else if d.entry.version.None? {
        VersionlessIsNotCompared(i, d, installed, answers, j);
      } else {
        match CompareVersion(d.entry.version.value, installed[j].version)
        case Failure(_) =>
        case Success(c) =>
          AsWrittenDiffersOnlyWhenVersionMissing(i, d.(install := Verdict(c, answers(i, j), d.install)), installed, answers, j + 1);
      }
    }
  }

  /** The C# code throws on entry `e`: the compatible scan leaves it without a version, and
      its package is installed. */
  predicate ThrowsAsWritten(e: PackageEntry, compatible: seq<CompatiblePackage>, installed: seq<InstalledPackage>) {
    Fill(e, compatible).entry.version.None? && InstalledFrom(installed, e.name, 0)
  }

  /** One entry: the scan as written throws exactly on the entries `ThrowsAsWritten` names,
      and decides every other entry as the corrected scan does. */
  lemma DecideEntryAsWrittenAgrees(i: nat, e: PackageEntry, compatible: seq<CompatiblePackage>,
                                   installed: seq<InstalledPackage>, answers: Answers)
    ensures ThrowsAsWritten(e, compatible, installed) ==>
      && DecideEntryAsWritten(i, e, compatible, installed, answers) == Failure(NullReference)
      && DecideEntry(i, e, compatible, installed, answers) == Success(Fill(e, compatible))
    ensures !ThrowsAsWritten(e, compatible, installed) ==>
      DecideEntryAsWritten(i, e, compatible, installed, answers) == DecideEntry(i, e, compatible, installed, answers)
  {
    AsWrittenDiffersOnlyWhenVersionMissing(i, Fill(e, compatible), installed, answers, 0);
  }

  /** The decisions for entries `i` on, as the C# code makes them. */
  function DecideFromAsWritten(entries: seq<PackageEntry>, compatible: seq<CompatiblePackage>,
                               installed: seq<InstalledPackage>, answers: Answers, i: nat): (r: Result<seq<Decision>, CheckError>)
    requires i <= |entries|
    ensures r.Success? ==> |r.value| == |entries| - i
    decreases |entries| - i
  {
    if i >= |entries| then Success([])
    else
      var d :- DecideEntryAsWritten(i, entries[i], compatible, installed, answers);
      var rest :- DecideFromAsWritten(entries, compatible, installed, answers, i + 1);
      Success([d] + rest)
  }

  /** The package check as the C# code makes it. */
  function CheckPackagesAsWritten(lines: seq<string>, compatible: seq<CompatiblePackage>,
                                  installed: seq<InstalledPackage>, answers: Answers): (r: Result<seq<string>, CheckError>)
    ensures r.Success? ==> |r.value| <= |lines|
  {
    var decisions :- DecideFromAsWritten(Entries(lines), compatible, installed, answers, 0);
    Success(Requests(decisions))
  }

  /** The decisions as written agree with the corrected ones when no entry from `i` on
      throws, and fail when one does. */
  lemma {:induction false} DecideFromAsWrittenAgrees(entries: seq<PackageEntry>, compatible: seq<CompatiblePackage>,
                                                     installed: seq<InstalledPackage>, answers: Answers, i: nat)
    requires i <= |entries|
    ensures (forall k :: i <= k < |entries| ==> !ThrowsAsWritten(entries[k], compatible, installed)) ==>
      DecideFromAsWritten(entries, compatible, installed, answers, i) == DecideFrom(entries, compatible, installed, answers, i)
    ensures (exists k :: i <= k < |entries| && ThrowsAsWritten(entries[k], compatible, installed)) ==>
      DecideFromAsWritten(entries, compatible, installed, answers, i).Failure?
    decreases |entries| - i
  {
    if i < |entries| {
      DecideEntryAsWrittenAgrees(i, entries[i], compatible, installed, answers);
      DecideFromAsWrittenAgrees(entries, compatible, installed, answers, i + 1);
      if exists k :: i <= k < |entries| && ThrowsAsWritten(entries[k], compatible, installed) {
        if !ThrowsAsWritten(entries[i], compatible, installed) {
          var k :| i <= k < |entries| && ThrowsAsWritten(entries[k], compatible, installed);
          assert i + 1 <= k;
        }
      }
    }
  }

  /** The whole check as written: it is the corrected check on a list where no line is
      still version-less and installed, and it stops with an exception, requesting
      nothing, on a list where one is. */
  lemma CheckPackagesAsWrittenAgrees(lines: seq<string>, compatible: seq<CompatiblePackage>,
                                     installed: seq<InstalledPackage>, answers: Answers)
    ensures (forall k :: 0 <= k < |lines| ==> !ThrowsAsWritten(Entries(lines)[k], compatible, installed)) ==>
      CheckPackagesAsWritten(lines, compatible, installed, answers) == CheckPackages(lines, compatible, installed, answers)
    ensures (exists k :: 0 <= k < |lines| && ThrowsAsWritten(Entries(lines)[k], compatible, installed)) ==>
      CheckPackagesAsWritten(lines, compatible, installed, answers).Failure?
  {
    DecideFromAsWrittenAgrees(Entries(lines), compatible, installed, answers, 0);
  }

  /** A version-less entry with no recommended version whose package is installed: the
      C# code stops the whole check with a `NullReferenceException`, the corrected scan
      leaves the entry unmarked. */
  lemma MissingRecommendationCrashes()
    ensures var e := PackageEntry("com.unity.cinemachine", None);
      var installed := [InstalledPackage("com.unity.cinemachine", "2.8.9")];
      var answers: Answers := (i, j) => true;
      && DecideEntryAsWritten(0, e, [], installed, answers) == Failure(NullReference)
      && DecideEntry(0, e, [], installed, answers) == Success(Decision(e, false))
  {
    var e := PackageEntry("com.unity.cinemachine", None);
    var installed := [InstalledPackage("com.unity.cinemachine", "2.8.9")];
    var answers: Answers := (i, j) => true;
    assert InstalledFrom(installed, e.name, 0) by {
      assert installed[0].name == e.name;
    }
    AsWrittenDiffersOnlyWhenVersionMissing(0, Decision(e, false), installed, answers, 0);
  }
}

/** The log scanner (class SSHCheck of ssh_activity.py): it picks the lines
    of the authentication log that record a failed or a successful ssh
    login, pulls three whitespace-separated fields out of each, and frames
    the entries with a title line, a line of dashes and a closing empty line.

    The log is the sequence of its lines, as iterating over the open file
    yields them. */
module SshCheck {
  import opened Outcomes
  import opened Text

  /** The two scans: check_failed and check_success. */
  datatype Event = FailedAttempt | SuccessfulLogin

  /** The IndexError raised by `fields[...]` on a qualifying line with too
      few fields; `line` is the position of that line in the log. */
  datatype ScanError = IndexFault(line: nat)

  /** Fields a qualifying line must have: indexes up to 8 are read. */
  const MinFields: nat := 9

  function Title(e: Event): string {
    match e
    case FailedAttempt => "Failed ssh attempts:"
    case SuccessfulLogin => "Successful ssh logins:"
  }

  /** `n * "-"` */
  function Dashes(n: nat): string {
    seq(n, _ => '-')
  }

  /** The line test of each scan. */
  predicate Qualifies(e: Event, line: string) {
    match e
    case FailedAttempt => Contains(line, "preauth") && Contains(line, "user")
    case SuccessfulLogin => Contains(line, "Accepted")
  }

  /** Index of the middle field of an entry. */
  function MiddleField(e: Event): nat {
    match e
    case FailedAttempt => 7
    case SuccessfulLogin => 6
  }

  /** `line.strip().split()` */
  function Fields(line: string): seq<string> {
    Tokens(Strip(line))
  }

  /** The entry built from the fields of a qualifying line. */
  function Entry(e: Event, f: seq<string>): string
    requires |f| >= MinFields
  {
    f[0] + " " + f[MiddleField(e)] + " " + f[8]
  }

  /** The qualifying lines of the log, in log order. */
  function Matching(e: Event, log: seq<string>): seq<string> {
    if log == [] then []
    else
      var n := |log| - 1;
      Matching(e, log[..n]) + (if Qualifies(e, log[n]) then [log[n]] else [])
  }

  /** No qualifying line of the log is short of fields. */
  predicate WellFormed(e: Event, log: seq<string>) {
    forall i :: 0 <= i < |log| && Qualifies(e, log[i]) ==> |Fields(log[i])| >= MinFields
  }

  /** The entries of a scan, line by line as the loop meets them: the first
      qualifying line that is short of fields ends the scan with an error. */
  function Entries(e: Event, log: seq<string>): Result<seq<string>, ScanError> {
    if log == [] then Ok([])
    else
      var n := |log| - 1;
      match Entries(e, log[..n])
      case Err(err) => Err(err)
      case Ok(es) =>
        if !Qualifies(e, log[n]) then Ok(es)
        else if |Fields(log[n])| < MinFields then Err(IndexFault(n))
        else Ok(es + [Entry(e, Fields(log[n]))])
  }

  /** The list a scan returns. */
  function Scan(e: Event, log: seq<string>): Result<seq<string>, ScanError> {
    match Entries(e, log)
    case Err(err) => Err(err)
    case Ok(es) => Ok([Title(e), Dashes(|Title(e)|)] + es + [""])
  }

  // ---------------------------------------------------------------------
  // The scanners

  /** The loop shared by check_failed and check_success. */
  method CheckEvents(e: Event, log: seq<string>) returns (r: Result<seq<string>, ScanError>)
    ensures r == Scan(e, log)
  {
    var report := [Title(e)];
    report := report + [Dashes(|report[0]|)];
    var i := 0;
    while i < |log|
      invariant 0 <= i <= |log|
      invariant Entries(e, log[..i]).Ok?
      invariant report == [Title(e), Dashes(|Title(e)|)] + Entries(e, log[..i]).value
    {
      var line := log[i];
      assert log[..i + 1][..i] == log[..i];
      if Qualifies(e, line) {
        var fields := Fields(line);
        if |fields| < MinFields {
          EntriesErrPersists(e, log, i + 1);
          return Err(IndexFault(i));
        }
        report := report + [Entry(e, fields)];
      }
      i := i + 1;
    }
    assert log[..i] == log;
    report := report + [""];
    r := Ok(report);
  }

  /** SSHCheck.check_failed */
  method CheckFailed(log: seq<string>) returns (r: Result<seq<string>, ScanError>)
    ensures r == Scan(FailedAttempt, log)
    ensures r.Ok? ==>
      && |r.value| >= 3
      && r.value[0] == "Failed ssh attempts:"
      && r.value[1] == Dashes(20)
      && r.value[|r.value| - 1] == ""
  {
    r := CheckEvents(FailedAttempt, log);
  }

  /** SSHCheck.check_success */
  method CheckSuccess(log: seq<string>) returns (r: Result<seq<string>, ScanError>)
    ensures r == Scan(SuccessfulLogin, log)
    ensures r.Ok? ==>
      && |r.value| >= 3
      && r.value[0] == "Successful ssh logins:"
      && r.value[1] == Dashes(22)
      && r.value[|r.value| - 1] == ""
  {
    r := CheckEvents(SuccessfulLogin, log);
  }

  // ---------------------------------------------------------------------
  // What the scans promise

  /** Once a prefix of the log has failed, the whole scan fails the same way. */
  lemma {:induction false} EntriesErrPersists(e: Event, log: seq<string>, j: nat)
    requires j <= |log| && Entries(e, log[..j]).Err?
    ensures Entries(e, log) == Entries(e, log[..j])
    decreases |log| - j
  {
    if j < |log| {
      var init := log[..|log| - 1];
      assert init[..j] == log[..j];
      EntriesErrPersists(e, init, j);
    } else {
      assert log[..j] == log;
    }
  }

  /** A scan succeeds exactly when no qualifying line is short of fields. */
  lemma {:induction false} EntriesOkIff(e: Event, log: seq<string>)
    ensures Entries(e, log).Ok? <==> WellFormed(e, log)
    decreases |log|
  {
    if log != [] {
      var n := |log| - 1;
      var init := log[..n];
      EntriesOkIff(e, init);
      assert WellFormed(e, log) <==>
        WellFormed(e, init) && (Qualifies(e, log[n]) ==> |Fields(log[n])| >= MinFields)
      by {
        forall i | 0 <= i < n ensures init[i] == log[i] { }
      }
    }
  }

  /** The entries of a successful scan are the qualifying lines, one entry
      each and in log order, each made of fields 0, the middle field and 8. */
  lemma {:induction false} EntriesMatch(e: Event, log: seq<string>)
    requires Entries(e, log).Ok?
    ensures |Entries(e, log).value| == |Matching(e, log)|
    ensures forall j :: 0 <= j < |Matching(e, log)| ==>
      |Fields(Matching(e, log)[j])| >= MinFields
      && Entries(e, log).value[j] == Entry(e, Fields(Matching(e, log)[j]))
    decreases |log|
  {
    if log != [] {
      EntriesMatch(e, log[..|log| - 1]);
    }
  }

  /** A failed scan names the first qualifying line that is short of fields. */
  lemma {:induction false} EntriesErrFirst(e: Event, log: seq<string>)
    requires Entries(e, log).Err?
    ensures Entries(e, log).error.line < |log|
    ensures Qualifies(e, log[Entries(e, log).error.line])
    ensures |Fields(log[Entries(e, log).error.line])| < MinFields
    ensures WellFormed(e, log[..Entries(e, log).error.line])
    decreases |log|
  {
    var n := |log| - 1;
    var init := log[..n];
    if Entries(e, init).Err? {
      EntriesErrFirst(e, init);
      var i := Entries(e, init).error.line;
      assert init[..i] == log[..i];
    } else {
      EntriesOkIff(e, init);
    }
  }

  /** The lines Matching keeps are exactly the qualifying lines of the log. */
  lemma {:induction false} MatchingMembers(e: Event, log: seq<string>)
    ensures forall l :: l in Matching(e, log) <==> l in log && Qualifies(e, l)
    decreases |log|
  {
    if log != [] {
      var n := |log| - 1;
      MatchingMembers(e, log[..n]);
      assert log == log[..n] + [log[n]];
    }
  }

  /** The positions of the qualifying lines of the log, ascending. */
  function QualifyingPositions(e: Event, log: seq<string>): seq<nat> {
    if log == [] then []
    else
      var n := |log| - 1;
      QualifyingPositions(e, log[..n]) + (if Qualifies(e, log[n]) then [n] else [])
  }

  /** The qualifying positions lie in the log and strictly increase. */
  lemma {:induction false} PositionsIncrease(e: Event, log: seq<string>)
    ensures forall j :: 0 <= j < |QualifyingPositions(e, log)| ==> QualifyingPositions(e, log)[j] < |log|
    ensures forall j, k :: 0 <= j < k < |QualifyingPositions(e, log)| ==>
      QualifyingPositions(e, log)[j] < QualifyingPositions(e, log)[k]
    decreases |log|
  {
    if log != [] {
      PositionsIncrease(e, log[..|log| - 1]);
    }
  }

  /** Every position of a qualifying line is among the qualifying positions. */
  lemma {:induction false} PositionsComplete(e: Event, log: seq<string>)
    ensures forall i :: 0 <= i < |log| && Qualifies(e, log[i]) ==> i in QualifyingPositions(e, log)
    decreases |log|
  {
    if log != [] {
      var n := |log| - 1;
      var init := log[..n];
      PositionsComplete(e, init);
      forall i | 0 <= i < n && Qualifies(e, log[i]) ensures i in QualifyingPositions(e, log) {
        assert init[i] == log[i];
      }
    }
  }

  /** Kept line j is the log line at the j-th qualifying position. */
  lemma {:induction false} MatchingAtPositions(e: Event, log: seq<string>)
    ensures var m, p := Matching(e, log), QualifyingPositions(e, log);
      && |m| == |p|
      && forall j :: 0 <= j < |p| ==> p[j] < |log| && Qualifies(e, log[p[j]]) && m[j] == log[p[j]]
    decreases |log|
  {
    if log != [] {
      var n := |log| - 1;
      var init := log[..n];
      MatchingAtPositions(e, init);
      var p0 := QualifyingPositions(e, init);
      forall j | 0 <= j < |p0| ensures init[p0[j]] == log[p0[j]] { }
    }
  }

  /** Matching keeps order and multiplicity: its j-th line is the log line at
      the j-th qualifying position, the positions strictly increase, and every
      qualifying position appears among them. */
  lemma {:induction false} MatchingIndexed(e: Event, log: seq<string>)
    ensures var m, p := Matching(e, log), QualifyingPositions(e, log);
      && |m| == |p|
      && (forall j :: 0 <= j < |p| ==> p[j] < |log| && Qualifies(e, log[p[j]]) && m[j] == log[p[j]])
      && (forall j, k :: 0 <= j < k < |p| ==> p[j] < p[k])
      && (forall i :: 0 <= i < |log| && Qualifies(e, log[i]) ==> i in p)
  {
    MatchingAtPositions(e, log);
    PositionsIncrease(e, log);
    PositionsComplete(e, log);
  }

  lemma {:induction false} MatchingNone(e: Event, log: seq<string>)
    requires forall i :: 0 <= i < |log| ==> !Qualifies(e, log[i])
    ensures Matching(e, log) == []
    decreases |log|
  {
    if log != [] {
      var n := |log| - 1;
      assert forall i :: 0 <= i < n ==> log[..n][i] == log[i];
      MatchingNone(e, log[..n]);
    }
  }

  /** The frame of every scan result: the title, dashes as long as the title,
      one entry per qualifying line in log order, and a closing empty line. */
  lemma {:induction false} ScanFraming(e: Event, log: seq<string>)
    requires Scan(e, log).Ok?
    ensures var r := Scan(e, log).value;
      && |r| == 3 + |Matching(e, log)|
      && r[0] == Title(e)
      && |r[1]| == |r[0]|
      && (forall i :: 0 <= i < |r[1]| ==> r[1][i] == '-')
      && r[|r| - 1] == ""
      && forall j :: 0 <= j < |Matching(e, log)| ==>
           |Fields(Matching(e, log)[j])| >= MinFields
           && r[j + 2] == Entry(e, Fields(Matching(e, log)[j]))
  {
    EntriesMatch(e, log);
  }

  /** A log without a qualifying line gives only the frame. */
  lemma ScanNoMatches(e: Event, log: seq<string>)
    requires forall i :: 0 <= i < |log| ==> !Qualifies(e, log[i])
    ensures Scan(e, log) == Ok([Title(e), Dashes(|Title(e)|), ""])
  {
    EntriesOkIff(e, log);
    EntriesMatch(e, log);
    MatchingNone(e, log);
    assert Entries(e, log).value == [];
    assert [Title(e), Dashes(|Title(e)|)] + [] + [""] == [Title(e), Dashes(|Title(e)|), ""];
  }

  /** An entry splits back into the three fields it was made of. */
  lemma EntryFields(e: Event, line: string)
    requires |Fields(line)| >= MinFields
    ensures Tokens(Entry(e, Fields(line)))
      == [Fields(line)[0], Fields(line)[MiddleField(e)], Fields(line)[8]]
  {
    var f := Fields(line);
    TokensAreTokens(Strip(line));
    var ts := [f[0], f[MiddleField(e)], f[8]];
    assert JoinSpaced(ts) == Entry(e, f) by {
      assert ts[1..] == [f[MiddleField(e)], f[8]];
      assert ts[1..][1..] == [f[8]];
      assert JoinSpaced(ts[1..]) == f[MiddleField(e)] + " " + f[8];
    }
    TokensJoinSpaced(ts);
  }

  /** No line of a scan result holds a newline, so each prints as one line. */
  lemma ScanNewlineFree(e: Event, log: seq<string>)
    requires Scan(e, log).Ok?
    ensures NewlineFree(Scan(e, log).value)
  {
    var r := Scan(e, log).value;
    ScanFraming(e, log);
    var m := Matching(e, log);
    forall k | 0 <= k < |r| ensures '\n' !in r[k] {
      if k == 0 {
        var t := Title(e);
        forall i | 0 <= i < |t| ensures t[i] != '\n' { }
      } else if 2 <= k < |r| - 1 {
        var line := m[k - 2];
        EntryNewlineFree(e, line);
      }
    }
  }

  lemma EntryNewlineFree(e: Event, line: string)
    requires |Fields(line)| >= MinFields
    ensures '\n' !in Entry(e, Fields(line))
  {
    var f := Fields(line);
    TokensAreTokens(Strip(line));
    assert IsSpace('\n');
    assert IsToken(f[0]) && IsToken(f[MiddleField(e)]) && IsToken(f[8]);
  }
}

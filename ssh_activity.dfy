/** The program's main(): scan the log for failed attempts, then for
    successful logins, join the two lists, mail the report and print it. */
module SshActivity {
  import opened Outcomes
  import opened Text
  import opened SshCheck
  import opened SshReport

  /** What one run of the program produces: the combined result lines, the
      mail handed to the relay (if any) and the printed body. */
  datatype Run = Run(activity: seq<string>, mail: Option<Mail>, printed: string)

  /** main(): a scan error aborts the run before anything is mailed or
      printed; otherwise the failed-attempt list comes first, followed by
      the successful-login list, and since both are framed the mail is
      always sent. */
  method RunActivity(log: seq<string>, hostname: string) returns (r: Result<Run, ScanError>)
    ensures Scan(FailedAttempt, log).Err? ==> r == Err(Scan(FailedAttempt, log).error)
    ensures Scan(FailedAttempt, log).Ok? && Scan(SuccessfulLogin, log).Err? ==>
      r == Err(Scan(SuccessfulLogin, log).error)
    ensures Scan(FailedAttempt, log).Ok? && Scan(SuccessfulLogin, log).Ok? ==>
      && r.Ok?
      && r.value.activity == Scan(FailedAttempt, log).value + Scan(SuccessfulLogin, log).value
      && r.value.printed == Header(hostname)
           + Lines(Scan(FailedAttempt, log).value) + Lines(Scan(SuccessfulLogin, log).value)
      && r.value.mail == Some(Mail(SmtpServer, SmtpPort, SenderEmail, ReceiverEmail,
                                   Subject + r.value.printed))
  {
    var failed := CheckFailed(log);
    if failed.Err? {
      return Err(failed.error);
    }
    var success := CheckSuccess(log);
    if success.Err? {
      return Err(success.error);
    }
    var activity := failed.value + success.value;
    assert activity != [] by { assert |activity| >= 3; }
    var mail := EmailReport(hostname, activity);
    var printed := PrintReport(hostname, activity);
    LinesAppend(failed.value, success.value);
    assert Subject + Header(hostname) + Lines(activity) == Subject + printed;
    r := Ok(Run(activity, mail, printed));
  }

  /** The printed report of a run reads back, line by line, as the header
      followed by the failed-attempt list and then the successful-login list. */
  lemma ActivityReadsBack(log: seq<string>, hostname: string)
    requires '\n' !in hostname
    requires Scan(FailedAttempt, log).Ok? && Scan(SuccessfulLogin, log).Ok?
    ensures var failed, success := Scan(FailedAttempt, log).value, Scan(SuccessfulLogin, log).value;
      Unlines(Header(hostname) + Lines(failed + success))
        == ["Host: " + hostname, ""] + failed + success
  {
    var failed, success := Scan(FailedAttempt, log).value, Scan(SuccessfulLogin, log).value;
    ScanNewlineFree(FailedAttempt, log);
    ScanNewlineFree(SuccessfulLogin, log);
    assert NewlineFree(failed + success) by {
      forall k | 0 <= k < |failed + success| ensures '\n' !in (failed + success)[k] {
        if k >= |failed| {
          assert (failed + success)[k] == success[k - |failed|];
        }
      }
    }
    BodyReadsBack(hostname, failed + success);
  }
}

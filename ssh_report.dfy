/** The report emitter (class SSHReport of ssh_activity.py): it renders the
    combined scan results under a "Host:" header, and either prints the body
    or mails it, prefixed by a subject line, to the configured receiver.

    The local hostname is a parameter; the SMTP session itself is not part of
    this model, only the message that would be handed to it and the
    decision whether to hand it over. */
module SshReport {
  import opened Outcomes
  import opened Text

  const SmtpServer: string := "localhost"
  const SmtpPort: nat := 25
  const SenderEmail: string := "username@localhost"
  const ReceiverEmail: string := "username@localhost"
  const Subject: string := "Subject: ssh activity\n\n"

  /** "Host: " + socket.gethostname() + "\n\n" */
  function Header(hostname: string): string {
    "Host: " + hostname + "\n\n"
  }

  /** One call of sendmail on the relay the reporter was built for. */
  datatype Mail = Mail(server: string, port: nat, sender: string, receiver: string, message: string)

  /** The loop that both report methods run: `body += instance + "\n"`. */
  method BuildBody(header: string, results: seq<string>) returns (body: string)
    ensures body == header + Lines(results)
  {
    body := header;
    for i := 0 to |results|
      invariant body == header + Lines(results[..i])
    {
      assert results[..i + 1][..i] == results[..i];
      body := body + results[i] + "\n";
    }
    assert results[..|results|] == results;
  }

  /** SSHReport.email_ssh_report: the mail it sends, if any. */
  method EmailReport(hostname: string, results: seq<string>) returns (sent: Option<Mail>)
    ensures sent.Some? <==> results != []
    ensures sent.Some? ==>
      sent.value == Mail(SmtpServer, SmtpPort, SenderEmail, ReceiverEmail,
                         Subject + Header(hostname) + Lines(results))
  {
    var body := BuildBody(Header(hostname), results);
    var message := Subject + body;
    if results != [] {
      sent := Some(Mail(SmtpServer, SmtpPort, SenderEmail, ReceiverEmail, message));
    } else {
      sent := None;
    }
  }

  /** SSHReport.print_ssh_report: the body it prints. */
  method PrintReport(hostname: string, results: seq<string>) returns (body: string)
    ensures body == Header(hostname) + Lines(results)
  {
    body := BuildBody(Header(hostname), results);
  }

  /** The lines of a rendered body read back as the header's two lines and
      the results, so the body loses and reorders nothing. */
  lemma BodyReadsBack(hostname: string, results: seq<string>)
    requires '\n' !in hostname
    requires NewlineFree(results)
    ensures Unlines(Header(hostname) + Lines(results)) == ["Host: " + hostname, ""] + results
  {
    var hl := ["Host: " + hostname, ""];
    assert NewlineFree(hl);
    assert Lines(hl) == Header(hostname) by {
      assert hl[..1][..0] == [];
      assert hl[..1] == ["Host: " + hostname];
      assert Lines(hl[..1]) == "Host: " + hostname + "\n";
      assert Lines(hl) == "Host: " + hostname + "\n" + "" + "\n";
      assert "\n\n" == "\n" + "\n";
    }
    LinesAppend(hl, results);
    assert NewlineFree(hl + results) by {
      forall k | 0 <= k < |hl + results| ensures '\n' !in (hl + results)[k] {
        if k >= 2 {
          assert (hl + results)[k] == results[k - 2];
        }
      }
    }
    UnlinesLines(hl + results);
  }
}

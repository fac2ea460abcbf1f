# ssh-activity, modelled in Dafny

`ssh_activity.py` scans the system authentication log for SSH events and
reports them. It has two parts:

- The scanner (`SSHCheck`). `check_failed` keeps the log lines that contain
  both `preauth` and `user`. `check_success` keeps the lines that contain
  `Accepted`. Each kept line is split on whitespace, and three of its fields
  are joined with single spaces: fields 0, 7 and 8 for a failed attempt, and
  fields 0, 6 and 8 for a successful login. Each list starts with a title
  line and a line of dashes as long as the title, and ends with an empty
  string.
- The reporter (`SSHReport`). It renders the results under a
  `Host: <hostname>` header, one result per line. It mails the body with a
  subject line when there is at least one result, and it prints the body.

`main` concatenates the failed-attempt list with the successful-login list
and passes the result to both report methods.

The model has five modules:

- `Outcomes`: the `Option` and `Result` values.
- `Text`: Python's string operations used by the program: the substring
  test `in`, `str.strip()` and `str.split()` with no argument. `IsSpace` is
  the whitespace class that `str.strip()` and `str.split()` use. `JoinSpaced`
  is a space-join; it serves to state that an entry splits back into its
  fields (`SshCheck.EntryFields`). `Lines` joins report lines with newlines,
  and `Unlines` is the reading that recovers those lines.
- `SshCheck`: the scans.
- `SshReport`: the body, the message and the decision to send it.
- `SshActivity`: `main`.

The log is a `seq<string>` of lines, and the hostname is a parameter. The
scans and the report loops are methods with loops. Each method is proved
equal to a specification function: `Scan`/`Entries` for the scans and
`Lines` for the body. The lemmas state what those functions promise.

A qualifying line with fewer than nine fields makes `fields[...]` raise
`IndexError`, which ends the whole run. The model returns this as
`Err(IndexFault(i))`, where `i` is the position of that line in the log. The
position is extra information that Python's exception does not carry.

The title `"Failed ssh attempts:"` has 20 characters, so line 43 writes 20
dashes under it. `"Successful ssh logins:"` has 22 characters, so line 57
writes 22.

## Model

| member | source | states |
|---|---|---|
| `Text.ContainsIff` | ssh_activity.py:46 | `Contains(s, pat)`, the model of Python's `pat in s`, holds exactly when `pat` occurs at some position of `s` (both directions) |
| `Text.TokensAreTokens` | ssh_activity.py:47 | every field produced by `split()` is non-empty and contains no whitespace |
| `Text.TokensStrip` | ssh_activity.py:47 | `line.strip().split()` yields the same fields as `line.split()`: stripping removes only whitespace that splitting ignores anyway |
| `Text.TokensJoinSpaced` | ssh_activity.py:47-48 | splitting a space-joined list of fields gives back exactly those fields (split inverts join) |
| `Text.LinesAppend` | ssh_activity.py:82-83 | joining the newline-terminated lines of `a + b` equals joining `a`, then joining `b` |
| `Text.UnlinesLines` | ssh_activity.py:82-83 | if no result contains a newline, reading the joined text back line by line gives the results again, in order |
| `SshCheck.CheckEvents` | ssh_activity.py:41-50 | the loop shared by both scans returns exactly `Scan(e, log)`: either the framed list of entries or the error at the first short qualifying line |
| `SshCheck.CheckFailed` | ssh_activity.py:39-51 | `check_failed` returns `Scan(FailedAttempt, log)`; on success the list has at least 3 elements, starts with `"Failed ssh attempts:"` and 20 dashes, and ends with `""` |
| `SshCheck.CheckSuccess` | ssh_activity.py:53-65 | `check_success` returns `Scan(SuccessfulLogin, log)`; on success the list has at least 3 elements, starts with `"Successful ssh logins:"` and 22 dashes, and ends with `""` |
| `SshCheck.EntriesErrPersists` | ssh_activity.py:45-49 | once a prefix of the log raises, the scan of the whole log raises the same error: one bad line aborts the whole scan |
| `SshCheck.EntriesOkIff` | ssh_activity.py:46-48 | a scan succeeds exactly when every qualifying line has at least 9 fields (both directions) |
| `SshCheck.EntriesMatch` | ssh_activity.py:45-49 | a successful scan has one entry per qualifying line, in log order; entry `j` is fields 0, 7 or 6, and 8 of qualifying line `j`, joined by single spaces |
| `SshCheck.EntriesErrFirst` | ssh_activity.py:46-48 | a failed scan names a line that qualifies and has fewer than 9 fields, and every earlier qualifying line has 9 or more, so it is the first such line |
| `SshCheck.MatchingMembers` | ssh_activity.py:45-46 | the lines a scan keeps are exactly the log lines that pass its test; lines that fail the test contribute nothing |
| `SshCheck.MatchingIndexed` | ssh_activity.py:45-49 | the kept lines keep log order and multiplicity: kept line `j` is the log line at the `j`-th qualifying position, those positions strictly increase, and every qualifying position is among them |
| `SshCheck.MatchingAtPositions` | ssh_activity.py:45-49 | a scan keeps as many lines as there are qualifying positions, and kept line `j` is the qualifying log line at position `j` of them |
| `SshCheck.PositionsIncrease` | ssh_activity.py:45 | the qualifying positions lie inside the log and strictly increase, as the loop meets the lines in file order |
| `SshCheck.PositionsComplete` | ssh_activity.py:45-46 | every log line that passes the scan's test has its position among the qualifying positions |
| `SshCheck.MatchingNone` | ssh_activity.py:45-46 | a log with no qualifying line keeps no line |
| `SshCheck.ScanFraming` | ssh_activity.py:41-50 | a scan result has length 3 + number of qualifying lines; element 0 is the title; element 1 is dashes exactly as long as the title; the last element is `""`; element `j + 2` is the entry of qualifying line `j` |
| `SshCheck.ScanNoMatches` | ssh_activity.py:41-50 | a log with no qualifying line yields exactly `[title, dashes, ""]` |
| `SshCheck.EntryFields` | ssh_activity.py:47-48 | an entry splits back into the three fields it was built from |
| `SshCheck.EntryNewlineFree` | ssh_activity.py:47-48 | an entry contains no newline |
| `SshCheck.ScanNewlineFree` | ssh_activity.py:41-50 | no element of a scan result contains a newline, so each one prints as exactly one report line |
| `SshReport.BuildBody` | ssh_activity.py:81-83 | the `body += instance + "\n"` loop yields the header followed by each result plus a newline, in order |
| `SshReport.EmailReport` | ssh_activity.py:79-86 | a mail is sent exactly when the results are non-empty; it goes from the configured sender to the configured receiver through localhost:25, and its message is the subject followed by the body |
| `SshReport.PrintReport` | ssh_activity.py:88-93 | the printed body is the header followed by each result plus a newline, in order |
| `SshReport.BodyReadsBack` | ssh_activity.py:77-83 | when the hostname and the results contain no newline, the body reads back line by line as `Host: <hostname>`, an empty line, and then the results |
| `SshActivity.RunActivity` | ssh_activity.py:96-104 | a failed-attempt scan error aborts the run, and so does a successful-login scan error after a clean first scan; otherwise the results are the failed list followed by the success list, the printed body is the header, then the failed section, then the success section, and the mail (always sent, because both lists are framed) carries the subject and that body |
| `SshActivity.ActivityReadsBack` | ssh_activity.py:99-104 | the printed report of a clean run reads back as the header lines, then the failed-attempt list, then the successful-login list, with nothing reordered or lost |

## Left out

- Opening and reading `/var/log/auth.log` (lines 44 and 58) is I/O. The log is
  an input sequence of lines, as Python's text-file iteration yields them.
  The model does not cover how that iteration splits the file into lines, a
  missing or unreadable file, or the fact that the file is read twice.
- The SMTP connection made when `SSHReport` is built (line 75) and
  `sendmail` (line 86) are network I/O. The model states which mail would
  be handed to the relay and when. It does not model a connection or send
  failure. Building `smtplib.SMTP` at line 75 raises on a refused
  connection; the code has no handler and sets no exit status, and the
  model adds none.
- `socket.gethostname()` (line 77) is a call into the system. The hostname
  is a parameter.
- `print` (line 93) is output. The model gives the body passed to it, not
  the bytes written to standard output; `print` also adds a newline after
  the body.
- The message that `email_ssh_report` builds when the results are empty is
  never used. The model does not keep it.
- `Text.IsSpace` lists the 29 code points that `str.strip()` and
  `str.split()` treat as whitespace in current Python releases. Whitespace that a later Unicode version adds is
  not covered.

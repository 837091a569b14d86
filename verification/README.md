# create-users2 — a verified model of the provisioning core

`create-users2.py` reads roster lines of the form
`username:password:surname:given_name:group1,group2,...` from standard input.
It first asks on the terminal whether to run in dry-run mode. It then goes
through the lines:

- a line whose first character is `#` is skipped with a notice;
- any other line is stripped and split on `:`, and a line that does not give
  exactly five fields is reported and skipped;
- a record gets a banner, then an `adduser` creation command whose GECOS
  comment is `"<given> <surname>,,,"`, then a password command that pipes the
  password twice, newline-separated, into `sudo passwd`, then one
  `adduser <user> <group>` command per token of the fifth field other than
  `-`, then a closing notice.

In dry-run mode the operator is asked before the creation, the password and
each group, and a command is only shown. Otherwise every command is handed to
the shell without a question.

The model is split into six modules, one per file:

- **Text** (`text.dfy`): the Python string operations the script relies on.
  These are `strip()` on ASCII whitespace, `lower()`, `split()` on one
  character and its inverse `join()`.
- **Prompt** (`prompt.dfy`): `prompt_yes_no`. All terminal answers of a run
  are one sequence of lines, read through a cursor that every prompt
  advances. `Ask` is the specification and `PromptYesNo` the loop proved
  against it.
- **Records** (`records.dfy`): the line classifier and parser, the GECOS
  comment, the group tokens, and the inverse of parsing (`Unparse`).
- **Commands** (`commands.dfy`): the three command builders. Each has a
  reader that recovers its arguments, and round-trip lemmas tie builder and
  reader together.
- **Provisioning** (`provision.dfy`): the run itself.
  - `run_cmd` appends `WouldRun(cmd)` or `Executed(cmd)` to a trace of events.
    Skip notices and the banner are tagged events.
  - Each record passes through the states Parsed → AccountCreated → groups →
    Done. `RecordRun` covers Parsed, `AccountRun` covers AccountCreated and
    `GroupsRun` the group loop.
  - The functions `GroupRun` … `Provision` specify the run as a value
    `Run(events, pos, stalled)`.
  - The methods `RunCmd`, `AssignGroups`, `CreateAccount`, `ProcessRecord`,
    `ProcessLine`, `ProcessLines` and `ProvisionUsers` perform the run with the
    script's own loops and early exits. Each is proved to produce exactly
    what its function specifies.

The sixth, **Properties** (`properties.dfy`), proves what the script promises
about the whole run:

- modes are kept apart;
- commands come in order;
- declining a prompt suppresses only the step it gates;
- the `-` token is never joined, while the empty token is;
- a comment or malformed line issues nothing;
- there is one banner per accepted line.

The script's `strip()` removes whitespace at both ends of a line, not just
trailing whitespace. The model follows the code. So an indented record line
is accepted, while an indented `#` line is not a comment.

## Model

| member | source | states |
|---|---|---|
| Text.Strip | create-users2.py:51 | `strip()` never lengthens a line; `StripSpec` and `StripUnique` say exactly what it removes |
| Text.StripSpec | create-users2.py:51 | `strip()` returns the middle of the line: only whitespace is removed, at both ends, and the result neither starts nor ends with whitespace |
| Text.StripUnique | create-users2.py:51 | any whitespace around a string without whitespace at its ends is exactly what `strip()` removes |
| Text.Split | create-users2.py:51 | `split(sep)` gives one more piece than there are separators, no piece holds the separator, and joining the pieces restores the input |
| Text.SplitJoin | create-users2.py:62 | splitting a join of separator-free pieces gives back those pieces, empty ones included |
| Text.Lower | create-users2.py:29 | `lower()` keeps the length; `LowerAt` says how each character maps |
| Text.LowerAt | create-users2.py:29 | `lower()` maps each character on its own, shifting only `A`-`Z` |
| Prompt.Normalize | create-users2.py:29 | a response is compared stripped and lower-cased, never longer than typed; `NormalizeYesNo` says which responses give `y` and `n` |
| Prompt.Ask | create-users2.py:23-34 | a prompt's answer is the first response from the cursor on that normalises to `y` or `n`; it is yes exactly when that is `y`; every earlier response is ignored; if no response is decisive, the prompt never returns |
| Prompt.NormalizeYesNo | create-users2.py:29-33 | a response means yes exactly when it strips to `y` or `Y`, and no exactly when it strips to `n` or `N` |
| Prompt.PromptYesNo | create-users2.py:27-34 | the re-prompting loop returns what `Ask` specifies |
| Records.ParseLine | create-users2.py:46-56 | a comment exactly when the raw line starts with `#`, and a malformed line never reports 5 fields; `ParseLineSpec` states the rest |
| Records.ParseLineSpec | create-users2.py:46-56 | a comment exactly when the raw line starts with `#`; otherwise a record exactly when the stripped line has four colons, and then its colon-free fields rejoin to the stripped line; otherwise the reported field count is the colon count plus one, never 5 |
| Records.Gecos | create-users2.py:61 | the GECOS comment is the full name shown in the banner followed by `,,,` |
| Records.GecosFields | create-users2.py:61 | for names without a comma the comment has four GECOS subfields: the full name, then empty room, work phone and home phone |
| Records.FullName | create-users2.py:67 | the full name is the given name, one space, then the surname |
| Records.Groups | create-users2.py:62 | the group tokens are at least one, hold no comma, and rejoin to the fifth field |
| Records.ParseUnparse | create-users2.py:51-62 | a record written as a line and followed by any whitespace (such as the newline `readlines()` keeps) parses back to that record |
| Commands.CreateCommand | create-users2.py:79 | the creation command is an `adduser --disabled-password --gecos` invocation as long as its prefix, the comment, the closing quote, a space and the user name; `CreateRoundTrip` recovers both arguments |
| Commands.PasswordCommand | create-users2.py:88 | the password command starts with `/bin/echo -ne '`; `PasswordRoundTrip` recovers the password and user name, and `PasswordCommandDistinct` tells it apart from the other commands |
| Commands.GroupCommand | create-users2.py:102 | the group command is an `adduser` invocation as long as its prefix, the user name, a space and the group; `GroupRoundTrip` recovers both |
| Commands.CreateRoundTrip | create-users2.py:79 | the creation command carries the GECOS comment and the user name unchanged |
| Commands.PasswordRoundTrip | create-users2.py:88 | the password command feeds the password, a newline and the password again, and names the user |
| Commands.GroupRoundTrip | create-users2.py:102 | the group command names the user and the group |
| Commands.GroupCommandInjective | create-users2.py:102 | for one user, different groups give different group commands |
| Commands.PasswordCommandDistinct | create-users2.py:92 | a password command is never equal to a creation or group command |
| Provisioning.Issue | create-users2.py:16-21 | `run_cmd` records the command unchanged, shown only when in dry-run mode and executed otherwise |
| Provisioning.RunCmd | create-users2.py:16-21 | the trace grows by exactly one entry for the command: shown only in dry-run mode, executed otherwise |
| Provisioning.Confirm | create-users2.py:72-73 | outside dry-run mode a step goes ahead without reading an answer |
| Provisioning.GroupRun | create-users2.py:97-103 | one group token never moves the answer cursor backwards or past the end |
| Provisioning.GroupsRun | create-users2.py:96-103 | the group loop reads answers forward only |
| Provisioning.RecordRun | create-users2.py:64-80 | the steps of one record read answers forward only |
| Provisioning.AccountRun | create-users2.py:77-105 | the steps after the creation prompt read answers forward only |
| Provisioning.LineRun | create-users2.py:44-62 | one line reads answers forward only |
| Provisioning.LinesRun | create-users2.py:44-105 | the main loop reads answers forward only |
| Provisioning.Provision | create-users2.py:36-44 | the whole run reads no answer beyond those given |
| Provisioning.AssignGroups | create-users2.py:96-103 | the group loop, with its `continue`s, produces exactly the events, cursor and stall of `GroupsRun` |
| Provisioning.ProcessRecord | create-users2.py:72-80 | the banner and creation prompt, with the early `continue`, produce exactly `RecordRun` |
| Provisioning.CreateAccount | create-users2.py:77-105 | creation, password step, group loop and closing notice produce exactly `AccountRun` |
| Provisioning.ProcessLine | create-users2.py:45-62 | one iteration of the main loop produces exactly `LineRun` |
| Provisioning.ProcessLines | create-users2.py:44-105 | the main loop, numbering lines from `first`, produces exactly `LinesRun` |
| Provisioning.ProvisionUsers | create-users2.py:36-44 | one mode prompt then the main loop from line 1 produce exactly `Provision` |
| Provisioning.GroupsAppend | create-users2.py:96-103 | the group loop over `a + b` is the loop over `a` followed by the loop over `b` from where it stopped |
| Provisioning.LinesAppend | create-users2.py:44 | the main loop over `a + b` is the loop over `a` followed by the loop over `b`, numbered on, from where it stopped |
| Provisioning.GroupsStalled | create-users2.py:27-34 | once a group prompt waits forever, later tokens change nothing |
| Provisioning.LinesStalled | create-users2.py:27-34 | once a prompt waits forever, later lines change nothing |
| Properties.GroupsMode | create-users2.py:96-103 | the group loop only shows commands in dry-run mode and only executes them otherwise; a live group loop reads no answer and never waits |
| Properties.AccountMode | create-users2.py:77-105 | the same for the steps after creation |
| Properties.RecordMode | create-users2.py:72-105 | the same for a whole record |
| Properties.LineMode | create-users2.py:44-105 | the same for any line |
| Properties.LinesMode | create-users2.py:44-105 | a dry run never executes a command and a live run never only shows one; a live run reads no answer after the mode prompt and never waits |
| Properties.ProvisionMode | create-users2.py:41-44 | the first decisive answer fixes the mode for the whole run, and every event follows that mode |
| Properties.LiveGroups | create-users2.py:96-103 | in a live run every token other than `-` gives exactly one executed group command, in input order |
| Properties.GroupsFromTokens | create-users2.py:96-103 | every event of the group loop is the group command of a token of the list other than `-` |
| Properties.DashNeverJoined | create-users2.py:97 | the `-` token never produces a group command, in either mode |
| Properties.DashSkippedSilently | create-users2.py:97 | a `-` token is passed over without a prompt, and the loop resumes from the same answer |
| Properties.EmptyTokenJoined | create-users2.py:97 | the empty token is not `-` and does give a group command |
| Properties.DashExample | create-users2.py:96-103 | `wheel,-,docker` gives the `wheel` command then the `docker` command, in a live run |
| Properties.GroupDecision | create-users2.py:98-100 | in a dry run one group's answer decides that group's command alone; the tokens after it are handled the same either way |
| Properties.LiveAccount | create-users2.py:77-105 | after creation, a live run executes the password command, then the group commands in order, then finishes, reading no answer |
| Properties.LiveRecord | create-users2.py:72-105 | a live record gives the banner, the creation command, the password command, the group commands in order, and the closing notice |
| Properties.LiveRecordCommands | create-users2.py:77-103 | the commands of a live record are exactly creation, password, then one group command per token other than `-`, in that order |
| Properties.DeclineCreate | create-users2.py:72-75 | in a dry run, declining creation leaves only the banner and the skip notice, and issues no command at all |
| Properties.PasswordDecision | create-users2.py:79-103 | in a dry run the commands issued after the creation prompt are the creation command, then the password command exactly when the password answer is yes, then the group loop's commands from the answer after it: the password answer decides the password command alone |
| Properties.DeclinedPasswordNeverSet | create-users2.py:84-85 | after a declined password prompt no password command appears among the record's events |
| Properties.CommentLine | create-users2.py:46-48 | a line starting with `#` gives one notice with its line number, issues nothing and reads no answer, whatever its fields |
| Properties.MalformedLine | create-users2.py:51-56 | a non-comment line without exactly four colons gives one error with its line number and field count, and nothing else |
| Properties.SkippedLine | create-users2.py:46-56 | a line that is not a record yields only its notice |
| Properties.SkippedLineContinues | create-users2.py:44-56 | after a skipped line the loop goes on with the next line, numbered one further, from the same answer |
| Properties.CreationFromLine | create-users2.py:59-79 | for an accepted line the GECOS comment is field 4, a space, field 3 and `,,,`, and the creation command carries it and field 1 |
| Properties.LiveLine | create-users2.py:44-103 | a record written as a line and run live issues exactly its creation, password and group commands, in that order |
| Properties.AccountBanners | create-users2.py:77-105 | the steps after creation show no banner |
| Properties.RecordBanner | create-users2.py:64-69 | every record shows exactly one banner, whatever the answers |
| Properties.BannerPerRecord | create-users2.py:44-69 | a run that never waits shows one banner per accepted line |
| Properties.CommentExample | create-users2.py:46 | `#bob:x:Jones:Bob:-` is skipped as a comment although it has five fields |

## Left out

- The effects of `os.system` and of `adduser`, `passwd` and `sudo`, and their exit status, which the script never inspects. A command is only an entry in the trace.
- Reading standard input and opening `/dev/tty`. The lines and the terminal answers are given as sequences. Each prompt opens the terminal anew, and all prompts read the same stream, which is what the shared answer cursor stands for.
- A prompt that never gets a decisive answer loops forever in the script. The model ends the run there with `stalled` set, and no later step happens.
- Console text: the "Please enter Y or N." re-prompt, the progress lines and the exact wording of the notices. The banner is an event carrying the user name, the full name and the group field. A skip notice carries the line number, and a field-count error carries the line number and the field count instead of the line's text.
- Unicode: `strip()` and `lower()` cover ASCII whitespace (tab, newline, vertical tab, form feed, carriage return, the separators 28-31 and space) and ASCII letters only. Python's Unicode whitespace and case mapping are not modelled.
- Commands.CreateRoundTrip: holds only for a GECOS comment without a single quote, because a quote would end the quoted shell argument.
- Commands.PasswordRoundTrip: holds only for a password without a newline or a single quote. How the shell and `echo -ne` treat such characters, and backslash escapes, is not modelled.
- Commands.GroupRoundTrip: holds only for a user name without a space, because the shell splits words on spaces.

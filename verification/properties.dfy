/**
 * What the provisioning run guarantees, stated over the functions of
 * `Provisioning` (and so, through the methods' postconditions, over the loops).
 */
module Properties {
  import opened Text
  import opened Prompt
  import opened Records
  import opened Commands
  import opened Provisioning

  // ---------------------------------------------------------------------------
  // Helpers over traces and token lists.

  /** The group tokens other than `-`, in input order. */
  function Kept(groups: seq<string>): (kept: seq<string>)
    ensures |kept| <= |groups|
  {
    if groups == [] then []
    else
      var last := groups[|groups| - 1];
      Kept(groups[..|groups| - 1]) + (if last == "-" then [] else [last])
  }

  /** One group event per token, in order. */
  function GroupEvents(username: string, groups: seq<string>, dryRun: bool): (events: seq<Event>)
    ensures |events| == |groups|
  {
    if groups == [] then []
    else
      GroupEvents(username, groups[..|groups| - 1], dryRun)
        + [Issue(GroupCommand(username, groups[|groups| - 1]), dryRun)]
  }

  lemma {:induction false} IssuedAppend(a: seq<Event>, b: seq<Event>)
    ensures Issued(a + b) == Issued(a) + Issued(b)
    decreases |b|
  {
    if b == [] {
      assert a + b == a;
    } else {
      var b' := b[..|b| - 1];
      assert (a + b)[..|a + b| - 1] == a + b';
      assert (a + b)[|a + b| - 1] == b[|b| - 1];
      IssuedAppend(a, b');
    }
  }

  /** The commands of a single event. */
  lemma IssuedOne(e: Event)
    ensures Issued([e]) == if e.WouldRun? || e.Executed? then [e.cmd] else []
  {
    assert [e][..0] == [];
  }

  /** The commands of two steps, a middle part and a tail, taken apart. */
  lemma IssuedSteps(a: Event, b: Event, mid: seq<Event>, tail: seq<Event>)
    ensures Issued([a, b] + mid + tail) == Issued([a]) + Issued([b]) + Issued(mid) + Issued(tail)
  {
    IssuedAppend([a, b] + mid, tail);
    IssuedAppend([a, b], mid);
    IssuedAppend([a], [b]);
    assert [a] + [b] == [a, b];
  }

  lemma MatchesModeAppend(a: seq<Event>, b: seq<Event>, dryRun: bool)
    requires MatchesMode(a, dryRun) && MatchesMode(b, dryRun)
    ensures MatchesMode(a + b, dryRun)
  {
    forall k | 0 <= k < |a + b|
      ensures (dryRun ==> !(a + b)[k].Executed?) && (!dryRun ==> !(a + b)[k].WouldRun?)
    {
      if k < |a| { assert (a + b)[k] == a[k]; } else { assert (a + b)[k] == b[k - |a|]; }
    }
  }

  // ---------------------------------------------------------------------------
  // `run_cmd` and the mode: a dry run hands nothing to the shell; a live run
  // never shows a command without running it, reads no answer after the mode
  // prompt, and so never waits.

  lemma {:induction false} GroupsMode(username: string, groups: seq<string>, dryRun: bool, answers: seq<string>, pos: nat)
    requires pos <= |answers|
    ensures var r := GroupsRun(username, groups, dryRun, answers, pos);
      MatchesMode(r.events, dryRun) && (!dryRun ==> r.pos == pos && !r.stalled)
    decreases |groups|
  {
    if groups != [] {
      var before := GroupsRun(username, groups[..|groups| - 1], dryRun, answers, pos);
      GroupsMode(username, groups[..|groups| - 1], dryRun, answers, pos);
      if !before.stalled {
        var g := GroupRun(username, groups[|groups| - 1], dryRun, answers, before.pos);
        MatchesModeAppend(before.events, g.events, dryRun);
      }
    }
  }

  lemma AccountMode(rec: Record, dryRun: bool, answers: seq<string>, pos: nat)
    requires pos <= |answers|
    ensures var r := AccountRun(rec, dryRun, answers, pos);
      MatchesMode(r.events, dryRun) && (!dryRun ==> r.pos == pos && !r.stalled)
  {
    var user := rec.username;
    var password := Confirm(dryRun, answers, pos);
    if password.Answered? {
      var groups := GroupsRun(user, Groups(rec), dryRun, answers, password.next);
      GroupsMode(user, Groups(rec), dryRun, answers, password.next);
      var head := [Issue(CreateCommand(Gecos(rec), user), dryRun),
                   if password.yes then Issue(PasswordCommand(rec.password, user), dryRun) else PasswordSkipped(user)];
      MatchesModeAppend(head, groups.events, dryRun);
      MatchesModeAppend(head + groups.events, if groups.stalled then [] else [Finished(user)], dryRun);
    }
  }

  lemma RecordMode(rec: Record, dryRun: bool, answers: seq<string>, pos: nat)
    requires pos <= |answers|
    ensures var r := RecordRun(rec, dryRun, answers, pos);
      MatchesMode(r.events, dryRun) && (!dryRun ==> r.pos == pos && !r.stalled)
  {
    var create := Confirm(dryRun, answers, pos);
    if create.Answered? && create.yes {
      AccountMode(rec, dryRun, answers, create.next);
      var banner := [Banner(rec.username, FullName(rec), rec.groupField)];
      MatchesModeAppend(banner, AccountRun(rec, dryRun, answers, create.next).events, dryRun);
    }
  }

  lemma LineMode(lineno: nat, line: string, dryRun: bool, answers: seq<string>, pos: nat)
    requires pos <= |answers|
    ensures var r := LineRun(lineno, line, dryRun, answers, pos);
      MatchesMode(r.events, dryRun) && (!dryRun ==> r.pos == pos && !r.stalled)
  {
    if ParseLine(line).Valid? {
      RecordMode(ParseLine(line).rec, dryRun, answers, pos);
    }
  }

  /** `run_cmd` in a dry run only ever shows commands, in a live run only ever
      executes them; a live run reads no terminal answer and never waits. */
  lemma {:induction false} LinesMode(first: nat, lines: seq<string>, dryRun: bool, answers: seq<string>, pos: nat)
    requires pos <= |answers|
    ensures var r := LinesRun(first, lines, dryRun, answers, pos);
      MatchesMode(r.events, dryRun) && (!dryRun ==> r.pos == pos && !r.stalled)
    decreases |lines|
  {
    if lines != [] {
      var head := LineRun(first, lines[0], dryRun, answers, pos);
      LineMode(first, lines[0], dryRun, answers, pos);
      if !head.stalled {
        var rest := LinesRun(first + 1, lines[1..], dryRun, answers, head.pos);
        LinesMode(first + 1, lines[1..], dryRun, answers, head.pos);
        MatchesModeAppend(head.events, rest.events, dryRun);
      }
    }
  }

  /** The mode is fixed once, by the first decisive answer, for the whole
      run; everything after follows that mode. */
  lemma ProvisionMode(lines: seq<string>, answers: seq<string>)
    requires Ask(answers, 0).Answered?
    ensures var mode := Ask(answers, 0);
      && Provision(lines, answers) == LinesRun(1, lines, mode.yes, answers, mode.next)
      && MatchesMode(Provision(lines, answers).events, mode.yes)
      && (!mode.yes ==> !Provision(lines, answers).stalled)
  {
    var mode := Ask(answers, 0);
    LinesMode(1, lines, mode.yes, answers, mode.next);
  }

  // ---------------------------------------------------------------------------
  // The group loop.

  /** In a live run every token other than `-`, the empty token included,
      gives exactly one group command, in input order, and `-` gives none. */
  lemma {:induction false} LiveGroups(username: string, groups: seq<string>, answers: seq<string>, pos: nat)
    requires pos <= |answers|
    ensures GroupsRun(username, groups, false, answers, pos) ==
      Run(GroupEvents(username, Kept(groups), false), pos, false)
    decreases |groups|
  {
    if groups != [] {
      var init := groups[..|groups| - 1];
      var last := groups[|groups| - 1];
      LiveGroups(username, init, answers, pos);
      if last != "-" {
        var k := Kept(init) + [last];
        assert k[..|k| - 1] == Kept(init);
      } else {
        assert Kept(init) + [] == Kept(init);
      }
    }
  }

  /** The token a group command event was built for. */
  function TokenOf(username: string, e: Event): string {
    var n := |GroupPrefix| + |username| + 1;
    if (e.WouldRun? || e.Executed?) && n <= |e.cmd| then e.cmd[n..] else ""
  }

  /** `e` is the group command event of a token of `groups` other than `-`. */
  predicate GroupEventFor(username: string, groups: seq<string>, dryRun: bool, e: Event) {
    var g := TokenOf(username, e);
    g in groups && g != "-" && e == Issue(GroupCommand(username, g), dryRun)
  }

  lemma TokenOfGroup(username: string, g: string, dryRun: bool)
    ensures TokenOf(username, Issue(GroupCommand(username, g), dryRun)) == g
  {
    assert GroupCommand(username, g)[|GroupPrefix| + |username| + 1..] == g;
  }

  /** Whatever the mode and the answers, every event of the group loop is a
      group command for a token of the list that is not `-`. */
  lemma {:induction false} GroupsFromTokens(username: string, groups: seq<string>, dryRun: bool, answers: seq<string>, pos: nat)
    requires pos <= |answers|
    ensures forall k :: 0 <= k < |GroupsRun(username, groups, dryRun, answers, pos).events| ==>
      GroupEventFor(username, groups, dryRun, GroupsRun(username, groups, dryRun, answers, pos).events[k])
    decreases |groups|
  {
    if groups != [] {
      var init := groups[..|groups| - 1];
      var last := groups[|groups| - 1];
      assert groups == init + [last];
      var before := GroupsRun(username, init, dryRun, answers, pos);
      GroupsFromTokens(username, init, dryRun, answers, pos);
      assert forall k :: 0 <= k < |before.events| ==> GroupEventFor(username, init, dryRun, before.events[k]);
      if !before.stalled {
        var step := GroupRun(username, last, dryRun, answers, before.pos);
        var events := before.events + step.events;
        TokenOfGroup(username, last, dryRun);
        forall k | 0 <= k < |events| ensures GroupEventFor(username, groups, dryRun, events[k]) {
          if k < |before.events| {
            assert events[k] == before.events[k];
            assert GroupEventFor(username, init, dryRun, before.events[k]);
          } else {
            assert events[k] == step.events[k - |before.events|];
          }
        }
      }
    }
  }

  /** The sentinel `-` never produces a group command, in either mode. */
  lemma DashNeverJoined(username: string, groups: seq<string>, dryRun: bool, answers: seq<string>, pos: nat)
    requires pos <= |answers|
    ensures Issue(GroupCommand(username, "-"), dryRun) !in GroupsRun(username, groups, dryRun, answers, pos).events
  {
    var events := GroupsRun(username, groups, dryRun, answers, pos).events;
    GroupsFromTokens(username, groups, dryRun, answers, pos);
    TokenOfGroup(username, "-", dryRun);
  }

  /** A `-` token is passed over without a prompt: the loop goes on with the
      next token from the same answer. */
  lemma DashSkippedSilently(username: string, a: seq<string>, b: seq<string>, dryRun: bool, answers: seq<string>, pos: nat)
    requires pos <= |answers|
    requires !GroupsRun(username, a, dryRun, answers, pos).stalled
    ensures var ra := GroupsRun(username, a, dryRun, answers, pos);
      GroupsRun(username, a + ["-"] + b, dryRun, answers, pos) ==
        Then(ra, GroupsRun(username, b, dryRun, answers, ra.pos))
  {
    var ra := GroupsRun(username, a, dryRun, answers, pos);
    GroupsAppend(username, a + ["-"], b, dryRun, answers, pos);
    assert (a + ["-"])[..|a|] == a;
    assert ra.events + [] == ra.events;
  }

  /** In a dry run the answer to one group's prompt decides that group's
      command alone: declining drops it, approving shows it, and the tokens
      after it are processed the same way in both cases. */
  lemma GroupDecision(username: string, a: seq<string>, g: string, b: seq<string>, answers: seq<string>, pos: nat)
    requires pos <= |answers|
    requires g != "-"
    requires !GroupsRun(username, a, true, answers, pos).stalled
    requires Ask(answers, GroupsRun(username, a, true, answers, pos).pos).Answered?
    ensures var ra := GroupsRun(username, a, true, answers, pos);
      var reply := Ask(answers, ra.pos);
      var rb := GroupsRun(username, b, true, answers, reply.next);
      GroupsRun(username, a + [g] + b, true, answers, pos) ==
        Run(ra.events + (if reply.yes then [WouldRun(GroupCommand(username, g))] else []) + rb.events,
            rb.pos, rb.stalled)
  {
    var ra := GroupsRun(username, a, true, answers, pos);
    GroupsAppend(username, a + [g], b, dryRun := true, answers := answers, pos := pos);
    assert (a + [g])[..|a|] == a;
  }

  // ---------------------------------------------------------------------------
  // One record.

  /** Once the account is created in a live run, the password command and
      then one group command per token other than `-` follow, all executed,
      without reading an answer. */
  lemma LiveAccount(rec: Record, answers: seq<string>, pos: nat)
    requires pos <= |answers|
    ensures var user := rec.username;
      AccountRun(rec, false, answers, pos) ==
        Run([Executed(CreateCommand(Gecos(rec), user)), Executed(PasswordCommand(rec.password, user))]
            + GroupEvents(user, Kept(Groups(rec)), false)
            + [Finished(user)],
            pos, false)
  {
    LiveGroups(rec.username, Groups(rec), answers, pos);
  }

  /** A live run issues, in this order, the creation command, the password
      command, and one group command per token other than `-`, executing each. */
  lemma LiveRecord(rec: Record, answers: seq<string>, pos: nat)
    requires pos <= |answers|
    ensures var user := rec.username;
      RecordRun(rec, false, answers, pos) ==
        Run([Banner(user, FullName(rec), rec.groupField),
             Executed(CreateCommand(Gecos(rec), user)),
             Executed(PasswordCommand(rec.password, user))]
            + GroupEvents(user, Kept(Groups(rec)), false)
            + [Finished(user)],
            pos, false)
  {
    var user := rec.username;
    LiveAccount(rec, answers, pos);
    var banner := Banner(user, FullName(rec), rec.groupField);
    var head := [Executed(CreateCommand(Gecos(rec), user)), Executed(PasswordCommand(rec.password, user))];
    var groups := GroupEvents(user, Kept(Groups(rec)), false);
    var account := AccountRun(rec, false, answers, pos);
    assert RecordRun(rec, false, answers, pos) == Then(Run([banner], pos, false), account);
    assert [banner] + (head + groups + [Finished(user)]) == [banner] + head + groups + [Finished(user)];
  }

  /** In a dry run, declining the creation prompt abandons the record: no
      command of any kind is issued for it. */
  lemma DeclineCreate(rec: Record, answers: seq<string>, pos: nat)
    requires pos <= |answers|
    requires Ask(answers, pos).Answered? && !Ask(answers, pos).yes
    ensures RecordRun(rec, true, answers, pos) ==
      Run([Banner(rec.username, FullName(rec), rec.groupField), UserSkipped(rec.username)],
          Ask(answers, pos).next, false)
    ensures Issued(RecordRun(rec, true, answers, pos).events) == []
  {
    var e := [Banner(rec.username, FullName(rec), rec.groupField), UserSkipped(rec.username)];
    assert e[..1][..0] == [];
    assert e[..1] == [Banner(rec.username, FullName(rec), rec.groupField)];
  }

  /** The steps of the state AccountCreated once the password gate has been
      passed: the creation command, the password command or its skip notice,
      the group loop from the next answer, and the closing notice unless the
      group loop stalled. */
  lemma AccountSteps(rec: Record, dryRun: bool, answers: seq<string>, pos: nat)
    requires pos <= |answers|
    requires Confirm(dryRun, answers, pos).Answered?
    ensures var user := rec.username;
      var reply := Confirm(dryRun, answers, pos);
      var groups := GroupsRun(user, Groups(rec), dryRun, answers, reply.next);
      AccountRun(rec, dryRun, answers, pos) ==
        Run([Issue(CreateCommand(Gecos(rec), user), dryRun),
             if reply.yes then Issue(PasswordCommand(rec.password, user), dryRun) else PasswordSkipped(user)]
            + groups.events
            + (if groups.stalled then [] else [Finished(user)]),
            groups.pos, groups.stalled)
  {
  }

  /** In a dry run, once the account is created, the password answer decides
      the password command alone: the creation command is issued either way,
      and the group loop runs from the answer after it either way. */
  lemma PasswordDecision(rec: Record, answers: seq<string>, pos: nat)
    requires pos <= |answers|
    requires Ask(answers, pos).Answered?
    ensures var user := rec.username;
      var reply := Ask(answers, pos);
      Issued(AccountRun(rec, true, answers, pos).events) ==
        [CreateCommand(Gecos(rec), user)]
        + (if reply.yes then [PasswordCommand(rec.password, user)] else [])
        + Issued(GroupsRun(user, Groups(rec), true, answers, reply.next).events)
  {
    var user := rec.username;
    var reply := Ask(answers, pos);
    var groups := GroupsRun(user, Groups(rec), true, answers, reply.next);
    var create := WouldRun(CreateCommand(Gecos(rec), user));
    var password := if reply.yes then WouldRun(PasswordCommand(rec.password, user)) else PasswordSkipped(user);
    var tail := if groups.stalled then [] else [Finished(user)];
    AccountSteps(rec, true, answers, pos);
    IssuedSteps(create, password, groups.events, tail);
    IssuedOne(create);
    IssuedOne(password);
    if !groups.stalled {
      IssuedOne(Finished(user));
    }
  }

  /** Declining the password prompt cannot bring the password command back:
      the record's commands are then the creation command and group commands
      only. */
  lemma DeclinedPasswordNeverSet(rec: Record, answers: seq<string>, pos: nat)
    requires pos <= |answers|
    requires Ask(answers, pos).Answered? && !Ask(answers, pos).yes
    ensures WouldRun(PasswordCommand(rec.password, rec.username)) !in AccountRun(rec, true, answers, pos).events
  {
    var user := rec.username;
    var reply := Ask(answers, pos);
    var groups := GroupsRun(user, Groups(rec), true, answers, reply.next);
    var pw := WouldRun(PasswordCommand(rec.password, user));
    GroupsFromTokens(user, Groups(rec), true, answers, reply.next);
    PasswordCommandDistinct(rec.password, user, Gecos(rec), user);
    if pw in groups.events {
      var k :| 0 <= k < |groups.events| && groups.events[k] == pw;
      assert GroupEventFor(user, Groups(rec), true, groups.events[k]);
      PasswordCommandDistinct(rec.password, user, user, TokenOf(user, pw));
      assert false;
    }
    AccountSteps(rec, true, answers, pos);
  }

  // ---------------------------------------------------------------------------
  // One line.

  /** A line starting with `#` is skipped before it is split, whatever its
      field count: one notice, no command, no answer read. */
  lemma CommentLine(lineno: nat, line: string, dryRun: bool, answers: seq<string>, pos: nat)
    requires pos <= |answers|
    requires IsComment(line)
    ensures LineRun(lineno, line, dryRun, answers, pos) == Run([CommentSkipped(lineno)], pos, false)
  {
  }

  /** Any other line without exactly four colons is reported with its
      line number and field count, and nothing else happens for it. */
  lemma MalformedLine(lineno: nat, line: string, dryRun: bool, answers: seq<string>, pos: nat)
    requires pos <= |answers|
    requires !IsComment(line) && Count(Strip(line), ':') != 4
    ensures LineRun(lineno, line, dryRun, answers, pos) ==
      Run([FieldCountError(lineno, Count(Strip(line), ':') + 1)], pos, false)
  {
    ParseLineSpec(line);
  }

  /** The notice a line that is not a record gets. */
  function Notice(lineno: nat, line: string): Event {
    if IsComment(line) then CommentSkipped(lineno)
    else FieldCountError(lineno, Count(Strip(line), ':') + 1)
  }

  lemma SkippedLine(lineno: nat, line: string, dryRun: bool, answers: seq<string>, pos: nat)
    requires pos <= |answers|
    requires !ParseLine(line).Valid?
    ensures LinesRun(lineno, [line], dryRun, answers, pos) == Run([Notice(lineno, line)], pos, false)
  {
    ParseLineSpec(line);
    if IsComment(line) {
      CommentLine(lineno, line, dryRun, answers, pos);
    } else {
      MalformedLine(lineno, line, dryRun, answers, pos);
    }
    LinesSingle(lineno, line, dryRun, answers, pos);
  }

  /** A skipped line adds its notice and the loop goes on with the next line,
      numbered one further, from the same answer. */
  lemma SkippedLineContinues(first: nat, a: seq<string>, line: string, b: seq<string>, dryRun: bool, answers: seq<string>, pos: nat)
    requires pos <= |answers|
    requires !ParseLine(line).Valid?
    requires !LinesRun(first, a, dryRun, answers, pos).stalled
    ensures var ra := LinesRun(first, a, dryRun, answers, pos);
      var rb := LinesRun(first + |a| + 1, b, dryRun, answers, ra.pos);
      LinesRun(first, a + [line] + b, dryRun, answers, pos) ==
        Run(ra.events + [Notice(first + |a|, line)] + rb.events, rb.pos, rb.stalled)
  {
    SkippedLineAfter(first, a, line, dryRun, answers, pos);
    LinesAppend(first, a + [line], b, dryRun, answers, pos);
  }

  /** A skipped line after some lines adds its notice and reads no answer. */
  lemma SkippedLineAfter(first: nat, a: seq<string>, line: string, dryRun: bool, answers: seq<string>, pos: nat)
    requires pos <= |answers|
    requires !ParseLine(line).Valid?
    requires !LinesRun(first, a, dryRun, answers, pos).stalled
    ensures var ra := LinesRun(first, a, dryRun, answers, pos);
      LinesRun(first, a + [line], dryRun, answers, pos) == Run(ra.events + [Notice(first + |a|, line)], ra.pos, false)
  {
    var ra := LinesRun(first, a, dryRun, answers, pos);
    SkippedLine(first + |a|, line, dryRun, answers, ra.pos);
    LinesAppend(first, a, [line], dryRun, answers, pos);
  }

  /** For an accepted line the GECOS comment is "<field 4> <field 3>,,," and
      the creation command carries it and the user name (field 1). */
  lemma CreationFromLine(line: string)
    requires ParseLine(line).Valid?
    ensures var f := Split(Strip(line), ':');
      var rec := ParseLine(line).rec;
      && |f| == 5
      && Gecos(rec) == f[3] + " " + f[2] + ",,,"
      && rec.username == f[0]
      && ('\'' !in f[2] && '\'' !in f[3] ==>
            ParseCreate(CreateCommand(Gecos(rec), rec.username)) == Some((f[3] + " " + f[2] + ",,,", f[0])))
  {
    var f := Split(Strip(line), ':');
    var rec := ParseLine(line).rec;
    if '\'' !in f[2] && '\'' !in f[3] {
      assert '\'' !in Gecos(rec);
      CreateRoundTrip(Gecos(rec), rec.username);
    }
  }

  /** The commands a live run issues for one record, in order: creation,
      password, then one group command per token other than `-`. */
  lemma LiveRecordCommands(rec: Record, answers: seq<string>, pos: nat)
    requires pos <= |answers|
    ensures Issued(RecordRun(rec, false, answers, pos).events) ==
      [CreateCommand(Gecos(rec), rec.username), PasswordCommand(rec.password, rec.username)]
      + GroupCommands(rec.username, Kept(Groups(rec)))
  {
    var user := rec.username;
    LiveRecord(rec, answers, pos);
    var create := CreateCommand(Gecos(rec), user);
    var password := PasswordCommand(rec.password, user);
    var head := [Banner(user, FullName(rec), rec.groupField), Executed(create), Executed(password)];
    var groups := GroupEvents(user, Kept(Groups(rec)), false);
    IssuedAppend(head + groups, [Finished(user)]);
    IssuedAppend(head, groups);
    IssuedHead(head);
    IssuedGroupEvents(user, Kept(Groups(rec)));
    assert Issued([Finished(user)]) == [];
  }

  lemma IssuedHead(head: seq<Event>)
    requires |head| == 3 && head[0].Banner? && head[1].Executed? && head[2].Executed?
    ensures Issued(head) == [head[1].cmd, head[2].cmd]
  {
    var two := head[..2];
    var one := two[..1];
    assert one[..0] == [];
    assert Issued(one) == [];
    assert Issued(two) == [head[1].cmd];
    assert Issued(head) == Issued(two) + [head[2].cmd];
  }

  /** A record written out as a line and processed live issues exactly its
      three kinds of command, in order; the GECOS comment is built from the
      given name and the surname. */
  lemma LiveLine(lineno: nat, rec: Record, trail: string, answers: seq<string>, pos: nat)
    requires pos <= |answers|
    requires Writable(rec) && AllSpace(trail)
    ensures Issued(LineRun(lineno, Unparse(rec) + trail, false, answers, pos).events) ==
      [CreateCommand(rec.givenName + " " + rec.surname + ",,,", rec.username),
       PasswordCommand(rec.password, rec.username)]
      + GroupCommands(rec.username, Kept(Split(rec.groupField, ',')))
  {
    ParseUnparse(rec, trail);
    assert LineRun(lineno, Unparse(rec) + trail, false, answers, pos) == RecordRun(rec, false, answers, pos);
    LiveRecordCommands(rec, answers, pos);
  }

  /** The command lines of the group commands for `groups`, in order. */
  function GroupCommands(username: string, groups: seq<string>): (cmds: seq<string>)
    ensures |cmds| == |groups|
  {
    if groups == [] then [] else GroupCommands(username, groups[..|groups| - 1]) + [GroupCommand(username, groups[|groups| - 1])]
  }

  lemma {:induction false} IssuedGroupEvents(username: string, groups: seq<string>)
    ensures Issued(GroupEvents(username, groups, false)) == GroupCommands(username, groups)
    decreases |groups|
  {
    if groups != [] {
      var init := groups[..|groups| - 1];
      var e := GroupEvents(username, init, false);
      var last := Executed(GroupCommand(username, groups[|groups| - 1]));
      IssuedGroupEvents(username, init);
      assert (e + [last])[..|e|] == e;
    }
  }

  // ---------------------------------------------------------------------------
  // Banners: one per accepted line.

  function Banners(events: seq<Event>): nat {
    if events == [] then 0
    else Banners(events[..|events| - 1]) + (if events[|events| - 1].Banner? then 1 else 0)
  }

  function Accepted(lines: seq<string>): nat {
    if lines == [] then 0
    else (if ParseLine(lines[0]).Valid? then 1 else 0) + Accepted(lines[1..])
  }

  lemma {:induction false} BannersAppend(a: seq<Event>, b: seq<Event>)
    ensures Banners(a + b) == Banners(a) + Banners(b)
    decreases |b|
  {
    if b == [] {
      assert a + b == a;
    } else {
      var b' := b[..|b| - 1];
      assert (a + b)[..|a + b| - 1] == a + b';
      assert (a + b)[|a + b| - 1] == b[|b| - 1];
      BannersAppend(a, b');
    }
  }

  lemma {:induction false} NoBanners(events: seq<Event>)
    requires forall k :: 0 <= k < |events| ==> !events[k].Banner?
    ensures Banners(events) == 0
    decreases |events|
  {
    if events != [] {
      NoBanners(events[..|events| - 1]);
    }
  }

  lemma AccountBanners(rec: Record, dryRun: bool, answers: seq<string>, pos: nat)
    requires pos <= |answers|
    ensures Banners(AccountRun(rec, dryRun, answers, pos).events) == 0
  {
    var user := rec.username;
    var create := Issue(CreateCommand(Gecos(rec), user), dryRun);
    var reply := Confirm(dryRun, answers, pos);
    if reply.Exhausted? {
      assert AccountRun(rec, dryRun, answers, pos).events == [create];
      assert Banners([create]) == Banners([]) + 0;
    } else {
      AccountSteps(rec, dryRun, answers, pos);
      var groups := GroupsRun(user, Groups(rec), dryRun, answers, reply.next);
      var head := [create, if reply.yes then Issue(PasswordCommand(rec.password, user), dryRun) else PasswordSkipped(user)];
      var tail := if groups.stalled then [] else [Finished(user)];
      GroupsFromTokens(user, Groups(rec), dryRun, answers, reply.next);
      NoBanners(groups.events);
      NoBanners(head);
      NoBanners(tail);
      BannersAppend(head, groups.events);
      BannersAppend(head + groups.events, tail);
    }
  }

  lemma RecordBanner(rec: Record, dryRun: bool, answers: seq<string>, pos: nat)
    requires pos <= |answers|
    ensures Banners(RecordRun(rec, dryRun, answers, pos).events) == 1
  {
    var banner := [Banner(rec.username, FullName(rec), rec.groupField)];
    assert Banners(banner) == 1 by {
      assert banner[..0] == [];
    }
    var create := Confirm(dryRun, answers, pos);
    if create.Answered? {
      if create.yes {
        AccountBanners(rec, dryRun, answers, create.next);
        BannersAppend(banner, AccountRun(rec, dryRun, answers, create.next).events);
      } else {
        var events := banner + [UserSkipped(rec.username)];
        assert events[..1] == banner;
      }
    }
  }

  /** One banner per accepted line, when no prompt is left unanswered. */
  lemma {:induction false} BannerPerRecord(first: nat, lines: seq<string>, dryRun: bool, answers: seq<string>, pos: nat)
    requires pos <= |answers|
    requires !LinesRun(first, lines, dryRun, answers, pos).stalled
    ensures Banners(LinesRun(first, lines, dryRun, answers, pos).events) == Accepted(lines)
    decreases |lines|
  {
    if lines != [] {
      var head := LineRun(first, lines[0], dryRun, answers, pos);
      var rest := LinesRun(first + 1, lines[1..], dryRun, answers, head.pos);
      BannerPerRecord(first + 1, lines[1..], dryRun, answers, head.pos);
      BannersAppend(head.events, rest.events);
      match ParseLine(lines[0])
      case Comment =>
        assert Banners(head.events) == Banners([]) + 0;
      case Malformed(_) =>
        assert Banners(head.events) == Banners([]) + 0;
      case Valid(rec) =>
        RecordBanner(rec, dryRun, answers, pos);
    }
  }

  // ---------------------------------------------------------------------------
  // Worked examples.

  /** In a live run the tokens `wheel,-,docker` give two group commands, in
      that order, and the `-` between them none. */
  lemma DashExample(username: string, answers: seq<string>, pos: nat)
    requires pos <= |answers|
    ensures GroupsRun(username, ["wheel", "-", "docker"], false, answers, pos).events ==
      [Executed(GroupCommand(username, "wheel")), Executed(GroupCommand(username, "docker"))]
  {
    var tokens := ["wheel", "-", "docker"];
    LiveGroups(username, tokens, answers, pos);
    assert tokens[..2][..1] == ["wheel"];
    assert tokens[..2] == ["wheel", "-"];
    assert Kept(tokens) == ["wheel", "docker"];
    assert ["wheel", "docker"][..1] == ["wheel"];
  }

  /** The empty token, from an empty group field or a doubled comma, is not
      `-`, so it does give a group command. */
  lemma EmptyTokenJoined(username: string, answers: seq<string>, pos: nat)
    requires pos <= |answers|
    ensures GroupsRun(username, [""], false, answers, pos).events == [Executed(GroupCommand(username, ""))]
  {
    LiveGroups(username, [""], answers, pos);
    assert Kept([""]) == [""];
  }

  /** A commented line is skipped even though it has five fields. */
  lemma CommentExample(dryRun: bool, answers: seq<string>, pos: nat)
    requires pos <= |answers|
    ensures LineRun(2, "#bob:x:Jones:Bob:-", dryRun, answers, pos) == Run([CommentSkipped(2)], pos, false)
  {
  }
}

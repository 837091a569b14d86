/**
 * The provisioning run: for each roster line, classify it, and for a record
 * create the account, set its password and join its groups, asking the
 * operator before each step in dry-run mode.
 *
 * `os.system` and the console are modelled as one trace of events: a command
 * is recorded as `Executed` (handed to the shell) or `WouldRun` (only shown in
 * dry-run mode), and the skip notices as tagged events. The terminal answers
 * are a sequence read through a cursor (see `Prompt`).
 *
 * The functions below (`GroupRun` ... `Provision`) specify the run; the
 * methods at the end perform it step by step, the way the script's loops do,
 * and are proved to produce exactly what the functions specify.
 */
module Provisioning {
  import opened Text
  import opened Prompt
  import opened Records
  import opened Commands

  datatype Event =
    | CommentSkipped(lineno: nat)
    | FieldCountError(lineno: nat, fieldCount: nat)
    | Banner(username: string, fullName: string, groupField: string)
    | UserSkipped(username: string)
    | PasswordSkipped(username: string)
    | WouldRun(cmd: string)
    | Executed(cmd: string)
    | Finished(username: string)

  /** `run_cmd`: what the trace records for one command. */
  function Issue(cmd: string, dryRun: bool): (e: Event)
    ensures (e.WouldRun? || e.Executed?) && e.cmd == cmd
    ensures e.WouldRun? <==> dryRun
  {
    if dryRun then WouldRun(cmd) else Executed(cmd)
  }

  /** The command lines in a trace, in order, whether executed or only shown. */
  function Issued(events: seq<Event>): (cmds: seq<string>)
    ensures |cmds| <= |events|
  {
    if events == [] then []
    else
      var last := events[|events| - 1];
      Issued(events[..|events| - 1]) + (if last.WouldRun? || last.Executed? then [last.cmd] else [])
  }

  /** In dry-run mode nothing is handed to the shell; otherwise nothing is
      only shown. */
  predicate MatchesMode(events: seq<Event>, dryRun: bool) {
    forall k :: 0 <= k < |events| ==>
      (dryRun ==> !events[k].Executed?) && (!dryRun ==> !events[k].WouldRun?)
  }

  /** The state of a run after some steps: the trace so far, how many terminal
      answers have been read, and whether the script is stuck waiting for an
      answer that never comes. */
  datatype Run = Run(events: seq<Event>, pos: nat, stalled: bool)

  /** `b` run after `a`, from where `a` left the answers. */
  function Then(a: Run, b: Run): Run {
    Run(a.events + b.events, b.pos, b.stalled)
  }

  /** The gate in front of a step: in dry-run mode the operator is asked;
      otherwise the step goes ahead and no answer is read. */
  function Confirm(dryRun: bool, answers: seq<string>, pos: nat): (r: Reply)
    requires pos <= |answers|
    ensures r.Answered? ==> pos <= r.next <= |answers|
    ensures !dryRun ==> r == Answered(true, pos)
  {
    if dryRun then Ask(answers, pos) else Answered(true, pos)
  }

  /** One group token: `-` is skipped without a prompt; any other token,
      the empty one included, is confirmed in dry-run mode and then joined. */
  function GroupRun(username: string, group: string, dryRun: bool, answers: seq<string>, pos: nat): (r: Run)
    requires pos <= |answers|
    ensures pos <= r.pos <= |answers|
  {
    if group == "-" then Run([], pos, false)
    else
      match Confirm(dryRun, answers, pos)
      case Exhausted => Run([], |answers|, true)
      case Answered(yes, next) =>
        Run(if yes then [Issue(GroupCommand(username, group), dryRun)] else [], next, false)
  }

  /** The group loop over the tokens in input order; a stalled prompt ends
      the run there. */
  function GroupsRun(username: string, groups: seq<string>, dryRun: bool, answers: seq<string>, pos: nat): (r: Run)
    requires pos <= |answers|
    ensures pos <= r.pos <= |answers|
  {
    if groups == [] then Run([], pos, false)
    else
      var before := GroupsRun(username, groups[..|groups| - 1], dryRun, answers, pos);
      if before.stalled then before
      else Then(before, GroupRun(username, groups[|groups| - 1], dryRun, answers, before.pos))
  }

  /** One record, from the state Parsed: the banner, then the creation prompt
      in dry-run mode; declining it abandons the record. */
  function RecordRun(rec: Record, dryRun: bool, answers: seq<string>, pos: nat): (r: Run)
    requires pos <= |answers|
    ensures pos <= r.pos <= |answers|
  {
    var banner := Banner(rec.username, FullName(rec), rec.groupField);
    match Confirm(dryRun, answers, pos)
    case Exhausted => Run([banner], |answers|, true)
    case Answered(create, next) =>
      if create then Then(Run([banner], next, false), AccountRun(rec, dryRun, answers, next))
      else Run([banner, UserSkipped(rec.username)], next, false)
  }

  /** From the state AccountCreated: the creation command, the password
      prompt in dry-run mode (declining skips only the password command), the
      group loop, and the closing notice. */
  function AccountRun(rec: Record, dryRun: bool, answers: seq<string>, pos: nat): (r: Run)
    requires pos <= |answers|
    ensures pos <= r.pos <= |answers|
  {
    var user := rec.username;
    var create := Issue(CreateCommand(Gecos(rec), user), dryRun);
    match Confirm(dryRun, answers, pos)
    case Exhausted => Run([create], |answers|, true)
    case Answered(setPassword, next) =>
      var password := if setPassword then Issue(PasswordCommand(rec.password, user), dryRun) else PasswordSkipped(user);
      var groups := GroupsRun(user, Groups(rec), dryRun, answers, next);
      Run([create, password] + groups.events + (if groups.stalled then [] else [Finished(user)]),
          groups.pos, groups.stalled)
  }

  /** One input line, numbered `lineno`. */
  function LineRun(lineno: nat, line: string, dryRun: bool, answers: seq<string>, pos: nat): (r: Run)
    requires pos <= |answers|
    ensures pos <= r.pos <= |answers|
  {
    match ParseLine(line)
    case Comment => Run([CommentSkipped(lineno)], pos, false)
    case Malformed(n) => Run([FieldCountError(lineno, n)], pos, false)
    case Valid(rec) => RecordRun(rec, dryRun, answers, pos)
  }

  /** The main loop over the lines, numbered from `first` on; a stalled
      prompt ends the run there. */
  function LinesRun(first: nat, lines: seq<string>, dryRun: bool, answers: seq<string>, pos: nat): (r: Run)
    requires pos <= |answers|
    ensures pos <= r.pos <= |answers|
    decreases |lines|
  {
    if lines == [] then Run([], pos, false)
    else
      var head := LineRun(first, lines[0], dryRun, answers, pos);
      if head.stalled then head
      else Then(head, LinesRun(first + 1, lines[1..], dryRun, answers, head.pos))
  }

  /** The whole script: one prompt fixes the mode, then every line, numbered
      from 1, is processed. */
  function Provision(lines: seq<string>, answers: seq<string>): (r: Run)
    ensures r.pos <= |answers|
  {
    match Ask(answers, 0)
    case Exhausted => Run([], |answers|, true)
    case Answered(dryRun, next) => LinesRun(1, lines, dryRun, answers, next)
  }

  // ---------------------------------------------------------------------------
  // The script's own loops.

  /** `run_cmd`: show the command in dry-run mode, hand it to the shell
      otherwise; either way it is appended to the trace. */
  method RunCmd(trace: seq<Event>, cmd: string, dryRun: bool) returns (after: seq<Event>)
    ensures after == trace + [Issue(cmd, dryRun)]
    ensures |after| == |trace| + 1 && after[|trace|].cmd == cmd
    ensures after[|trace|].WouldRun? == dryRun && after[|trace|].Executed? == !dryRun
  {
    if dryRun {
      after := trace + [WouldRun(cmd)];
    } else {
      after := trace + [Executed(cmd)];
    }
  }

  /** The group loop of one record. */
  method AssignGroups(username: string, groups: seq<string>, dryRun: bool, answers: seq<string>, pos: nat)
    returns (events: seq<Event>, next: nat, stalled: bool)
    requires pos <= |answers|
    ensures Run(events, next, stalled) == GroupsRun(username, groups, dryRun, answers, pos)
  {
    events, next, stalled := [], pos, false;
    for i := 0 to |groups|
      invariant Run(events, next, false) == GroupsRun(username, groups[..i], dryRun, answers, pos)
    {
      assert groups[..i + 1][..i] == groups[..i];
      var group := groups[i];
      if group != "-" {
        if dryRun {
          var reply := PromptYesNo(answers, next);
          if reply.Exhausted? {
            next, stalled := |answers|, true;
            GroupsStalled(username, groups, i + 1, dryRun, answers, pos);
            return;
          }
          next := reply.next;
          if !reply.yes {
            continue;
          }
        }
        events := RunCmd(events, GroupCommand(username, group), dryRun);
      }
    }
    assert groups[..|groups|] == groups;
  }

  /** Everything the script does for one well-formed line. */
  method ProcessRecord(rec: Record, dryRun: bool, answers: seq<string>, pos: nat)
    returns (events: seq<Event>, next: nat, stalled: bool)
    requires pos <= |answers|
    ensures Run(events, next, stalled) == RecordRun(rec, dryRun, answers, pos)
  {
    var user := rec.username;
    var banner := [Banner(user, FullName(rec), rec.groupField)];
    next := pos;
    if dryRun {
      var reply := PromptYesNo(answers, next);
      if reply.Exhausted? {
        return banner, |answers|, true;
      }
      next := reply.next;
      if !reply.yes {
        return banner + [UserSkipped(user)], next, false;
      }
    }
    var account;
    account, next, stalled := CreateAccount(rec, dryRun, answers, next);
    events := banner + account;
  }

  /** The account steps of one record, once its creation is confirmed. */
  method CreateAccount(rec: Record, dryRun: bool, answers: seq<string>, pos: nat)
    returns (events: seq<Event>, next: nat, stalled: bool)
    requires pos <= |answers|
    ensures Run(events, next, stalled) == AccountRun(rec, dryRun, answers, pos)
  {
    var user := rec.username;
    ghost var create := Issue(CreateCommand(Gecos(rec), user), dryRun);
    events := RunCmd([], CreateCommand(Gecos(rec), user), dryRun);
    assert events == [create];
    next := pos;
    var setPassword := true;
    if dryRun {
      var reply := PromptYesNo(answers, next);
      if reply.Exhausted? {
        return events, |answers|, true;
      }
      next, setPassword := reply.next, reply.yes;
    }
    assert Confirm(dryRun, answers, pos) == Answered(setPassword, next);
    ghost var password := if setPassword then Issue(PasswordCommand(rec.password, user), dryRun) else PasswordSkipped(user);
    if setPassword {
      events := RunCmd(events, PasswordCommand(rec.password, user), dryRun);
    } else {
      events := events + [PasswordSkipped(user)];
    }
    assert events == [create, password];
    ghost var groups := GroupsRun(user, Groups(rec), dryRun, answers, next);
    var groupEvents;
    groupEvents, next, stalled := AssignGroups(user, Groups(rec), dryRun, answers, next);
    assert Run(groupEvents, next, stalled) == groups;
    events := events + groupEvents;
    if !stalled {
      events := events + [Finished(user)];
    }
  }

  /** One line: skip a comment, report a line without five fields, process
      a record. */
  method ProcessLine(lineno: nat, line: string, dryRun: bool, answers: seq<string>, pos: nat)
    returns (events: seq<Event>, next: nat, stalled: bool)
    requires pos <= |answers|
    ensures Run(events, next, stalled) == LineRun(lineno, line, dryRun, answers, pos)
  {
    match ParseLine(line)
    case Comment =>
      return [CommentSkipped(lineno)], pos, false;
    case Malformed(n) =>
      return [FieldCountError(lineno, n)], pos, false;
    case Valid(rec) =>
      events, next, stalled := ProcessRecord(rec, dryRun, answers, pos);
  }

  /** The main loop over the lines, numbered from `first` on; a prompt left
      without an answer stops it. */
  method ProcessLines(first: nat, lines: seq<string>, dryRun: bool, answers: seq<string>, pos: nat)
    returns (events: seq<Event>, next: nat, stalled: bool)
    requires pos <= |answers|
    ensures Run(events, next, stalled) == LinesRun(first, lines, dryRun, answers, pos)
  {
    events, next, stalled := [], pos, false;
    for i := 0 to |lines|
      invariant Run(events, next, false) == LinesRun(first, lines[..i], dryRun, answers, pos)
    {
      ghost var before := Run(events, next, false);
      var lineEvents;
      lineEvents, next, stalled := ProcessLine(first + i, lines[i], dryRun, answers, next);
      LinesStep(first, lines, i, dryRun, answers, pos, Run(lineEvents, next, stalled));
      events := events + lineEvents;
      if stalled {
        LinesStalled(first, lines, i + 1, dryRun, answers, pos);
        return;
      }
    }
    assert lines[..|lines|] == lines;
  }

  /** The script: ask for the mode once, then run the main loop. */
  method ProvisionUsers(lines: seq<string>, answers: seq<string>) returns (events: seq<Event>, stalled: bool)
    ensures events == Provision(lines, answers).events
    ensures stalled == Provision(lines, answers).stalled
  {
    var mode := PromptYesNo(answers, 0);
    if mode.Exhausted? {
      return [], true;
    }
    var next;
    events, next, stalled := ProcessLines(1, lines, mode.yes, answers, mode.next);
  }

  // ---------------------------------------------------------------------------
  // Splitting a loop: the run over `a + b` is the run over `a` followed by
  // the run over `b` from where `a` left off, unless `a` already stalled.

  lemma {:induction false} GroupsAppend(username: string, a: seq<string>, b: seq<string>, dryRun: bool, answers: seq<string>, pos: nat)
    requires pos <= |answers|
    ensures var ra := GroupsRun(username, a, dryRun, answers, pos);
      GroupsRun(username, a + b, dryRun, answers, pos) ==
        if ra.stalled then ra else Then(ra, GroupsRun(username, b, dryRun, answers, ra.pos))
    decreases |b|
  {
    var ra := GroupsRun(username, a, dryRun, answers, pos);
    if b == [] {
      assert a + b == a;
    } else {
      var b' := b[..|b| - 1];
      var ab := a + b;
      assert ab[..|ab| - 1] == a + b';
      assert ab[|ab| - 1] == b[|b| - 1];
      GroupsAppend(username, a, b', dryRun, answers, pos);
      GroupsUnfold(username, ab, dryRun, answers, pos);
      if !ra.stalled {
        GroupsUnfold(username, b, dryRun, answers, ra.pos);
        var rb' := GroupsRun(username, b', dryRun, answers, ra.pos);
        if !rb'.stalled {
          ThenAssoc(ra, rb', GroupRun(username, b[|b| - 1], dryRun, answers, rb'.pos));
        }
      }
    }
  }

  /** One step of the group loop: the last token is handled after the others
      unless they stalled. */
  lemma GroupsUnfold(username: string, groups: seq<string>, dryRun: bool, answers: seq<string>, pos: nat)
    requires pos <= |answers| && groups != []
    ensures var before := GroupsRun(username, groups[..|groups| - 1], dryRun, answers, pos);
      GroupsRun(username, groups, dryRun, answers, pos) ==
        if before.stalled then before
        else Then(before, GroupRun(username, groups[|groups| - 1], dryRun, answers, before.pos))
  {
  }

  lemma {:induction false} LinesAppend(first: nat, a: seq<string>, b: seq<string>, dryRun: bool, answers: seq<string>, pos: nat)
    requires pos <= |answers|
    ensures var ra := LinesRun(first, a, dryRun, answers, pos);
      LinesRun(first, a + b, dryRun, answers, pos) ==
        if ra.stalled then ra else Then(ra, LinesRun(first + |a|, b, dryRun, answers, ra.pos))
    decreases |a|
  {
    if a == [] {
      assert a + b == b;
    } else {
      var head := LineRun(first, a[0], dryRun, answers, pos);
      assert (a + b)[0] == a[0];
      assert (a + b)[1..] == a[1..] + b;
      if !head.stalled {
        LinesAppend(first + 1, a[1..], b, dryRun, answers, head.pos);
        var rest := LinesRun(first + 1, a[1..], dryRun, answers, head.pos);
        if !rest.stalled {
          ThenAssoc(head, rest, LinesRun(first + |a|, b, dryRun, answers, rest.pos));
        }
      }
    }
  }

  /** A loop over a single line is that line's run. */
  lemma LinesSingle(lineno: nat, line: string, dryRun: bool, answers: seq<string>, pos: nat)
    requires pos <= |answers|
    ensures LinesRun(lineno, [line], dryRun, answers, pos) == LineRun(lineno, line, dryRun, answers, pos)
  {
    var l := LineRun(lineno, line, dryRun, answers, pos);
    assert [line][1..] == [];
    assert l.events + [] == l.events;
  }

  /** One more iteration of the main loop, from where the earlier lines left
      the answers. */
  lemma LinesStep(first: nat, lines: seq<string>, i: nat, dryRun: bool, answers: seq<string>, pos: nat, step: Run)
    requires pos <= |answers| && i < |lines|
    requires !LinesRun(first, lines[..i], dryRun, answers, pos).stalled
    requires step == LineRun(first + i, lines[i], dryRun, answers, LinesRun(first, lines[..i], dryRun, answers, pos).pos)
    ensures LinesRun(first, lines[..i + 1], dryRun, answers, pos) == Then(LinesRun(first, lines[..i], dryRun, answers, pos), step)
  {
    var before := LinesRun(first, lines[..i], dryRun, answers, pos);
    LinesAppend(first, lines[..i], [lines[i]], dryRun, answers, pos);
    LinesSingle(first + i, lines[i], dryRun, answers, before.pos);
    assert lines[..i] + [lines[i]] == lines[..i + 1];
  }

  lemma ThenAssoc(x: Run, y: Run, z: Run)
    ensures Then(Then(x, y), z) == Then(x, Then(y, z))
  {
    assert x.events + y.events + z.events == x.events + (y.events + z.events);
  }

  /** Once a prompt is left without an answer, later groups change nothing. */
  lemma GroupsStalled(username: string, groups: seq<string>, n: nat, dryRun: bool, answers: seq<string>, pos: nat)
    requires pos <= |answers| && n <= |groups|
    requires GroupsRun(username, groups[..n], dryRun, answers, pos).stalled
    ensures GroupsRun(username, groups, dryRun, answers, pos) == GroupsRun(username, groups[..n], dryRun, answers, pos)
  {
    GroupsAppend(username, groups[..n], groups[n..], dryRun, answers, pos);
    assert groups[..n] + groups[n..] == groups;
  }

  /** Once a prompt is left without an answer, later lines change nothing. */
  lemma LinesStalled(first: nat, lines: seq<string>, n: nat, dryRun: bool, answers: seq<string>, pos: nat)
    requires pos <= |answers| && n <= |lines|
    requires LinesRun(first, lines[..n], dryRun, answers, pos).stalled
    ensures LinesRun(first, lines, dryRun, answers, pos) == LinesRun(first, lines[..n], dryRun, answers, pos)
  {
    LinesAppend(first, lines[..n], lines[n..], dryRun, answers, pos);
    assert lines[..n] + lines[n..] == lines;
  }
}

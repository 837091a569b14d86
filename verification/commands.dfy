/**
 * The three shell command lines the script hands to `os.system`, and, as their
 * partners, readers that recover the arguments from a command line. A reader
 * succeeding on a built command shows that the command carries exactly the
 * arguments it was built from, provided they do not contain the character that
 * ends them in the command text.
 */
module Commands {
  import opened Text

  const CreatePrefix := "/usr/sbin/adduser --disabled-password --gecos '"
  const PasswordPrefix := "/bin/echo -ne '"
  const PasswordPipe := " | /usr/bin/sudo /usr/bin/passwd "
  const GroupPrefix := "/usr/sbin/adduser "

  /** Create an account with no usable password and the given GECOS comment. */
  function CreateCommand(gecos: string, username: string): (cmd: string)
    ensures CreatePrefix <= cmd
    ensures |cmd| == |CreatePrefix| + |gecos| + 2 + |username|
  {
    CreatePrefix + gecos + "' " + username
  }

  /** Feed the password twice, newline-separated, to `sudo passwd`: once for
      the new password and once for its confirmation. */
  function PasswordCommand(password: string, username: string): (cmd: string)
    ensures PasswordPrefix <= cmd
  {
    PasswordPrefix + password + "\n" + password + "'" + PasswordPipe + username
  }

  /** Add an existing user to a group. */
  function GroupCommand(username: string, group: string): (cmd: string)
    ensures GroupPrefix <= cmd
    ensures |cmd| == |GroupPrefix| + |username| + 1 + |group|
  {
    GroupPrefix + username + " " + group
  }

  /** The GECOS comment and user name of a creation command. */
  function ParseCreate(cmd: string): Option<(string, string)> {
    if CreatePrefix <= cmd then
      var rest := cmd[|CreatePrefix|..];
      var i := IndexOf(rest, '\'');
      if i + 1 < |rest| && rest[i + 1] == ' ' then Some((rest[..i], rest[i + 2..])) else None
    else None
  }

  /** The password and user name of a password command whose two copies of
      the password agree. */
  function ParsePassword(cmd: string): Option<(string, string)> {
    if PasswordPrefix <= cmd then
      var rest := cmd[|PasswordPrefix|..];
      var i := IndexOf(rest, '\n');
      if i < |rest| then ParseConfirmation(rest[..i], rest[i + 1..]) else None
    else None
  }

  /** The second half of the password feed: the confirmation copy, which must
      repeat `first`, then the `passwd` invocation and the user name. */
  function ParseConfirmation(first: string, more: string): Option<(string, string)> {
    var j := IndexOf(more, '\'');
    if j < |more| && first == more[..j] && PasswordPipe <= more[j + 1..] then
      Some((first, more[j + 1 + |PasswordPipe|..]))
    else None
  }

  /** The user name and group of a group command. */
  function ParseGroup(cmd: string): Option<(string, string)> {
    if GroupPrefix <= cmd then
      var rest := cmd[|GroupPrefix|..];
      var i := IndexOf(rest, ' ');
      if i < |rest| then Some((rest[..i], rest[i + 1..])) else None
    else None
  }

  /** The creation command carries its GECOS comment and user name unchanged
      when the comment holds no single quote. */
  lemma CreateRoundTrip(gecos: string, username: string)
    requires '\'' !in gecos
    ensures ParseCreate(CreateCommand(gecos, username)) == Some((gecos, username))
  {
    var cmd := CreateCommand(gecos, username);
    var rest := gecos + ['\''] + ([' '] + username);
    assert cmd == CreatePrefix + rest;
    assert cmd[..|CreatePrefix|] == CreatePrefix;
    assert cmd[|CreatePrefix|..] == rest;
    IndexOfAfter(gecos, '\'', [' '] + username);
    assert rest[..|gecos|] == gecos;
    assert rest[|gecos| + 1] == ' ';
    assert rest[|gecos| + 2..] == username;
  }

  /** The password command feeds exactly `password + "\n" + password` and names
      the user, when the password holds neither a newline nor a single quote. */
  lemma PasswordRoundTrip(password: string, username: string)
    requires '\n' !in password && '\'' !in password
    ensures ParsePassword(PasswordCommand(password, username)) == Some((password, username))
  {
    var more := password + ['\''] + (PasswordPipe + username);
    PasswordFeed(password, username);
    IndexOfAfter(password, '\n', more);
    FeedHalves(password, more);
    ConfirmationRoundTrip(password, username);
  }

  /** After its prefix, a password command is the first copy of the password,
      a newline, and the rest of the feed. */
  lemma PasswordFeed(password: string, username: string)
    ensures var cmd := PasswordCommand(password, username);
      cmd[|PasswordPrefix|..] == password + ['\n'] + (password + ['\''] + (PasswordPipe + username))
  {
    var rest := password + ['\n'] + (password + ['\''] + (PasswordPipe + username));
    assert PasswordCommand(password, username) == PasswordPrefix + rest;
  }

  lemma FeedHalves(first: string, more: string)
    ensures (first + ['\n'] + more)[..|first|] == first
    ensures (first + ['\n'] + more)[|first| + 1..] == more
  {
  }

  lemma ConfirmationRoundTrip(password: string, username: string)
    requires '\'' !in password
    ensures ParseConfirmation(password, password + ['\''] + (PasswordPipe + username)) == Some((password, username))
  {
    var tail := PasswordPipe + username;
    var more := password + ['\''] + tail;
    IndexOfAfter(password, '\'', tail);
    assert more[..|password|] == password;
    assert more[|password| + 1..] == tail;
    assert tail[..|PasswordPipe|] == PasswordPipe;
    assert tail[|PasswordPipe|..] == username;
  }

  /** The group command names its user and group when the user name holds no
      space. */
  lemma GroupRoundTrip(username: string, group: string)
    requires ' ' !in username
    ensures ParseGroup(GroupCommand(username, group)) == Some((username, group))
  {
    var cmd := GroupCommand(username, group);
    var rest := username + [' '] + group;
    assert cmd == GroupPrefix + rest;
    assert cmd[..|GroupPrefix|] == GroupPrefix;
    assert cmd[|GroupPrefix|..] == rest;
    IndexOfAfter(username, ' ', group);
    assert rest[..|username|] == username;
    assert rest[|username| + 1..] == group;
  }

  /** For one user, distinct groups give distinct group commands. */
  lemma GroupCommandInjective(username: string, g1: string, g2: string)
    requires GroupCommand(username, g1) == GroupCommand(username, g2)
    ensures g1 == g2
  {
    var n := |GroupPrefix + username + " "|;
    assert g1 == GroupCommand(username, g1)[n..];
    assert g2 == GroupCommand(username, g2)[n..];
  }

  /** A password command is never mistaken for an `adduser` command. */
  lemma PasswordCommandDistinct(password: string, username: string, a: string, b: string)
    ensures PasswordCommand(password, username) != CreateCommand(a, b)
    ensures PasswordCommand(password, username) != GroupCommand(a, b)
  {
    assert PasswordCommand(password, username)[1] == PasswordPrefix[1] == 'b';
    assert CreateCommand(a, b)[1] == CreatePrefix[1] == 'u';
    assert GroupCommand(a, b)[1] == GroupPrefix[1] == 'u';
  }
}

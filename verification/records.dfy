/**
 * Classifying and parsing one input line of the roster
 * `username:password:surname:given_name:group1,group2,...`.
 */
module Records {
  import opened Text

  /** The five fields of a well-formed line, in input order. */
  datatype Record = Record(
    username: string,
    password: string,
    surname: string,
    givenName: string,
    groupField: string)

  function Fields(rec: Record): seq<string> {
    [rec.username, rec.password, rec.surname, rec.givenName, rec.groupField]
  }

  /** The line a record is written as, without surrounding whitespace. */
  function Unparse(rec: Record): string {
    Join(Fields(rec), ':')
  }

  /** How the script treats one line. */
  datatype Line = Comment | Malformed(fieldCount: nat) | Valid(rec: Record)

  /** Only the very first character counts: indented `#` is not a comment. */
  predicate IsComment(line: string) {
    |line| > 0 && line[0] == '#'
  }

  /** The comment test comes first and ignores the field count; any other line
      is stripped and split on `:`, and only exactly five fields make a record. */
  function ParseLine(line: string): (r: Line)
    ensures r.Comment? <==> IsComment(line)
    ensures r.Malformed? ==> r.fieldCount != 5
  {
    if IsComment(line) then Comment
    else
      var fields := Split(Strip(line), ':');
      if |fields| != 5 then Malformed(|fields|)
      else Valid(Record(fields[0], fields[1], fields[2], fields[3], fields[4]))
  }

  /** What `ParseLine` decides: a comment exactly when the raw line starts
      with `#`; otherwise a record exactly when the stripped line has four
      colons, whose fields, none holding a colon, rejoin to the stripped line;
      otherwise the field count, which is one more than the colon count. */
  lemma ParseLineSpec(line: string)
    ensures var r := ParseLine(line);
      && (r.Comment? <==> IsComment(line))
      && (!IsComment(line) ==> (r.Valid? <==> Count(Strip(line), ':') == 4))
      && (r.Malformed? ==> r.fieldCount == Count(Strip(line), ':') + 1 != 5)
      && (r.Valid? ==> Unparse(r.rec) == Strip(line))
      && (r.Valid? ==> forall k :: 0 <= k < 5 ==> ':' !in Fields(r.rec)[k])
  {
    if ParseLine(line).Valid? {
      var fields := Split(Strip(line), ':');
      assert Fields(ParseLine(line).rec) == fields;
    }
  }

  /** The GECOS comment handed to `adduser`: "<given> <surname>,,,". */
  function Gecos(rec: Record): (gecos: string)
    ensures gecos == FullName(rec) + ",,,"
  {
    rec.givenName + " " + rec.surname + ",,,"
  }

  /** The display name shown in the banner. */
  function FullName(rec: Record): (name: string)
    ensures |name| == |rec.givenName| + 1 + |rec.surname|
    ensures name[..|rec.givenName|] == rec.givenName
    ensures name[|rec.givenName|] == ' '
    ensures name[|rec.givenName| + 1..] == rec.surname
  {
    rec.givenName + " " + rec.surname
  }

  /** The GECOS comment has the four comma-separated subfields `adduser`
      expects: the full name, then empty room, work phone and home phone. */
  lemma GecosFields(rec: Record)
    requires ',' !in rec.givenName && ',' !in rec.surname
    ensures Split(Gecos(rec), ',') == [FullName(rec), "", "", ""]
  {
    var name := FullName(rec);
    var parts := [name, "", "", ""];
    assert ',' !in name;
    assert Join(parts[3..], ',') == "";
    assert Join(parts[2..], ',') == "," by { assert parts[2..][1..] == parts[3..]; }
    assert Join(parts[1..], ',') == ",," by { assert parts[1..][1..] == parts[2..]; }
    assert Join(parts, ',') == name + ",,," by { assert parts[1..] == parts[1..]; }
    SplitJoin(parts, ',');
  }

  /** The group tokens: the fifth field split on `,`. There is always at least
      one token (possibly empty), none holds a comma, and rejoining them gives
      the field back. */
  function Groups(rec: Record): (gs: seq<string>)
    ensures |gs| >= 1
    ensures forall k :: 0 <= k < |gs| ==> ',' !in gs[k]
    ensures Join(gs, ',') == rec.groupField
  {
    Split(rec.groupField, ',')
  }

  /** A record some line parses to with its fields intact: no field holds a
      colon, the line does not start like a comment, and there is no whitespace
      at its ends for `strip()` to take. */
  predicate Writable(rec: Record) {
    && (forall k :: 0 <= k < 5 ==> ':' !in Fields(rec)[k])
    && (rec.username == [] || (rec.username[0] != '#' && !IsSpace(rec.username[0])))
    && (rec.groupField == [] || !IsSpace(rec.groupField[|rec.groupField| - 1]))
  }

  lemma UnparseEnds(rec: Record)
    ensures |Unparse(rec)| > 0
    ensures Unparse(rec)[0] == if rec.username == [] then ':' else rec.username[0]
    ensures Unparse(rec)[|Unparse(rec)| - 1] ==
      if rec.groupField == [] then ':' else rec.groupField[|rec.groupField| - 1]
  {
    var f := Fields(rec);
    assert Join(f[4..], ':') == rec.groupField;
    assert Join(f[3..], ':') == rec.givenName + [':'] + rec.groupField;
    assert Join(f[2..], ':') == rec.surname + [':'] + Join(f[3..], ':');
    assert Join(f[1..], ':') == rec.password + [':'] + Join(f[2..], ':');
    assert Unparse(rec) == rec.username + [':'] + Join(f[1..], ':');
  }

  /** Parsing inverts writing: a record written out as a line, followed by any
      whitespace (such as the newline `readlines()` keeps), parses back to
      that record. */
  lemma ParseUnparse(rec: Record, trail: string)
    requires Writable(rec)
    requires AllSpace(trail)
    ensures ParseLine(Unparse(rec) + trail) == Valid(rec)
  {
    var line := Unparse(rec) + trail;
    UnparseEnds(rec);
    assert line[0] == Unparse(rec)[0];
    StripUnique([], Unparse(rec), trail);
    assert [] + Unparse(rec) + trail == line;
    SplitJoin(Fields(rec), ':');
    assert Split(Strip(line), ':') == Fields(rec);
  }
}

/**
 The rating store: a text file of comma-separated rows `name,rating,...,`,
 modelled as the list of lines `readlines()` returns, each line keeping its
 terminator. Three operations read or rewrite it:
 - `ReadCsvElo`: point lookup, first matching row wins, default 1000;
 - `WriteToCsvFile`: rewrite every matching row, or append a new row;
 - `CollectRatings`: the whole-table rating map, later rows overriding.
 Each is a method with the loops of the program, specified by a function.
 */
module Store {
  import opened Options
  import opened Text

  /** The rating of a player with no stored record. */
  const DefaultRating: real := 1000.0

  // ---------------------------------------------------------------------------
  // Reading a row
  // ---------------------------------------------------------------------------

  /** The fields `csv.reader` yields for one line: the terminator is dropped,
      an empty line yields no fields, any other line is split at its commas. */
  function CsvRow(line: string): (row: seq<string>)
    ensures row == [] <==> line == [] || line == "\n"
  {
    var content := if line != [] && line[|line| - 1] == '\n' then line[..|line| - 1] else line;
    if content == [] then [] else Split(content)
  }

  /** Each field of a row as `float` reads it. */
  function Parsed(row: seq<string>): (vals: seq<Option<Numeral>>)
    ensures |vals| == |row|
  {
    seq(|row|, j requires 0 <= j < |row| => ParseNumber(row[j]))
  }

  /** The first present one of `vals[i - 1], vals[i - 2], ..., vals[1]`; the loop
      `for i in range(i - 1, 0, -1): try: float(row[i])`. Field 0 is never read. */
  function Rightmost<T>(vals: seq<Option<T>>, i: nat): Option<T>
    requires i <= |vals|
  {
    if i <= 1 then None
    else if vals[i - 1].Some? then vals[i - 1]
    else Rightmost(vals, i - 1)
  }

  /** The scan finds nothing exactly when no value from index 1 up is present. */
  lemma {:induction false} RightmostNone<T>(vals: seq<Option<T>>, i: nat)
    requires i <= |vals|
    ensures Rightmost(vals, i).None? <==> forall j :: 1 <= j < i ==> vals[j].None?
  {
    if i > 1 && vals[i - 1].None? {
      RightmostNone(vals, i - 1);
    }
  }

  /** When the scan finds a value, it is the rightmost present one below `i`. */
  lemma {:induction false} RightmostWitness<T>(vals: seq<Option<T>>, i: nat) returns (j: nat)
    requires i <= |vals| && Rightmost(vals, i).Some?
    ensures 1 <= j < i && vals[j] == Rightmost(vals, i)
    ensures forall l :: j < l < i ==> vals[l].None?
  {
    if vals[i - 1].Some? {
      j := i - 1;
    } else {
      j := RightmostWitness(vals, i - 1);
    }
  }

  /** The current rating a row carries: its rightmost numeric field after the name. */
  function RowRating(row: seq<string>): Option<Numeral> {
    Rightmost(Parsed(row), |row|)
  }

  /** `row and row[0].strip() == name`. */
  predicate NameMatches(row: seq<string>, name: string) {
    row != [] && Strip(row[0]) == name
  }

  /** The rating `line` holds for `name`, if it is a row for `name` with a numeric field.
      The name field itself is never read as a rating. */
  function Entry(line: string, name: string): (e: Option<Numeral>)
    ensures e.Some? ==> |CsvRow(line)| >= 2 && Strip(CsvRow(line)[0]) == name
  {
    var row := CsvRow(line);
    if NameMatches(row, name) then RowRating(row) else None
  }

  // ---------------------------------------------------------------------------
  // read_csv_elo
  // ---------------------------------------------------------------------------

  /** What `read_csv_elo` returns: the rating of the first row for `name` that has one.
      It is 1000 or the rating some line holds for `name`. */
  function StoredRating(lines: seq<string>, name: string): (r: real)
    ensures r == DefaultRating ||
            exists j :: 0 <= j < |lines| && Entry(lines[j], name).Some? && r == Value(Entry(lines[j], name).value)
  {
    if lines == [] then DefaultRating
    else if Entry(lines[0], name).Some? then Value(Entry(lines[0], name).value)
    else
      assert forall j :: 0 <= j < |lines| - 1 ==> lines[1..][j] == lines[j + 1];
      StoredRating(lines[1..], name)
  }

  /** The lookup from line `n` on: the entry of line `n` if it has one, else the lookup from `n + 1`. */
  lemma StoredRatingStep(lines: seq<string>, n: nat, name: string)
    requires n < |lines|
    ensures StoredRating(lines[n..], name) ==
            if Entry(lines[n], name).Some? then Value(Entry(lines[n], name).value) else StoredRating(lines[n + 1..], name)
  {
    assert lines[n..][1..] == lines[n + 1..];
  }

  /** The scan both readers run on a row: `for i in range(len(row) - 1, 0, -1)`, trying
      `float(row[i])` and stopping at the first field that parses. */
  method ScanRow(row: seq<string>) returns (value: Option<Numeral>)
    requires row != []
    ensures value == RowRating(row)
  {
    ghost var vals := Parsed(row);
    var i := |row| - 1;
    while i > 0
      invariant 0 <= i < |row|
      invariant RowRating(row) == Rightmost(vals, i + 1)
    {
      value := ParseNumber(row[i]);
      if value.Some? {
        return;
      }
      i := i - 1;
    }
    value := None;
  }

  /** `read_csv_elo`: a scan of the rows with an inner scan of the fields and an early return. */
  method ReadCsvElo(lines: seq<string>, name: string) returns (rating: real)
    ensures rating == StoredRating(lines, name)
  {
    var n := 0;
    while n < |lines|
      invariant n <= |lines|
      invariant StoredRating(lines, name) == StoredRating(lines[n..], name)
    {
      StoredRatingStep(lines, n, name);
      var row := CsvRow(lines[n]);
      if row != [] && Strip(row[0]) == name {
        var value := ScanRow(row);
        if value.Some? {
          return Value(value.value);
        }
      }
      n := n + 1;
    }
    return DefaultRating;
  }

  // ---------------------------------------------------------------------------
  // write_to_csv_file
  // ---------------------------------------------------------------------------

  /** `line.strip().split(",")`: the row as the writer sees it (never empty). */
  function WriteRow(line: string): (row: seq<string>)
    ensures |row| >= 1
  {
    Split(Strip(line))
  }

  /** The writer's test `row and row[0].strip() == name` (`row` is never empty there). */
  predicate WriteMatches(line: string, name: string) {
    Strip(WriteRow(line)[0]) == name
  }

  /** `row[-1] = value` with `elo`, `row.append(value)` without. */
  function RewriteRow(row: seq<string>, value: string, elo: bool): seq<string>
    requires |row| >= 1
  {
    if elo then row[..|row| - 1] + [value] else row + [value]
  }

  /** The line the writer emits for a row it rewrote: `",".join(row) + ","` and a newline. */
  function Written(row: seq<string>): string
    requires |row| >= 1
  {
    Join(row) + "," + "\n"
  }

  /** The line that replaces a matching line. Like every line the writer emits, it ends in
      the trailing comma and the newline. */
  function RewriteLine(line: string, value: int, elo: bool): (r: string)
    ensures |r| >= 2 && r[|r| - 2..] == ",\n"
  {
    Written(RewriteRow(WriteRow(line), IntToString(value), elo))
  }

  /** The line appended when no line matched: `f"{name},{value},\n"`. */
  function NewRow(name: string, value: int): string {
    name + "," + IntToString(value) + ",\n"
  }

  /** The loop's `updated_lines`: matching lines rewritten, all others copied. */
  function Rewritten(lines: seq<string>, name: string, value: int, elo: bool): (out: seq<string>)
    ensures |out| == |lines|
  {
    if lines == [] then []
    else
      var last := lines[|lines| - 1];
      Rewritten(lines[..|lines| - 1], name, value, elo)
        + [if WriteMatches(last, name) then RewriteLine(last, value, elo) else last]
  }

  /** The loop's `found` flag once every line has been seen. */
  predicate AnyMatches(lines: seq<string>, name: string) {
    lines != [] && (AnyMatches(lines[..|lines| - 1], name) || WriteMatches(lines[|lines| - 1], name))
  }

  /** `found` is set exactly when some line matches. */
  lemma {:induction false} AnyMatchesSpec(lines: seq<string>, name: string)
    ensures AnyMatches(lines, name) <==> exists j :: 0 <= j < |lines| && WriteMatches(lines[j], name)
  {
    if lines != [] {
      var init := lines[..|lines| - 1];
      AnyMatchesSpec(init, name);
      if AnyMatches(init, name) {
        var j :| 0 <= j < |init| && WriteMatches(init[j], name);
        assert lines[j] == init[j];
      }
      if j :| 0 <= j < |lines| - 1 && WriteMatches(lines[j], name) {
        assert init[j] == lines[j];
      }
    }
  }

  /** One more line seen by the loop: it is rewritten or copied at the end of `updated_lines`. */
  lemma RewrittenStep(lines: seq<string>, n: nat, name: string, value: int, elo: bool)
    requires n < |lines|
    ensures Rewritten(lines[..n + 1], name, value, elo) ==
            Rewritten(lines[..n], name, value, elo)
              + [if WriteMatches(lines[n], name) then RewriteLine(lines[n], value, elo) else lines[n]]
  {
    assert lines[..n + 1][..n] == lines[..n];
  }

  /** One more line seen by the loop: `found` is set if it matches. */
  lemma AnyMatchesStep(lines: seq<string>, n: nat, name: string)
    requires n < |lines|
    ensures AnyMatches(lines[..n + 1], name) == (AnyMatches(lines[..n], name) || WriteMatches(lines[n], name))
  {
    assert lines[..n + 1][..n] == lines[..n];
  }

  /** The lines `write_to_csv_file` writes back: one line per input line, and one line more,
      the new row, exactly when no line matched. */
  function Upsert(lines: seq<string>, name: string, value: int, elo: bool): (out: seq<string>)
    ensures |out| == |lines| <==> AnyMatches(lines, name)
    ensures |out| == |lines| || (|out| == |lines| + 1 && out[|lines|] == NewRow(name, value))
  {
    Rewritten(lines, name, value, elo) + (if AnyMatches(lines, name) then [] else [NewRow(name, value)])
  }

  /** The rewrite as evidently intended: `row[-1] = value` only when the row has a field after
      the name, so that a row holding just a name gets the value appended instead of losing the name. */
  function RewriteLineFixed(line: string, value: int, elo: bool): string {
    RewriteLine(line, value, elo && |WriteRow(line)| >= 2)
  }

  /** The lines the corrected writer produces. */
  function UpsertFixed(lines: seq<string>, name: string, value: int, elo: bool): seq<string> {
    seq(|lines|, j requires 0 <= j < |lines| =>
          if WriteMatches(lines[j], name) then RewriteLineFixed(lines[j], value, elo) else lines[j])
      + (if AnyMatches(lines, name) then [] else [NewRow(name, value)])
  }

  /** `write_to_csv_file` without the file: lines in, lines out. */
  method WriteToCsvFile(lines: seq<string>, name: string, value: int, elo: bool)
    returns (updated: seq<string>)
    ensures updated == Upsert(lines, name, value, elo)
  {
    var found := false;
    updated := [];
    for n := 0 to |lines|
      invariant updated == Rewritten(lines[..n], name, value, elo)
      invariant found == AnyMatches(lines[..n], name)
    {
      RewrittenStep(lines, n, name, value, elo);
      AnyMatchesStep(lines, n, name);
      var line := lines[n];
      var row := Split(Strip(line));
      if Strip(row[0]) == name {
        found := true;
        if elo {
          row := row[..|row| - 1] + [IntToString(value)];
        } else {
          row := row + [IntToString(value)];
        }
        var updatedLine := Join(row) + ",";
        updated := updated + [updatedLine + "\n"];
      } else {
        updated := updated + [line];
      }
    }
    assert lines[..|lines|] == lines;
    if !found {
      updated := updated + [name + "," + IntToString(value) + ",\n"];
    }
  }

  // ---------------------------------------------------------------------------
  // Lines that read back as themselves
  // ---------------------------------------------------------------------------

  /** A line ending in its newline, with no other line break: `readlines()` gives it back
      unchanged from the text the writer makes of it. */
  predicate LineTerminated(line: string) {
    line != [] && line[|line| - 1] == '\n' && NoBreak(line[..|line| - 1])
  }

  /** A file every line of which ends in its newline. Written out and read back with
      `readlines()`, it gives the same lines; a file whose last line lacks its newline
      would have the next appended row glued onto that line. */
  predicate Terminated(lines: seq<string>) {
    forall j :: 0 <= j < |lines| ==> LineTerminated(lines[j])
  }

  /** A written row whose fields have no line break is a terminated line. */
  lemma WrittenTerminated(row: seq<string>)
    requires |row| >= 1
    requires forall i :: 0 <= i < |row| ==> NoBreak(row[i])
    ensures LineTerminated(Written(row))
  {
    JoinNoBreak(row);
    var w := Written(row);
    assert w[..|w| - 1] == Join(row) + ",";
  }

  /** The writer turns a terminated line into a terminated line. */
  lemma RewriteLineTerminated(line: string, value: int, elo: bool)
    requires LineTerminated(line)
    ensures LineTerminated(RewriteLine(line, value, elo))
  {
    var body := line[..|line| - 1];
    assert line == body + "\n";
    assert AllSpace("\n") by {
      assert IsSpace("\n"[0]);
    }
    StripIgnoresTrailingSpace(body, "\n");
    StripNoBreak(body);
    SplitNoBreak(Strip(line));
    IntToStringShape(value);
    var row := WriteRow(line);
    var fields := RewriteRow(row, IntToString(value), elo);
    forall i | 0 <= i < |fields| ensures NoBreak(fields[i]) {
      if i < |row| && (!elo || i < |row| - 1) {
        assert fields[i] == row[i];
      } else {
        assert fields[i] == IntToString(value);
      }
    }
    WrittenTerminated(fields);
  }

  // ---------------------------------------------------------------------------
  // The rating map built in update_elo_ratings
  // ---------------------------------------------------------------------------

  /** `all_player_ratings`: every row with a non-empty stripped name and a numeric
      field maps that name to its rating; a later row overrides an earlier one. Every key
      is a non-empty name that is its own strip. */
  function RatingTable(lines: seq<string>): (table: map<string, real>)
    ensures forall n :: n in table ==> n != [] && Strip(n) == n
  {
    if lines == [] then map[]
    else
      var table := RatingTable(lines[..|lines| - 1]);
      var row := CsvRow(lines[|lines| - 1]);
      if row != [] && Strip(row[0]) != [] && RowRating(row).Some? then
        StripIdempotent(row[0]);
        table[Strip(row[0]) := Value(RowRating(row).value)]
      else
        table
  }

  /** One more line seen by the loop: it may set the entry of its stripped name. */
  lemma RatingTableStep(lines: seq<string>, n: nat)
    requires n < |lines|
    ensures RatingTable(lines[..n + 1]) ==
            var row := CsvRow(lines[n]);
            if row != [] && Strip(row[0]) != [] && RowRating(row).Some? then
              RatingTable(lines[..n])[Strip(row[0]) := Value(RowRating(row).value)]
            else
              RatingTable(lines[..n])
  {
    assert lines[..n + 1][..n] == lines[..n];
  }

  /** `all_player_ratings.get(name, 1000)`: the rating the map holds for `name`, or 1000
      for a name it does not hold. */
  function RatingOf(table: map<string, real>, name: string): (r: real)
    ensures name in table ==> r == table[name]
    ensures name !in table ==> r == DefaultRating
  {
    if name in table then table[name] else DefaultRating
  }

  /** The loop that fills `all_player_ratings`; the inner scan and its `break` are `ScanRow`. */
  method CollectRatings(lines: seq<string>) returns (ratings: map<string, real>)
    ensures ratings == RatingTable(lines)
  {
    ratings := map[];
    for n := 0 to |lines|
      invariant ratings == RatingTable(lines[..n])
    {
      RatingTableStep(lines, n);
      var row := CsvRow(lines[n]);
      if row != [] && Strip(row[0]) != [] {
        var value := ScanRow(row);
        if value.Some? {
          ratings := ratings[Strip(row[0]) := Value(value.value)];
        }
      }
    }
    assert lines[..|lines|] == lines;
  }

}

/**
 What the rating store promises across its three operations: the reader and the
 writer agree on which rows belong to a player, a rewritten row reads back with
 the new rating, writing one player leaves every other player's rating alone,
 and writing is not idempotent (each write adds a field).
 */
module StoreLaws {
  import opened Options
  import opened Text
  import opened Store

  // ---------------------------------------------------------------------------
  // Names and rows
  // ---------------------------------------------------------------------------

  /** A player name the store can hold: non-empty, already stripped, without a comma or a
      double quote (which `csv.reader` would take as quoting), and on one line. */
  predicate ValidName(name: string) {
    name != [] && Strip(name) == name && ',' !in name && '"' !in name && NoBreak(name)
  }

  /** `row[-1] = str(value)` keeps the name only if the row has a field after it. */
  predicate MatchingRowsHaveComma(lines: seq<string>, name: string) {
    forall j :: 0 <= j < |lines| && WriteMatches(lines[j], name) ==> |WriteRow(lines[j])| >= 2
  }

  /** For a non-empty name, `csv.reader`'s row matches exactly when the writer's row matches. */
  lemma ReadWriteAgree(line: string, name: string)
    requires name != []
    ensures NameMatches(CsvRow(line), name) <==> WriteMatches(line, name)
  {
    var content := if line != [] && line[|line| - 1] == '\n' then line[..|line| - 1] else line;
    if content != line {
      assert line == content + "\n";
      StripIgnoresTrailingSpace(content, "\n");
    }
    assert Strip(line) == Strip(content);
    if content == [] {
      assert Split(Strip(content)) == [[]];
    } else {
      SplitSpec(content);
      SplitSpec(Strip(content));
      FirstFieldAfterStrip(content);
    }
  }

  // ---------------------------------------------------------------------------
  // The shape of write_to_csv_file's result
  // ---------------------------------------------------------------------------

  /** The line the loop produces for one input line. */
  function Output(line: string, name: string, value: int, elo: bool): string {
    if WriteMatches(line, name) then RewriteLine(line, value, elo) else line
  }

  /** Line `j` of the loop's output comes from line `j` of the input alone. */
  lemma {:induction false} RewrittenAt(lines: seq<string>, name: string, value: int, elo: bool, j: nat)
    requires j < |lines|
    ensures Rewritten(lines, name, value, elo)[j] == Output(lines[j], name, value, elo)
  {
    var init := lines[..|lines| - 1];
    if j < |lines| - 1 {
      RewrittenAt(init, name, value, elo, j);
    }
  }

  /** `write_to_csv_file` rewrites each matching line, copies every other line in place,
      and appends `name,value,` exactly when no line matched. */
  lemma UpsertShape(lines: seq<string>, name: string, value: int, elo: bool)
    ensures |Upsert(lines, name, value, elo)| == |lines| + (if AnyMatches(lines, name) then 0 else 1)
    ensures forall j :: 0 <= j < |lines| ==>
              Upsert(lines, name, value, elo)[j] == Output(lines[j], name, value, elo)
    ensures !AnyMatches(lines, name) ==> Upsert(lines, name, value, elo)[|lines|] == NewRow(name, value)
  {
    forall j | 0 <= j < |lines|
      ensures Upsert(lines, name, value, elo)[j] == Output(lines[j], name, value, elo)
    {
      RewrittenAt(lines, name, value, elo, j);
    }
  }

  // ---------------------------------------------------------------------------
  // Reading back a written line
  // ---------------------------------------------------------------------------

  /** `csv.reader` reads a written row back with one empty field after it, left by the trailing comma. */
  lemma ReadWritten(row: seq<string>)
    requires |row| >= 1
    requires forall i :: 0 <= i < |row| ==> ',' !in row[i]
    ensures CsvRow(Written(row)) == row + [""]
  {
    var content := Join(row) + ",";
    assert Written(row)[..|Written(row)| - 1] == content;
    JoinSnoc(row, "");
    assert Join(row + [""]) == content;
    assert forall i :: 0 <= i < |row + [""]| ==> ',' !in (row + [""])[i];
    SplitJoin(row + [""]);
  }

  /** The fields of a rewritten row hold no comma. */
  lemma RewrittenFieldsHaveNoComma(line: string, value: int, elo: bool)
    ensures forall i :: 0 <= i < |RewriteRow(WriteRow(line), IntToString(value), elo)| ==>
              ',' !in RewriteRow(WriteRow(line), IntToString(value), elo)[i]
  {
    SplitSpec(Strip(line));
    IntToStringShape(value);
  }

  /** The reader's row for a rewritten line: the writer's row, rewritten, and an empty field. */
  lemma ReadRewritten(line: string, value: int, elo: bool)
    ensures CsvRow(RewriteLine(line, value, elo)) == RewriteRow(WriteRow(line), IntToString(value), elo) + [""]
  {
    RewrittenFieldsHaveNoComma(line, value, elo);
    ReadWritten(RewriteRow(WriteRow(line), IntToString(value), elo));
  }

  /** A row ending in `str(value)` and an empty field holds `value` as its rating. */
  lemma RatingOfWrittenRow(row: seq<string>, value: int)
    requires |row| >= 2 && row[|row| - 1] == IntToString(value)
    ensures RowRating(row + [""]) == Some(IntNumeral(value))
  {
    IntToStringParses(value);
    RatingBeforeEmptyField(row, IntNumeral(value));
  }

  /** The empty field after a numeric field leaves that field the row's rating. */
  lemma RatingBeforeEmptyField(row: seq<string>, n: Numeral)
    requires |row| >= 2 && ParseNumber(row[|row| - 1]) == Some(n)
    ensures RowRating(row + [""]) == Some(n)
  {
    var vals := Parsed(row + [""]);
    assert vals[|row|] == None by {
      assert (row + [""])[|row|] == "";
      assert FloatStrip("") == "";
    }
    assert vals[|row| - 1] == Some(n) by {
      assert (row + [""])[|row| - 1] == row[|row| - 1];
    }
    assert Rightmost(vals, |row|) == Some(n);
    assert Rightmost(vals, |row| + 1) == Rightmost(vals, |row|);
  }

  /** A matching line rewritten with `value` holds `value` for the same player, as long as
      `row[-1] = ...` does not overwrite the name. */
  lemma RewrittenEntry(line: string, name: string, value: int, elo: bool)
    requires WriteMatches(line, name)
    requires elo ==> |WriteRow(line)| >= 2
    ensures Entry(RewriteLine(line, value, elo), name) == Some(IntNumeral(value))
  {
    var r := RewriteRow(WriteRow(line), IntToString(value), elo);
    ReadRewritten(line, value, elo);
    assert r[0] == WriteRow(line)[0];
    RatingOfWrittenRow(r, value);
  }

  /** The row appended for a new player is the written row `[name, str(value)]`. */
  lemma NewRowWritten(name: string, value: int)
    ensures NewRow(name, value) == Written([name, IntToString(value)])
  {
    assert Join([name, IntToString(value)]) == name + "," + Join([IntToString(value)]);
  }

  /** The appended row holds `value` for `name`. */
  lemma NewRowEntry(name: string, value: int)
    requires ValidName(name)
    ensures Entry(NewRow(name, value), name) == Some(IntNumeral(value))
  {
    NewRowWritten(name, value);
    IntToStringShape(value);
    ReadWritten([name, IntToString(value)]);
    RatingOfWrittenRow([name, IntToString(value)], value);
  }

  /** The appended row holds nothing for any other player. */
  lemma NewRowOtherEntry(name: string, other: string, value: int)
    requires ValidName(name) && other != name
    ensures Entry(NewRow(name, value), other) == None
  {
    NewRowWritten(name, value);
    IntToStringShape(value);
    ReadWritten([name, IntToString(value)]);
  }

  // ---------------------------------------------------------------------------
  // Where the matches are
  // ---------------------------------------------------------------------------

  /** The first line the writer treats as `name`'s. */
  lemma {:induction false} FirstMatch(lines: seq<string>, name: string) returns (k: nat)
    requires AnyMatches(lines, name)
    ensures k < |lines| && WriteMatches(lines[k], name)
    ensures forall j :: 0 <= j < k ==> !WriteMatches(lines[j], name)
  {
    var init := lines[..|lines| - 1];
    if AnyMatches(init, name) {
      k := FirstMatch(init, name);
    } else {
      AnyMatchesSpec(init, name);
      k := |lines| - 1;
    }
  }

  /** The last index holding `true`, when there is one. */
  lemma {:induction false} LastTrue(flags: seq<bool>) returns (k: nat)
    requires exists j :: 0 <= j < |flags| && flags[j]
    ensures k < |flags| && flags[k]
    ensures forall j :: k < j < |flags| ==> !flags[j]
  {
    if flags[|flags| - 1] {
      k := |flags| - 1;
    } else {
      var init := flags[..|flags| - 1];
      var w :| 0 <= w < |flags| && flags[w];
      assert init[w] == flags[w];
      k := LastTrue(init);
      assert forall j :: k < j < |init| ==> init[j] == flags[j];
    }
  }

  /** The last line the writer treats as `name`'s. */
  lemma LastMatch(lines: seq<string>, name: string) returns (k: nat)
    requires AnyMatches(lines, name)
    ensures k < |lines| && WriteMatches(lines[k], name)
    ensures forall j :: k < j < |lines| ==> !WriteMatches(lines[j], name)
  {
    AnyMatchesSpec(lines, name);
    var flags := seq(|lines|, j requires 0 <= j < |lines| => WriteMatches(lines[j], name));
    var w :| 0 <= w < |lines| && WriteMatches(lines[w], name);
    assert flags[w];
    k := LastTrue(flags);
    assert flags[k];
    forall j | k < j < |lines| ensures !WriteMatches(lines[j], name) {
      assert !flags[j];
    }
  }

  /** With no match, no line is the writer's for `name`. */
  lemma NoMatch(lines: seq<string>, name: string)
    requires !AnyMatches(lines, name)
    ensures forall j :: 0 <= j < |lines| ==> !WriteMatches(lines[j], name)
  {
    AnyMatchesSpec(lines, name);
  }

  /** With no match, the writer copies the file and appends the new row. */
  lemma UpsertNewPlayer(lines: seq<string>, name: string, value: int, elo: bool)
    requires !AnyMatches(lines, name)
    ensures Upsert(lines, name, value, elo) == lines + [NewRow(name, value)]
  {
    NoMatch(lines, name);
    UpsertShape(lines, name, value, elo);
    var out, want := Upsert(lines, name, value, elo), lines + [NewRow(name, value)];
    forall j | 0 <= j < |out| ensures out[j] == want[j] {
      if j < |lines| {
        assert !WriteMatches(lines[j], name);
      }
    }
  }

  // ---------------------------------------------------------------------------
  // What an upsert of `name` with `value` guarantees
  // ---------------------------------------------------------------------------

  /** `out` is `lines` with every line of `name` replaced by one that still names `name` and
      holds `value`, all other lines in place, and `name,value,` appended when no line was `name`'s. */
  predicate UpsertsRating(lines: seq<string>, out: seq<string>, name: string, value: int) {
    && |out| == |lines| + (if AnyMatches(lines, name) then 0 else 1)
    && (forall j :: 0 <= j < |lines| && !WriteMatches(lines[j], name) ==> out[j] == lines[j])
    && (forall j :: 0 <= j < |lines| && WriteMatches(lines[j], name) ==>
          NameMatches(CsvRow(out[j]), name) && Entry(out[j], name) == Some(IntNumeral(value)))
    && (!AnyMatches(lines, name) ==> out[|lines|] == NewRow(name, value))
  }

  /** A rewritten line still names the player of the line it replaced, if the row had a comma. */
  lemma RewrittenName(line: string, name: string, value: int, elo: bool)
    requires WriteMatches(line, name)
    requires elo ==> |WriteRow(line)| >= 2
    ensures NameMatches(CsvRow(RewriteLine(line, value, elo)), name)
  {
    ReadRewritten(line, value, elo);
  }

  /** `write_to_csv_file` upserts whenever `row[-1] = ...` cannot hit a name. */
  lemma UpsertUpserts(lines: seq<string>, name: string, value: int, elo: bool)
    requires elo ==> MatchingRowsHaveComma(lines, name)
    ensures UpsertsRating(lines, Upsert(lines, name, value, elo), name, value)
  {
    UpsertShape(lines, name, value, elo);
    forall j | 0 <= j < |lines| && WriteMatches(lines[j], name)
      ensures NameMatches(CsvRow(Upsert(lines, name, value, elo)[j]), name)
      ensures Entry(Upsert(lines, name, value, elo)[j], name) == Some(IntNumeral(value))
    {
      RewrittenName(lines[j], name, value, elo);
      RewrittenEntry(lines[j], name, value, elo);
    }
  }

  // ---------------------------------------------------------------------------
  // read_csv_elo: the first entry wins
  // ---------------------------------------------------------------------------

  /** Each line's entry for `name`. */
  function Entries(lines: seq<string>, name: string): (es: seq<Option<Numeral>>)
    ensures |es| == |lines|
  {
    seq(|lines|, j requires 0 <= j < |lines| => Entry(lines[j], name))
  }

  /** The first present value of `vals`. */
  function First<T>(vals: seq<Option<T>>): Option<T> {
    if vals == [] then None
    else if vals[0].Some? then vals[0]
    else First(vals[1..])
  }

  /** The first present value is the one at `k` when none precedes it. */
  lemma {:induction false} FirstAt<T>(vals: seq<Option<T>>, k: nat)
    requires k < |vals| && vals[k].Some?
    requires forall j :: 0 <= j < k ==> vals[j].None?
    ensures First(vals) == vals[k]
  {
    if k > 0 {
      FirstAt(vals[1..], k - 1);
    }
  }

  /** `read_csv_elo` returns the first of the per-line entries, or 1000 when there is none. */
  lemma {:induction false} StoredRatingIsFirst(lines: seq<string>, name: string)
    ensures StoredRating(lines, name) ==
            if First(Entries(lines, name)).Some? then Value(First(Entries(lines, name)).value) else DefaultRating
  {
    if lines != [] {
      StoredRatingIsFirst(lines[1..], name);
      assert Entries(lines, name)[1..] == Entries(lines[1..], name);
    }
  }

  /** `read_csv_elo` returns the rating of line `k` when it is the first line holding one. */
  lemma StoredRatingFirst(lines: seq<string>, name: string, k: nat)
    requires k < |lines| && Entry(lines[k], name).Some?
    requires forall j :: 0 <= j < k ==> Entry(lines[j], name).None?
    ensures StoredRating(lines, name) == Value(Entry(lines[k], name).value)
  {
    StoredRatingIsFirst(lines, name);
    FirstAt(Entries(lines, name), k);
  }

  /** `read_csv_elo` returns 1000 when no line holds a rating for the player. */
  lemma {:induction false} StoredRatingAbsent(lines: seq<string>, name: string)
    requires forall j :: 0 <= j < |lines| ==> Entry(lines[j], name).None?
    ensures StoredRating(lines, name) == DefaultRating
  {
    if lines != [] {
      assert Entry(lines[0], name).None?;
      StoredRatingAbsent(lines[1..], name);
    }
  }

  /** Lines whose entries for `name` agree, and extra lines holding none, give the same lookup. */
  lemma {:induction false} StoredRatingFrame(a: seq<string>, b: seq<string>, name: string)
    requires |a| <= |b|
    requires forall j :: 0 <= j < |a| ==> Entry(a[j], name) == Entry(b[j], name)
    requires forall j :: |a| <= j < |b| ==> Entry(b[j], name).None?
    ensures StoredRating(a, name) == StoredRating(b, name)
  {
    if a == [] {
      StoredRatingAbsent(b, name);
    } else {
      assert Entry(a[0], name) == Entry(b[0], name);
      StoredRatingFrame(a[1..], b[1..], name);
    }
  }

  // ---------------------------------------------------------------------------
  // The rating map: the last entry wins
  // ---------------------------------------------------------------------------

  /** The entry of the last line holding one for `name`. */
  function LatestEntry(lines: seq<string>, name: string): Option<Numeral> {
    if lines == [] then None
    else if Entry(lines[|lines| - 1], name).Some? then Entry(lines[|lines| - 1], name)
    else LatestEntry(lines[..|lines| - 1], name)
  }

  /** `all_player_ratings.get(name, 1000)` is the rating of the last line holding one for
      `name`, or 1000 when none does. */
  lemma {:induction false} RatingTableLookup(lines: seq<string>, name: string)
    requires name != []
    ensures RatingOf(RatingTable(lines), name) ==
            if LatestEntry(lines, name).Some? then Value(LatestEntry(lines, name).value) else DefaultRating
  {
    if lines != [] {
      var init := lines[..|lines| - 1];
      RatingTableLookup(init, name);
      var row := CsvRow(lines[|lines| - 1]);
      if row != [] && Strip(row[0]) == name {
        assert Entry(lines[|lines| - 1], name) == RowRating(row);
      } else {
        assert Entry(lines[|lines| - 1], name) == None;
      }
    }
  }

  /** The last present value of `vals`. */
  function Latest<T>(vals: seq<Option<T>>): Option<T> {
    if vals == [] then None
    else if vals[|vals| - 1].Some? then vals[|vals| - 1]
    else Latest(vals[..|vals| - 1])
  }

  /** The last present value is the one at `k` when none follows it. */
  lemma {:induction false} LatestAt<T>(vals: seq<Option<T>>, k: nat)
    requires k < |vals| && vals[k].Some?
    requires forall j :: k < j < |vals| ==> vals[j].None?
    ensures Latest(vals) == vals[k]
  {
    if k < |vals| - 1 {
      LatestAt(vals[..|vals| - 1], k);
    }
  }

  /** The latest entry, as the last present value of the entries. */
  lemma {:induction false} LatestEntryIsLatest(lines: seq<string>, name: string)
    ensures LatestEntry(lines, name) == Latest(Entries(lines, name))
  {
    if lines != [] {
      var init := lines[..|lines| - 1];
      LatestEntryIsLatest(init, name);
      assert Entries(lines, name)[..|lines| - 1] == Entries(init, name);
    }
  }

  /** The latest entry is that of line `k` when no later line holds one. */
  lemma LatestEntryAt(lines: seq<string>, name: string, k: nat)
    requires k < |lines| && Entry(lines[k], name).Some?
    requires forall j :: k < j < |lines| ==> Entry(lines[j], name).None?
    ensures LatestEntry(lines, name) == Entry(lines[k], name)
  {
    LatestEntryIsLatest(lines, name);
    LatestAt(Entries(lines, name), k);
  }

  /** Lines whose entries for `name` agree, and extra lines holding none, have the same latest entry. */
  lemma {:induction false} LatestEntryFrame(a: seq<string>, b: seq<string>, name: string)
    requires |a| <= |b|
    requires forall j :: 0 <= j < |a| ==> Entry(a[j], name) == Entry(b[j], name)
    requires forall j :: |a| <= j < |b| ==> Entry(b[j], name).None?
    ensures LatestEntry(a, name) == LatestEntry(b, name)
    decreases |b|
  {
    if b == [] {
    } else if |a| < |b| {
      assert Entry(b[|b| - 1], name).None?;
      LatestEntryFrame(a, b[..|b| - 1], name);
    } else {
      assert Entry(a[|a| - 1], name) == Entry(b[|b| - 1], name);
      LatestEntryFrame(a[..|a| - 1], b[..|b| - 1], name);
    }
  }

  // ---------------------------------------------------------------------------
  // The writer keeps a file terminated
  // ---------------------------------------------------------------------------

  /** The row appended for a valid name is a terminated line. */
  lemma NewRowTerminated(name: string, value: int)
    requires ValidName(name)
    ensures LineTerminated(NewRow(name, value))
  {
    IntToStringShape(value);
    NewRowWritten(name, value);
    var row := [name, IntToString(value)];
    assert forall i :: 0 <= i < |row| ==> NoBreak(row[i]);
    WrittenTerminated(row);
  }

  /** Writing a valid name to a terminated file gives a terminated file, so the lines the
      writer computes are the lines read back from what it writes. */
  lemma UpsertKeepsTerminated(lines: seq<string>, name: string, value: int, elo: bool)
    requires Terminated(lines) && ValidName(name)
    ensures Terminated(Upsert(lines, name, value, elo))
  {
    UpsertShape(lines, name, value, elo);
    var out := Upsert(lines, name, value, elo);
    forall j | 0 <= j < |out| ensures LineTerminated(out[j]) {
      if j < |lines| {
        if WriteMatches(lines[j], name) {
          RewriteLineTerminated(lines[j], value, elo);
        }
      } else {
        NewRowTerminated(name, value);
      }
    }
  }

  /** The same for the corrected writer. */
  lemma UpsertFixedKeepsTerminated(lines: seq<string>, name: string, value: int, elo: bool)
    requires Terminated(lines) && ValidName(name)
    ensures Terminated(UpsertFixed(lines, name, value, elo))
  {
    var out := UpsertFixed(lines, name, value, elo);
    forall j | 0 <= j < |out| ensures LineTerminated(out[j]) {
      if j < |lines| {
        if WriteMatches(lines[j], name) {
          RewriteLineTerminated(lines[j], value, elo && |WriteRow(lines[j])| >= 2);
        }
      } else {
        NewRowTerminated(name, value);
      }
    }
  }

  // ---------------------------------------------------------------------------
  // Round trips: writing `value` for `name`, then reading it back
  // ---------------------------------------------------------------------------

  /** Lines that are not `name`'s, and are left in place, hold nothing for `name`. */
  lemma KeptLinesHoldNothing(lines: seq<string>, out: seq<string>, name: string, value: int, lo: nat, hi: nat)
    requires ValidName(name) && UpsertsRating(lines, out, name, value)
    requires lo <= hi <= |lines|
    requires forall j :: lo <= j < hi ==> !WriteMatches(lines[j], name)
    ensures forall j :: lo <= j < hi ==> Entry(out[j], name).None?
  {
    forall j | lo <= j < hi ensures Entry(out[j], name).None? {
      ReadWriteAgree(lines[j], name);
    }
  }

  /** After an upsert, `read_csv_elo` returns the value written. */
  lemma ReadAfterUpsert(lines: seq<string>, out: seq<string>, name: string, value: int)
    requires ValidName(name) && UpsertsRating(lines, out, name, value)
    requires Terminated(out)
    ensures StoredRating(out, name) == value as real
  {
    IntNumeralValue(value);
    if AnyMatches(lines, name) {
      var k := FirstMatch(lines, name);
      KeptLinesHoldNothing(lines, out, name, value, 0, k);
      StoredRatingFirst(out, name, k);
    } else {
      NoMatch(lines, name);
      KeptLinesHoldNothing(lines, out, name, value, 0, |lines|);
      NewRowEntry(name, value);
      StoredRatingFirst(out, name, |lines|);
    }
  }

  /** After an upsert, the rating map gives the value written. */
  lemma TableAfterUpsert(lines: seq<string>, out: seq<string>, name: string, value: int)
    requires ValidName(name) && UpsertsRating(lines, out, name, value)
    requires Terminated(out)
    ensures RatingOf(RatingTable(out), name) == value as real
  {
    IntNumeralValue(value);
    RatingTableLookup(out, name);
    if AnyMatches(lines, name) {
      var k := LastMatch(lines, name);
      KeptLinesHoldNothing(lines, out, name, value, k + 1, |lines|);
      LatestEntryAt(out, name, k);
    } else {
      NoMatch(lines, name);
      NewRowEntry(name, value);
      LatestEntryAt(out, name, |lines|);
    }
  }

  // ---------------------------------------------------------------------------
  // Frame: writing one player leaves every other player alone
  // ---------------------------------------------------------------------------

  /** A line of `name`'s and its replacement, which still names `name`, hold nothing for another player. */
  lemma ReplacedLineHoldsNoOther(line: string, replaced: string, name: string, other: string)
    requires name != [] && other != name
    requires WriteMatches(line, name) && NameMatches(CsvRow(replaced), name)
    ensures Entry(line, other).None? && Entry(replaced, other).None?
  {
    ReadWriteAgree(line, name);
  }

  /** An upsert of `name` changes no line's entry for another player. */
  lemma OtherEntriesKept(lines: seq<string>, out: seq<string>, name: string, other: string, value: int)
    requires ValidName(name) && other != name && UpsertsRating(lines, out, name, value)
    ensures forall j :: 0 <= j < |lines| ==> Entry(out[j], other) == Entry(lines[j], other)
  {
    forall j | 0 <= j < |lines| && WriteMatches(lines[j], name)
      ensures Entry(out[j], other) == Entry(lines[j], other)
    {
      ReplacedLineHoldsNoOther(lines[j], out[j], name, other);
    }
  }

  /** What an upsert of `name` appends holds nothing for another player. */
  lemma AppendedHoldsNoOther(lines: seq<string>, out: seq<string>, name: string, other: string, value: int)
    requires ValidName(name) && other != name
    requires |out| <= |lines| + 1 && (|out| > |lines| ==> out[|lines|] == NewRow(name, value))
    ensures forall j :: |lines| <= j < |out| ==> Entry(out[j], other).None?
  {
    forall j | |lines| <= j < |out| ensures Entry(out[j], other).None? {
      NewRowOtherEntry(name, other, value);
      assert out[j] == NewRow(name, value);
    }
  }

  /** After an upsert of `name`, `read_csv_elo` returns what it returned before for any other player. */
  lemma ReadOtherAfterUpsert(lines: seq<string>, out: seq<string>, name: string, other: string, value: int)
    requires ValidName(name) && other != name && UpsertsRating(lines, out, name, value)
    requires Terminated(out)
    ensures StoredRating(out, other) == StoredRating(lines, other)
  {
    OtherEntriesKept(lines, out, name, other, value);
    AppendedHoldsNoOther(lines, out, name, other, value);
    StoredRatingFrame(lines, out, other);
  }

  /** After an upsert of `name`, the rating map gives any other player what it gave before. */
  lemma TableOtherAfterUpsert(lines: seq<string>, out: seq<string>, name: string, other: string, value: int)
    requires ValidName(name) && other != name && UpsertsRating(lines, out, name, value)
    requires Terminated(out)
    ensures RatingOf(RatingTable(out), other) == RatingOf(RatingTable(lines), other)
  {
    if other != [] {
      OtherEntriesKept(lines, out, name, other, value);
      AppendedHoldsNoOther(lines, out, name, other, value);
      LatestEntryFrame(lines, out, other);
      RatingTableLookup(out, other);
      RatingTableLookup(lines, other);
    }
  }

  // ---------------------------------------------------------------------------
  // Each write appends a field: the store keeps a rating history and is not idempotent
  // ---------------------------------------------------------------------------

  /** A row the store wrote, whose name starts with no whitespace, strips to its joined fields and the final comma. */
  lemma StripWritten(row: seq<string>)
    requires |row| >= 1 && row[0] != [] && !IsSpace(row[0][0])
    ensures Strip(Written(row)) == Join(row) + ","
  {
    var body := Join(row) + ",";
    assert Written(row) == body + "\n";
    StripIgnoresTrailingSpace(body, "\n");
    JoinStart(row);
    StripKeeps(body);
  }

  /** The writer reads a row it wrote back with one empty field after it. */
  lemma WriteRowOfWritten(row: seq<string>)
    requires |row| >= 1 && row[0] != [] && !IsSpace(row[0][0])
    requires forall i :: 0 <= i < |row| ==> ',' !in row[i]
    ensures WriteRow(Written(row)) == row + [""]
  {
    StripWritten(row);
    JoinSnoc(row, "");
    assert Join(row) + "," + "" == Join(row) + ",";
    assert forall i :: 0 <= i < |row + [""]| ==> ',' !in (row + [""])[i];
    SplitJoin(row + [""]);
  }

  /** Rewriting a written row with `elo` appends the new value: the empty last field takes it. */
  lemma RewriteWritten(row: seq<string>, value: int)
    requires |row| >= 1 && row[0] != [] && !IsSpace(row[0][0])
    requires forall i :: 0 <= i < |row| ==> ',' !in row[i]
    ensures RewriteLine(Written(row), value, true) == Written(row + [IntToString(value)])
  {
    WriteRowOfWritten(row);
    assert (row + [""])[..|row|] == row;
  }

  /** A valid name starts with no whitespace. */
  lemma ValidNameStart(name: string)
    requires ValidName(name)
    ensures !IsSpace(name[0])
  {
    var lead := StripParts(name);
  }

  /** A player whose file line is the written row `row` gets `str(value)` appended to it. */
  lemma UpsertAppends(row: seq<string>, name: string, value: int)
    requires |row| >= 1 && row[0] == name && ValidName(name)
    requires forall i :: 0 <= i < |row| ==> ',' !in row[i]
    ensures Upsert([Written(row)], name, value, true) == [Written(row + [IntToString(value)])]
  {
    ValidNameStart(name);
    WriteRowOfWritten(row);
    RewriteWritten(row, value);
    assert WriteMatches(Written(row), name);
    assert AnyMatches([Written(row)], name);
    assert [Written(row)][..0] == [];
  }

  /** Writing the same rating twice is not writing it once: the second write adds another field. */
  lemma UpsertNotIdempotent(row: seq<string>, name: string, value: int)
    requires |row| >= 1 && row[0] == name && ValidName(name)
    requires forall i :: 0 <= i < |row| ==> ',' !in row[i]
    ensures var once := Upsert([Written(row)], name, value, true);
            Upsert(once, name, value, true) == [Written(row + [IntToString(value), IntToString(value)])] &&
            Upsert(once, name, value, true) != once
  {
    var s := IntToString(value);
    UpsertAppends(row, name, value);
    IntToStringShape(value);
    UpsertAppends(row + [s], name, value);
    assert row + [s] + [s] == row + [s, s];
    var once, twice := Written(row + [s]), Written(row + [s, s]);
    JoinSnoc(row + [s], s);
    assert |twice| > |once|;
  }

  // ---------------------------------------------------------------------------
  // The lone-name row (a finding) and the corrected rewrite
  // ---------------------------------------------------------------------------

  /** As written: a matching row with no comma is rewritten by `row[-1] = str(value)` into
      `str(value),`, whose name field is the value and which holds no rating at all. */
  lemma LoneRowLosesName(line: string, name: string, value: int)
    requires WriteMatches(line, name) && |WriteRow(line)| == 1
    ensures CsvRow(RewriteLine(line, value, true)) == [IntToString(value), ""]
    ensures RowRating(CsvRow(RewriteLine(line, value, true))) == None
  {
    ReadRewritten(line, value, true);
    assert RewriteRow(WriteRow(line), IntToString(value), true) == [IntToString(value)];
    var vals := Parsed([IntToString(value), ""]);
    assert Strip("") == "";
    assert vals[1] == ParseNumber("") == None;
    assert Rightmost(vals, 2) == Rightmost(vals, 1) == None;
  }

  /** As written: a file whose only line is `name`'s lone-name row reads 1000 for `name`
      after `value` is written, whatever `value` is. */
  lemma LoneRowRoundTripFails(line: string, name: string, value: int)
    requires LineTerminated(line)
    requires WriteMatches(line, name) && |WriteRow(line)| == 1
    ensures StoredRating(Upsert([line], name, value, true), name) == DefaultRating
    ensures RatingOf(RatingTable(Upsert([line], name, value, true)), name) == DefaultRating
  {
    LoneRowLosesName(line, name, value);
    assert AnyMatches([line], name);
    assert [line][..0] == [];
    var out := Upsert([line], name, value, true);
    assert out == [RewriteLine(line, value, true)];
    assert Entry(out[0], name) == None;
    assert out[1..] == [];
    assert RatingTable(out[..0]) == map[];
  }

  /** The writer's row for the line `Alice`. */
  lemma AliceRow()
    ensures WriteRow("Alice\n") == ["Alice"]
  {
    StripIgnoresTrailingSpace("Alice", "\n");
    assert "Alice" + "\n" == "Alice\n";
    StripKeeps("Alice");
    BeforeWhole("Alice", ',');
  }

  /** `str(1020)`. */
  lemma Str1020()
    ensures IntToString(1020) == "1020"
  {
    assert NatToString(102) == "102";
  }

  /** The concrete case: the file `Alice`, with `1020` written for Alice, becomes `1020,`. */
  lemma AliceRowRewritten()
    ensures Upsert(["Alice\n"], "Alice", 1020, true) == ["1020,\n"]
  {
    AliceRow();
    Str1020();
    assert AnyMatches(["Alice\n"], "Alice");
    assert ["Alice\n"][..0] == [];
    assert RewriteRow(["Alice"], "1020", true) == ["1020"];
    assert Written(["1020"]) == "1020,\n";
  }

  /** ... and both lookups then give Alice 1000. */
  lemma AliceLosesRating()
    ensures StoredRating(Upsert(["Alice\n"], "Alice", 1020, true), "Alice") == 1000.0
    ensures RatingOf(RatingTable(Upsert(["Alice\n"], "Alice", 1020, true)), "Alice") == 1000.0
  {
    AliceRow();
    assert "Alice\n"[..5] == "Alice";
    LoneRowRoundTripFails("Alice\n", "Alice", 1020);
  }

  /** Corrected: the rewrite of a matching row never loses its name, with or without a comma. */
  lemma UpsertFixedUpserts(lines: seq<string>, name: string, value: int, elo: bool)
    ensures UpsertsRating(lines, UpsertFixed(lines, name, value, elo), name, value)
  {
    var out := UpsertFixed(lines, name, value, elo);
    forall j | 0 <= j < |lines| && WriteMatches(lines[j], name)
      ensures NameMatches(CsvRow(out[j]), name)
      ensures Entry(out[j], name) == Some(IntNumeral(value))
    {
      var fixedElo := elo && |WriteRow(lines[j])| >= 2;
      RewrittenName(lines[j], name, value, fixedElo);
      RewrittenEntry(lines[j], name, value, fixedElo);
    }
  }

  /** Corrected: writing `value` for a valid name always reads back as `value`, in both lookups. */
  lemma UpsertFixedRoundTrip(lines: seq<string>, name: string, value: int, elo: bool)
    requires ValidName(name) && Terminated(lines)
    ensures StoredRating(UpsertFixed(lines, name, value, elo), name) == value as real
    ensures RatingOf(RatingTable(UpsertFixed(lines, name, value, elo)), name) == value as real
  {
    UpsertFixedUpserts(lines, name, value, elo);
    UpsertFixedKeepsTerminated(lines, name, value, elo);
    ReadAfterUpsert(lines, UpsertFixed(lines, name, value, elo), name, value);
    TableAfterUpsert(lines, UpsertFixed(lines, name, value, elo), name, value);
  }

  /** The correction changes nothing where the original is right: when every row of `name` has
      a comma, or values are appended, the corrected writer writes what the original writes. */
  lemma UpsertFixedAgrees(lines: seq<string>, name: string, value: int, elo: bool)
    requires elo ==> MatchingRowsHaveComma(lines, name)
    ensures UpsertFixed(lines, name, value, elo) == Upsert(lines, name, value, elo)
  {
    UpsertShape(lines, name, value, elo);
    var a, b := UpsertFixed(lines, name, value, elo), Upsert(lines, name, value, elo);
    assert |a| == |b|;
    forall j | 0 <= j < |a| ensures a[j] == b[j] {
      if j < |lines| {
        if WriteMatches(lines[j], name) {
          assert RewriteLineFixed(lines[j], value, elo) == RewriteLine(lines[j], value, elo);
        }
      }
    }
  }

  /** As written, the round trip holds when no row of `name` lacks a comma (or values are appended). */
  lemma UpsertRoundTrip(lines: seq<string>, name: string, value: int, elo: bool)
    requires ValidName(name) && Terminated(lines)
    requires elo ==> MatchingRowsHaveComma(lines, name)
    ensures StoredRating(Upsert(lines, name, value, elo), name) == value as real
    ensures RatingOf(RatingTable(Upsert(lines, name, value, elo)), name) == value as real
  {
    UpsertUpserts(lines, name, value, elo);
    UpsertKeepsTerminated(lines, name, value, elo);
    ReadAfterUpsert(lines, Upsert(lines, name, value, elo), name, value);
    TableAfterUpsert(lines, Upsert(lines, name, value, elo), name, value);
  }

  // ---------------------------------------------------------------------------
  // Another player's rows after an upsert
  // ---------------------------------------------------------------------------

  /** A line the reader takes as `name`'s is not another player's in the writer's eyes. */
  lemma NamedLineNotOther(line: string, name: string, other: string)
    requires other != name && other != [] && NameMatches(CsvRow(line), name)
    ensures !WriteMatches(line, other)
  {
    ReadWriteAgree(line, other);
  }

  /** The line appended for `name` is not another player's in the writer's eyes. */
  lemma NewRowNotOther(name: string, other: string, value: int)
    requires ValidName(name) && other != name && other != []
    ensures !WriteMatches(NewRow(name, value), other)
  {
    NewRowWritten(name, value);
    IntToStringShape(value);
    ReadWritten([name, IntToString(value)]);
    ReadWriteAgree(NewRow(name, value), other);
  }

  /** A line of the upsert's output that is another player's in the writer's eyes is a line
      the upsert copied. */
  lemma OtherLineCopied(lines: seq<string>, out: seq<string>, name: string, other: string, value: int, j: nat)
    requires ValidName(name) && other != name && other != []
    requires UpsertsRating(lines, out, name, value) && j < |out|
    ensures WriteMatches(out[j], other) ==> j < |lines| && out[j] == lines[j]
  {
    if j >= |lines| {
      assert out[j] == NewRow(name, value);
      NewRowNotOther(name, other, value);
    } else if WriteMatches(lines[j], name) {
      assert NameMatches(CsvRow(out[j]), name);
      NamedLineNotOther(out[j], name, other);
    } else {
      assert out[j] == lines[j];
    }
  }

  /** An upsert of `name` leaves another player's rows as they were, so they keep their commas. */
  lemma UpsertKeepsOtherRows(lines: seq<string>, out: seq<string>, name: string, other: string, value: int)
    requires ValidName(name) && ValidName(other) && other != name
    requires UpsertsRating(lines, out, name, value) && MatchingRowsHaveComma(lines, other)
    ensures MatchingRowsHaveComma(out, other)
  {
    forall j | 0 <= j < |out| && WriteMatches(out[j], other) ensures |WriteRow(out[j])| >= 2 {
      OtherLineCopied(lines, out, name, other, value, j);
    }
  }

  // ---------------------------------------------------------------------------
  // A row with a stale field
  // ---------------------------------------------------------------------------

  /** `str(1000)` and `str(1050)`. */
  lemma Str1000And1050()
    ensures IntToString(1000) == "1000" && IntToString(1050) == "1050"
  {
    assert NatToString(100) == "100";
    assert NatToString(105) == "105";
  }

  /** The line `Alice,1000,1050,` is the written row `[Alice, 1000, 1050]`. */
  lemma StaleRowWritten()
    ensures Written(["Alice", "1000", "1050"]) == "Alice,1000,1050,\n"
  {
    assert Join(["Alice", "1000", "1050"]) == "Alice" + "," + Join(["1000", "1050"]);
    assert Join(["1000", "1050"]) == "1000" + "," + Join(["1050"]);
  }

  /** A row holding an older rating before the current one reads as the current one, in both
      lookups. */
  lemma StaleFieldIgnored()
    ensures StoredRating(["Alice,1000,1050,\n"], "Alice") == 1050.0
    ensures RatingOf(RatingTable(["Alice,1000,1050,\n"]), "Alice") == 1050.0
  {
    var row := ["Alice", "1000", "1050"];
    StaleRowWritten();
    Str1000And1050();
    IntToStringShape(1000);
    IntToStringShape(1050);
    ReadWritten(row);
    RatingOfWrittenRow(row, 1050);
    IntNumeralValue(1050);
    StripKeeps("Alice");
    assert Entry("Alice,1000,1050,\n", "Alice") == Some(IntNumeral(1050));
    assert ["Alice,1000,1050,\n"][..0] == [];
  }
}

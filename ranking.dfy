/** The ranking list: at most ten (score, user) records, best score first, kept in a text file
    with one `user,score` line per record. */
module Ranking {
  import opened Text

  datatype Record = Record(score: int, username: string)

  const MaxRankingRecord: nat := 10

  /** Best score first. */
  predicate Sorted(rs: seq<Record>) {
    forall i, j :: 0 <= i < j < |rs| ==> rs[i].score >= rs[j].score
  }

  /** `r` placed after every leading record whose score is at least its own. */
  function Insert(r: Record, sorted: seq<Record>): (out: seq<Record>)
    ensures |out| == |sorted| + 1
  {
    if sorted == [] || sorted[0].score < r.score then [r] + sorted
    else [sorted[0]] + Insert(r, sorted[1..])
  }

  /** `sorted(records, key=lambda record: -record[0])`: a stable sort by decreasing score. */
  function SortByScore(rs: seq<Record>): (out: seq<Record>)
    ensures |out| == |rs|
  {
    if rs == [] then [] else Insert(rs[|rs| - 1], SortByScore(rs[..|rs| - 1]))
  }

  /** Inserting adds `r` and loses nothing. */
  lemma {:induction false} InsertPermutes(r: Record, sorted: seq<Record>)
    ensures multiset(Insert(r, sorted)) == multiset(sorted) + multiset{r}
  {
    if sorted != [] && sorted[0].score >= r.score {
      InsertPermutes(r, sorted[1..]);
      assert sorted == [sorted[0]] + sorted[1..];
    }
  }

  /** The sort is a permutation. */
  lemma {:induction false} SortByScorePermutes(rs: seq<Record>)
    ensures multiset(SortByScore(rs)) == multiset(rs)
  {
    if rs != [] {
      var front, last := rs[..|rs| - 1], rs[|rs| - 1];
      assert multiset(rs) == multiset(front) + multiset{last} by {
        assert rs == front + [last];
      }
      SortByScorePermutes(front);
      InsertPermutes(last, SortByScore(front));
    }
  }

  /** The records of `rs` with score `s`, in order. */
  function WithScore(rs: seq<Record>, s: int): seq<Record> {
    if rs == [] then []
    else (if rs[0].score == s then [rs[0]] else []) + WithScore(rs[1..], s)
  }

  /** The number of leading records with a score of at least `s`; in a sorted list, the
      number of all such records. */
  function CountAtLeast(rs: seq<Record>, s: int): (k: nat)
    ensures k <= |rs|
  {
    if rs == [] || rs[0].score < s then 0 else 1 + CountAtLeast(rs[1..], s)
  }

  /** `r` goes in right after the leading records scoring at least as much. */
  lemma {:induction false} InsertAt(r: Record, sorted: seq<Record>)
    ensures var k := CountAtLeast(sorted, r.score);
      Insert(r, sorted) == sorted[..k] + [r] + sorted[k..]
  {
    if sorted != [] && sorted[0].score >= r.score {
      var tail := sorted[1..];
      InsertAt(r, tail);
      var k := CountAtLeast(tail, r.score);
      assert Insert(r, sorted) == [sorted[0]] + (tail[..k] + [r] + tail[k..]);
      assert sorted[..k + 1] == [sorted[0]] + tail[..k];
      assert sorted[k + 1..] == tail[k..];
      assert [sorted[0]] + (tail[..k] + [r] + tail[k..]) == sorted[..k + 1] + [r] + sorted[k + 1..];
    } else {
      assert sorted[..0] == [] && sorted[0..] == sorted;
    }
  }

  /** The records counted by `CountAtLeast` do score at least `s`. */
  lemma {:induction false} AboveBeforeCount(rs: seq<Record>, s: int)
    ensures forall j :: 0 <= j < CountAtLeast(rs, s) ==> rs[j].score >= s
  {
    if rs != [] && rs[0].score >= s {
      AboveBeforeCount(rs[1..], s);
      assert forall j :: 0 < j < CountAtLeast(rs, s) ==> rs[j] == rs[1..][j - 1];
    }
  }

  /** Inserting into a sorted list keeps it sorted and puts `r` after the records scoring at
      least as much. */
  lemma InsertSorted(r: Record, sorted: seq<Record>)
    requires Sorted(sorted)
    ensures Sorted(Insert(r, sorted))
    ensures var k := CountAtLeast(sorted, r.score);
      Insert(r, sorted) == sorted[..k] + [r] + sorted[k..]
  {
    InsertAt(r, sorted);
    AboveBeforeCount(sorted, r.score);
    BelowAfterCount(sorted, r.score);
    SortedAround(sorted, CountAtLeast(sorted, r.score), r);
  }

  /** A record put between the higher and the lower scores of a sorted list keeps it sorted. */
  lemma SortedAround(sorted: seq<Record>, k: nat, r: Record)
    requires Sorted(sorted) && k <= |sorted|
    requires forall j :: 0 <= j < k ==> sorted[j].score >= r.score
    requires forall j :: k <= j < |sorted| ==> sorted[j].score < r.score
    ensures Sorted(sorted[..k] + [r] + sorted[k..])
  {
    var out := sorted[..k] + [r] + sorted[k..];
    assert forall x :: 0 <= x < k ==> out[x] == sorted[x];
    assert out[k] == r;
    assert forall x :: k < x < |out| ==> out[x] == sorted[x - 1];
    forall i, j | 0 <= i < j < |out| ensures out[i].score >= out[j].score {
      if j < k {
        assert out[i].score >= out[j].score;
      } else if i > k {
        assert sorted[i - 1].score >= sorted[j - 1].score;
      }
    }
  }

  /** The sort's result is ordered best score first. */
  lemma {:induction false} SortByScoreSorted(rs: seq<Record>)
    ensures Sorted(SortByScore(rs))
  {
    if rs != [] {
      SortByScoreSorted(rs[..|rs| - 1]);
      InsertSorted(rs[|rs| - 1], SortByScore(rs[..|rs| - 1]));
    }
  }

  /** Filtering distributes over concatenation. */
  lemma {:induction false} WithScoreAppend(a: seq<Record>, b: seq<Record>, s: int)
    ensures WithScore(a + b, s) == WithScore(a, s) + WithScore(b, s)
  {
    if a != [] {
      assert (a + b)[1..] == a[1..] + b;
      WithScoreAppend(a[1..], b, s);
    } else {
      assert a + b == b;
    }
  }

  /** In a sorted list, the records from `CountAtLeast` on all score below `s`. */
  lemma {:induction false} BelowAfterCount(rs: seq<Record>, s: int)
    requires Sorted(rs)
    ensures forall j :: CountAtLeast(rs, s) <= j < |rs| ==> rs[j].score < s
  {
    if rs != [] && rs[0].score >= s {
      BelowAfterCount(rs[1..], s);
      forall j | CountAtLeast(rs, s) <= j < |rs| ensures rs[j].score < s {
        assert rs[j] == rs[1..][j - 1];
      }
    }
  }

  lemma {:induction false} WithScoreNone(rs: seq<Record>, s: int)
    requires forall j :: 0 <= j < |rs| ==> rs[j].score != s
    ensures WithScore(rs, s) == []
  {
    if rs != [] {
      WithScoreNone(rs[1..], s);
    }
  }

  /** Inserting into a sorted list puts `r` after the earlier records of its own score. */
  lemma InsertStable(r: Record, sorted: seq<Record>, s: int)
    requires Sorted(sorted)
    ensures WithScore(Insert(r, sorted), s) == WithScore(sorted, s) + WithScore([r], s)
  {
    BelowAfterCount(sorted, r.score);
    InsertBeforeLower(r, sorted, s);
  }

  /** When every record after the leading ones scoring at least `r.score` scores less, `r`
      comes after every record of its own score. */
  lemma InsertBeforeLower(r: Record, sorted: seq<Record>, s: int)
    requires forall j :: CountAtLeast(sorted, r.score) <= j < |sorted| ==> sorted[j].score < r.score
    ensures WithScore(Insert(r, sorted), s) == WithScore(sorted, s) + WithScore([r], s)
  {
    InsertAt(r, sorted);
    var k := CountAtLeast(sorted, r.score);
    var front, back := sorted[..k], sorted[k..];
    assert sorted == front + back;
    WithScoreAround(front, r, back, s);
    if s == r.score {
      assert forall j :: 0 <= j < |back| ==> back[j] == sorted[k + j];
      WithScoreNone(back, s);
      EmptyInMiddle(WithScore(front, s), WithScore([r], s), WithScore(back, s));
    } else {
      EmptyInMiddle(WithScore(front, s), WithScore([r], s), WithScore(back, s));
    }
  }

  /** An empty part can move to the end. */
  lemma EmptyInMiddle(a: seq<Record>, m: seq<Record>, b: seq<Record>)
    requires m == [] || b == []
    ensures a + m + b == (a + b) + m
  {
  }

  /** Filtering `a + [x] + b`, piece by piece. */
  lemma WithScoreAround(a: seq<Record>, x: Record, b: seq<Record>, s: int)
    ensures WithScore(a + [x] + b, s) == WithScore(a, s) + WithScore([x], s) + WithScore(b, s)
    ensures WithScore(a + b, s) == WithScore(a, s) + WithScore(b, s)
  {
    WithScoreAppend(a + [x], b, s);
    WithScoreAppend(a, [x], s);
    WithScoreAppend(a, b, s);
  }

  /** The sort is stable: for every score, the records with that score keep their order. */
  lemma {:induction false} SortByScoreStable(rs: seq<Record>, s: int)
    ensures WithScore(SortByScore(rs), s) == WithScore(rs, s)
  {
    if rs != [] {
      var front, last := rs[..|rs| - 1], rs[|rs| - 1];
      var sortedFront := SortByScore(front);
      assert WithScore(rs, s) == WithScore(front, s) + WithScore([last], s) by {
        assert rs == front + [last];
        WithScoreAppend(front, [last], s);
      }
      assert WithScore(SortByScore(rs), s) == WithScore(sortedFront, s) + WithScore([last], s) by {
        SortByScoreSorted(front);
        InsertStable(last, sortedFront, s);
      }
      SortByScoreStable(front, s);
    }
  }

  /** Sorting a sorted list changes nothing. */
  lemma {:induction false} SortByScoreOfSorted(rs: seq<Record>)
    requires Sorted(rs)
    ensures SortByScore(rs) == rs
  {
    if rs != [] {
      var front, last := rs[..|rs| - 1], rs[|rs| - 1];
      assert rs == front + [last];
      SortedFront(front, last);
      SortByScoreOfSorted(front);
      InsertAtEnd(last, front);
    }
  }

  /** Without its last record, a sorted list is still sorted, and that record scores no more
      than any other. */
  lemma SortedFront(front: seq<Record>, last: Record)
    requires Sorted(front + [last])
    ensures Sorted(front)
    ensures forall j :: 0 <= j < |front| ==> front[j].score >= last.score
  {
    var rs := front + [last];
    assert forall j :: 0 <= j < |front| ==> front[j] == rs[j];
    assert rs[|front|] == last;
  }

  lemma {:induction false} InsertAtEnd(r: Record, sorted: seq<Record>)
    requires forall j :: 0 <= j < |sorted| ==> sorted[j].score >= r.score
    ensures Insert(r, sorted) == sorted + [r]
  {
    if sorted != [] {
      InsertAtEnd(r, sorted[1..]);
    }
  }

  /** The first ten records, or all of them when there are fewer. */
  function Top(rs: seq<Record>): (out: seq<Record>)
    ensures |out| == if |rs| > MaxRankingRecord then MaxRankingRecord else |rs|
    ensures out == rs[..|out|]
  {
    if |rs| > MaxRankingRecord then rs[0..MaxRankingRecord] else rs
  }

  /** The records after `add_record(score)` by `username`. */
  function Added(records: seq<Record>, r: Record): seq<Record> {
    Top(SortByScore(records + [r]))
  }

  /** After adding: best score first, at most ten records, one more when there were fewer
      than ten, only records that were there or the new one, and no dropped record scores
      above a kept one. */
  lemma AddedFacts(records: seq<Record>, r: Record)
    ensures Sorted(Added(records, r))
    ensures |Added(records, r)| == if |records| >= MaxRankingRecord then MaxRankingRecord else |records| + 1
    ensures multiset(Added(records, r)) <= multiset(records) + multiset{r}
    ensures forall i, j :: 0 <= i < |Added(records, r)| <= j < |records| + 1 ==>
      SortByScore(records + [r])[j].score <= Added(records, r)[i].score
  {
    var all := SortByScore(records + [r]);
    var out := Added(records, r);
    assert all == out + all[|out|..];
    assert Sorted(out) && forall i, j :: 0 <= i < |out| <= j < |all| ==> all[j].score <= out[i].score by {
      SortByScoreSorted(records + [r]);
      assert forall i :: 0 <= i < |out| ==> out[i] == all[i];
    }
    assert multiset(out) <= multiset(records) + multiset{r} by {
      SortByScorePermutes(records + [r]);
      assert multiset(all) == multiset(out) + multiset(all[|out|..]);
    }
  }

  /** The number of records of `rs`, anywhere in it, with a score of at least `s`. */
  function CountAbove(rs: seq<Record>, s: int): (n: nat)
    ensures n <= |rs|
  {
    if rs == [] then 0 else (if rs[0].score >= s then 1 else 0) + CountAbove(rs[1..], s)
  }

  /** Counting distributes over concatenation. */
  lemma {:induction false} CountAboveAppend(a: seq<Record>, b: seq<Record>, s: int)
    ensures CountAbove(a + b, s) == CountAbove(a, s) + CountAbove(b, s)
  {
    if a != [] {
      assert (a + b)[1..] == a[1..] + b;
      CountAboveAppend(a[1..], b, s);
    } else {
      assert a + b == b;
    }
  }

  /** In a sorted list the leading run scoring at least `s` holds all such records. */
  lemma {:induction false} CountAboveSorted(rs: seq<Record>, s: int)
    requires Sorted(rs)
    ensures CountAbove(rs, s) == CountAtLeast(rs, s)
  {
    if rs != [] {
      CountAboveSorted(rs[1..], s);
      if rs[0].score < s && |rs| > 1 {
        assert rs[1..][0].score < s;
      }
    }
  }

  /** Inserting counts `r` once more, wherever it goes. */
  lemma CountAboveInsert(r: Record, sorted: seq<Record>, s: int)
    ensures CountAbove(Insert(r, sorted), s) == CountAbove(sorted, s) + CountAbove([r], s)
  {
    InsertAt(r, sorted);
    var k := CountAtLeast(sorted, r.score);
    assert sorted == sorted[..k] + sorted[k..];
    CountAboveAppend(sorted[..k] + [r], sorted[k..], s);
    CountAboveAppend(sorted[..k], [r], s);
    CountAboveAppend(sorted[..k], sorted[k..], s);
  }

  /** Sorting keeps the number of records scoring at least `s`. */
  lemma {:induction false} CountAboveSort(rs: seq<Record>, s: int)
    ensures CountAbove(SortByScore(rs), s) == CountAbove(rs, s)
  {
    if rs != [] {
      var front, last := rs[..|rs| - 1], rs[|rs| - 1];
      assert rs == front + [last];
      CountAboveAppend(front, [last], s);
      CountAboveSort(front, s);
      CountAboveInsert(last, SortByScore(front), s);
    }
  }

  /** `add_record` on any list: the new record goes right after every old record scoring at
      least as much, with the old records sorted around it, so it stays in the list exactly
      when fewer than ten old records score that much. */
  lemma AddedPlacement(records: seq<Record>, r: Record)
    ensures var m, sorted := CountAbove(records, r.score), SortByScore(records);
      SortByScore(records + [r]) == sorted[..m] + [r] + sorted[m..] &&
      (m < MaxRankingRecord <==> m < |Added(records, r)| && Added(records, r)[m] == r)
  {
    var sorted := SortByScore(records);
    assert (records + [r])[..|records|] == records;
    assert SortByScore(records + [r]) == Insert(r, sorted);
    SortByScoreSorted(records);
    InsertSorted(r, sorted);
    CountAboveSorted(sorted, r.score);
    CountAboveSort(records, r.score);
    var m := CountAbove(records, r.score);
    assert SortByScore(records + [r])[m] == r;
  }

  /** `str(username) + ',' + str(score) + '\n'`. */
  function FormatLine(r: Record): string {
    r.username + "," + IntToString(r.score) + "\n"
  }

  /** The text `_write_ranking_file` writes: one line per record, in order. */
  function Serialize(rs: seq<Record>): string {
    if rs == [] then "" else FormatLine(rs[0]) + Serialize(rs[1..])
  }

  /** Writing the line of record `k` after `text` leaves the lines of the records after it. */
  lemma SerializeStep(rs: seq<Record>, k: nat, text: string)
    requires k < |rs|
    ensures text + Serialize(rs[k..]) == (text + FormatLine(rs[k])) + Serialize(rs[k + 1..])
  {
    assert rs[k..][1..] == rs[k + 1..];
    var line, rest := FormatLine(rs[k]), Serialize(rs[k + 1..]);
    assert Serialize(rs[k..]) == line + rest;
    assert text + (line + rest) == (text + line) + rest;
  }

  datatype ReadError = IndexError | ValueError

  datatype Result<T> = Ok(value: T) | Err(error: ReadError)

  /** One line of the file: `vals = line.split(',')`, then `(int(vals[1]), vals[0])`. */
  function ParseLine(line: string): Result<Record> {
    var vals := SplitOn(line, ',');
    if |vals| < 2 then Err(IndexError)
    else match ParseInt(vals[1])
      case None => Err(ValueError)
      case Some(score) => Ok(Record(score, vals[0]))
  }

  /** The records read from a list of lines, up to the first line that raises, and the
      error raised there, if any. */
  datatype Parsed = Parsed(records: seq<Record>, error: Option<ReadError>)

  function ParseLines(lines: seq<string>): (p: Parsed)
    ensures |p.records| <= |lines|
  {
    if lines == [] then Parsed([], None)
    else match ParseLine(lines[0])
      case Err(e) => Parsed([], Some(e))
      case Ok(r) => var rest := ParseLines(lines[1..]); Parsed([r] + rest.records, rest.error)
  }

  /** A first line that reads as `r` puts `r` before the records of the other lines. */
  lemma ParseLinesCons(line: string, more: seq<string>, r: Record)
    requires ParseLine(line) == Ok(r)
    ensures ParseLines([line] + more) == Parsed([r] + ParseLines(more).records, ParseLines(more).error)
  {
    assert ([line] + more)[1..] == more;
  }

  lemma ParseLinesOk(lines: seq<string>, k: nat, read: seq<Record>, r: Record)
    requires k < |lines| && ParseLine(lines[k]) == Ok(r)
    ensures read + ParseLines(lines[k..]).records == (read + [r]) + ParseLines(lines[k + 1..]).records
    ensures ParseLines(lines[k..]).error == ParseLines(lines[k + 1..]).error
  {
    assert lines[k..][1..] == lines[k + 1..];
  }

  /** A line that raises ends the reading there. */
  lemma ParseLinesErr(lines: seq<string>, k: nat, e: ReadError)
    requires k < |lines| && ParseLine(lines[k]) == Err(e)
    ensures ParseLines(lines[k..]) == Parsed([], Some(e))
  {
  }

  /** A user name the file format can hold: no comma, and no line break. */
  predicate PlainName(name: string) {
    ',' !in name && '\n' !in name && '\r' !in name
  }

  /** A written line reads back as the record it was written from. */
  lemma FormatLineParses(r: Record)
    requires PlainName(r.username)
    ensures ParseLine(FormatLine(r)) == Ok(r)
  {
    var tail := IntToString(r.score) + "\n";
    ScoreHasNoComma(r.score);
    assert FormatLine(r) == r.username + [','] + tail;
    SplitOnFirst(r.username, ',', tail);
    SplitOnNone(tail, ',');
    ScoreReadsBack(r.score, "\n");
  }

  /** `str` writes no comma. */
  lemma ScoreHasNoComma(score: int)
    ensures ',' !in IntToString(score)
  {
    IntToStringChars(score);
    var digits := IntToString(score);
    assert forall k :: 0 <= k < |digits| ==> digits[k] != ',';
  }

  /** The score written before the line break reads back as the score. */
  lemma ScoreReadsBack(score: int, end: string)
    requires forall k :: 0 <= k < |end| ==> IsIntSpace(end[k])
    ensures ParseInt(IntToString(score) + end) == Some(score)
  {
    var none: string := [];
    assert none + IntToString(score) + end == IntToString(score) + end;
    IntToStringParses(score, none, end);
  }

  /** A written line ends with its only line break. */
  lemma FormatLineOneLine(r: Record)
    requires '\n' !in r.username
    ensures var line := FormatLine(r);
      line != [] && line[|line| - 1] == '\n' && '\n' !in line[..|line| - 1]
  {
    var digits := IntToString(r.score);
    IntToStringChars(r.score);
    var line := FormatLine(r);
    var body := line[..|line| - 1];
    assert body == r.username + "," + digits;
    assert '\n' !in body by {
      forall k | 0 <= k < |body| ensures body[k] != '\n' {
        if k < |r.username| {
          assert body[k] == r.username[k];
        } else if k > |r.username| {
          assert body[k] == digits[k - |r.username| - 1];
        }
      }
    }
  }

  /** The file written for a list of records reads back as that list. */
  lemma {:induction false} SerializeRoundTrip(rs: seq<Record>)
    requires forall k :: 0 <= k < |rs| ==> PlainName(rs[k].username)
    ensures ParseLines(Lines(Serialize(rs))) == Parsed(rs, None)
  {
    if rs != [] {
      var line, rest := FormatLine(rs[0]), Serialize(rs[1..]);
      assert Serialize(rs) == line + rest;
      FormatLineOneLine(rs[0]);
      LinesFirst(line, rest);
      FormatLineParses(rs[0]);
      ParseLinesCons(line, Lines(rest), rs[0]);
      SerializeRoundTrip(rs[1..]);
      assert [rs[0]] + rs[1..] == rs;
    }
  }

  /** What reading a ranking file gives: nothing for a missing file, otherwise the records
      of its lines up to the first line that raises, and that error. */
  function FileRecords(file: Option<string>): (p: Parsed)
    ensures file.Some? ==> |p.records| <= |Lines(file.value)|
  {
    match file
    case None => Parsed([], None)
    case Some(text) => ParseLines(Lines(text))
  }

  class RankingList {
    var records: seq<Record>

    /** `__init__`: an empty list, then the records of the file, if there is one. */
    constructor (file: Option<string>)
      ensures records == FileRecords(file).records
    {
      records := [];
      new;
      ghost var read := FileRecords(file).records;
      var error := ReadRankingFile(file);
      assert records == [] + read == read;
    }

    /** `__len__` */
    method Length() returns (n: nat)
      ensures n == |records|
    {
      n := |records|;
    }

    /** `__getitem__`: Python indexing, negative indices counting from the end; `None` stands
        for the `IndexError` raised outside `-len .. len - 1`. */
    method GetItem(index: int) returns (r: Option<Record>)
      ensures r.Some? <==> -|records| <= index < |records|
      ensures 0 <= index < |records| ==> r == Some(records[index])
      ensures -|records| <= index < 0 ==> r == Some(records[|records| + index])
    {
      if 0 <= index < |records| {
        r := Some(records[index]);
      } else if -|records| <= index < 0 {
        r := Some(records[|records| + index]);
      } else {
        r := None;
      }
    }

    /** `add_record(score)`, with the name `getpass.getuser()` returns as `username`: append,
        sort by score, keep the first ten, and rewrite the file, whose new text is returned. */
    method AddRecord(score: int, username: string) returns (text: string)
      modifies this
      ensures records == Added(old(records), Record(score, username))
      ensures text == Serialize(records)
    {
      records := records + [Record(score, username)];
      records := SortByScore(records);
      if |records| > MaxRankingRecord {
        records := records[0..MaxRankingRecord];
      }
      text := WriteRankingFile();
    }

    /** `_read_ranking_file`: `None` stands for a missing file, which changes nothing.
        Otherwise the records of the lines are appended in order until a line raises; the
        records appended before it stay, and the error is returned. */
    method ReadRankingFile(file: Option<string>) returns (error: Option<ReadError>)
      modifies this
      ensures records == old(records) + FileRecords(file).records
      ensures error == FileRecords(file).error
    {
      error := None;
      if file.None? {
        assert records == old(records) + [];
        return;
      }
      error := ReadLines(Lines(file.value));
    }

    /** The loop of `_read_ranking_file` over the lines of the file. */
    method ReadLines(lines: seq<string>) returns (error: Option<ReadError>)
      modifies this
      ensures records == old(records) + ParseLines(lines).records
      ensures error == ParseLines(lines).error
    {
      error := None;
      ghost var goal := ParseLines(lines);
      for k := 0 to |lines|
        invariant old(records) + goal.records == records + ParseLines(lines[k..]).records
        invariant goal.error == ParseLines(lines[k..]).error
      {
        var line := ReadLine(lines[k]);
        if line.Err? {
          ParseLinesErr(lines, k, line.error);
          assert records + [] == records;
          error := Some(line.error);
          return;
        }
        ParseLinesOk(lines, k, records, line.value);
        records := records + [line.value];
      }
      assert lines[|lines|..] == [];
    }

    /** The body of the reading loop: `vals = line.split(',')`, then the record
        `(int(vals[1]), vals[0])`, or the error raised on the way. */
    method ReadLine(line: string) returns (r: Result<Record>)
      ensures r == ParseLine(line)
    {
      var vals := SplitOn(line, ',');
      if |vals| < 2 {
        return Err(IndexError);
      }
      var score := ParseInt(vals[1]);
      if score.None? {
        return Err(ValueError);
      }
      return Ok(Record(score.value, vals[0]));
    }

    /** `_write_ranking_file`: the text written, one `user,score` line per record. */
    method WriteRankingFile() returns (text: string)
      ensures text == Serialize(records)
    {
      var rs := records;
      text := "";
      for k := 0 to |rs|
        invariant text + Serialize(rs[k..]) == Serialize(rs)
      {
        SerializeStep(rs, k, text);
        text := text + FormatLine(rs[k]);
      }
      assert rs[|rs|..] == [];
    }
  }

  /** No line break in the written line before its end. */
  lemma FormatLineSingle(r: Record)
    requires '\n' !in r.username
    ensures Lines(Serialize([r])) == [FormatLine(r)]
  {
    var line := FormatLine(r);
    assert Serialize([r]) == line + "";
    FormatLineOneLine(r);
    LinesFirst(line, "");
  }

  /** The fields of a written line whose user name holds one comma. */
  lemma CommaNameFields(first: string, second: string, score: int)
    requires ',' !in first && ',' !in second
    ensures SplitOn(FormatLine(Record(score, first + "," + second)), ',') ==
      [first, second, IntToString(score) + "\n"]
  {
    var tail := IntToString(score) + "\n";
    ScoreHasNoComma(score);
    assert FormatLine(Record(score, first + "," + second)) == first + [','] + (second + [','] + tail);
    SplitOnTwo(first, second, tail, ',');
  }

  /** Three pieces around two separators. */
  lemma SplitOnTwo(a: string, b: string, t: string, c: char)
    requires c !in a && c !in b && c !in t
    ensures SplitOn(a + [c] + (b + [c] + t), c) == [a, b, t]
  {
    SplitOnFirst(a, c, b + [c] + t);
    SplitOnFirst(b, c, t);
    SplitOnNone(t, c);
  }

  /** A user name with a comma is written but does not read back: the part after the comma
      is taken for the score, so the line raises `ValueError`, or, when that part is a
      number, reads back as a different record. */
  lemma CommaNameBreaksFile(first: string, second: string, score: int)
    requires PlainName(first) && PlainName(second)
    ensures var parsed := ParseLines(Lines(Serialize([Record(score, first + "," + second)])));
      match ParseInt(second)
      case None => parsed == Parsed([], Some(ValueError))
      case Some(n) => parsed == Parsed([Record(n, first)], None)
  {
    var r := Record(score, first + "," + second);
    var line := FormatLine(r);
    assert '\n' !in r.username;
    FormatLineSingle(r);
    CommaLineReads(first, second, score);
    match ParseInt(second)
    case None =>
      assert ParseLines([line]) == Parsed([], Some(ValueError));
    case Some(n) =>
      ParseLinesCons(line, [], Record(n, first));
      assert [line] + [] == [line];
  }

  /** The line written for a name with one comma reads as the part before the comma, with the
      part after it for the score, or raises `ValueError` when that part is no number. */
  lemma CommaLineReads(first: string, second: string, score: int)
    requires ',' !in first && ',' !in second
    ensures ParseLine(FormatLine(Record(score, first + "," + second))) ==
      match ParseInt(second)
      case None => Err(ValueError)
      case Some(n) => Ok(Record(n, first))
  {
    CommaNameFields(first, second, score);
  }
}

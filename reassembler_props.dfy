/** What the reassembler of `mdb_sql` promises about the records it returns. */
module ReassemblerProperties {
  import opened Wrappers
  import opened RubyText
  import opened RubyHash
  import opened Reassembler

  /** Every line split into exactly one token per header field: no field
      value held a line break. */
  predicate WellFormed(fields: seq<string>, rows: seq<seq<string>>) {
    forall k :: 0 <= k < |rows| ==> |rows[k]| == |fields|
  }

  /** The records that well-formed rows stand for, one per row, mapping the
      header to the row's chomped tokens. */
  function RowRecords(fields: seq<string>, rows: seq<seq<string>>): (r: seq<Record>)
    requires WellFormed(fields, rows)
    ensures |r| == |rows|
  {
    seq(|rows|, k requires 0 <= k < |rows| => ToRecord(fields, ChompAll(rows[k])))
  }

  /** Processing a + b is processing a, then b from where a left off. */
  lemma {:induction false} FinalAppend(fields: seq<string>, st: State, a: seq<seq<string>>, b: seq<seq<string>>)
    ensures Final(fields, st, a + b) ==
      match Final(fields, st, a)
      case Err(e) => Err(e)
      case Ok(mid) => Final(fields, mid, b)
    decreases |a|
  {
    if a == [] {
      assert a + b == b;
    } else {
      assert (a + b)[0] == a[0] && (a + b)[1..] == a[1..] + b;
      match Step(fields, st, a[0])
      case Err(e) =>
      case Ok(st') => FinalAppend(fields, st', a[1..], b);
    }
  }

  /** From an empty pending row, well-formed rows give one record each, in
      order. */
  lemma {:induction false} FinalWellFormed(fields: seq<string>, recs: seq<Record>, rest: seq<seq<string>>)
    requires WellFormed(fields, rest)
    ensures Final(fields, State([], recs), rest) == Ok(State([], recs + RowRecords(fields, rest)))
    decreases |rest|
  {
    if rest != [] {
      var rec := ToRecord(fields, ChompAll(rest[0]));
      StepWellFormed(fields, recs, rest[0]);
      assert rest[0..] == rest;
      FinalStep(fields, State([], recs), rest, 0, Ok(State([], recs + [rec])));
      RowRecordsCons(fields, rest);
      FinalWellFormed(fields, recs + [rec], rest[1..]);
      AppendAssoc(recs, [rec], RowRecords(fields, rest[1..]));
    } else {
      assert recs + RowRecords(fields, rest) == recs;
    }
  }

  lemma AppendAssoc<T>(a: seq<T>, b: seq<T>, c: seq<T>)
    ensures a + b + c == a + (b + c)
  {
  }

  /** A line of header width, on an empty pending row, is one record. */
  lemma StepWellFormed(fields: seq<string>, recs: seq<Record>, row: seq<string>)
    requires |row| == |fields|
    ensures Step(fields, State([], recs), row) == Ok(State([], recs + [ToRecord(fields, ChompAll(row))]))
  {
    assert [] + ChompAll(row) == ChompAll(row);
  }

  /** The records of well-formed rows: the first row's, then the others'. */
  lemma RowRecordsCons(fields: seq<string>, rows: seq<seq<string>>)
    requires WellFormed(fields, rows) && rows != []
    ensures WellFormed(fields, rows[1..])
    ensures RowRecords(fields, rows) == [ToRecord(fields, ChompAll(rows[0]))] + RowRecords(fields, rows[1..])
  {
    forall k | 0 <= k < |rows[1..]| ensures |rows[1..][k]| == |fields| {
      assert rows[1..][k] == rows[k + 1];
    }
  }

  /** A stream without embedded line breaks: one record per data line, in
      input order, record k built from the chomped tokens of data line k. */
  lemma WellFormedStream(lines: seq<string>)
    requires |lines| >= 2 && WellFormed(Header(lines[1]), SplitLines(lines[2..]))
    ensures Reassemble(lines) == Ok(RowRecords(Header(lines[1]), SplitLines(lines[2..])))
  {
    var fields := Header(lines[1]);
    var rows := SplitLines(lines[2..]);
    FinalWellFormed(fields, [], rows);
    assert [] + RowRecords(fields, rows) == RowRecords(fields, rows);
  }

  /** Record k of well-formed rows, column by column, when the header names
      are distinct: the header's columns in header order, column i holding the
      chomped token i of row k. */
  lemma RowRecordValues(fields: seq<string>, rows: seq<seq<string>>, k: nat, i: nat)
    requires WellFormed(fields, rows) && Distinct(fields)
    requires k < |rows| && i < |fields|
    ensures Keys(RowRecords(fields, rows)[k]) == fields
    ensures Get(RowRecords(fields, rows)[k], fields[i]) == Some(Chomp(rows[k][i]))
  {
    var tokens := ChompAll(rows[k]);
    var empty: Record := [];
    assert Keys(empty) + fields == fields;
    FromPairsDistinctKeys(empty, fields, tokens);
    FromPairsDistinctValues([], fields, tokens, i);
  }

  /** On a whole stream without embedded line breaks and with distinct header
      names: record k has the header's columns in header order, column i
      holding the chomped token i of data line k. */
  lemma WellFormedStreamValues(lines: seq<string>, k: nat, i: nat)
    requires |lines| >= 2 && WellFormed(Header(lines[1]), SplitLines(lines[2..]))
    requires Distinct(Header(lines[1]))
    requires k < |lines| - 2 && i < |Header(lines[1])|
    ensures Reassemble(lines).Ok? && |Reassemble(lines).value| == |lines| - 2
    ensures Keys(Reassemble(lines).value[k]) == Header(lines[1])
    ensures Get(Reassemble(lines).value[k], Header(lines[1])[i]) == Some(Chomp(SplitLines(lines[2..])[k][i]))
  {
    WellFormedStream(lines);
    RowRecordValues(Header(lines[1]), SplitLines(lines[2..]), k, i);
  }

  /** A row split by a line break inside a field: the second line continues
      the first, and the two lines give one record rather than two partial
      ones. */
  lemma ContinuationMerges(fields: seq<string>, recs: seq<Record>, r1: seq<string>, r2: seq<string>, rest: seq<seq<string>>)
    requires 0 < |r1| < |fields| && r2 != []
    requires |r1| + |DeleteAll(r2, r2[0])| == |fields|
    ensures Final(fields, State([], recs), [r1, r2] + rest) ==
      Final(fields, State([], recs + [ToRecord(fields, Glue(ChompAll(r1), r2))]), rest)
  {
    var rows := [r1, r2] + rest;
    var t1 := ChompAll(r1);
    assert [] + t1 == t1;
    var s1 := Step(fields, State([], recs), r1);
    assert s1 == Ok(State(t1, recs));
    var s2 := Step(fields, State(t1, recs), r2);
    GlueStep(fields, recs, t1, r2);
    assert rows[0] == r1 && rows[1] == r2 && rows[0..] == rows && rows[2..] == rest;
    FinalStep(fields, State([], recs), rows, 0, s1);
    FinalStep(fields, State(t1, recs), rows, 1, s2);
  }

  /** A continuation line that completes the pending row emits it. */
  lemma GlueStep(fields: seq<string>, recs: seq<Record>, fullLine: seq<string>, row: seq<string>)
    requires 0 < |fullLine| < |fields| && row != []
    requires |fullLine| + |DeleteAll(row, row[0])| == |fields|
    ensures Step(fields, State(fullLine, recs), row) == Ok(State([], recs + [ToRecord(fields, Glue(fullLine, row))]))
  {
    GlueTokens(fullLine, row);
  }

  /** The record of a merged row, column by column, when the header names are
      distinct: the columns before the break keep their chomped tokens, the
      broken column holds its first part, chomped, a space and the next line's
      first token as it came (line feed included), and the columns after it
      the next line's remaining tokens, chomped, with every copy of that first
      token deleted. */
  lemma GluedRecordValues(fields: seq<string>, r1: seq<string>, r2: seq<string>, i: nat)
    requires 0 < |r1| && r2 != []
    requires |r1| + |DeleteAll(r2, r2[0])| == |fields|
    requires Distinct(fields) && i < |fields|
    ensures Get(ToRecord(fields, Glue(ChompAll(r1), r2)), fields[i]) == Some(
      if i < |r1| - 1 then Chomp(r1[i])
      else if i == |r1| - 1 then Chomp(r1[i]) + " " + r2[0]
      else Chomp(DeleteAll(r2, r2[0])[i - |r1|]))
  {
    GlueAt(r1, r2, i);
    FromPairsDistinctValues([], fields, Glue(ChompAll(r1), r2), i);
  }

  /** Token i of a merged row. */
  lemma GlueAt(r1: seq<string>, r2: seq<string>, i: nat)
    requires 0 < |r1| && r2 != [] && i < |r1| + |DeleteAll(r2, r2[0])|
    ensures |Glue(ChompAll(r1), r2)| == |r1| + |DeleteAll(r2, r2[0])|
    ensures Glue(ChompAll(r1), r2)[i] ==
      if i < |r1| - 1 then Chomp(r1[i])
      else if i == |r1| - 1 then Chomp(r1[i]) + " " + r2[0]
      else Chomp(DeleteAll(r2, r2[0])[i - |r1|])
  {
    GlueParts(ChompAll(r1), r2);
    ExtendedAt(r1, r2[0], DeleteAll(r2, r2[0]), i);
  }

  /** Token i of the chomped tokens r1 with x put after the last one, followed
      by the chomped tokens of tail. */
  lemma ExtendedAt(r1: seq<string>, x: string, tail: seq<string>, i: nat)
    requires 0 < |r1| && i < |r1| + |tail|
    ensures |ChompAll(r1)[|r1| - 1 := ChompAll(r1)[|r1| - 1] + " " + x] + ChompAll(tail)| == |r1| + |tail|
    ensures (ChompAll(r1)[|r1| - 1 := ChompAll(r1)[|r1| - 1] + " " + x] + ChompAll(tail))[i] ==
      if i < |r1| - 1 then Chomp(r1[i])
      else if i == |r1| - 1 then Chomp(r1[i]) + " " + x
      else Chomp(tail[i - |r1|])
  {
    var fl := ChompAll(r1);
    var v := fl[|r1| - 1] + " " + x;
    var cd := ChompAll(tail);
    UpdateConcatAt(fl, |r1| - 1, v, cd, i);
    if i < |r1| - 1 {
      assert fl[i] == Chomp(r1[i]);
    } else if i == |r1| - 1 {
      assert v == Chomp(r1[i]) + " " + x;
    } else {
      assert cd[i - |r1|] == Chomp(tail[i - |r1|]);
    }
  }

  /** Element i of a sequence with one element replaced, followed by
      another sequence. */
  lemma UpdateConcatAt<T>(a: seq<T>, k: nat, v: T, b: seq<T>, i: nat)
    requires k < |a| && i < |a| + |b|
    ensures |a[k := v] + b| == |a| + |b|
    ensures (a[k := v] + b)[i] == if i == k then v else if i < |a| then a[i] else b[i - |a|]
  {
  }

  /** A merged row is the pending row with its last token extended, then the
      line's chomped tokens left after the delete. */
  lemma GlueParts(fullLine: seq<string>, row: seq<string>)
    requires |fullLine| > 0 && |row| > 0
    ensures Glue(fullLine, row) ==
      fullLine[|fullLine| - 1 := fullLine[|fullLine| - 1] + " " + row[0]] + ChompAll(DeleteAll(row, row[0]))
  {
  }

  /** A trailing row that never reaches the header's width is dropped: after
      well-formed data lines, one more line with a different token count
      changes nothing in the result. */
  lemma TrailingFragmentDropped(fields: seq<string>, rows: seq<seq<string>>, row: seq<string>)
    requires WellFormed(fields, rows) && |row| != |fields|
    ensures Final(fields, State([], []), rows).Ok?
    ensures Final(fields, State([], []), rows + [row]).Ok?
    ensures Final(fields, State([], []), rows + [row]).value.records == Final(fields, State([], []), rows).value.records
  {
    FinalAppend(fields, State([], []), rows, [row]);
    FinalWellFormed(fields, [], rows);
    var recs := Final(fields, State([], []), rows).value.records;
    assert [] + ChompAll(row) == ChompAll(row);
    assert Step(fields, State([], recs), row) == Ok(State(ChompAll(row), recs));
  }

  /** Once the pending row is longer than the header, no line is ever a
      continuation again, the row only grows, and nothing more is emitted. */
  lemma {:induction false} OverflowEmitsNothing(fields: seq<string>, st: State, rest: seq<seq<string>>)
    requires |st.fullLine| > |fields|
    ensures Final(fields, st, rest).Ok?
    ensures Final(fields, st, rest).value.records == st.records
    ensures |Final(fields, st, rest).value.fullLine| > |fields|
    decreases |rest|
  {
    if rest != [] {
      var fl := st.fullLine + ChompAll(rest[0]);
      assert Step(fields, st, rest[0]) == Ok(State(fl, st.records));
      OverflowEmitsNothing(fields, State(fl, st.records), rest[1..]);
    }
  }

  lemma SplitLinesAppend(a: seq<string>, b: seq<string>)
    ensures SplitLines(a + b) == SplitLines(a) + SplitLines(b)
  {
    assert forall j :: 0 <= j < |a + b| ==> SplitLines(a + b)[j] == (SplitLines(a) + SplitLines(b))[j];
  }

  /** The data lines before line k and from line k on. */
  lemma SplitLinesAt(lines: seq<string>, k: nat)
    requires 2 <= k <= |lines|
    ensures SplitLines(lines[2..]) == SplitLines(lines[2..k]) + SplitLines(lines[k..])
  {
    assert lines[2..] == lines[2..k] + lines[k..];
    SplitLinesAppend(lines[2..k], lines[k..]);
  }

  /** The same on a whole stream: if the pending row overflows after some
      data line, the records emitted until then are the result. */
  lemma OverflowIsFinal(lines: seq<string>, k: nat, st: State)
    requires 2 <= k <= |lines|
    requires Final(Header(lines[1]), State([], []), SplitLines(lines[2..k])) == Ok(st)
    requires |st.fullLine| > |Header(lines[1])|
    ensures Reassemble(lines) == Ok(st.records)
  {
    SplitLinesAt(lines, k);
    OverflowRows(Header(lines[1]), SplitLines(lines[2..k]), SplitLines(lines[k..]), st);
  }

  /** Rows after an overflow add no record. */
  lemma OverflowRows(fields: seq<string>, a: seq<seq<string>>, b: seq<seq<string>>, st: State)
    requires Final(fields, State([], []), a) == Ok(st) && |st.fullLine| > |fields|
    ensures Final(fields, State([], []), a + b).Ok?
    ensures Final(fields, State([], []), a + b).value.records == st.records
  {
    FinalAppend(fields, State([], []), a, b);
    OverflowEmitsNothing(fields, st, b);
  }

  /** Every record has exactly the header names as keys, and when those are
      distinct, in header order. */
  ghost predicate Shaped(fields: seq<string>, records: seq<Record>) {
    forall r :: r in records ==>
      (forall x :: x in Keys(r) <==> x in fields) && (Distinct(fields) ==> Keys(r) == fields)
  }

  /** A record built from the header has exactly the header names as keys,
      in header order when they are distinct. */
  lemma RecordShaped(fields: seq<string>, values: seq<string>, recs: seq<Record>)
    requires |values| == |fields| && Shaped(fields, recs)
    ensures Shaped(fields, recs + [ToRecord(fields, values)])
  {
    var rec := ToRecord(fields, values);
    ToRecordKeys(fields, values);
    forall r | r in recs + [rec]
      ensures (forall x :: x in Keys(r) <==> x in fields) && (Distinct(fields) ==> Keys(r) == fields)
    {
      if r != rec {
        assert r in recs;
      }
    }
  }

  /** The keys of a record built from the header. */
  lemma ToRecordKeys(fields: seq<string>, values: seq<string>)
    requires |values| == |fields|
    ensures forall x :: x in Keys(ToRecord(fields, values)) <==> x in fields
    ensures Distinct(fields) ==> Keys(ToRecord(fields, values)) == fields
  {
    FromPairsKeys([], fields, values);
    if Distinct(fields) {
      var empty: Record := [];
      assert Keys(empty) + fields == fields;
      FromPairsDistinctKeys(empty, fields, values);
    }
  }

  lemma {:induction false} FinalShaped(fields: seq<string>, st: State, rest: seq<seq<string>>)
    requires Shaped(fields, st.records)
    ensures Final(fields, st, rest).Ok? ==> Shaped(fields, Final(fields, st, rest).value.records)
    decreases |rest|
  {
    if rest != [] {
      match Merge(fields, st.fullLine, rest[0])
      case Err(e) =>
      case Ok(fl) =>
        if |fl| == |fields| {
          RecordShaped(fields, fl, st.records);
          FinalShaped(fields, State([], st.records + [ToRecord(fields, fl)]), rest[1..]);
        } else {
          FinalShaped(fields, State(fl, st.records), rest[1..]);
        }
    }
  }

  /** Each emitted record has every header name as a key and no other. */
  lemma RecordsCarryHeaderFields(lines: seq<string>)
    requires Reassemble(lines).Ok?
    ensures Shaped(Header(lines[1]), Reassemble(lines).value)
  {
    FinalShaped(Header(lines[1]), State([], []), SplitLines(lines[2..]));
  }

  /** Chomp on the tokens of the example below. */
  lemma ExampleChompOne()
    ensures Chomp("1") == "1"
  {
    var s := "1";
    assert s[0] != '\n' && s[0] != '\r';
  }

  lemma ExampleChompA()
    ensures Chomp("a\n") == "a"
  {
    var s := "a\n";
    assert s[1] == '\n';
    assert s[..1] == "a";
  }

  lemma ExampleChompC()
    ensures Chomp("c\n") == "c"
  {
    var s := "c\n";
    assert s[1] == '\n';
    assert s[..1] == "c";
  }

  /** The chomped tokens of the example below. */
  lemma ExampleChomps()
    ensures ChompAll(["1", "a\n"]) == ["1", "a"]
    ensures ChompAll(["c\n"]) == ["c"]
  {
    ExampleChompOne();
    ExampleChompA();
    ExampleChompC();
    var r := ChompAll(["1", "a\n"]);
    assert r[0] == Chomp("1") && r[1] == Chomp("a\n");
    assert ChompAll(["c\n"])[0] == Chomp("c\n");
  }

  /** Both copies of the first token go. */
  lemma ExampleDelete()
    ensures DeleteAll(["b", "b", "c\n"], "b") == ["c\n"]
  {
    var r2 := ["b", "b", "c\n"];
    assert r2[1..] == ["b", "c\n"];
    assert r2[1..][1..] == ["c\n"];
    assert ["c\n"][1..] == [];
    assert DeleteAll(["c\n"], "b") == ["c\n"] + DeleteAll([], "b");
  }

  /** The token lists of the example below. */
  lemma ExampleTokens()
    ensures DeleteAll(["b", "b", "c\n"], "b") == ["c\n"]
    ensures Glue(ChompAll(["1", "a\n"]), ["b", "b", "c\n"]) == ["1", "a b", "c"]
  {
    ExampleChomps();
    ExampleDelete();
    var t1 := ChompAll(["1", "a\n"]);
    var row := ["b", "b", "c\n"];
    GlueParts(t1, row);
    assert "a" + " " + "b" == "a b";
    assert t1[1 := t1[1] + " " + row[0]] == ["1", "a b"];
    assert ChompAll(DeleteAll(row, row[0])) == ["c"];
  }

  /** Array#delete at work: a continuation line whose first token occurs
      again loses every copy of it, so "b::b::c" completes a three-column row
      begun by "1::a" instead of overflowing it. */
  lemma DeleteRemovesEveryCopy()
    ensures Final(["k", "m", "n"], State([], []), [["1", "a\n"], ["b", "b", "c\n"]]) ==
      Ok(State([], [ToRecord(["k", "m", "n"], ["1", "a b", "c"])]))
  {
    var fields := ["k", "m", "n"];
    var r1 := ["1", "a\n"];
    var r2 := ["b", "b", "c\n"];
    ExampleTokens();
    var rec := ToRecord(fields, ["1", "a b", "c"]);
    ContinuationMerges(fields, [], r1, r2, []);
    assert [r1, r2] + [] == [r1, r2];
    assert [] + [rec] == [rec];
    assert Final(fields, State([], [rec]), []) == Ok(State([], [rec]));
  }
}

/**
 * `generateIndex`: turns the rendered course table (`.courses-list > div`, one entry per row, each
 * row abstracted to the text of its column `div`s) into the records of the search index.
 */
module CourseIndex {
  import opened JsText

  /** One record pushed onto `data`. */
  datatype CourseRecord = CourseRecord(
    path: string,
    code: string,
    title: string,
    description: string,
    courseType: string,
    mode: string,
    campus: string,
    duration: string,
    area: string)

  /** The table's first two rows are headers. */
  const HeaderRows: nat := 2
  /** A row needs at least this many columns to become a record. */
  const MinColumns: nat := 8

  /** `.replace(/["\n]/g, '')`: the text without its double quotes and line feeds, the rest kept in order. */
  function StripQuotesAndNewlines(s: string): (r: string)
    ensures |r| <= |s|
    ensures forall c :: c in r ==> c in s && c != '"' && c != '\n'
  {
    if s == [] then []
    else (if s[0] == '"' || s[0] == '\n' then [] else [s[0]]) + StripQuotesAndNewlines(s[1..])
  }

  /**
   * The replacement works character by character: the result for a concatenation is the results for
   * its parts, concatenated, so every other character is kept, in order.
   */
  lemma {:induction false} StripAppend(a: string, b: string)
    ensures StripQuotesAndNewlines(a + b) == StripQuotesAndNewlines(a) + StripQuotesAndNewlines(b)
  {
    if a == [] {
      assert a + b == b;
    } else {
      assert (a + b)[0] == a[0];
      assert (a + b)[1..] == a[1..] + b;
      StripAppend(a[1..], b);
    }
  }

  /** A single character is dropped exactly when it is a double quote or a line feed. */
  lemma StripOneChar(c: char)
    ensures StripQuotesAndNewlines([c]) == if c == '"' || c == '\n' then [] else [c]
  {
    assert [c][1..] == [];
  }

  /** Text without quotes or line feeds passes through the replacement unchanged. */
  lemma {:induction false} StripKeepsCleanText(s: string)
    requires '"' !in s && '\n' !in s
    ensures StripQuotesAndNewlines(s) == s
  {
    if s != [] {
      StripKeepsCleanText(s[1..]);
    }
  }

  /**
   * The record for one row of at least eight columns: the given path, the trimmed texts of columns
   * 0 to 6, and column 7 without quotes and line feeds, trimmed.
   */
  function RowRecord(columns: seq<string>, pathname: string): (r: CourseRecord)
    requires |columns| >= MinColumns
    ensures r.path == pathname
    ensures r.code == Trim(columns[0]) && r.title == Trim(columns[1]) && r.description == Trim(columns[2])
    ensures r.courseType == Trim(columns[3]) && r.mode == Trim(columns[4])
    ensures r.campus == Trim(columns[5]) && r.duration == Trim(columns[6])
    ensures r.area == Trim(StripQuotesAndNewlines(columns[7]))
  {
    CourseRecord(
      pathname,
      Trim(columns[0]),
      Trim(columns[1]),
      Trim(columns[2]),
      Trim(columns[3]),
      Trim(columns[4]),
      Trim(columns[5]),
      Trim(columns[6]),
      Trim(StripQuotesAndNewlines(columns[7])))
  }

  /** Every text field of a record is trimmed, and `area` holds neither a double quote nor a line feed. */
  lemma RowRecordClean(columns: seq<string>, pathname: string)
    requires |columns| >= MinColumns
    ensures var r := RowRecord(columns, pathname);
      && IsTrimmed(r.code) && IsTrimmed(r.title) && IsTrimmed(r.description) && IsTrimmed(r.courseType)
      && IsTrimmed(r.mode) && IsTrimmed(r.campus) && IsTrimmed(r.duration) && IsTrimmed(r.area)
      && '"' !in r.area && '\n' !in r.area
  {
    var r := RowRecord(columns, pathname);
    if '"' in r.area {
      TrimChars(StripQuotesAndNewlines(columns[7]), '"');
    }
    if '\n' in r.area {
      TrimChars(StripQuotesAndNewlines(columns[7]), '\n');
    }
  }

  /** Columns past the eighth play no part in the record. */
  lemma RowRecordIgnoresExtraColumns(columns: seq<string>, pathname: string)
    requires |columns| >= MinColumns
    ensures RowRecord(columns, pathname) == RowRecord(columns[..MinColumns], pathname)
  {
  }

  /** The records `generateIndex` produces for a table, defined row by row from the end. */
  function Index(rows: seq<seq<string>>, pathname: string): seq<CourseRecord>
    decreases |rows|
  {
    if |rows| <= HeaderRows then []
    else
      var last := rows[|rows| - 1];
      Index(rows[..|rows| - 1], pathname) + (if |last| >= MinColumns then [RowRecord(last, pathname)] else [])
  }

  /** The positions of the rows that become records, in table order. */
  function SourceRows(rows: seq<seq<string>>): seq<nat>
    decreases |rows|
  {
    if |rows| <= HeaderRows then []
    else SourceRows(rows[..|rows| - 1]) + (if |rows[|rows| - 1]| >= MinColumns then [|rows| - 1] else [])
  }

  /** Each row that becomes a record is past the header and has at least eight columns. */
  lemma {:induction false} SourceRowsQualify(rows: seq<seq<string>>)
    ensures forall k :: 0 <= k < |SourceRows(rows)| ==>
      var i := SourceRows(rows)[k]; HeaderRows <= i < |rows| && |rows[i]| >= MinColumns
  {
    if |rows| > HeaderRows {
      var front := rows[..|rows| - 1];
      SourceRowsQualify(front);
      var before, sources := SourceRows(front), SourceRows(rows);
      forall k | 0 <= k < |sources|
        ensures HeaderRows <= sources[k] < |rows| && |rows[sources[k]]| >= MinColumns
      {
        if k < |before| {
          assert sources[k] == before[k];
          assert rows[before[k]] == front[before[k]];
        }
      }
    }
  }

  /** The rows that become records come in table order. */
  lemma {:induction false} SourceRowsIncrease(rows: seq<seq<string>>)
    ensures forall k, m :: 0 <= k < m < |SourceRows(rows)| ==> SourceRows(rows)[k] < SourceRows(rows)[m]
  {
    if |rows| > HeaderRows {
      var front := rows[..|rows| - 1];
      SourceRowsIncrease(front);
      SourceRowsQualify(front);
      var before, sources := SourceRows(front), SourceRows(rows);
      forall k, m | 0 <= k < m < |sources|
        ensures sources[k] < sources[m]
      {
        assert sources[k] == before[k];
        if m < |before| {
          assert sources[m] == before[m];
        }
      }
    }
  }

  /** Every row after the header with at least eight columns becomes a record. */
  lemma {:induction false} SourceRowsComplete(rows: seq<seq<string>>)
    ensures forall i :: HeaderRows <= i < |rows| && |rows[i]| >= MinColumns ==> i in SourceRows(rows)
  {
    if |rows| > HeaderRows {
      var front := rows[..|rows| - 1];
      SourceRowsComplete(front);
      var before, sources := SourceRows(front), SourceRows(rows);
      forall i | HeaderRows <= i < |rows| && |rows[i]| >= MinColumns
        ensures i in sources
      {
        if i < |front| {
          assert front[i] == rows[i];
          assert i in before;
        } else {
          assert sources[|sources| - 1] == i;
        }
      }
    }
  }

  /** Record `k` is the record of row `SourceRows(rows)[k]`, so there is one record per such row. */
  lemma {:induction false} IndexFromSources(rows: seq<seq<string>>, pathname: string)
    ensures var index, sources := Index(rows, pathname), SourceRows(rows);
      && |index| == |sources|
      && (forall k :: 0 <= k < |sources| ==>
            sources[k] < |rows| && |rows[sources[k]]| >= MinColumns
            && index[k] == RowRecord(rows[sources[k]], pathname))
  {
    if |rows| > HeaderRows {
      var front := rows[..|rows| - 1];
      IndexFromSources(front, pathname);
      var before, index, sources := SourceRows(front), Index(rows, pathname), SourceRows(rows);
      assert index[..|before|] == Index(front, pathname);
      assert sources[..|before|] == before;
      forall k | 0 <= k < |sources|
        ensures sources[k] < |rows| && |rows[sources[k]]| >= MinColumns
          && index[k] == RowRecord(rows[sources[k]], pathname)
      {
        if k < |before| {
          assert index[k] == Index(front, pathname)[k];
          assert rows[before[k]] == front[before[k]];
        }
      }
    }
  }

  /** At most one record per row after the header. */
  lemma {:induction false} IndexLength(rows: seq<seq<string>>, pathname: string)
    ensures |Index(rows, pathname)| <= if |rows| <= HeaderRows then 0 else |rows| - HeaderRows
  {
    if |rows| > HeaderRows {
      IndexLength(rows[..|rows| - 1], pathname);
    }
  }

  /** Every record carries the page's path. */
  lemma {:induction false} IndexPaths(rows: seq<seq<string>>, pathname: string)
    ensures forall r :: r in Index(rows, pathname) ==> r.path == pathname
  {
    if |rows| > HeaderRows {
      IndexPaths(rows[..|rows| - 1], pathname);
    }
  }

  /** Changing the two header rows never changes the records. */
  lemma {:induction false} IndexIgnoresHeader(rows: seq<seq<string>>, other: seq<seq<string>>, pathname: string)
    requires |rows| == |other|
    requires forall i :: HeaderRows <= i < |rows| ==> rows[i] == other[i]
    ensures Index(rows, pathname) == Index(other, pathname)
  {
    if |rows| > HeaderRows {
      IndexIgnoresHeader(rows[..|rows| - 1], other[..|other| - 1], pathname);
    }
  }

  /** Adding a row after the header appends that row's record, if it has one, to the records so far. */
  lemma IndexStep(rows: seq<seq<string>>, i: nat, pathname: string)
    requires HeaderRows <= i < |rows|
    ensures Index(rows[..i + 1], pathname) ==
      Index(rows[..i], pathname) + (if |rows[i]| >= MinColumns then [RowRecord(rows[i], pathname)] else [])
  {
    var prefix := rows[..i + 1];
    assert prefix[..|prefix| - 1] == rows[..i];
    assert prefix[|prefix| - 1] == rows[i];
  }

  /** `generateIndex`: walks the rows after the header, pushing a record for each row of eight or more columns. */
  method GenerateIndex(rows: seq<seq<string>>, pathname: string) returns (data: seq<CourseRecord>)
    ensures data == Index(rows, pathname)
  {
    data := [];
    var i := HeaderRows;
    while i < |rows|
      invariant HeaderRows <= i
      invariant i <= |rows| ==> data == Index(rows[..i], pathname)
      invariant i > |rows| ==> |rows| < HeaderRows && data == []
    {
      IndexStep(rows, i, pathname);
      var columns := rows[i];
      if |columns| >= MinColumns {
        data := data + [RowRecord(columns, pathname)];
      }
      i := i + 1;
    }
    assert rows[..|rows|] == rows;
  }
}

/** `compare_excel_columns` in Compare_contens_in_two_columns.py: the distinct non-missing
    values of one column in each of two spreadsheets, the values found in only one of
    them, and a report listing those values in sorted order with counts. Reading the
    workbooks is left to the caller: a sheet arrives as its row count and its columns,
    each cell already rendered by `astype(str)` or missing. */
module ColumnCompare {
  import opened PyText

  /** A column: one cell per row, `None` where pandas holds NaN / None. */
  type Column = seq<Option<string>>

  /** A DataFrame as read from a workbook: every column has one cell per row. */
  datatype Sheet = Sheet(rows: nat, columns: map<string, Column>)

  type Frame = t: Sheet | forall c :: c in t.columns ==> |t.columns[c]| == t.rows
    witness Sheet(0, map[])

  // ----- set(df[column_name].dropna().astype(str)) -----

  /** The distinct values of the cells that are not missing; never more than there are cells. */
  function Values(col: Column): (r: set<string>)
    ensures |r| <= |col|
  {
    if col == [] then {}
    else
      var rest := Values(col[..|col| - 1]);
      match col[|col| - 1]
      case None => rest
      case Some(v) => rest + {v}
  }

  /** A value is in the set exactly when some cell holds it. */
  lemma {:induction false} ValuesMembers(col: Column, x: string)
    ensures x in Values(col) <==> exists i :: 0 <= i < |col| && col[i] == Some(x)
  {
    if col != [] {
      var front := col[..|col| - 1];
      ValuesMembers(front, x);
      if exists i :: 0 <= i < |col| && col[i] == Some(x) {
        var i :| 0 <= i < |col| && col[i] == Some(x);
        if i < |col| - 1 {
          assert front[i] == Some(x);
        }
      }
      if exists i :: 0 <= i < |front| && front[i] == Some(x) {
        var i :| 0 <= i < |front| && front[i] == Some(x);
        assert col[i] == Some(x);
      }
    }
  }

  // ----- values1 - values2 and values2 - values1 -----

  /** The two one-sided differences are disjoint, and with the common values they make up
      every value seen; the values only in the first set and the common values together
      count as many as the first set. */
  lemma DifferencesPartition(v1: set<string>, v2: set<string>)
    ensures (v1 - v2) * (v2 - v1) == {}
    ensures (v1 - v2) + (v2 - v1) + (v1 * v2) == v1 + v2
    ensures |v1 - v2| + |v1 * v2| == |v1|
    ensures |v2 - v1| + |v1 * v2| == |v2|
  {
    assert v1 == (v1 - v2) + (v1 * v2);
    assert (v1 - v2) * (v1 * v2) == {};
    assert v2 == (v2 - v1) + (v1 * v2);
    assert (v2 - v1) * (v1 * v2) == {};
  }

  // ----- sorted(...) on a set of strings -----

  /** Each element comes before every later one under Python's `<` on strings. */
  predicate StrictlyAscending(r: seq<string>) {
    forall i, j :: 0 <= i < j < |r| ==> Below(r[i], r[j])
  }

  predicate IsLeast(m: string, s: set<string>) {
    m in s && forall y :: y in s ==> y == m || Below(m, y)
  }

  /** A non-empty set of strings has a least element. */
  lemma {:induction false} LeastExists(s: set<string>) returns (m: string)
    requires s != {}
    ensures IsLeast(m, s)
    decreases |s|
  {
    var x :| x in s;
    if s == {x} {
      m := x;
    } else {
      var rest := s - {x};
      var m' := LeastExists(rest);
      if Below(x, m') {
        m := x;
        forall y | y in s && y != x ensures Below(x, y) {
          if y != m' { BelowTransitive(x, m', y); }
        }
      } else {
        m := m';
        if x != m' { BelowTotal(x, m'); }
      }
    }
  }

  /** `sorted(s)`: the elements of `s`, each once, in ascending order. */
  method SortSet(s: set<string>) returns (r: seq<string>)
    ensures StrictlyAscending(r)
    ensures forall x :: x in r <==> x in s
    ensures |r| == |s|
  {
    r := [];
    var rest := s;
    while rest != {}
      invariant rest <= s
      invariant forall x :: x in r <==> x in s && x !in rest
      invariant StrictlyAscending(r)
      invariant forall i, y :: 0 <= i < |r| && y in rest ==> Below(r[i], y)
      invariant |r| + |rest| == |s|
      decreases |rest|
    {
      ghost var least := LeastExists(rest);
      var m :| m in rest && IsLeast(m, rest);
      assert rest == (rest - {m}) + {m};
      forall i, y | 0 <= i < |r| + 1 && y in rest - {m} ensures Below((r + [m])[i], y) {
        assert y in rest && y != m;
        if i == |r| {
          assert (r + [m])[i] == m;
          assert IsLeast(m, rest);
          assert y == m || Below(m, y);
        } else {
          assert (r + [m])[i] == r[i];
        }
      }
      r := r + [m];
      rest := rest - {m};
    }
  }

  /** Two ascending listings of the same strings are the same listing, so `SortSet`
      gives exactly what `sorted` gives. */
  lemma {:induction false} AscendingUnique(a: seq<string>, b: seq<string>)
    requires StrictlyAscending(a) && StrictlyAscending(b)
    requires forall x :: x in a <==> x in b
    ensures a == b
    decreases |a|
  {
    if a != [] {
      assert a[0] in b;
    }
    if b != [] {
      assert b[0] in a;
    }
    if a != [] && b != [] {
      assert a[0] == b[0] by {
        if a[0] != b[0] {
          assert a[0] in b && b[0] in a;
          var i :| 0 <= i < |b| && b[i] == a[0];
          var j :| 0 <= j < |a| && a[j] == b[0];
          assert Below(b[0], a[0]) by { assert 0 < i; }
          assert Below(a[0], b[0]) by { assert 0 < j; }
          BelowTransitive(a[0], b[0], a[0]);
          BelowIrreflexive(a[0]);
        }
      }
      forall x ensures x in a[1..] <==> x in b[1..] {
        if x in a[1..] {
          var i :| 1 <= i < |a| && a[i] == x;
          assert Below(a[0], x);
          BelowIrreflexive(x);
          assert x in b && x != b[0];
          var j :| 0 <= j < |b| && b[j] == x;
          assert x in b[1..] by { assert b[1..][j - 1] == x; }
        }
        if x in b[1..] {
          var j :| 1 <= j < |b| && b[j] == x;
          assert Below(b[0], x);
          BelowIrreflexive(x);
          assert x in a && x != a[0];
          var i :| 0 <= i < |a| && a[i] == x;
          assert x in a[1..] by { assert a[1..][i - 1] == x; }
        }
      }
      AscendingUnique(a[1..], b[1..]);
      assert a == [a[0]] + a[1..] && b == [b[0]] + b[1..];
    }
  }

  // ----- the report -----

  /** The `- item` lines of one listing. */
  function Items(listing: seq<string>): (r: seq<string>)
    ensures |r| == |listing|
  {
    seq(|listing|, i requires 0 <= i < |listing| => "- " + listing[i] + "\n")
  }

  lemma ItemsSnoc(listing: seq<string>, i: nat)
    requires i < |listing|
    ensures Items(listing[..i + 1]) == Items(listing[..i]) + ["- " + listing[i] + "\n"]
  {
    var a, b := Items(listing[..i + 1]), Items(listing[..i]) + ["- " + listing[i] + "\n"];
    assert |a| == |b|;
    forall k | 0 <= k < |a| ensures a[k] == b[k] {
      if k < i { assert listing[..i + 1][k] == listing[..i][k]; }
    }
  }

  /** A heading line followed by its listing. */
  function Section(heading: string, listing: seq<string>): seq<string> {
    [heading] + Items(listing)
  }

  function Summary(only1: nat, only2: nat, rows1: nat, rows2: nat): seq<string> {
    ["\n统计信息:\n",
     "文件1中独有内容数量: " + NatToString(only1) + "\n",
     "文件2中独有内容数量: " + NatToString(only2) + "\n",
     "文件1总行数: " + NatToString(rows1) + "\n",
     "文件2总行数: " + NatToString(rows2) + "\n"]
  }

  /** Every write of the report, in order. */
  function ReportChunks(path1: string, path2: string, listing1: seq<string>, listing2: seq<string>,
                        rows1: nat, rows2: nat): seq<string>
  {
    ["比对结果:\n\n"] +
    Section("仅在文件1 (" + path1 + ") 中出现的内容:\n", listing1) +
    Section("\n仅在文件2 (" + path2 + ") 中出现的内容:\n", listing2) +
    Summary(|listing1|, |listing2|, rows1, rows2)
  }

  /** Where each part of the report sits: the `i`-th line under the first heading is the
      `i`-th listed value; the line right after both listings starts the statistics; the
      two counts written there read back as the listing lengths. */
  lemma ReportLayout(path1: string, path2: string, listing1: seq<string>, listing2: seq<string>,
                     rows1: nat, rows2: nat)
    ensures var r := ReportChunks(path1, path2, listing1, listing2, rows1, rows2);
      var n1, n2 := |listing1|, |listing2|;
      |r| == n1 + n2 + 8 &&
      (forall i :: 0 <= i < n1 ==> r[2 + i] == "- " + listing1[i] + "\n") &&
      (forall i :: 0 <= i < n2 ==> r[3 + n1 + i] == "- " + listing2[i] + "\n") &&
      r[3 + n1 + n2] == "\n统计信息:\n" &&
      r[4 + n1 + n2] == "文件1中独有内容数量: " + NatToString(n1) + "\n" &&
      r[5 + n1 + n2] == "文件2中独有内容数量: " + NatToString(n2) + "\n" &&
      DigitsValue(NatToString(n1)) == n1 && DigitsValue(NatToString(n2)) == n2
  {
    NatToStringRoundTrip(|listing1|);
    NatToStringRoundTrip(|listing2|);
    var t := Summary(|listing1|, |listing2|, rows1, rows2);
    SectionsLayout("比对结果:\n\n", "仅在文件1 (" + path1 + ") 中出现的内容:\n", listing1,
                   "\n仅在文件2 (" + path2 + ") 中出现的内容:\n", listing2, t);
  }

  lemma SectionsLayout(title: string, h1: string, listing1: seq<string>, h2: string, listing2: seq<string>,
                       t: seq<string>)
    ensures var r := [title] + Section(h1, listing1) + Section(h2, listing2) + t;
      var n1, n2 := |listing1|, |listing2|;
      |r| == n1 + n2 + 3 + |t| &&
      (forall i :: 0 <= i < n1 ==> r[2 + i] == "- " + listing1[i] + "\n") &&
      (forall i :: 0 <= i < n2 ==> r[3 + n1 + i] == "- " + listing2[i] + "\n") &&
      r[3 + n1 + n2..] == t
  {
    var n1, n2 := |listing1|, |listing2|;
    var s1, s2 := Section(h1, listing1), Section(h2, listing2);
    var r := [title] + s1 + s2 + t;
    forall i | 0 <= i < n1 ensures r[2 + i] == "- " + listing1[i] + "\n" {
      assert r[2 + i] == s1[1 + i];
    }
    forall i | 0 <= i < n2 ensures r[3 + n1 + i] == "- " + listing2[i] + "\n" {
      assert r[3 + n1 + i] == s2[1 + i];
    }
    assert r == ([title] + s1 + s2) + t;
  }

  /** The heading and the `for item in sorted(...)` loop of one listing. */
  method WriteSection(f: TextFile, heading: string, listing: seq<string>)
    modifies f
    ensures f.contents == old(f.contents) + Concat(Section(heading, listing))
  {
    ghost var before := f.contents;
    f.Write(heading);
    WriteChunk(before, [], heading);
    assert [] + [heading] == [heading];
    for i := 0 to |listing|
      invariant f.contents == before + Concat([heading] + Items(listing[..i]))
    {
      var line := "- " + listing[i] + "\n";
      f.Write(line);
      WriteChunk(before, [heading] + Items(listing[..i]), line);
      ItemsSnoc(listing, i);
      assert [heading] + Items(listing[..i]) + [line] == [heading] + Items(listing[..i + 1]);
    }
    assert listing[..|listing|] == listing;
  }

  /** The statistics block: a heading and four counts. */
  method WriteSummary(f: TextFile, only1: nat, only2: nat, rows1: nat, rows2: nat)
    modifies f
    ensures f.contents == old(f.contents) + Concat(Summary(only1, only2, rows1, rows2))
  {
    ghost var before := f.contents;
    var heading := "\n统计信息:\n";
    var count1 := "文件1中独有内容数量: " + NatToString(only1) + "\n";
    var count2 := "文件2中独有内容数量: " + NatToString(only2) + "\n";
    var total1 := "文件1总行数: " + NatToString(rows1) + "\n";
    var total2 := "文件2总行数: " + NatToString(rows2) + "\n";
    f.Write(heading);
    f.Write(count1);
    f.Write(count2);
    f.Write(total1);
    f.Write(total2);
    WriteFive(before, heading, count1, count2, total1, total2);
  }

  lemma WriteFive(before: string, a: string, b: string, c: string, d: string, e: string)
    ensures before + a + b + c + d + e == before + Concat([a, b, c, d, e])
  {
    WriteChunk(before, [], a);
    assert [] + [a] == [a];
    WriteChunk(before, [a], b);
    assert [a] + [b] == [a, b];
    WriteChunk(before, [a, b], c);
    assert [a, b] + [c] == [a, b, c];
    WriteChunk(before, [a, b, c], d);
    assert [a, b, c] + [d] == [a, b, c, d];
    WriteChunk(before, [a, b, c, d], e);
    assert [a, b, c, d] + [e] == [a, b, c, d, e];
  }

  /** What the report file holds after the whole `with open(...)` block. */
  method WriteReport(f: TextFile, path1: string, path2: string, listing1: seq<string>,
                     listing2: seq<string>, rows1: nat, rows2: nat)
    modifies f
    ensures f.contents == old(f.contents) + Concat(ReportChunks(path1, path2, listing1, listing2, rows1, rows2))
  {
    ghost var before := f.contents;
    var title := "比对结果:\n\n";
    var heading1 := "仅在文件1 (" + path1 + ") 中出现的内容:\n";
    var heading2 := "\n仅在文件2 (" + path2 + ") 中出现的内容:\n";
    f.Write(title);
    WriteSection(f, heading1, listing1);
    WriteSection(f, heading2, listing2);
    WriteSummary(f, |listing1|, |listing2|, rows1, rows2);
    WriteFourGroups(before, title, Section(heading1, listing1), Section(heading2, listing2),
                    Summary(|listing1|, |listing2|, rows1, rows2));
  }

  lemma WriteFourGroups(before: string, title: string, s1: seq<string>, s2: seq<string>, t: seq<string>)
    ensures before + title + Concat(s1) + Concat(s2) + Concat(t) == before + Concat([title] + s1 + s2 + t)
  {
    WriteChunk(before, [], title);
    assert [] + [title] == [title];
    WriteGroup(before, [title], s1);
    WriteGroup(before, [title] + s1, s2);
    WriteGroup(before, [title] + s1 + s2, t);
  }

  // ----- compare_excel_columns -----

  /** Why the function raised. */
  datatype Failure =
    | MissingColumn(file: nat)   // KeyError from df1[column_name] (1) or df2[column_name] (2)
    | CannotWrite                // open(output_path, 'w') raised

  datatype Comparison = Comparison(only1: set<string>, only2: set<string>,
                                   listing1: seq<string>, listing2: seq<string>,
                                   reportPath: string, report: string)

  /** `compare_excel_columns(file1_path, file2_path, column_name, output_path)` on the two
      sheets already read; `writable` says whether the output file could be opened. */
  method CompareExcelColumns(df1: Frame, df2: Frame, path1: string, path2: string, column: string,
                             outputPath: string, writable: bool)
    returns (r: Result<Comparison, Failure>)
    ensures column !in df1.columns ==> r == Err(MissingColumn(1))
    ensures column in df1.columns && column !in df2.columns ==> r == Err(MissingColumn(2))
    ensures column in df1.columns && column in df2.columns && !writable ==> r == Err(CannotWrite)
    ensures column in df1.columns && column in df2.columns && writable ==> (r.Ok? &&
      var v1, v2 := Values(df1.columns[column]), Values(df2.columns[column]);
      var c := r.value;
      c.only1 == v1 - v2 && c.only2 == v2 - v1 &&
      StrictlyAscending(c.listing1) && (forall x :: x in c.listing1 <==> x in c.only1) &&
      StrictlyAscending(c.listing2) && (forall x :: x in c.listing2 <==> x in c.only2) &&
      |c.listing1| == |c.only1| && |c.listing2| == |c.only2| &&
      c.reportPath == outputPath &&
      c.report == Concat(ReportChunks(path1, path2, c.listing1, c.listing2, df1.rows, df2.rows)))
  {
    if column !in df1.columns {
      return Err(MissingColumn(1));
    }
    var values1 := Values(df1.columns[column]);
    if column !in df2.columns {
      return Err(MissingColumn(2));
    }
    var values2 := Values(df2.columns[column]);
    var onlyIn1 := values1 - values2;
    var onlyIn2 := values2 - values1;
    if !writable {
      return Err(CannotWrite);
    }
    var f := new TextFile.Open(outputPath);
    var listing1 := SortSet(onlyIn1);
    var listing2 := SortSet(onlyIn2);
    WriteReport(f, path1, path2, listing1, listing2, df1.rows, df2.rows);
    return Ok(Comparison(onlyIn1, onlyIn2, listing1, listing2, f.path, f.contents));
  }

  /** The counts reported for the one-sided differences never exceed the row counts
      reported beside them, missing cells included. */
  lemma CountsWithinRows(df1: Frame, df2: Frame, column: string)
    requires column in df1.columns && column in df2.columns
    ensures |Values(df1.columns[column]) - Values(df2.columns[column])| <= df1.rows
    ensures |Values(df2.columns[column]) - Values(df1.columns[column])| <= df2.rows
  {
    DifferencesPartition(Values(df1.columns[column]), Values(df2.columns[column]));
  }
}

/** `compare_sql_fields` in compare_SQL_generated.py: from a JSON document, keep the
    records marked fully accurate whose `SQL` and `generated` texts still differ once
    surrounding whitespace is stripped, and write a numbered report of them. Reading
    and parsing the JSON file, the clock that names the default report, and the
    file system are parameters. */
module SqlDifferences {
  import opened PyText

  /** A parsed JSON value, as `json.load` hands it to Python. */
  datatype Json =
    | JNull
    | JBool(b: bool)
    | JInt(i: int)
    | JFloat(f: real)
    | JString(s: string)
    | JArray(elems: seq<Json>)
    | JObject(fields: map<string, Json>)

  /** Why the function gave up and returned `(-1, None)`. */
  datatype Failure =
    | ReadFailed            // open / json.load raised
    | NotARecord            // item.get on a value that is not a dict
    | NotAString(key: string)  // .strip() on a value that is not a str
    | WriteFailed           // open(output_file, 'w') raised

  /** Python's `v == 1`: true for the integer 1, the float 1.0 and `True`. */
  predicate EqualsOne(v: Json)
    ensures EqualsOne(v) <==> v == JInt(1) || v == JFloat(1.0) || v == JBool(true)
  {
    match v
    case JInt(i) => i == 1
    case JFloat(f) => f == 1.0
    case JBool(b) => b
    case _ => false
  }

  /** The selection test: accuracy equal to 1, both texts present, and different once
      stripped of surrounding whitespace. */
  predicate Selected(m: map<string, Json>)
    ensures Selected(m) ==> "SQL" in m && "generated" in m && m["SQL"] != m["generated"]
    ensures Selected(m) ==> "accuracy" in m && !m["accuracy"].JString?
  {
    "accuracy" in m && EqualsOne(m["accuracy"]) &&
    "SQL" in m && "generated" in m &&
    m["SQL"].JString? && m["generated"].JString? &&
    Strip(m["SQL"].s) != Strip(m["generated"].s)
  }

  /** The `if` in the loop, evaluated left to right with Python's short-circuit `and`:
      `item.get` raises on anything but a dict, and `.strip()` raises on a text that is
      not a string, but only once the earlier conditions held. */
  function Check(item: Json): (r: Result<bool, Failure>)
    ensures r == Ok(true) <==> item.JObject? && Selected(item.fields)
    ensures r.Ok? ==> item.JObject?
    ensures r.Err? <==> (!item.JObject? ||
      (var m := item.fields;
       "accuracy" in m && EqualsOne(m["accuracy"]) && "SQL" in m && "generated" in m &&
       !(m["SQL"].JString? && m["generated"].JString?)))
  {
    if !item.JObject? then Err(NotARecord)
    else
      var m := item.fields;
      if !("accuracy" in m && EqualsOne(m["accuracy"])) then Ok(false)
      else if "SQL" !in m || "generated" !in m then Ok(false)
      else if !m["SQL"].JString? then Err(NotAString("SQL"))
      else if !m["generated"].JString? then Err(NotAString("generated"))
      else Ok(Strip(m["SQL"].s) != Strip(m["generated"].s))
  }

  /** Texts that differ only in surrounding whitespace never make a record selected. */
  lemma WhitespaceOnlyNotSelected(m: map<string, Json>, core: string, p1: string, q1: string, p2: string, q2: string)
    requires AllSpace(p1) && AllSpace(q1) && AllSpace(p2) && AllSpace(q2)
    requires "SQL" in m && m["SQL"] == JString(p1 + core + q1)
    requires "generated" in m && m["generated"] == JString(p2 + core + q2)
    ensures !Selected(m)
  {
    StripPadded(p1, core, q1);
    StripPadded(p2, core, q2);
  }

  /** One entry of `differences`. */
  datatype Difference = Difference(questionId: Json, question: Json, sql: Json, generated: Json)

  /** `item.get(key, default)` */
  function Get(m: map<string, Json>, key: string, default: Json): Json {
    if key in m then m[key] else default
  }

  /** The dict appended for a selected record: the two texts as they stand, not
      stripped, and "N/A" for a missing question id or question. */
  function Project(m: map<string, Json>): (d: Difference)
    ensures Selected(m) ==> d.sql == m["SQL"] && d.generated == m["generated"]
    ensures d.questionId == if "question_id" in m then m["question_id"] else JString("N/A")
    ensures d.question == if "question" in m then m["question"] else JString("N/A")
  {
    Difference(Get(m, "question_id", JString("N/A")), Get(m, "question", JString("N/A")),
               Get(m, "SQL", JString("")), Get(m, "generated", JString("")))
  }

  /** What the loop over `data` leaves in `differences`, or the first exception it hits. */
  function Scan(items: seq<Json>): (r: Result<seq<Difference>, Failure>)
    ensures r.Ok? ==> |r.value| <= |items|
  {
    if items == [] then Ok([])
    else
      var last := items[|items| - 1];
      match Scan(items[..|items| - 1])
      case Err(e) => Err(e)
      case Ok(ds) =>
        match Check(last)
        case Err(e) => Err(e)
        case Ok(keep) => Ok(if keep then ds + [Project(last.fields)] else ds)
  }

  /** Once the loop has raised, the rest of the records change nothing. */
  lemma {:induction false} ScanErrorStays(items: seq<Json>, i: nat)
    requires i <= |items| && Scan(items[..i]).Err?
    ensures Scan(items) == Scan(items[..i])
    decreases |items| - i
  {
    if i < |items| {
      assert items[..i + 1][..i] == items[..i];
      ScanErrorStays(items, i + 1);
    } else {
      assert items[..i] == items;
    }
  }

  /** The loop finishes exactly when no record makes the test raise. */
  lemma {:induction false} ScanOkIffNoneRaise(items: seq<Json>)
    ensures Scan(items).Ok? <==> forall i :: 0 <= i < |items| ==> Check(items[i]).Ok?
  {
    if items != [] {
      var front, last := items[..|items| - 1], items[|items| - 1];
      ScanOkIffNoneRaise(front);
      ScanStepOk(items);
      if Scan(items).Ok? {
        forall i | 0 <= i < |items| ensures Check(items[i]).Ok? {
          if i < |front| { assert front[i] == items[i]; }
        }
      } else if Scan(front).Ok? {
        assert !Check(items[|items| - 1]).Ok?;
      } else {
        var i :| 0 <= i < |front| && !Check(front[i]).Ok?;
        assert front[i] == items[i];
      }
    }
  }

  lemma ScanStepOk(items: seq<Json>)
    requires items != []
    ensures Scan(items).Ok? <==> Scan(items[..|items| - 1]).Ok? && Check(items[|items| - 1]).Ok?
  {
  }

  /** The reference definition: the selected records, in input order. */
  function Kept(items: seq<Json>): (r: seq<Json>)
    ensures |r| <= |items|
  {
    if items == [] then [] else Pick(items[0]) + Kept(items[1..])
  }

  /** One record as the filter sees it: itself when selected, nothing otherwise. */
  function Pick(x: Json): (r: seq<Json>)
    ensures r == [x] <==> x.JObject? && Selected(x.fields)
    ensures r == [] <==> !(x.JObject? && Selected(x.fields))
  {
    if x.JObject? && Selected(x.fields) then [x] else []
  }

  lemma {:induction false} KeptSnoc(items: seq<Json>, x: Json)
    ensures Kept(items + [x]) == Kept(items) + Pick(x)
  {
    if items != [] {
      var s, rest := items + [x], Kept(items[1..]);
      SnocTail(items, x);
      KeptSnoc(items[1..], x);
      assert Kept(s) == Pick(items[0]) + (rest + Pick(x));
      AppendAssociative(Pick(items[0]), rest, Pick(x));
    } else {
      assert [x][1..] == [];
    }
  }

  lemma SnocTail<T>(a: seq<T>, x: T)
    requires a != []
    ensures (a + [x])[0] == a[0] && (a + [x])[1..] == a[1..] + [x]
  {
  }

  /** A record is kept exactly when it occurs in the input and passes the test. */
  lemma {:induction false} KeptMembers(items: seq<Json>, x: Json)
    ensures x in Kept(items) <==> x in items && x.JObject? && Selected(x.fields)
  {
    if items != [] {
      var y, rest := items[0], items[1..];
      KeptMembers(rest, x);
      assert x in items <==> x == y || x in rest by {
        assert items == [y] + rest;
      }
      assert x in Kept(items) <==> x in Pick(y) || x in Kept(rest);
    }
  }

  function ProjectAll(rs: seq<Json>): (ds: seq<Difference>)
    requires forall k :: 0 <= k < |rs| ==> rs[k].JObject?
    ensures |ds| == |rs|
  {
    seq(|rs|, k requires 0 <= k < |rs| => Project(rs[k].fields))
  }

  lemma {:induction false} KeptAreRecords(items: seq<Json>)
    ensures forall k :: 0 <= k < |Kept(items)| ==> Kept(items)[k].JObject? && Selected(Kept(items)[k].fields)
  {
    if items != [] {
      KeptAreRecords(items[1..]);
    }
  }

  /** When the loop finishes, `differences` is the projection of the selected records,
      one per record and in input order. */
  lemma {:induction false} ScanIsProjectedFilter(items: seq<Json>)
    requires Scan(items).Ok?
    ensures KeptAreRecordsHold(items) && Scan(items).value == ProjectAll(Kept(items))
  {
    KeptAreRecords(items);
    if items != [] {
      var front, last := items[..|items| - 1], items[|items| - 1];
      assert items == front + [last];
      ScanIsProjectedFilter(front);
      KeptSnoc(front, last);
      KeptAreRecords(front);
      ProjectAllAppend(Kept(front), Pick(last));
      assert ProjectAll(Pick(last)) == if Check(last) == Ok(true) then [Project(last.fields)] else [];
    }
  }

  lemma ProjectAllAppend(a: seq<Json>, b: seq<Json>)
    requires forall k :: 0 <= k < |a| ==> a[k].JObject?
    requires forall k :: 0 <= k < |b| ==> b[k].JObject?
    ensures ProjectAll(a + b) == ProjectAll(a) + ProjectAll(b)
  {
    assert forall k :: 0 <= k < |a + b| ==> (a + b)[k] == if k < |a| then a[k] else b[k - |a|];
  }

  predicate KeptAreRecordsHold(items: seq<Json>) {
    forall k :: 0 <= k < |Kept(items)| ==> Kept(items)[k].JObject?
  }

  /** The first loop: `differences.append(...)` for every record that passes the test. */
  method SelectDifferences(items: seq<Json>) returns (r: Result<seq<Difference>, Failure>)
    ensures r == Scan(items)
  {
    var differences: seq<Difference> := [];
    for i := 0 to |items|
      invariant Scan(items[..i]) == Ok(differences)
    {
      var item := items[i];
      assert items[..i + 1][..i] == items[..i];
      var c := Check(item);
      if c.Err? {
        ScanErrorStays(items, i + 1);
        return Err(c.error);
      }
      if c.value {
        differences := differences + [Project(item.fields)];
      }
    }
    assert items[..|items|] == items;
    return Ok(differences);
  }

  // ----- the report -----

  /** `str(v)` for the values written into the report; for floats, lists and dicts the
      text is Python's own rendering, which is a parameter here. */
  function Show(v: Json, repr: Json -> string): (r: string)
    ensures v.JString? ==> r == v.s
    ensures v.JInt? ==> r == IntToString(v.i)
  {
    match v
    case JString(s) => s
    case JInt(i) => IntToString(i)
    case JNull => "None"
    case JBool(b) => if b then "True" else "False"
    case _ => repr(v)
  }

  function Header(n: nat): (h: seq<string>)
    ensures |h| == 2
  {
    ["发现 " + NatToString(n) + " 条不一致记录\n", Repeat('=', 80) + "\n\n"]
  }

  /** The six writes for the entry numbered `k`. */
  function EntryChunks(k: nat, d: Difference, repr: Json -> string): seq<string> {
    ["记录 " + NatToString(k) + ":\n",
     "问题ID: " + Show(d.questionId, repr) + "\n",
     "问题: " + Show(d.question, repr) + "\n",
     "原始SQL:\n" + Show(d.sql, repr) + "\n",
     "生成SQL:\n" + Show(d.generated, repr) + "\n",
     Repeat('-', 80) + "\n\n"]
  }

  /** The writes of `for i, diff in enumerate(differences, 1)`. */
  function Entries(ds: seq<Difference>, repr: Json -> string): (r: seq<string>)
    ensures |r| == 6 * |ds|
  {
    if ds == [] then [] else Entries(ds[..|ds| - 1], repr) + EntryChunks(|ds|, ds[|ds| - 1], repr)
  }

  /** Everything written to the report file, write by write. */
  function ReportChunks(ds: seq<Difference>, repr: Json -> string): seq<string> {
    Header(|ds|) + Entries(ds, repr)
  }

  /** The `k`-th entry (from 0) occupies writes `6k` to `6k + 5` and is numbered `k + 1`. */
  lemma {:induction false} EntryAt(ds: seq<Difference>, repr: Json -> string, k: nat)
    requires k < |ds|
    ensures Entries(ds, repr)[6 * k..6 * k + 6] == EntryChunks(k + 1, ds[k], repr)
  {
    var front := ds[..|ds| - 1];
    if k < |ds| - 1 {
      EntryAt(front, repr, k);
      assert front[k] == ds[k];
      SliceOfFront(Entries(front, repr), EntryChunks(|ds|, ds[|ds| - 1], repr), 6 * k, 6 * k + 6);
    } else {
      LastEntry(ds, repr);
    }
  }

  lemma LastEntry(ds: seq<Difference>, repr: Json -> string)
    requires ds != []
    ensures Entries(ds, repr)[6 * (|ds| - 1)..6 * |ds|] == EntryChunks(|ds|, ds[|ds| - 1], repr)
  {
    var a, b := Entries(ds[..|ds| - 1], repr), EntryChunks(|ds|, ds[|ds| - 1], repr);
    assert Entries(ds, repr) == a + b;
    assert |a| == 6 * (|ds| - 1) && |b| == 6;
    SliceOfBack(a, b);
    assert Entries(ds, repr)[6 * (|ds| - 1)..6 * |ds|] == (a + b)[|a|..|a| + |b|];
  }

  lemma SliceOfFront<T>(a: seq<T>, b: seq<T>, lo: nat, hi: nat)
    requires lo <= hi <= |a|
    ensures (a + b)[lo..hi] == a[lo..hi]
  {
  }

  lemma SliceOfBack<T>(a: seq<T>, b: seq<T>)
    ensures (a + b)[|a|..|a| + |b|] == b
  {
  }

  lemma SliceOfBackPart<T>(a: seq<T>, b: seq<T>, lo: nat, hi: nat, c: seq<T>)
    requires lo <= hi <= |b| && b[lo..hi] == c
    ensures (a + b)[|a| + lo..|a| + hi] == c
  {
  }

  /** The report opens by stating how many entries follow, then an 80-character rule,
      and holds six writes per entry; with no entries it is just those two lines. */
  lemma ReportHeader(ds: seq<Difference>, repr: Json -> string)
    ensures var r := ReportChunks(ds, repr);
      |r| == 2 + 6 * |ds| &&
      r[0] == "发现 " + NatToString(|ds|) + " 条不一致记录\n" &&
      DigitsValue(NatToString(|ds|)) == |ds| &&
      r[1] == Repeat('=', 80) + "\n\n"
  {
    NatToStringRoundTrip(|ds|);
  }

  /** Entry `k` (from 0) fills writes `2 + 6k` to `7 + 6k` with the fields of `ds[k]`,
      and the number written before it is `k + 1`: the numbers run 1, 2, ... up to the
      count stated in the header. */
  lemma ReportNumbering(ds: seq<Difference>, repr: Json -> string)
    ensures forall k :: 0 <= k < |ds| ==>
      ReportChunks(ds, repr)[2 + 6 * k..8 + 6 * k] == EntryChunks(k + 1, ds[k], repr) &&
      ReportChunks(ds, repr)[2 + 6 * k] == "记录 " + NatToString(k + 1) + ":\n" &&
      DigitsValue(NatToString(k + 1)) == k + 1
  {
    forall k | 0 <= k < |ds|
      ensures ReportChunks(ds, repr)[2 + 6 * k..8 + 6 * k] == EntryChunks(k + 1, ds[k], repr)
      ensures ReportChunks(ds, repr)[2 + 6 * k] == "记录 " + NatToString(k + 1) + ":\n"
      ensures DigitsValue(NatToString(k + 1)) == k + 1
    {
      ReportEntry(ds, repr, k);
      EntryHeading(ds, repr, k);
      NatToStringRoundTrip(k + 1);
    }
  }

  lemma ReportEntry(ds: seq<Difference>, repr: Json -> string, k: nat)
    requires k < |ds|
    ensures ReportChunks(ds, repr)[2 + 6 * k..8 + 6 * k] == EntryChunks(k + 1, ds[k], repr)
  {
    var h, e := Header(|ds|), Entries(ds, repr);
    assert ReportChunks(ds, repr) == h + e;
    EntryAt(ds, repr, k);
    SliceOfBackPart(h, e, 6 * k, 6 * k + 6, EntryChunks(k + 1, ds[k], repr));
  }

  lemma EntryHeading(ds: seq<Difference>, repr: Json -> string, k: nat)
    requires k < |ds|
    ensures ReportChunks(ds, repr)[2 + 6 * k] == "记录 " + NatToString(k + 1) + ":\n"
  {
    var c := EntryChunks(k + 1, ds[k], repr);
    ReportEntry(ds, repr, k);
    assert ReportChunks(ds, repr)[2 + 6 * k] == ReportChunks(ds, repr)[2 + 6 * k..8 + 6 * k][0];
  }

  /** The second loop: the header, then six writes per entry. */
  method WriteReport(f: TextFile, ds: seq<Difference>, repr: Json -> string)
    modifies f
    ensures f.contents == old(f.contents) + Concat(ReportChunks(ds, repr))
  {
    ghost var before := f.contents;
    var count := "发现 " + NatToString(|ds|) + " 条不一致记录\n";
    var rule := Repeat('=', 80) + "\n\n";
    f.Write(count);
    f.Write(rule);
    WriteTwo(before, count, rule);
    for i := 0 to |ds|
      invariant f.contents == before + Concat(Header(|ds|) + Entries(ds[..i], repr))
    {
      WriteEntry(f, i + 1, ds[i], repr);
      NextEntry(before, Header(|ds|), ds, i, repr);
    }
    assert ds[..|ds|] == ds;
  }

  /** The six writes of one entry. */
  method WriteEntry(f: TextFile, k: nat, d: Difference, repr: Json -> string)
    modifies f
    ensures f.contents == old(f.contents) + Concat(EntryChunks(k, d, repr))
  {
    ghost var before := f.contents;
    var heading := "记录 " + NatToString(k) + ":\n";
    var id := "问题ID: " + Show(d.questionId, repr) + "\n";
    var question := "问题: " + Show(d.question, repr) + "\n";
    var sql := "原始SQL:\n" + Show(d.sql, repr) + "\n";
    var generated := "生成SQL:\n" + Show(d.generated, repr) + "\n";
    var rule := Repeat('-', 80) + "\n\n";
    f.Write(heading);
    f.Write(id);
    f.Write(question);
    f.Write(sql);
    f.Write(generated);
    f.Write(rule);
    WriteSix(before, heading, id, question, sql, generated, rule);
  }

  lemma WriteTwo(before: string, a: string, b: string)
    ensures before + a + b == before + Concat([a, b])
  {
    WriteChunk(before, [], a);
    assert [] + [a] == [a];
    WriteChunk(before, [a], b);
    assert [a] + [b] == [a, b];
  }

  /** Entry `i + 1` written after the first `i` entries. */
  lemma NextEntry(before: string, h: seq<string>, ds: seq<Difference>, i: nat, repr: Json -> string)
    requires i < |ds|
    ensures before + Concat(h + Entries(ds[..i], repr)) + Concat(EntryChunks(i + 1, ds[i], repr))
         == before + Concat(h + Entries(ds[..i + 1], repr))
  {
    var e, c := Entries(ds[..i], repr), EntryChunks(i + 1, ds[i], repr);
    EntriesSnoc(ds, i, repr);
    assert h + (e + c) == (h + e) + c;
    WriteGroup(before, h + e, c);
  }

  lemma EntriesSnoc(ds: seq<Difference>, i: nat, repr: Json -> string)
    requires i < |ds|
    ensures Entries(ds[..i + 1], repr) == Entries(ds[..i], repr) + EntryChunks(i + 1, ds[i], repr)
  {
    var t := ds[..i + 1];
    assert t[..|t| - 1] == ds[..i] && t[|t| - 1] == ds[i];
  }

  lemma WriteSix(before: string, a: string, b: string, c: string, d: string, e: string, g: string)
    ensures before + a + b + c + d + e + g == before + Concat([a, b, c, d, e, g])
  {
    WriteTwo(before, a, b);
    WriteChunk(before, [a, b], c);
    assert [a, b] + [c] == [a, b, c];
    WriteChunk(before, [a, b, c], d);
    assert [a, b, c] + [d] == [a, b, c, d];
    WriteChunk(before, [a, b, c, d], e);
    assert [a, b, c, d] + [e] == [a, b, c, d, e];
    WriteChunk(before, [a, b, c, d, e], g);
    assert [a, b, c, d, e] + [g] == [a, b, c, d, e, g];
  }

  // ----- compare_sql_fields -----

  /** `f'sql_differences_{timestamp}.txt'`, the name used when no output file is given. */
  function DefaultReportName(timestamp: string): (r: string)
    ensures |r| == |timestamp| + 20
    ensures r[..16] == "sql_differences_" && r[16..|r| - 4] == timestamp && r[|r| - 4..] == ".txt"
  {
    "sql_differences_" + timestamp + ".txt"
  }

  /** `data` after `if not isinstance(data, list): data = [data]`. */
  function Records(data: Json): (rs: seq<Json>)
    ensures data.JArray? ==> rs == data.elems
    ensures !data.JArray? ==> rs == [data]
  {
    if data.JArray? then data.elems else [data]
  }

  /** `compare_sql_fields(input_file, output_file)`. `document` is what `json.load` gave,
      or None when reading or parsing raised; `writable` says whether the report file
      could be opened; `timestamp` is the formatted clock reading. Returns the count and
      path, `(-1, None)` on any failure, and the text written to the report. */
  method CompareSqlFields(document: Option<Json>, outputFile: Option<string>, timestamp: string,
                          writable: bool, repr: Json -> string)
    returns (count: int, written: Option<string>, report: string)
    ensures count == -1 <==> written == None
    ensures written == None ==> report == []
    ensures document.None? ==> count == -1
    ensures document.Some? && Scan(Records(document.value)).Err? ==> count == -1
    ensures !writable ==> count == -1
    ensures document.Some? && Scan(Records(document.value)).Ok? && writable ==>
      var ds := Scan(Records(document.value)).value;
      count == |ds| &&
      written == Some(if outputFile.Some? then outputFile.value else DefaultReportName(timestamp)) &&
      report == Concat(ReportChunks(ds, repr))
  {
    var path := if outputFile.Some? then outputFile.value else DefaultReportName(timestamp);
    count, written, report := -1, None, [];
    if document.None? {
      return;
    }
    var data := document.value;
    if !data.JArray? {
      data := JArray([data]);
    }
    var differences := SelectDifferences(data.elems);
    if differences.Err? || !writable {
      return;
    }
    var f := new TextFile.Open(path);
    WriteReport(f, differences.value, repr);
    count, written, report := |differences.value|, Some(f.path), f.contents;
  }
}

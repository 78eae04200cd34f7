/** `BulkExporter`: exporting many issues one after another (the source
    runs them concurrently and collects the results in input order), the
    split of the results into successes and failures, and the index.md
    summary table. A single export is reduced to its outcome, given as a
    parameter; the date is a parameter too.
 */
module Bulk {
  import opened Wrappers
  import opened Text
  import opened Json
  import opened Links
  import opened Seqs

  // ---------------------------------------------------------------------
  // The output directory.

  /** A directory: a root and the names below it. */
  datatype Dir = Dir(root: string, below: seq<string>)

  /** The output directory: the given one when it is non-empty, else the
      working directory, with the batch name below it when that is
      non-empty. */
  function OutputDir(outputDir: Option<string>, batchName: Option<string>, cwd: string): (r: Dir)
    ensures r.root == (if outputDir.Some? && outputDir.value != "" then outputDir.value else cwd)
    ensures r.below == (if batchName.Some? && batchName.value != "" then [batchName.value] else [])
  {
    var root := if outputDir.Some? && outputDir.value != "" then outputDir.value else cwd;
    if batchName.Some? && batchName.value != "" then Dir(root, [batchName.value]) else Dir(root, [])
  }

  /** Each issue gets a directory named after its key below the output
      directory. */
  function IssueDir(d: Dir, key: string): (r: Dir)
    ensures r.root == d.root && |r.below| == |d.below| + 1
    ensures r.below[..|d.below|] == d.below && r.below[|d.below|..] == [key]
  {
    DropPrefix(d.below, [key]);
    Dir(d.root, d.below + [key])
  }

  // ---------------------------------------------------------------------
  // Exporting.

  /** The exceptions a single export can end with: the project's own
      not-found, authentication and other errors, and anything else. */
  datatype ErrorKind = NotFound | Authentication | OtherProjectError | Unexpected

  /** How a single export ended: written to a directory, or raised. */
  datatype Outcome = Exported(dir: Dir) | Raised(kind: ErrorKind, message: string)

  /** `ExportResult`. */
  datatype ExportResult = ExportResult(key: string, success: bool, outputPath: Option<Dir>, error: Option<string>)

  /** What `_export_one` does with an outcome: a result, or an exception
      that escapes it. */
  datatype Attempt = Returned(result: ExportResult) | Escaped(message: string)

  /** `_export_one`: a written issue is a success with its directory; any
      of the project's own errors, not-found and authentication included,
      becomes a failure carrying the key and the message; anything else
      escapes. */
  function ExportOne(key: string, o: Outcome): (r: Attempt)
    ensures o.Exported? ==> r == Returned(ExportResult(key, true, Some(o.dir), None))
    ensures o.Raised? && o.kind != Unexpected ==> r == Returned(ExportResult(key, false, None, Some(o.message)))
    ensures r.Escaped? <==> o.Raised? && o.kind == Unexpected
  {
    match o
    case Exported(dir) => Returned(ExportResult(key, true, Some(dir), None))
    case Raised(kind, message) =>
      if kind == Unexpected then Escaped(message)
      else Returned(ExportResult(key, false, None, Some(message)))
  }

  /** What `export_bulk` makes of an attempt: an escaped exception becomes a
      failure for the key it was exporting. */
  function Settle(key: string, a: Attempt): ExportResult {
    match a
    case Returned(r) => r
    case Escaped(message) => ExportResult(key, false, None, Some(message))
  }

  /** The result of exporting one key: it carries the key, succeeds
      exactly when the issue was written, and a failure carries the
      exception's message whatever its kind. */
  lemma ResultOfKey(key: string, o: Outcome)
    ensures Settle(key, ExportOne(key, o)).key == key
    ensures Settle(key, ExportOne(key, o)).success <==> o.Exported?
    ensures o.Raised? ==> Settle(key, ExportOne(key, o)) == ExportResult(key, false, None, Some(o.message))
  {
  }

  /** The result of every key, in input order. */
  function Results(keys: seq<string>, run: string -> Outcome): (r: seq<ExportResult>)
    ensures |r| == |keys|
    ensures forall i :: 0 <= i < |keys| ==> r[i] == Settle(keys[i], ExportOne(keys[i], run(keys[i])))
  {
    seq(|keys|, i requires 0 <= i < |keys| => Settle(keys[i], ExportOne(keys[i], run(keys[i]))))
  }

  /** The results whose `success` is `b`, in order. */
  function Kept(rs: seq<ExportResult>, b: bool): (r: seq<ExportResult>)
    ensures |r| <= |rs|
    decreases |rs|
  {
    if |rs| == 0 then []
    else
      var init := rs[..|rs| - 1];
      var last := rs[|rs| - 1];
      Kept(init, b) + (if last.success == b then [last] else [])
  }

  lemma KeptSnoc(rs: seq<ExportResult>, x: ExportResult, b: bool)
    ensures Kept(rs + [x], b) == Kept(rs, b) + (if x.success == b then [x] else [])
  {
    assert (rs + [x])[..|rs|] == rs;
  }

  function KeysOf(rs: seq<ExportResult>): (r: seq<string>)
    ensures |r| == |rs|
    ensures forall i :: 0 <= i < |rs| ==> r[i] == rs[i].key
  {
    seq(|rs|, i requires 0 <= i < |rs| => rs[i].key)
  }

  lemma KeysOfSnoc(rs: seq<ExportResult>, x: ExportResult)
    ensures KeysOf(rs + [x]) == KeysOf(rs) + [x.key]
  {
  }

  /** Between them the successes and the failures hold every result once:
      their keys together are the keys of all results. */
  lemma {:induction false} KeptSplitsKeys(rs: seq<ExportResult>)
    ensures multiset(KeysOf(Kept(rs, true))) + multiset(KeysOf(Kept(rs, false))) == multiset(KeysOf(rs))
    decreases |rs|
  {
    if |rs| > 0 {
      var init := rs[..|rs| - 1];
      var last := rs[|rs| - 1];
      KeptSplitsKeys(init);
      assert rs == init + [last];
      KeptSnoc(init, last, last.success);
      KeptSnoc(init, last, !last.success);
      KeysOfSnoc(init, last);
      assert multiset(KeysOf(rs)) == multiset(KeysOf(init)) + multiset{last.key};
      if last.success {
        assert Kept(rs, true) == Kept(init, true) + [last];
        assert Kept(rs, false) == Kept(init, false);
        KeysOfSnoc(Kept(init, true), last);
      } else {
        assert Kept(rs, true) == Kept(init, true);
        assert Kept(rs, false) == Kept(init, false) + [last];
        KeysOfSnoc(Kept(init, false), last);
      }
    }
  }

  /** The successes and the failures together are as many as the
      results. */
  lemma {:induction false} KeptCounts(rs: seq<ExportResult>)
    ensures |Kept(rs, true)| + |Kept(rs, false)| == |rs|
    decreases |rs|
  {
    if |rs| > 0 {
      var init := rs[..|rs| - 1];
      var last := rs[|rs| - 1];
      KeptCounts(init);
      assert rs == init + [last];
      KeptSnoc(init, last, true);
      KeptSnoc(init, last, false);
    }
  }

  /** Every kept result is one of the results and has the flag asked for. */
  lemma {:induction false} KeptHasFlag(rs: seq<ExportResult>, b: bool)
    ensures forall x :: x in Kept(rs, b) ==> x in rs && x.success == b
    decreases |rs|
  {
    if |rs| > 0 {
      var init := rs[..|rs| - 1];
      var last := rs[|rs| - 1];
      KeptHasFlag(init, b);
      assert rs == init + [last];
      KeptSnoc(init, last, b);
    }
  }

  /** `export_bulk`, run one key after another: every key gets one result,
      the successes and the failures each keep the input order, and they
      add up to the number of keys. */
  method ExportBulk(keys: seq<string>, run: string -> Outcome) returns (successes: seq<ExportResult>, failures: seq<ExportResult>)
    ensures successes == Kept(Results(keys, run), true)
    ensures failures == Kept(Results(keys, run), false)
    ensures |successes| + |failures| == |keys|
    ensures forall x :: x in successes ==> x.success
    ensures forall x :: x in failures ==> !x.success
    ensures multiset(KeysOf(successes)) + multiset(KeysOf(failures)) == multiset(keys)
  {
    var results := Results(keys, run);
    successes, failures := [], [];
    var i := 0;
    while i < |results|
      invariant 0 <= i <= |results|
      invariant successes == Kept(results[..i], true)
      invariant failures == Kept(results[..i], false)
    {
      var result := results[i];
      KeptStep(results, i);
      if result.success {
        successes := successes + [result];
      } else {
        failures := failures + [result];
      }
      i := i + 1;
    }
    AllKept(keys, run);
    KeptHasFlag(results, true);
    KeptHasFlag(results, false);
  }

  lemma KeptStep(rs: seq<ExportResult>, i: nat)
    requires i < |rs|
    ensures Kept(rs[..i + 1], true) == Kept(rs[..i], true) + (if rs[i].success then [rs[i]] else [])
    ensures Kept(rs[..i + 1], false) == Kept(rs[..i], false) + (if rs[i].success then [] else [rs[i]])
  {
    assert rs[..i + 1] == rs[..i] + [rs[i]];
    KeptSnoc(rs[..i], rs[i], true);
    KeptSnoc(rs[..i], rs[i], false);
  }

  lemma AllKept(keys: seq<string>, run: string -> Outcome)
    ensures Results(keys, run)[..|keys|] == Results(keys, run)
    ensures |Kept(Results(keys, run), true)| + |Kept(Results(keys, run), false)| == |keys|
    ensures multiset(KeysOf(Kept(Results(keys, run), true))) + multiset(KeysOf(Kept(Results(keys, run), false))) == multiset(keys)
  {
    var results := Results(keys, run);
    KeptSplitsKeys(results);
    KeptCounts(results);
    forall i | 0 <= i < |keys| ensures KeysOf(results)[i] == keys[i] {
      ResultOfKey(keys[i], run(keys[i]));
    }
    assert KeysOf(results) == keys;
  }

  // ---------------------------------------------------------------------
  // Sorting by key.

  /** Python's `<=` on strings: code point by code point, a prefix first. */
  predicate KeyLe(a: string, b: string)
    decreases |a|
  {
    a == [] || (b != [] && (a[0] < b[0] || (a[0] == b[0] && KeyLe(a[1..], b[1..]))))
  }

  /** Any two keys are ordered one way or the other. */
  lemma {:induction false} KeyLeTotal(a: string, b: string)
    ensures KeyLe(a, b) || KeyLe(b, a)
    decreases |a|
  {
    if a != [] && b != [] && a[0] == b[0] {
      KeyLeTotal(a[1..], b[1..]);
    }
  }

  predicate SortedByKey(rs: seq<ExportResult>) {
    forall i :: 0 < i < |rs| ==> KeyLe(rs[i - 1].key, rs[i].key)
  }

  /** `x` placed after the leading results whose key is not above its own. */
  function Insert(x: ExportResult, s: seq<ExportResult>): (r: seq<ExportResult>)
    ensures |r| == |s| + 1
    ensures multiset(r) == multiset(s) + multiset{x}
    ensures |s| > 0 ==> r[0] == s[0] || r[0] == x
    decreases |s|
  {
    if |s| == 0 then [x]
    else if KeyLe(s[0].key, x.key) then
      var rest := Insert(x, s[1..]);
      assert s == [s[0]] + s[1..];
      [s[0]] + rest
    else [x] + s
  }

  lemma {:induction false} InsertSorted(x: ExportResult, s: seq<ExportResult>)
    requires SortedByKey(s)
    ensures SortedByKey(Insert(x, s))
    decreases |s|
  {
    if |s| > 0 {
      if KeyLe(s[0].key, x.key) {
        var tail := s[1..];
        assert SortedByKey(tail) by {
          forall i | 0 < i < |tail| ensures KeyLe(tail[i - 1].key, tail[i].key) {
            assert tail[i - 1] == s[i] && tail[i] == s[i + 1];
          }
        }
        InsertSorted(x, tail);
        var rest := Insert(x, tail);
        var r := [s[0]] + rest;
        forall i | 0 < i < |r| ensures KeyLe(r[i - 1].key, r[i].key) {
          if i > 1 {
            assert r[i - 1] == rest[i - 2] && r[i] == rest[i - 1];
          } else if |tail| > 0 && rest[0] == tail[0] {
            assert tail[0] == s[1];
          }
        }
      } else {
        KeyLeTotal(s[0].key, x.key);
        var r := [x] + s;
        forall i | 1 < i < |r| ensures KeyLe(r[i - 1].key, r[i].key) {
          assert r[i - 1] == s[i - 2] && r[i] == s[i - 1];
        }
      }
    }
  }

  /** `sorted(results, key=lambda r: r.issue_key)`: each result inserted
      in turn after those with a key not above its own. */
  function SortByKey(rs: seq<ExportResult>): (r: seq<ExportResult>)
    ensures |r| == |rs| && multiset(r) == multiset(rs)
    decreases |rs|
  {
    if |rs| == 0 then []
    else
      var init := rs[..|rs| - 1];
      assert rs == init + [rs[|rs| - 1]];
      Insert(rs[|rs| - 1], SortByKey(init))
  }

  /** The sorted results are in key order. */
  lemma {:induction false} SortByKeySorted(rs: seq<ExportResult>)
    ensures SortedByKey(SortByKey(rs))
    decreases |rs|
  {
    if |rs| > 0 {
      SortByKeySorted(rs[..|rs| - 1]);
      InsertSorted(rs[|rs| - 1], SortByKey(rs[..|rs| - 1]));
    }
  }

  // ---------------------------------------------------------------------
  // The index.

  const Tick := "✓"
  const Cross := "✗"

  /** The key cell: a link to the issue's Markdown file for a success, a
      dead link for a failure. */
  function KeyTarget(r: ExportResult): string {
    if r.success then r.key + "/" + r.key + ".md" else "#"
  }

  function KeyLink(r: ExportResult): string {
    Show(Link(r.key, KeyTarget(r)))
  }

  /** The key cell reads back as one link whose text is the key and whose
      target is the issue's file or "#". */
  lemma KeyLinkReadsBack(r: ExportResult)
    requires ']' !in r.key && ')' !in r.key
    ensures Tokenize(KeyLink(r)) == [Link(r.key, KeyTarget(r))]
    ensures r.success ==> KeyTarget(r) == r.key + "/" + r.key + ".md"
    ensures !r.success ==> KeyTarget(r) == "#"
  {
    var g := Link(r.key, KeyTarget(r));
    assert ')' !in KeyTarget(r);
    TokenizeShow(g, "");
    EmptyRight(Show(g), "");
    EmptyRight([g], Tokenize(""));
  }

  /** The result cell: a tick, or a cross and the error, "Unknown error"
      when there is none. */
  function ResultCell(r: ExportResult): (c: string)
    ensures r.success ==> c == Tick
    ensures !r.success ==> StartsWith(c, Cross + " ") && |c| > 2
    ensures !r.success && r.error.Some? && r.error.value != "" ==> c[2..] == r.error.value
    ensures !r.success && (r.error.None? || r.error.value == "") ==> c[2..] == "Unknown error"
  {
    if r.success then Tick
    else
      var e := if r.error.Some? && r.error.value != "" then r.error.value else "Unknown error";
      DropPrefix(Cross + " ", e);
      Cross + " " + e
  }

  /** The lookups in an issue's "fields" can all be made: it is a dict,
      and so are a truthy status, issue type and assignee. */
  predicate FieldsRead(fields: JValue) {
    && fields.JObj?
    && Or(Field(fields, "status", JNull), JObj([])).JObj?
    && Or(Field(fields, "issuetype", JNull), JObj([])).JObj?
    && (Truthy(Field(fields, "assignee", JNull)) ==> Field(fields, "assignee", JNull).JObj?)
  }

  /** The lookups of a row can all be made: the issue data and the issue
      are dicts, and so is what its "fields" needs. */
  predicate CellsRead(key: string, data: JValue) {
    && data.JObj?
    && Field(data, key, JObj([])).JObj?
    && FieldsRead(Field(Field(data, key, JObj([])), "fields", JObj([])))
  }

  /** Summary, status, type and assignee: the summary when truthy, the
      status's and type's "name", the assignee's "displayName" when the
      assignee is truthy, and "-" for whatever is missing. */
  function FieldCells(fields: JValue): (res: Result<seq<string>>)
    ensures res.Ok? <==> FieldsRead(fields)
    ensures res.Ok? ==>
              var assignee := Field(fields, "assignee", JNull);
              && |res.value| == 4
              && res.value[0] == Str(Or(Field(fields, "summary", JNull), JStr("-")))
              && res.value[1] == Str(Field(Or(Field(fields, "status", JNull), JObj([])), "name", JStr("-")))
              && res.value[2] == Str(Field(Or(Field(fields, "issuetype", JNull), JObj([])), "name", JStr("-")))
              && res.value[3] == (if Truthy(assignee) then Str(Field(assignee, "displayName", JStr("-"))) else "-")
  {
    var summary :- Get(fields, "summary", JNull);
    var status :- Get(Or(Field(fields, "status", JNull), JObj([])), "name", JStr("-"));
    var kind :- Get(Or(Field(fields, "issuetype", JNull), JObj([])), "name", JStr("-"));
    var assignee := Field(fields, "assignee", JNull);
    var who :- if Truthy(assignee) then Get(assignee, "displayName", JStr("-")) else Ok(JStr("-"));
    Ok([Str(Or(summary, JStr("-"))), Str(status), Str(kind), Str(who)])
  }

  /** An issue with no fields shows "-" in all four cells. */
  lemma NoFieldCells()
    ensures FieldCells(JObj([])) == Ok(["-", "-", "-", "-"])
  {
    var fields := JObj([]);
    assert Field(fields, "summary", JNull) == JNull;
    assert Field(fields, "status", JNull) == JNull;
    assert Field(fields, "issuetype", JNull) == JNull;
    assert Field(fields, "assignee", JNull) == JNull;
    assert Field(JObj([]), "name", JStr("-")) == JStr("-");
  }

  /** The cells of a row: key, summary, status, type, assignee, result. A
      missing issue or field shows "-". */
  function Cells(r: ExportResult, data: JValue): (res: Result<seq<string>>)
    ensures res.Ok? <==> CellsRead(r.key, data)
    ensures res.Ok? ==> |res.value| == 6 && res.value[0] == KeyLink(r) && res.value[5] == ResultCell(r)
    ensures res.Ok? ==> data.JObj?
    ensures res.Ok? ==>
              var fields := Field(Field(data, r.key, JObj([])), "fields", JObj([]));
              res.value[1..5] == FieldCells(fields).value
    ensures data.JObj? && !Has(data, r.key) ==> res == Ok([KeyLink(r), "-", "-", "-", "-", ResultCell(r)])
  {
    var issue :- Get(data, r.key, JObj([]));
    var fields :- Get(issue, "fields", JObj([]));
    var mid :- FieldCells(fields);
    NoFieldCells();
    assert !Has(data, r.key) ==> issue == JObj([]) && fields == JObj([]) && mid == ["-", "-", "-", "-"];
    var cells := [KeyLink(r)] + mid + [ResultCell(r)];
    assert cells[1..5] == mid;
    assert mid == ["-", "-", "-", "-"] ==> cells == [KeyLink(r), "-", "-", "-", "-", ResultCell(r)];
    Ok(cells)
  }

  /** "| a | b | ... |". */
  function Row(cells: seq<string>): string {
    "| " + Join(cells, " | ") + " |"
  }

  /** The six header lines: title, counts and date, and the table head. */
  function Header(rs: seq<ExportResult>, today: string): (h: seq<string>)
    ensures |h| == 6
  {
    var total := |rs|;
    var succeeded := |Kept(rs, true)|;
    ["# Export Summary", "",
     "Exported: " + Decimal(succeeded) + " of " + Decimal(total) + " issues | Date: " + today
       + " | Failed: " + Decimal(total - succeeded),
     "",
     "| Key | Summary | Status | Type | Assignee | Result |",
     "|-----|---------|--------|------|----------|--------|"]
  }

  /** The failed count of the header is the number of failures. */
  lemma FailedIsFailures(rs: seq<ExportResult>)
    ensures |rs| - |Kept(rs, true)| == |Kept(rs, false)|
  {
    KeptCounts(rs);
  }

  /** One row per result, in the given order. */
  function Rows(rs: seq<ExportResult>, data: JValue): (r: Result<seq<string>>)
    ensures r.Ok? <==> forall i :: 0 <= i < |rs| ==> Cells(rs[i], data).Ok?
    ensures r.Ok? ==> |r.value| == |rs| && forall i :: 0 <= i < |rs| ==> r.value[i] == Row(Cells(rs[i], data).value)
  {
    var cells :- Each(rs, x => Cells(x, data));
    Ok(seq(|rs|, i requires 0 <= i < |rs| => Row(cells[i])))
  }

  /** The lines of index.md: the header, then one row per result in key
      order. */
  function IndexLines(rs: seq<ExportResult>, data: JValue, today: string): (r: Result<seq<string>>)
    ensures r.Ok? <==> Rows(SortByKey(rs), data).Ok?
    ensures r.Ok? ==> |r.value| == 6 + |rs| && r.value[..6] == Header(rs, today)
    ensures r.Ok? ==> r.value[6..] == Rows(SortByKey(rs), data).value
  {
    var rows :- Rows(SortByKey(rs), data);
    DropPrefix(Header(rs, today), rows);
    Ok(Header(rs, today) + rows)
  }

  /** The rows follow the key order of their results, every result has
      its row, and each row opens with its result's key link. */
  lemma RowsInKeyOrder(rs: seq<ExportResult>, data: JValue, today: string, sorted: seq<ExportResult>, lines: seq<string>)
    requires sorted == SortByKey(rs)
    requires IndexLines(rs, data, today) == Ok(lines)
    ensures SortedByKey(sorted) && multiset(sorted) == multiset(rs)
    ensures forall i :: 0 <= i < |rs| ==> StartsWith(lines[6 + i], "| " + KeyLink(sorted[i]) + " | ")
  {
    SortByKeySorted(rs);
    var rows := lines[6..];
    assert Rows(sorted, data) == Ok(rows);
    forall i | 0 <= i < |rs|
      ensures StartsWith(lines[6 + i], "| " + KeyLink(sorted[i]) + " | ")
    {
      RowOpensWithKey(sorted, data, rows, i);
      assert lines[6 + i] == rows[i];
    }
  }

  lemma RowOpensWithKey(sorted: seq<ExportResult>, data: JValue, rows: seq<string>, i: nat)
    requires Rows(sorted, data) == Ok(rows)
    requires i < |sorted|
    ensures StartsWith(rows[i], "| " + KeyLink(sorted[i]) + " | ")
  {
    RowStarts(Cells(sorted[i], data).value);
  }

  /** A row opens with its first cell. */
  lemma RowStarts(cells: seq<string>)
    requires |cells| >= 2
    ensures StartsWith(Row(cells), "| " + cells[0] + " | ")
  {
    var rest := Join(cells[1..], " | ");
    assert Join(cells, " | ") == cells[0] + " | " + rest;
    assert Row(cells) == ("| " + cells[0] + " | ") + (rest + " |");
    DropPrefix("| " + cells[0] + " | ", rest + " |");
  }

  /** `generate_index_md`: the lines joined by newlines, with a final
      newline. */
  function GenerateIndex(rs: seq<ExportResult>, data: JValue, today: string): (r: Result<string>)
    ensures r.Ok? <==> IndexLines(rs, data, today).Ok?
    ensures r.Ok? ==> EndsWith(r.value, "\n")
  {
    var lines :- IndexLines(rs, data, today);
    Ok(Join(lines, "\n") + "\n")
  }

  /** Split at its newlines, index.md gives back its lines and an empty
      last part. */
  lemma IndexReadsBack(rs: seq<ExportResult>, data: JValue, today: string, lines: seq<string>)
    requires IndexLines(rs, data, today) == Ok(lines)
    requires forall i :: 0 <= i < |lines| ==> '\n' !in lines[i]
    ensures Split(GenerateIndex(rs, data, today).value, '\n') == lines + [""]
  {
    TrailingNewline(lines);
    assert forall i :: 0 <= i < |lines + [""]| ==> '\n' !in (lines + [""])[i];
    SplitJoin(lines + [""], '\n');
  }

  /** A final newline is an empty last line. */
  lemma {:induction false} TrailingNewline(lines: seq<string>)
    requires |lines| >= 1
    ensures Join(lines, "\n") + "\n" == Join(lines + [""], "\n")
    decreases |lines|
  {
    if |lines| == 1 {
      assert Join(lines + [""], "\n") == lines[0] + "\n" + "";
    } else {
      TrailingNewline(lines[1..]);
      assert (lines + [""])[1..] == lines[1..] + [""];
      assert Join(lines, "\n") + "\n" == lines[0] + "\n" + (Join(lines[1..], "\n") + "\n");
    }
  }
}

/**
 Reviewing and exporting the session's test cases: one checkbox per case,
 the export set (the checked cases, or every case when none is checked), and
 the five-column rows of the Testmo import file.
 */
module Export {
  import opened Strings
  import opened Records

  /** The columns of the import file, in order. */
  const Columns: seq<string> := ["Title", "Steps", "Expected", "Folder", "Tags"]

  /**
   The checkbox values on a render. A checkbox the user has set keeps the value
   stored for it; any other starts at the "Select All Tests" value.
   */
  function Checkboxes(n: nat, selectAll: bool, stored: map<int, bool>): (checked: seq<bool>)
    ensures |checked| == n
    ensures forall i :: 0 <= i < n && i !in stored ==> checked[i] == selectAll
    ensures forall i :: 0 <= i < n && i in stored ==> checked[i] == stored[i]
  {
    seq(n, i => if i in stored then stored[i] else selectAll)
  }

  /** Ticking or clearing one box changes that box and no other. */
  lemma TickChangesOnlyThatBox(n: nat, selectAll: bool, stored: map<int, bool>, i: nat, v: bool)
    requires i < n
    ensures Checkboxes(n, selectAll, stored[i := v]) == Checkboxes(n, selectAll, stored)[i := v]
  {
    var after := Checkboxes(n, selectAll, stored[i := v]);
    var before := Checkboxes(n, selectAll, stored);
    assert forall j :: 0 <= j < n ==> after[j] == before[i := v][j];
  }

  /** The checked cases, in list order, as the render loop collects them. */
  function Selected<T>(xs: seq<T>, checked: seq<bool>): seq<T>
    requires |xs| == |checked|
  {
    if |xs| == 0 then []
    else
      var n := |xs| - 1;
      Selected(xs[..n], checked[..n]) + (if checked[n] then [xs[n]] else [])
  }

  /** The positions of the checked boxes, ascending, and all of them. */
  function CheckedIndices(checked: seq<bool>): (ix: seq<nat>)
    ensures forall j :: 0 <= j < |ix| ==> ix[j] < |checked| && checked[ix[j]]
    ensures forall j, k :: 0 <= j < k < |ix| ==> ix[j] < ix[k]
    ensures forall i :: 0 <= i < |checked| && checked[i] ==> i in ix
  {
    if |checked| == 0 then []
    else
      var n := |checked| - 1;
      CheckedIndices(checked[..n]) + (if checked[n] then [n] else [])
  }

  /** The selection is exactly the cases at the checked positions, in ascending order. */
  lemma {:induction false} SelectedAtCheckedIndices<T>(xs: seq<T>, checked: seq<bool>)
    requires |xs| == |checked|
    ensures |Selected(xs, checked)| == |CheckedIndices(checked)|
    ensures forall j :: 0 <= j < |CheckedIndices(checked)| ==>
      Selected(xs, checked)[j] == xs[CheckedIndices(checked)[j]]
  {
    if |xs| > 0 {
      var n := |xs| - 1;
      SelectedAtCheckedIndices(xs[..n], checked[..n]);
      assert forall i :: 0 <= i < n ==> xs[..n][i] == xs[i];
    }
  }

  /** The render loop: walk the cases, keep each one whose box is checked. */
  method CollectSelected<T>(tests: seq<T>, checked: seq<bool>) returns (selected: seq<T>)
    requires |tests| == |checked|
    ensures |selected| == |CheckedIndices(checked)|
    ensures forall j :: 0 <= j < |selected| ==> selected[j] == tests[CheckedIndices(checked)[j]]
  {
    selected := [];
    var i := 0;
    while i < |tests|
      invariant 0 <= i <= |tests|
      invariant selected == Selected(tests[..i], checked[..i])
    {
      assert tests[..i + 1][..i] == tests[..i];
      assert checked[..i + 1][..i] == checked[..i];
      if checked[i] {
        selected := selected + [tests[i]];
      }
      i := i + 1;
    }
    assert tests[..i] == tests && checked[..i] == checked;
    SelectedAtCheckedIndices(tests, checked);
  }

  /** What is exported: the checked cases in list order, or every case when none is checked. */
  function ExportSet<T>(tests: seq<T>, checked: seq<bool>): (r: seq<T>)
    requires |tests| == |checked|
    ensures (exists i :: 0 <= i < |checked| && checked[i]) ==>
      && |r| == |CheckedIndices(checked)|
      && forall j :: 0 <= j < |r| ==> r[j] == tests[CheckedIndices(checked)[j]]
    ensures (forall i :: 0 <= i < |checked| ==> !checked[i]) ==> r == tests
  {
    SelectedAtCheckedIndices(tests, checked);
    var ix := CheckedIndices(checked);
    assert |ix| > 0 ==> checked[ix[0]];
    var selected := Selected(tests, checked);
    if |selected| > 0 then selected else tests
  }

  /** With exactly one box checked, exactly that case is exported. */
  lemma ExportsOnlyTheCheckedOne<T>(tests: seq<T>, checked: seq<bool>, k: nat)
    requires |tests| == |checked| && k < |checked|
    requires forall i :: 0 <= i < |checked| ==> (checked[i] <==> i == k)
    ensures ExportSet(tests, checked) == [tests[k]]
  {
    OnlyOneChecked(checked, k);
    assert checked[k];
  }

  lemma {:induction false} OnlyOneChecked(checked: seq<bool>, k: nat)
    requires k < |checked|
    requires forall i :: 0 <= i < |checked| ==> (checked[i] <==> i == k)
    ensures CheckedIndices(checked) == [k]
  {
    var n := |checked| - 1;
    var prefix := checked[..n];
    assert forall i :: 0 <= i < n ==> prefix[i] == checked[i];
    if k < n {
      OnlyOneChecked(prefix, k);
    } else {
      NoneChecked(prefix);
    }
  }

  lemma {:induction false} NoneChecked(checked: seq<bool>)
    requires forall i :: 0 <= i < |checked| ==> !checked[i]
    ensures CheckedIndices(checked) == []
  {
    if |checked| > 0 {
      var n := |checked| - 1;
      assert forall i :: 0 <= i < n ==> checked[..n][i] == checked[i];
      NoneChecked(checked[..n]);
    }
  }

  /** Before any box is touched, every case is exported, whatever "Select All Tests" says. */
  lemma UntouchedBoxesExportAll<T>(tests: seq<T>, selectAll: bool)
    ensures ExportSet(tests, Checkboxes(|tests|, selectAll, map[])) == tests
  {
    var checked := Checkboxes(|tests|, selectAll, map[]);
    if selectAll && |tests| > 0 {
      var ix := CheckedIndices(checked);
      assert forall i :: 0 <= i < |tests| ==> i in ix;
      CheckedIndicesAll(checked);
    }
  }

  /** When every box is checked, the positions are 0, 1, 2, ... */
  lemma {:induction false} CheckedIndicesAll(checked: seq<bool>)
    requires forall i :: 0 <= i < |checked| ==> checked[i]
    ensures |CheckedIndices(checked)| == |checked|
    ensures forall j :: 0 <= j < |checked| ==> CheckedIndices(checked)[j] == j
  {
    if |checked| > 0 {
      CheckedIndicesAll(checked[..|checked| - 1]);
    }
  }

  /** A field as the table holds it: a missing key reads as the empty value. */
  function InTable(c: Cell): (r: Cell)
    ensures r != Absent
    ensures c != Absent ==> r == c
  {
    if c.Absent? then Null else c
  }

  /** A list cell becomes the items joined by `sep`; any other cell passes through unchanged. */
  function JoinIfList(c: Cell, sep: char): (r: Cell)
    ensures !r.Items?
    ensures !c.Items? ==> r == c
    ensures c.Items? ==> r.Text?
    ensures c == Items([]) ==> r == Text([])
    ensures c.Items? && |c.xs| >= 1 && (forall k :: 0 <= k < |c.xs| ==> sep !in c.xs[k]) ==>
      r.Text? && Split(r.s, sep) == c.xs
  {
    match c
    case Items(xs) => JoinedBack(xs, sep); Text(Join(xs, sep))
    case _ => c
  }

  /** Splitting a join gives the parts back when there is at least one and none holds `sep`. */
  lemma JoinedBack(xs: seq<string>, sep: char)
    ensures |xs| >= 1 && (forall k :: 0 <= k < |xs| ==> sep !in xs[k]) ==> Split(Join(xs, sep), sep) == xs
  {
    if |xs| >= 1 && (forall k :: 0 <= k < |xs| ==> sep !in xs[k]) {
      SplitJoin(xs, sep);
    }
  }

  /** One row of the import file for a test case of feature `feature`. */
  function Row(t: TestCase, feature: string): (row: seq<Cell>)
    ensures |row| == |Columns|
    ensures forall k :: 0 <= k < |row| ==> !row[k].Absent?
    ensures !row[1].Items? && !row[4].Items?
    ensures row[0] == InTable(t.title) && row[2] == InTable(t.expected)
    ensures row[3] == Text(feature)
  {
    [InTable(t.title), JoinIfList(InTable(t.steps), '\n'), InTable(t.expected),
     Text(feature), JoinIfList(InTable(t.tags), ',')]
  }

  /** The Steps cell gives the steps back when none holds a line break. */
  lemma StepsCellRoundTrip(t: TestCase, feature: string)
    requires t.steps.Items? && |t.steps.xs| >= 1
    requires forall k :: 0 <= k < |t.steps.xs| ==> '\n' !in t.steps.xs[k]
    ensures Row(t, feature)[1].Text?
    ensures Split(Row(t, feature)[1].s, '\n') == t.steps.xs
  {
    SplitJoin(t.steps.xs, '\n');
  }

  /** The Tags cell gives the tags back when none holds a comma. */
  lemma TagsCellRoundTrip(t: TestCase, feature: string)
    requires t.tags.Items? && |t.tags.xs| >= 1
    requires forall k :: 0 <= k < |t.tags.xs| ==> ',' !in t.tags.xs[k]
    ensures Row(t, feature)[4].Text?
    ensures Split(Row(t, feature)[4].s, ',') == t.tags.xs
  {
    SplitJoin(t.tags.xs, ',');
  }

  /** A Steps or Tags cell that is not a list passes through as the table holds it. */
  lemma NonListCellsPassThrough(t: TestCase, feature: string)
    ensures !t.steps.Items? ==> Row(t, feature)[1] == InTable(t.steps)
    ensures !t.tags.Items? ==> Row(t, feature)[4] == InTable(t.tags)
  {
  }

  /** The fields the export reads by key. */
  datatype Field = TitleField | StepsField | ExpectedField | TagsField

  function Get(t: TestCase, f: Field): Cell {
    match f
    case TitleField => t.title
    case StepsField => t.steps
    case ExpectedField => t.expected
    case TagsField => t.tags
  }

  /** The table built from `records` has a column for `f`: some record has that key. */
  predicate HasColumn(records: seq<TestCase>, f: Field) {
    exists k :: 0 <= k < |records| && !Get(records[k], f).Absent?
  }

  /** How pressing "Download CSV" ends. */
  datatype Download =
    | NotShown                                  // no cases, so no list and no export
    | KeyError(key: string)                     // a lookup of a missing key stops the page
    | TypeError(key: string)                    // iterating a null value stops the page
    | Csv(header: seq<string>, rows: seq<seq<Cell>>)

  /**
   The review list shows a case without stopping: its title is read by key, and
   its steps and tags are iterated, which a null value (pandas' NaN for a key
   another case has, or a JSON null) does not allow.
   */
  predicate Renders(t: TestCase) {
    !t.title.Absent? && !t.steps.Null? && !t.tags.Null?
  }

  /** How showing a case that does not render stops: the title lookup, then the steps loop, then the tags join. */
  function StopFor(t: TestCase): (d: Download)
    requires !Renders(t)
    ensures t.title.Absent? <==> d == KeyError("title")
    ensures !t.title.Absent? && t.steps.Null? <==> d == TypeError("steps")
    ensures !t.title.Absent? && !t.steps.Null? <==> d == TypeError("tags")
  {
    if t.title.Absent? then KeyError("title")
    else if t.steps.Null? then TypeError("steps")
    else TypeError("tags")
  }

  /** Every case before position `k` renders. */
  predicate RendersBefore(tests: seq<TestCase>, k: nat)
    requires k <= |tests|
  {
    forall j :: 0 <= j < k ==> Renders(tests[j])
  }

  /** The position where the render loop stops, or `|tests|` when every case renders. */
  function FirstStop(tests: seq<TestCase>): (k: nat)
    ensures k <= |tests|
    ensures RendersBefore(tests, k)
    ensures k < |tests| ==> !Renders(tests[k])
  {
    if |tests| == 0 || !Renders(tests[0]) then 0
    else
      var k := 1 + FirstStop(tests[1..]);
      assert forall j :: 1 <= j < k ==> tests[j] == tests[1..][j - 1];
      k
  }

  /** Only one position is a first stop. */
  lemma FirstStopUnique(tests: seq<TestCase>, k: nat)
    requires k < |tests| && !Renders(tests[k]) && RendersBefore(tests, k)
    ensures FirstStop(tests) == k
  {
  }

  /**
   Rendering the cases and pressing "Download CSV". The render loop shows every
   case in order and stops at the first one that does not render; the export
   then reads the Steps, tags and Expected columns of the table built from the
   export set.
   */
  function DownloadCsv(tests: seq<TestCase>, selectAll: bool, stored: map<int, bool>, feature: string)
    : (d: Download)
    ensures d == NotShown <==> |tests| == 0
    ensures d == KeyError("title") <==>
      exists k :: 0 <= k < |tests| && tests[k].title.Absent? && RendersBefore(tests, k)
    ensures d == TypeError("steps") <==>
      exists k :: 0 <= k < |tests| && !tests[k].title.Absent? && tests[k].steps.Null? && RendersBefore(tests, k)
    ensures d == TypeError("tags") <==>
      exists k :: 0 <= k < |tests| && !tests[k].title.Absent? && !tests[k].steps.Null? && tests[k].tags.Null?
        && RendersBefore(tests, k)
    ensures
      var records := ExportSet(tests, Checkboxes(|tests|, selectAll, stored));
      var shown := |tests| > 0 && RendersBefore(tests, |tests|);
      && (d == KeyError("Steps") <==> shown && !HasColumn(records, StepsField))
      && (d == KeyError("tags") <==> shown && HasColumn(records, StepsField) && !HasColumn(records, TagsField))
      && (d == KeyError("Expected") <==>
            shown && HasColumn(records, StepsField) && HasColumn(records, TagsField) && !HasColumn(records, ExpectedField))
      && (d.Csv? <==>
            shown && HasColumn(records, StepsField) && HasColumn(records, TagsField) && HasColumn(records, ExpectedField))
      && (d.Csv? ==>
            && d.header == Columns
            && |d.rows| == |records|
            && forall k :: 0 <= k < |records| ==> d.rows[k] == Row(records[k], feature))
  {
    var stop := FirstStop(tests);
    if |tests| == 0 then NotShown
    else if stop < |tests| then
      StopsAtFirst(tests, stop);
      StopFor(tests[stop])
    else
      var records := ExportSet(tests, Checkboxes(|tests|, selectAll, stored));
      if !HasColumn(records, StepsField) then KeyError("Steps")
      else if !HasColumn(records, TagsField) then KeyError("tags")
      else if !HasColumn(records, ExpectedField) then KeyError("Expected")
      else Csv(Columns, seq(|records|, k requires 0 <= k < |records| => Row(records[k], feature)))
  }

  /** A case that does not render with all before it rendering is where the loop stops. */
  lemma StopsAtFirst(tests: seq<TestCase>, stop: nat)
    requires stop == FirstStop(tests) && stop < |tests|
    ensures forall k :: 0 <= k < |tests| && !Renders(tests[k]) && RendersBefore(tests, k) ==> k == stop
  {
    forall k | 0 <= k < |tests| && !Renders(tests[k]) && RendersBefore(tests, k)
      ensures k == stop
    {
      FirstStopUnique(tests, k);
    }
  }

  /** Two cases where only the first has steps: pandas gives the second NaN steps, and the render loop stops there. */
  lemma ExampleNullStepsStopsRender(selectAll: bool, stored: map<int, bool>)
    ensures
      var a := TestCase(Text("A"), Null, Null, Items(["open"]), Text("E"), Items(["ui"]));
      var b := TestCase(Text("B"), Null, Null, Null, Text("E"), Items(["ui"]));
      DownloadCsv([a, b], selectAll, stored, "F") == TypeError("steps")
  {
    var a := TestCase(Text("A"), Null, Null, Items(["open"]), Text("E"), Items(["ui"]));
    var b := TestCase(Text("B"), Null, Null, Null, Text("E"), Items(["ui"]));
    assert RendersBefore([a, b], 1) && [a, b][1] == b;
  }

  /** The example row: title T, two steps, expected E, feature Login, two tags. */
  lemma ExampleRow()
    ensures Row(TestCase(Text("T"), Null, Null, Items(["step1", "step2"]), Text("E"), Items(["ui", "smoke"])), "Login")
      == [Text("T"), Text("step1\nstep2"), Text("E"), Text("Login"), Text("ui,smoke")]
  {
    assert Join(["step1", "step2"], '\n') == "step1" + ['\n'] + "step2" == "step1\nstep2";
    assert Join(["ui", "smoke"], ',') == "ui" + [','] + "smoke" == "ui,smoke";
  }
}

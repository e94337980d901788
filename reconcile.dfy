/**
 * The attempt table: the rows the history service returned, or the built-in sample
 * attempts when it returned none; the uploaded attempt in front of them; and the
 * persisted list of deleted ids, which hides every row whose id it holds.
 */
module Reconcile {
  import opened Wrappers
  import opened Text
  import opened Numerals
  import Pipeline
  import Duration
  import TallyFacts

  /**
   * A record of the history service, with the fields the table reads. `dateLabel` is
   * the locale-formatted date of `testDate`, computed by the browser; `overallScore` and
   * `avgTime` are present when they are numbers, and are whole numbers here.
   */
  datatype RemoteRecord = RemoteRecord(test: Option<string>, testDate: Option<string>, dateLabel: string,
                                       overallScore: Option<int>, avgTime: Option<int>)

  /** The query's data: the service's success flag and its list, None when it is not an array. */
  datatype FetchResult = FetchResult(success: bool, data: Option<seq<RemoteRecord>>)

  /** What only the uploaded attempt's row carries; its presence is the row's `isNew` mark. */
  datatype LocalDetail = LocalDetail(examType: string, source: string, correctAnswers: nat, totalQuestions: nat,
                                     topicAnalysis: Option<Pipeline.TopicAnalysis>)

  datatype AttemptRow = AttemptRow(id: string, name: string, date: string, score: string, time: string,
                                   local: Option<LocalDetail>)

  /** The uploaded attempt as it is kept in the page state. */
  datatype Upload = Upload(fileName: string, testName: string, testDate: Option<string>, dateLabel: string,
                           examType: string, source: string, scoreData: Option<Pipeline.Summary>)

  function Sample(id: string, name: string, date: string, score: string, time: string): AttemptRow {
    AttemptRow(id, name, date, score, time, None)
  }

  /** The attempts shown when the service has nothing to show. */
  const Fallback: seq<AttemptRow> := [
    Sample("mock-12", "JEE Main Mock Test 12", "Jan 15", "87%", "3h 5m"),
    Sample("mock-11", "JEE Main Mock Test 11", "Jan 12", "83%", "2h 52m"),
    Sample("mock-10", "JEE Main Mock Test 10", "Jan 9", "80%", "2h 58m"),
    Sample("mock-9", "JEE Main Mock Test 9", "Jan 6", "78%", "2h 45m"),
    Sample("mock-8", "JEE Main Mock Test 8", "Jan 3", "75%", "2h 50m"),
    Sample("drill-15", "Probability Drill Set 15", "Jan 14", "72%", "45m"),
    Sample("drill-14", "Algebra Drill Set 14", "Jan 11", "85%", "38m")
  ]

  /** The id of a service row without a test name or date: "row-" and its position. */
  function GeneratedId(index: nat): string {
    "row-" + NatToString(index)
  }

  /** A string is truthy when it is not empty. */
  predicate Truthy(s: Option<string>) {
    s.Some? && s.value != ""
  }

  /**
   * One service record as a table row. The id falls back (`??`) only when a field is
   * missing, so an empty test name is still an id; the name falls back (`||`) also
   * when the test name is empty.
   */
  function RemoteRow(r: RemoteRecord, index: nat): (row: AttemptRow)
    ensures row.local.None?
    ensures r.test.Some? ==> row.id == r.test.value
    ensures r.test.None? && r.testDate.Some? ==> row.id == r.testDate.value
    ensures r.test.None? && r.testDate.None? ==> row.id == GeneratedId(index)
    ensures row.name == if Truthy(r.test) then r.test.value else "Test session"
    ensures row.date == if Truthy(r.testDate) then r.dateLabel else Duration.NoTime
  {
    var id := match r.test
      case Some(t) => t
      case None => (match r.testDate case Some(d) => d case None => GeneratedId(index));
    AttemptRow(id,
               if Truthy(r.test) then r.test.value else "Test session",
               if Truthy(r.testDate) then r.dateLabel else Duration.NoTime,
               match r.overallScore case Some(s) => IntToString(s) + "%" case None => Duration.NoTime,
               match r.avgTime case Some(t) => IntToString(t) + "s" case None => Duration.NoTime,
               None)
  }

  /** Whether the query returned rows to show: success, an array, and not an empty one. */
  predicate HasRemoteRows(q: Option<FetchResult>) {
    q.Some? && q.value.success && q.value.data.Some? && |q.value.data.value| > 0
  }

  /** `rows`: the service's records as rows, or the built-in attempts. */
  function Rows(q: Option<FetchResult>): (rows: seq<AttemptRow>)
    ensures !HasRemoteRows(q) ==> rows == Fallback
    ensures HasRemoteRows(q) ==> var data := q.value.data.value;
      |rows| == |data| && forall i :: 0 <= i < |data| ==> rows[i] == RemoteRow(data[i], i)
  {
    if HasRemoteRows(q) then
      var data := q.value.data.value;
      seq(|data|, i requires 0 <= i < |data| => RemoteRow(data[i], i))
    else Fallback
  }

  /** The uploaded attempt's id: its file name with the first ".csv" removed. */
  function LocalId(u: Upload): string {
    RemoveFirst(u.fileName, ".csv")
  }

  /** The uploaded attempt as a row. */
  function LocalRow(u: Upload): (row: AttemptRow)
    ensures row.id == LocalId(u) && row.name == u.testName && row.local.Some?
    ensures row.date == if Truthy(u.testDate) then u.dateLabel else Duration.NoTime
    ensures u.scoreData.None? ==>
      row.score == Duration.NoTime && row.time == Duration.NoTime &&
      row.local.value.correctAnswers == 0 && row.local.value.totalQuestions == 0 && row.local.value.topicAnalysis.None?
    ensures u.scoreData.Some? ==>
      row.score == NatToString(u.scoreData.value.percentage) + "%" &&
      row.time == (if u.scoreData.value.timeString == "" then Duration.NoTime else u.scoreData.value.timeString) &&
      row.local.value.correctAnswers == u.scoreData.value.correct &&
      row.local.value.totalQuestions == u.scoreData.value.total &&
      row.local.value.topicAnalysis == Some(u.scoreData.value.topicAnalysis)
  {
    var detail := match u.scoreData
      case Some(s) => LocalDetail(u.examType, u.source, s.correct, s.total, Some(s.topicAnalysis))
      case None => LocalDetail(u.examType, u.source, 0, 0, None);
    AttemptRow(LocalId(u), u.testName,
               if Truthy(u.testDate) then u.dateLabel else Duration.NoTime,
               match u.scoreData case Some(s) => NatToString(s.percentage) + "%" case None => Duration.NoTime,
               match u.scoreData
                 case Some(s) => (if s.timeString == "" then Duration.NoTime else s.timeString)
                 case None => Duration.NoTime,
               Some(detail))
  }

  /** `allRows`: the uploaded attempt first, when there is one, then `rows`. */
  function AllRows(upload: Option<Upload>, rows: seq<AttemptRow>): (all: seq<AttemptRow>)
    ensures upload.None? ==> all == rows
    ensures upload.Some? ==> |all| == |rows| + 1 && all[0] == LocalRow(upload.value) && all[1..] == rows
  {
    match upload
    case None => rows
    case Some(u) => [LocalRow(u)] + rows
  }

  /** `visibleAttempts`: the rows whose id is not in the deleted list, in their order. */
  function Visible(rows: seq<AttemptRow>, deleted: seq<string>): (r: seq<AttemptRow>)
    ensures |r| <= |rows|
  {
    if rows == [] then []
    else (if rows[0].id in deleted then [] else [rows[0]]) + Visible(rows[1..], deleted)
  }

  /** The state `handleDelete` changes: the deleted ids and the uploaded attempt. */
  datatype ViewState = ViewState(deleted: seq<string>, upload: Option<Upload>)

  /** The deleted-id list after deleting `id`: appended once, never twice. */
  function AddDeleted(deleted: seq<string>, id: string): (next: seq<string>)
    ensures id in next
    ensures deleted <= next
    ensures |next| <= |deleted| + 1
  {
    if id in deleted then deleted else deleted + [id]
  }

  /** `handleDelete(id)`: nothing for an empty id; else record the id, and drop the upload it names. */
  function HandleDelete(s: ViewState, id: string): ViewState {
    if id == "" then s
    else
      ViewState(AddDeleted(s.deleted, id),
                if s.upload.Some? && LocalId(s.upload.value) == id then None else s.upload)
  }

  /** The rows on screen for a query result and a page state. */
  function Screen(q: Option<FetchResult>, s: ViewState): seq<AttemptRow> {
    Visible(AllRows(s.upload, Rows(q)), s.deleted)
  }

  // ---- The filter ----

  /** A row is shown exactly when it is in the list and its id is not deleted. */
  lemma {:induction false} VisibleMembers(rows: seq<AttemptRow>, deleted: seq<string>, x: AttemptRow)
    ensures x in Visible(rows, deleted) <==> x in rows && x.id !in deleted
  {
    if rows != [] {
      VisibleMembers(rows[1..], deleted, x);
      assert x in rows <==> x == rows[0] || x in rows[1..];
    }
  }

  /** The filter keeps order: it works on each part of a list separately. */
  lemma {:induction false} VisibleConcat(a: seq<AttemptRow>, b: seq<AttemptRow>, deleted: seq<string>)
    ensures Visible(a + b, deleted) == Visible(a, deleted) + Visible(b, deleted)
  {
    if a == [] {
      assert a + b == b;
    } else {
      assert (a + b)[0] == a[0];
      assert (a + b)[1..] == a[1..] + b;
      VisibleConcat(a[1..], b, deleted);
    }
  }

  /** Filtering with both lists is filtering with their concatenation. */
  lemma {:induction false} VisibleTwice(rows: seq<AttemptRow>, d1: seq<string>, d2: seq<string>)
    ensures Visible(Visible(rows, d1), d2) == Visible(rows, d1 + d2)
  {
    if rows != [] {
      VisibleTwice(rows[1..], d1, d2);
      var head := if rows[0].id in d1 then [] else [rows[0]];
      VisibleConcat(head, Visible(rows[1..], d1), d2);
      assert rows[0].id in d1 + d2 <==> rows[0].id in d1 || rows[0].id in d2;
      if rows[0].id !in d1 {
        assert head[1..] == [];
      }
    }
  }

  /** Applying the filter a second time changes nothing. */
  lemma VisibleIdempotent(rows: seq<AttemptRow>, deleted: seq<string>)
    ensures Visible(Visible(rows, deleted), deleted) == Visible(rows, deleted)
  {
    VisibleTwice(rows, deleted, deleted);
    VisibleSameIds(rows, deleted + deleted, deleted);
  }

  /** Only the set of deleted ids matters, not their order or repetition. */
  lemma {:induction false} VisibleSameIds(rows: seq<AttemptRow>, d1: seq<string>, d2: seq<string>)
    requires forall x :: x in d1 <==> x in d2
    ensures Visible(rows, d1) == Visible(rows, d2)
  {
    if rows != [] {
      VisibleSameIds(rows[1..], d1, d2);
    }
  }

  /** Nothing deleted, everything shown. */
  lemma {:induction false} VisibleNone(rows: seq<AttemptRow>)
    ensures Visible(rows, []) == rows
  {
    if rows != [] {
      VisibleNone(rows[1..]);
    }
  }

  // ---- Deleting ----

  /** The deleted list never holds an id twice. */
  lemma AddDeletedDistinct(deleted: seq<string>, id: string)
    requires TallyFacts.Distinct(deleted)
    ensures TallyFacts.Distinct(AddDeleted(deleted, id))
  {
  }

  /** Deleting the same id again changes nothing. */
  lemma HandleDeleteIdempotent(s: ViewState, id: string)
    ensures HandleDelete(HandleDelete(s, id), id) == HandleDelete(s, id)
  {
  }

  /** Deleting keeps every earlier entry of the deleted list, in order. */
  lemma HandleDeleteKeepsEarlier(s: ViewState, id: string)
    ensures s.deleted <= HandleDelete(s, id).deleted
    ensures id != "" ==> HandleDelete(s, id).deleted == if id in s.deleted then s.deleted else s.deleted + [id]
  {
  }

  /**
   * After deleting a non-empty id the screen is the earlier screen without the rows of
   * that id, and every other row stays, in the same order; the uploaded attempt is
   * dropped exactly when the id is its id.
   */
  lemma DeleteHidesExactlyId(q: Option<FetchResult>, s: ViewState, id: string)
    requires id != ""
    ensures Screen(q, HandleDelete(s, id)) == Visible(Screen(q, s), [id])
    ensures HandleDelete(s, id).upload.None? <==> s.upload.None? || LocalId(s.upload.value) == id
  {
    var s' := HandleDelete(s, id);
    var rows := Rows(q);
    VisibleTwice(AllRows(s.upload, rows), s.deleted, [id]);
    VisibleSameIds(AllRows(s.upload, rows), s.deleted + [id], s'.deleted);
    if s.upload.Some? && LocalId(s.upload.value) == id {
      var u := s.upload.value;
      assert AllRows(s.upload, rows) == [LocalRow(u)] + rows;
      VisibleConcat([LocalRow(u)], rows, s'.deleted);
      assert Visible([LocalRow(u)], s'.deleted) == [];
    }
  }

  /** An empty id changes nothing. */
  lemma DeleteEmptyId(s: ViewState)
    ensures HandleDelete(s, "") == s
  {
  }

  // ---- Rows ----

  /**
   * The screen lists the uploaded attempt, when it is not deleted, and then the rows
   * that are not deleted, from the service or from the built-in list.
   */
  lemma ScreenShape(q: Option<FetchResult>, s: ViewState)
    ensures s.upload.None? ==> Screen(q, s) == Visible(Rows(q), s.deleted)
    ensures s.upload.Some? ==>
      Screen(q, s) == (if LocalId(s.upload.value) in s.deleted then [] else [LocalRow(s.upload.value)]) + Visible(Rows(q), s.deleted)
  {
    if s.upload.Some? {
      VisibleConcat([LocalRow(s.upload.value)], Rows(q), s.deleted);
    }
  }

  /**
   * A service row always has a name, because the name falls back also on an empty test
   * name; but its id is empty when the test name is empty, or when the test name is
   * missing and the date is empty, because the id falls back only on missing fields.
   */
  lemma RemoteRowLabels(r: RemoteRecord, index: nat)
    ensures RemoteRow(r, index).name != ""
    ensures RemoteRow(r, index).id == "" <==> r.test == Some("") || (r.test.None? && r.testDate == Some(""))
  {
    assert |GeneratedId(index)| >= 4;
  }

  /**
   * Before deleting, the table always has rows: the service's rows or the built-in ones,
   * each with a name and none of them marked as the uploaded attempt.
   */
  lemma RowsShown(q: Option<FetchResult>)
    ensures |Rows(q)| >= 1
    ensures forall k :: 0 <= k < |Rows(q)| ==> Rows(q)[k].name != "" && Rows(q)[k].local.None?
  {
    if HasRemoteRows(q) {
      var data := q.value.data.value;
      forall k | 0 <= k < |Rows(q)|
        ensures Rows(q)[k].name != ""
      {
        RemoteRowLabels(data[k], k);
      }
    }
  }

  /** Only the first row can be marked as the uploaded attempt, and it is when there is one. */
  lemma AllRowsOneNew(upload: Option<Upload>, q: Option<FetchResult>)
    ensures var all := AllRows(upload, Rows(q));
      forall k :: 0 <= k < |all| ==> (all[k].local.Some? <==> k == 0 && upload.Some?)
  {
    RowsShown(q);
  }

  /** A row with an empty id stays on the screen whatever is deleted. */
  lemma EmptyIdStays(q: Option<FetchResult>, s: ViewState, id: string, x: AttemptRow)
    requires x in Screen(q, s) && x.id == ""
    ensures x in Screen(q, HandleDelete(s, id))
  {
    if id != "" {
      DeleteHidesExactlyId(q, s, id);
      VisibleMembers(Screen(q, s), [id], x);
    }
  }

  /**
   * Deleting the uploaded attempt by its row's id drops it and leaves no row marked as
   * uploaded; a file named so that its id is empty cannot be deleted.
   */
  lemma DeleteUploadedRow(q: Option<FetchResult>, s: ViewState)
    requires s.upload.Some?
    ensures var s' := HandleDelete(s, LocalRow(s.upload.value).id);
      LocalRow(s.upload.value).id != "" ==>
        s'.upload.None? && forall k :: 0 <= k < |Screen(q, s')| ==> Screen(q, s')[k].local.None?
    ensures LocalRow(s.upload.value).id == "" ==> HandleDelete(s, LocalRow(s.upload.value).id) == s
  {
    var s' := HandleDelete(s, LocalRow(s.upload.value).id);
    if LocalRow(s.upload.value).id != "" {
      RowsShown(q);
      ScreenShape(q, s');
      forall k | 0 <= k < |Screen(q, s')|
        ensures Screen(q, s')[k].local.None?
      {
        VisibleMembers(Rows(q), s'.deleted, Screen(q, s')[k]);
      }
    }
  }

  /** Only the first ".csv" leaves the file name: the row of "a.csv.csv" has the id "a.csv". */
  lemma LocalIdOfDoubledExtension(name: string)
    requires name == "a.csv.csv"
    ensures RemoveFirst(name, ".csv") == "a.csv"
  {
    assert name[1..5] == ".csv";
    assert name[0] != '.';
    FindIs(name, ".csv", 1);
  }

  /** The first ".csv" leaves the file name wherever it is: "data.csv.bak" gives "data.bak". */
  lemma LocalIdOfInnerExtension(name: string)
    requires name == "data.csv.bak"
    ensures RemoveFirst(name, ".csv") == "data.bak"
  {
    assert name[4..8] == ".csv";
    forall j: nat | j < 4
      ensures !OccursAt(name, ".csv", j)
    {
      assert name[j] != '.';
      assert name[j..j + 4][0] == name[j];
    }
    FindIs(name, ".csv", 4);
  }

  /** Different positions give different generated ids. */
  lemma GeneratedIdsDistinct(i: nat, j: nat)
    requires i != j
    ensures GeneratedId(i) != GeneratedId(j)
  {
    if GeneratedId(i) == GeneratedId(j) {
      assert GeneratedId(i)[4..] == NatToString(i);
      assert GeneratedId(j)[4..] == NatToString(j);
      NatToStringInjective(i, j);
    }
  }

  /** The built-in attempts have distinct ids. */
  lemma FallbackIdsDistinct()
    ensures forall i, j :: 0 <= i < j < |Fallback| ==> Fallback[i].id != Fallback[j].id
  {
  }

  /** A failed query, a missing list or an empty list all show the built-in attempts. */
  lemma FallbackWhenNoRows(flag: bool, data: Option<seq<RemoteRecord>>)
    ensures Rows(None) == Fallback
    ensures Rows(Some(FetchResult(false, data))) == Fallback
    ensures Rows(Some(FetchResult(flag, None))) == Fallback
    ensures Rows(Some(FetchResult(flag, Some([])))) == Fallback
  {
  }
}

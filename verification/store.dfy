/** The data document: the answer key (how many questions a sheet is scored
    against) and the submissions recorded so far, oldest first. */
module Store {
  import opened Wrappers
  import Scoring

  /** The number of questions a freshly created document starts with. */
  const DefaultTotalQuestions: int := 10

  /** One graded upload. `total` is the answer key's question count at the
      moment of the upload; the timestamp is kept as an opaque string. */
  datatype Submission = Submission(
    username: string,
    filename: string,
    score: int,
    total: int,
    timestamp: string)

  datatype Doc = Doc(totalQuestions: int, submissions: seq<Submission>)

  /** `load_data`: the stored document, or, when no data file exists, a new
      one with the default question count and no submissions. In both cases
      the data file afterwards holds exactly the returned document. */
  function Load(stored: Option<Doc>): (d: Doc)
    ensures stored.Some? ==> d == stored.value
    ensures stored.None? ==> d.totalQuestions == DefaultTotalQuestions && |d.submissions| == 0
  {
    match stored
    case Some(doc) => doc
    case None => Doc(DefaultTotalQuestions, [])
  }

  /** Loading what a load left behind gives the same document. */
  lemma LoadStable(stored: Option<Doc>)
    ensures Load(Some(Load(stored))) == Load(stored)
  {
  }

  /** Appending the submission of an upload: the sheet with mean grey level
      `mean` is scored against the document's current question count, and
      the new record is stamped with that count. Nothing else changes. */
  function Record(doc: Doc, username: string, filename: string, mean: real, timestamp: string): (d: Doc)
    ensures d.totalQuestions == doc.totalQuestions
    ensures |d.submissions| == |doc.submissions| + 1
    ensures d.submissions[..|doc.submissions|] == doc.submissions
    ensures Last(d.submissions).username == username
    ensures Last(d.submissions).filename == filename
    ensures Last(d.submissions).total == doc.totalQuestions
    ensures Last(d.submissions).score == Scoring.Score(mean, doc.totalQuestions)
    ensures Last(d.submissions).timestamp == timestamp
  {
    var total := doc.totalQuestions;
    var s := Submission(username, filename, Scoring.Score(mean, total), total, timestamp);
    doc.(submissions := doc.submissions + [s])
  }

  function Last<T>(s: seq<T>): T
    requires |s| > 0
  {
    s[|s| - 1]
  }

  /** The teacher's update of the answer key: only the question count
      changes, the submissions stay as they are. */
  function SetTotal(doc: Doc, total: int): (d: Doc)
    ensures d.totalQuestions == total
    ensures d.submissions == doc.submissions
  {
    doc.(totalQuestions := total)
  }

  /** The submissions of one student, in stored order. */
  function SubmissionsOf(subs: seq<Submission>, username: string): (r: seq<Submission>)
    ensures |r| <= |subs|
    ensures forall s :: s in r <==> s in subs && s.username == username
  {
    if |subs| == 0 then []
    else
      var rest := SubmissionsOf(subs[1..], username);
      assert subs == [subs[0]] + subs[1..];
      if subs[0].username == username then [subs[0]] + rest else rest
  }

  /** Filtering a concatenation filters each part and keeps them in order;
      together with the single-record cases below this pins the filter down
      to "exactly the matching records, in stored order". */
  lemma {:induction false} SubmissionsOfAppend(a: seq<Submission>, b: seq<Submission>, username: string)
    ensures SubmissionsOf(a + b, username) == SubmissionsOf(a, username) + SubmissionsOf(b, username)
  {
    if |a| == 0 {
      assert a + b == b;
    } else {
      assert (a + b)[1..] == a[1..] + b;
      SubmissionsOfAppend(a[1..], b, username);
    }
  }

  /** A single record is kept exactly when it belongs to the student. */
  lemma SubmissionsOfSingle(s: Submission, username: string)
    ensures s.username == username ==> SubmissionsOf([s], username) == [s]
    ensures s.username != username ==> SubmissionsOf([s], username) == []
  {
    assert [s][1..] == [];
  }

  /** Every stored score lies between 0 and the total it was graded against
      (whenever that total is not negative). */
  predicate ScoresInRange(doc: Doc)
  {
    forall i :: 0 <= i < |doc.submissions| ==>
      doc.submissions[i].total >= 0 ==> 0 <= doc.submissions[i].score <= doc.submissions[i].total
  }

  /** The default document, the upload and the teacher's update all keep
      scores in range. */
  lemma ScoresInRangeKept(stored: Option<Doc>, doc: Doc, username: string, filename: string,
                          mean: real, timestamp: string, total: int)
    requires stored.Some? ==> ScoresInRange(stored.value)
    requires ScoresInRange(doc)
    ensures ScoresInRange(Load(stored))
    ensures ScoresInRange(Record(doc, username, filename, mean, timestamp))
    ensures ScoresInRange(SetTotal(doc, total))
  {
    var d := Record(doc, username, filename, mean, timestamp);
    forall i | 0 <= i < |d.submissions|
      ensures d.submissions[i].total >= 0 ==> 0 <= d.submissions[i].score <= d.submissions[i].total
    {
      if i < |doc.submissions| {
        assert d.submissions[i] == doc.submissions[i];
      }
    }
  }

  /** Appending a record of `username` grows that student's listing by
      exactly this record, at the end. */
  lemma ListingGrowsByOwnRecord(subs: seq<Submission>, s: Submission, username: string)
    requires s.username == username
    ensures SubmissionsOf(subs + [s], username) == SubmissionsOf(subs, username) + [s]
  {
    SubmissionsOfAppend(subs, [s], username);
    SubmissionsOfSingle(s, username);
  }

  /** An upload by `username` leaves every other student's listing as it was. */
  lemma RecordListingOthers(doc: Doc, username: string, filename: string, mean: real,
                            timestamp: string, other: string)
    requires other != username
    ensures var d := Record(doc, username, filename, mean, timestamp);
      SubmissionsOf(d.submissions, other) == SubmissionsOf(doc.submissions, other)
  {
    var d := Record(doc, username, filename, mean, timestamp);
    var s := Last(d.submissions);
    assert d.submissions == doc.submissions + [s];
    SubmissionsOfAppend(doc.submissions, [s], other);
    SubmissionsOfSingle(s, other);
  }

  /** A record keeps the question count of its own upload: setting a new
      count afterwards leaves earlier records alone, and the next upload is
      stamped with the new count. */
  lemma TotalStampedAtUpload(doc: Doc, total: int, username: string, filename: string,
                             mean: real, timestamp: string)
    ensures var d := Record(SetTotal(doc, total), username, filename, mean, timestamp);
      d.submissions[..|doc.submissions|] == doc.submissions &&
      Last(d.submissions).total == total &&
      Last(d.submissions).score == Scoring.Score(mean, total)
  {
  }
}

/**
 * The row loop of `upload_csv`: one certificate per CSV row, each written
 * into the archive as `certificate_<id>.pdf`. The position table and the
 * template are shared by all rows; an error in any row abandons the whole
 * archive. The per-row ids come from `uuid.uuid4()` and are an input here.
 */
module Batch {
  import opened Wrappers
  import opened Positions
  import opened Compositor

  /** A CSV row as read by pandas: column name -> cell text. */
  type Row = map<string, string>

  /** One archive member: its file name and the certificate document. */
  datatype Entry = Entry(name: string, pdf: seq<Page>)

  /** `row.get(column, '')` for the three columns the certificate uses. */
  function RequestOf(row: Row): (req: Request)
    ensures "user_name" in row ==> req.userName == row["user_name"]
    ensures "user_name" !in row ==> req.userName == ""
    ensures "course_duration" in row ==> req.courseDuration == row["course_duration"]
    ensures "course_duration" !in row ==> req.courseDuration == ""
    ensures "certificate_id" in row ==> req.certificateId == row["certificate_id"]
    ensures "certificate_id" !in row ==> req.certificateId == ""
  {
    Request(Get(row, "user_name", ""), Get(row, "course_duration", ""), Get(row, "certificate_id", ""))
  }

  /** The archive member name for one row. */
  function EntryName(id: string): string
  {
    "certificate_" + id + ".pdf"
  }

  /** A member name is `certificate_`, then the id, then `.pdf`. */
  lemma EntryNameShape(id: string)
    ensures |EntryName(id)| == |id| + 16
    ensures EntryName(id)[..12] == "certificate_" && EntryName(id)[|id| + 12..] == ".pdf"
    ensures EntryName(id)[12..|id| + 12] == id
  {
  }

  /** Different ids give different member names. */
  lemma EntryNameInjective(a: string, b: string)
    ensures EntryName(a) == EntryName(b) <==> a == b
  {
    EntryNameShape(a);
    EntryNameShape(b);
  }

  /** The certificate of one row: `generate_certificate` on the row's three columns. */
  function CertFor(positions: PositionSet, template: Template, r: Renderer): Row -> Result<seq<Page>, Error>
  {
    row => Compose(RequestOf(row), positions, template, r)
  }

  /**
   * A row loop whose body is `cert`: one entry per row, named by that row's
   * id, in row order; the first failing row aborts the loop.
   */
  function Collect(rows: seq<Row>, ids: seq<string>, cert: Row -> Result<seq<Page>, Error>): Result<seq<Entry>, Error>
    requires |ids| == |rows|
    decreases |rows|
  {
    if rows == [] then Success([])
    else
      var n := |rows| - 1;
      match Collect(rows[..n], ids[..n], cert)
      case Failure(e) => Failure(e)
      case Success(done) =>
        match cert(rows[n])
        case Failure(e) => Failure(e)
        case Success(pdf) => Success(done + [Entry(EntryName(ids[n]), pdf)])
  }

  /** The archive of `upload_csv` for `rows`. */
  function Archive(rows: seq<Row>, ids: seq<string>, positions: PositionSet, template: Template, r: Renderer)
    : Result<seq<Entry>, Error>
    requires |ids| == |rows|
  {
    Collect(rows, ids, CertFor(positions, template, r))
  }

  /** Running the row loop one row further. */
  lemma {:induction false} CollectSnoc(rows: seq<Row>, ids: seq<string>, i: nat, cert: Row -> Result<seq<Page>, Error>)
    requires |ids| == |rows| && i < |rows|
    requires Collect(rows[..i], ids[..i], cert).Success?
    ensures Collect(rows[..i + 1], ids[..i + 1], cert) ==
      match cert(rows[i])
      case Failure(e) => Failure(e)
      case Success(pdf) => Success(Collect(rows[..i], ids[..i], cert).value + [Entry(EntryName(ids[i]), pdf)])
  {
    var rs, ks := rows[..i + 1], ids[..i + 1];
    assert rs[..i] == rows[..i] && rs[i] == rows[i];
    assert ks[..i] == ids[..i] && ks[i] == ids[i];
  }

  /** Once a prefix of the rows has failed, the whole loop fails with that error. */
  lemma {:induction false} CollectFailureSticks(rows: seq<Row>, ids: seq<string>, i: nat, cert: Row -> Result<seq<Page>, Error>)
    requires |ids| == |rows| && i <= |rows|
    requires Collect(rows[..i], ids[..i], cert).Failure?
    ensures Collect(rows, ids, cert) == Collect(rows[..i], ids[..i], cert)
    decreases |rows| - i
  {
    if i < |rows| {
      var rs, ks := rows[..i + 1], ids[..i + 1];
      assert rs[..i] == rows[..i] && ks[..i] == ids[..i];
      CollectFailureSticks(rows, ids, i + 1, cert);
    } else {
      assert rows[..i] == rows && ids[..i] == ids;
    }
  }

  /** One iteration of the row loop: it either extends the entries or ends the whole loop with its error. */
  lemma CollectStep(rows: seq<Row>, ids: seq<string>, i: nat, cert: Row -> Result<seq<Page>, Error>, entries: seq<Entry>)
    requires |ids| == |rows| && i < |rows|
    requires Collect(rows[..i], ids[..i], cert) == Success(entries)
    ensures cert(rows[i]).Success? ==>
      Collect(rows[..i + 1], ids[..i + 1], cert) == Success(entries + [Entry(EntryName(ids[i]), cert(rows[i]).value)])
    ensures cert(rows[i]).Failure? ==> Collect(rows, ids, cert) == Failure(cert(rows[i]).error)
  {
    CollectSnoc(rows, ids, i, cert);
    if cert(rows[i]).Failure? {
      CollectFailureSticks(rows, ids, i + 1, cert);
    }
  }

  /** `generate_certificate` on one CSV row. */
  method CertifyRow(row: Row, positions: PositionSet, template: Template, r: Renderer)
    returns (pdf: Result<seq<Page>, Error>)
    ensures pdf == CertFor(positions, template, r)(row)
  {
    pdf := GenerateCertificate(RequestOf(row), positions, template, r);
  }

  /** The row loop of `upload_csv`, one `generate_certificate` call and one archive entry per row. */
  method GenerateArchive(rows: seq<Row>, ids: seq<string>, positions: PositionSet, template: Template, r: Renderer)
    returns (res: Result<seq<Entry>, Error>)
    requires |ids| == |rows|
    ensures res == Archive(rows, ids, positions, template, r)
  {
    var cert := CertFor(positions, template, r);
    var entries: seq<Entry> := [];
    var i := 0;
    while i < |rows|
      invariant 0 <= i <= |rows|
      invariant Collect(rows[..i], ids[..i], cert) == Success(entries)
    {
      var pdf := CertifyRow(rows[i], positions, template, r);
      CollectStep(rows, ids, i, cert, entries);
      if pdf.Failure? {
        return Failure(pdf.error);
      }
      entries := entries + [Entry(EntryName(ids[i]), pdf.value)];
      i := i + 1;
    }
    assert rows[..i] == rows && ids[..i] == ids;
    res := Success(entries);
  }

  /** A successful row loop has exactly one entry per row, named by its id and holding its certificate. */
  lemma {:induction false} CollectEntries(rows: seq<Row>, ids: seq<string>, cert: Row -> Result<seq<Page>, Error>)
    requires |ids| == |rows| && Collect(rows, ids, cert).Success?
    ensures |Collect(rows, ids, cert).value| == |rows|
    ensures forall i :: 0 <= i < |rows| ==>
      && cert(rows[i]).Success?
      && Collect(rows, ids, cert).value[i] == Entry(EntryName(ids[i]), cert(rows[i]).value)
    decreases |rows|
  {
    if rows != [] {
      var n := |rows| - 1;
      var rs, ks := rows[..n], ids[..n];
      CollectEntries(rs, ks, cert);
      assert forall i :: 0 <= i < n ==> rs[i] == rows[i] && ks[i] == ids[i];
    }
  }

  /** The row loop succeeds exactly when every row's body does. */
  lemma {:induction false} CollectSucceedsIff(rows: seq<Row>, ids: seq<string>, cert: Row -> Result<seq<Page>, Error>)
    requires |ids| == |rows|
    ensures Collect(rows, ids, cert).Success? <==> forall i :: 0 <= i < |rows| ==> cert(rows[i]).Success?
    decreases |rows|
  {
    if rows != [] {
      var n := |rows| - 1;
      var rs := rows[..n];
      CollectSucceedsIff(rs, ids[..n], cert);
      assert forall i :: 0 <= i < n ==> rs[i] == rows[i];
    }
  }

  /** A failing row loop reports the error of its first failing row. */
  lemma {:induction false} CollectFirstError(rows: seq<Row>, ids: seq<string>, cert: Row -> Result<seq<Page>, Error>)
    requires |ids| == |rows| && Collect(rows, ids, cert).Failure?
    ensures exists i :: (0 <= i < |rows| && cert(rows[i]) == Failure(Collect(rows, ids, cert).error)
      && forall k :: 0 <= k < i ==> cert(rows[k]).Success?)
    decreases |rows|
  {
    var n := |rows| - 1;
    var rs, ks := rows[..n], ids[..n];
    if Collect(rs, ks, cert).Failure? {
      CollectFirstError(rs, ks, cert);
      var i :| 0 <= i < |rs| && cert(rs[i]) == Failure(Collect(rs, ks, cert).error)
        && forall k :: 0 <= k < i ==> cert(rs[k]).Success?;
      assert rows[i] == rs[i];
      assert forall k :: 0 <= k < i ==> rows[k] == rs[k];
    } else {
      CollectSucceedsIff(rs, ks, cert);
      assert forall k :: 0 <= k < n ==> rows[k] == rs[k];
    }
  }

  /** A successful archive has exactly one entry per row, named by that row's id and holding that row's certificate. */
  lemma ArchiveEntries(rows: seq<Row>, ids: seq<string>, positions: PositionSet, template: Template, r: Renderer)
    requires |ids| == |rows| && Archive(rows, ids, positions, template, r).Success?
    ensures |Archive(rows, ids, positions, template, r).value| == |rows|
    ensures forall i :: 0 <= i < |rows| ==>
      && Compose(RequestOf(rows[i]), positions, template, r).Success?
      && Archive(rows, ids, positions, template, r).value[i] ==
         Entry(EntryName(ids[i]), Compose(RequestOf(rows[i]), positions, template, r).value)
  {
    var cert := CertFor(positions, template, r);
    CollectEntries(rows, ids, cert);
    assert forall i :: 0 <= i < |rows| ==> cert(rows[i]) == Compose(RequestOf(rows[i]), positions, template, r);
  }

  /** The archive succeeds exactly when every row's certificate can be composed. */
  lemma ArchiveSucceedsIff(rows: seq<Row>, ids: seq<string>, positions: PositionSet, template: Template, r: Renderer)
    requires |ids| == |rows|
    ensures Archive(rows, ids, positions, template, r).Success? <==>
      forall i :: 0 <= i < |rows| ==> Compose(RequestOf(rows[i]), positions, template, r).Success?
  {
    var cert := CertFor(positions, template, r);
    CollectSucceedsIff(rows, ids, cert);
    assert forall i :: 0 <= i < |rows| ==> cert(rows[i]) == Compose(RequestOf(rows[i]), positions, template, r);
  }

  /** The member names of a successful archive are distinct when the ids are. */
  lemma ArchiveNamesDistinct(rows: seq<Row>, ids: seq<string>, positions: PositionSet, template: Template, r: Renderer)
    requires |ids| == |rows| && Archive(rows, ids, positions, template, r).Success?
    requires forall i, j :: 0 <= i < j < |ids| ==> ids[i] != ids[j]
    ensures var entries := Archive(rows, ids, positions, template, r).value;
      forall i, j :: 0 <= i < j < |entries| ==> entries[i].name != entries[j].name
  {
    var cert := CertFor(positions, template, r);
    var entries := Collect(rows, ids, cert).value;
    CollectEntries(rows, ids, cert);
    forall i, j | 0 <= i < j < |entries|
      ensures entries[i].name != entries[j].name
    {
      EntryNameInjective(ids[i], ids[j]);
    }
  }

  /**
   * Whether the overlay can be drawn, and the error when it cannot, never
   * depend on the texts being drawn: placement reads only the table.
   */
  lemma PlanOutcomeIgnoresContent(fields: seq<string>, req1: Request, req2: Request, positions: PositionSet, r: Renderer)
    ensures Plan(fields, req1, positions, r).Success? == Plan(fields, req2, positions, r).Success?
    ensures Plan(fields, req1, positions, r).Failure? ==>
      Plan(fields, req1, positions, r).error == Plan(fields, req2, positions, r).error
  {
    var s1, s2 := StepFor(req1, positions, r), StepFor(req2, positions, r);
    forall j | 0 <= j < |fields|
      ensures s1(fields[j]).Success? == s2(fields[j]).Success?
      ensures s1(fields[j]).Failure? ==> s1(fields[j]).error == s2(fields[j]).error
    {
      StepOutcome(req1, positions, r, fields[j]);
      StepOutcome(req2, positions, r, fields[j]);
    }
    ChainSameOutcome(fields, s1, s2);
  }

  /** Every row of one upload shares the table and template, so rows succeed or fail alike. */
  lemma ComposeOutcomeIgnoresRequest(req1: Request, req2: Request, positions: PositionSet, template: Template, r: Renderer)
    ensures Compose(req1, positions, template, r).Success? == Compose(req2, positions, template, r).Success?
    ensures Compose(req1, positions, template, r).Failure? ==>
      Compose(req1, positions, template, r).error == Compose(req2, positions, template, r).error
  {
    PlanOutcomeIgnoresContent(Fields, req1, req2, positions, r);
  }

  /**
   * All or nothing: the archive holds a certificate for every row, or the
   * upload fails with the first row's error and no archive is produced.
   */
  lemma ArchiveAllOrNothing(rows: seq<Row>, ids: seq<string>, positions: PositionSet, template: Template, r: Renderer)
    requires |ids| == |rows| && rows != []
    ensures Archive(rows, ids, positions, template, r).Success? <==>
      Compose(RequestOf(rows[0]), positions, template, r).Success?
    ensures Archive(rows, ids, positions, template, r).Failure? ==>
      Archive(rows, ids, positions, template, r).error == Compose(RequestOf(rows[0]), positions, template, r).error
  {
    ArchiveSucceedsIff(rows, ids, positions, template, r);
    forall i | 0 <= i < |rows|
      ensures Compose(RequestOf(rows[i]), positions, template, r).Success? == Compose(RequestOf(rows[0]), positions, template, r).Success?
    {
      ComposeOutcomeIgnoresRequest(RequestOf(rows[i]), RequestOf(rows[0]), positions, template, r);
    }
    ArchiveFirstError(rows, ids, positions, template, r);
  }

  /** A failing archive reports the error of the first row, whose certificate fails with it. */
  lemma ArchiveFirstError(rows: seq<Row>, ids: seq<string>, positions: PositionSet, template: Template, r: Renderer)
    requires |ids| == |rows|
    ensures Archive(rows, ids, positions, template, r).Failure? ==>
      && rows != []
      && Compose(RequestOf(rows[0]), positions, template, r).Failure?
      && Archive(rows, ids, positions, template, r).error == Compose(RequestOf(rows[0]), positions, template, r).error
  {
    var cert := CertFor(positions, template, r);
    if Collect(rows, ids, cert).Failure? {
      CollectFirstError(rows, ids, cert);
      var i :| 0 <= i < |rows| && cert(rows[i]) == Failure(Collect(rows, ids, cert).error)
        && forall k :: 0 <= k < i ==> cert(rows[k]).Success?;
      ComposeOutcomeIgnoresRequest(RequestOf(rows[i]), RequestOf(rows[0]), positions, template, r);
      assert cert(rows[0]) == Compose(RequestOf(rows[0]), positions, template, r);
      assert cert(rows[i]) == Compose(RequestOf(rows[i]), positions, template, r);
    }
  }
}

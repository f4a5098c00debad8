/**
  The shared part of every uploader: dropping the columns the database table does not
  have, and the submission loop that adds one row at a time to a database session,
  counting the rows that went in and collecting the errors of those that did not.
 */
module Upload {
  import opened Wrappers
  import opened Frames

  /** a is b with some elements left out, the rest in their order. */
  ghost predicate IsSubsequence<T>(a: seq<T>, b: seq<T>)
    decreases |b|
  {
    a == [] || (|b| > 0 && ((a[0] == b[0] && IsSubsequence(a[1..], b[1..])) || IsSubsequence(a, b[1..])))
  }

  /** The columns trim_columns keeps: those the table has, never `id`, in the frame's order. */
  function KeptColumns(cols: seq<string>, expected: seq<string>): (r: seq<string>)
    ensures forall c :: c in r <==> c in cols && c in expected && c != "id"
    ensures IsSubsequence(r, cols)
    ensures Distinct(cols) ==> Distinct(r)
    decreases |cols|
  {
    if cols == [] then []
    else
      var rest := KeptColumns(cols[1..], expected);
      if cols[0] in expected && cols[0] != "id" then [cols[0]] + rest else rest
  }

  lemma {:induction false} KeptColumnsIdempotent(cols: seq<string>, expected: seq<string>)
    ensures KeptColumns(KeptColumns(cols, expected), expected) == KeptColumns(cols, expected)
    decreases |cols|
  {
    if cols != [] {
      KeptColumnsIdempotent(cols[1..], expected);
      var rest := KeptColumns(cols[1..], expected);
      if cols[0] in expected && cols[0] != "id" {
        assert ([cols[0]] + rest)[1..] == rest;
      }
    }
  }

  /**
    trim_columns on a copy of the frame: every row keeps exactly the kept columns with
    their cells; the rows and their order are unchanged.
   */
  function TrimColumns(f: Frame, expected: seq<string>): (r: Frame)
    requires WellFormed(f)
    ensures WellFormed(r) && |r.rows| == |f.rows|
    ensures r.columns == KeptColumns(f.columns, expected)
    ensures forall i, c :: 0 <= i < |r.rows| && c in r.rows[i] ==> c in f.rows[i] && r.rows[i][c] == f.rows[i][c]
  {
    var kept := KeptColumns(f.columns, expected);
    var keep := ColumnSet(kept);
    Frame(kept, seq(|f.rows|, i requires 0 <= i < |f.rows| => map c | c in f.rows[i] && c in keep :: f.rows[i][c]))
  }

  /** Trimming twice is trimming once. */
  lemma TrimIdempotent(f: Frame, expected: seq<string>)
    requires WellFormed(f)
    ensures TrimColumns(TrimColumns(f, expected), expected) == TrimColumns(f, expected)
  {
    var once := TrimColumns(f, expected);
    KeptColumnsIdempotent(f.columns, expected);
    var twice := TrimColumns(once, expected);
    forall i | 0 <= i < |once.rows|
      ensures twice.rows[i] == once.rows[i]
    {
      assert twice.rows[i].Keys == once.rows[i].Keys;
    }
  }

  /** The database session: the rows committed so far, and which rows it refuses. */
  class Session {
    var committed: seq<Row>
    /** Whether building the table record from the row or committing it raises. */
    const refuses: (seq<Row>, Row) -> bool

    constructor (refuses: (seq<Row>, Row) -> bool)
      ensures committed == [] && this.refuses == refuses
    {
      committed := [];
      this.refuses := refuses;
    }

    /** session.add(d); session.commit(): either the row is stored or nothing changes. */
    method Commit(row: Row) returns (ok: bool)
      modifies this
      ensures ok <==> !refuses(old(committed), row)
      ensures committed == if ok then old(committed) + [row] else old(committed)
    {
      ok := !refuses(committed, row);
      if ok {
        committed := committed + [row];
      }
    }
  }

  /** What the submission loop has done so far. */
  datatype Tally = Tally(committed: seq<Row>, uploaded: nat, errors: seq<UploadError>)

  /** The state after a run of the loop, and the exception that ended it early, if any. */
  datatype Run = Run(tally: Tally, failure: Option<UploadError>)

  /** The inner loop over the rows of one built frame. */
  function AddRows(t: Tally, rows: seq<Row>, refuses: (seq<Row>, Row) -> bool, debug: bool): Run
    decreases |rows|
  {
    if rows == [] then Run(t, None)
    else if refuses(t.committed, rows[0]) then
      if debug then Run(t, Some(Rejected(rows[0])))
      else AddRows(Tally(t.committed, t.uploaded, t.errors + [Rejected(rows[0])]), rows[1..], refuses, debug)
    else AddRows(Tally(t.committed + [rows[0]], t.uploaded + 1, t.errors), rows[1..], refuses, debug)
  }

  /** Carry on with the remaining names unless the loop has already stopped. */
  function Continue(r: Run, names: seq<string>, build: string -> Result<Frame, UploadError>,
                    refuses: (seq<Row>, Row) -> bool, debug: bool): Run
    decreases |names| + 1, 0
  {
    if r.failure.Some? then r else SubmitNames(r.tally, names, build, refuses, debug)
  }

  /** The outer loop: build the frame of each data name and add its rows. */
  function SubmitNames(t: Tally, names: seq<string>, build: string -> Result<Frame, UploadError>,
                       refuses: (seq<Row>, Row) -> bool, debug: bool): Run
    decreases |names|, 1
  {
    if names == [] then Run(t, None)
    else match build(names[0])
      case Failure(e) => Run(t, Some(e))
      case Success(f) => Continue(AddRows(t, f.rows, refuses, debug), names[1..], build, refuses, debug)
  }

  /** The number of rows the built frames hold. */
  function RowCount(names: seq<string>, build: string -> Result<Frame, UploadError>): nat
    decreases |names|
  {
    if names == [] then 0
    else (if build(names[0]).Success? then |build(names[0]).value.rows| else 0) + RowCount(names[1..], build)
  }

  /**
    One run over some rows: `uploaded` grows exactly with the committed rows, which are
    taken from the input in order; without debug every row is attempted and each one is
    either uploaded or recorded as an error; with debug no error is recorded and the
    loop stops at the first refused row.
   */
  lemma {:induction false} AddRowsAccounting(t: Tally, rows: seq<Row>, refuses: (seq<Row>, Row) -> bool, debug: bool)
    ensures var r := AddRows(t, rows, refuses, debug);
      && |t.committed| <= |r.tally.committed| && r.tally.committed[..|t.committed|] == t.committed
      && r.tally.uploaded - t.uploaded == |r.tally.committed| - |t.committed|
      && (forall k :: |t.committed| <= k < |r.tally.committed| ==> r.tally.committed[k] in rows)
      && (!debug ==> r.failure.None? && r.tally.uploaded + |r.tally.errors| == t.uploaded + |t.errors| + |rows|)
      && (debug ==> r.tally.errors == t.errors)
      && (r.failure.Some? ==> exists k :: 0 <= k < |rows| && r.failure == Some(Rejected(rows[k])))
    decreases |rows|
  {
    if rows != [] {
      var next := if refuses(t.committed, rows[0]) then
                    Tally(t.committed, t.uploaded, t.errors + [Rejected(rows[0])])
                  else Tally(t.committed + [rows[0]], t.uploaded + 1, t.errors);
      if !(debug && refuses(t.committed, rows[0])) {
        AddRowsAccounting(next, rows[1..], refuses, debug);
        var r := AddRows(next, rows[1..], refuses, debug);
        assert r.tally.committed[..|t.committed|] == r.tally.committed[..|next.committed|][..|t.committed|];
        forall k | |t.committed| <= k < |r.tally.committed|
          ensures r.tally.committed[k] in rows
        {
          if k >= |next.committed| {
            assert r.tally.committed[k] in rows[1..];
          }
        }
        if r.failure.Some? {
          var k :| 0 <= k < |rows[1..]| && r.failure == Some(Rejected(rows[1..][k]));
          assert r.failure == Some(Rejected(rows[k + 1]));
        }
      } else {
        assert AddRows(t, rows, refuses, debug).failure == Some(Rejected(rows[0]));
      }
    }
  }

  /**
    The whole submission: without debug every name is built and every row attempted
    (the loop ends early only when building a frame fails), and `uploaded` plus the
    number of errors is the number of rows; with debug no error is ever recorded.
   */
  lemma {:induction false} SubmitAccounting(t: Tally, names: seq<string>, build: string -> Result<Frame, UploadError>,
                                            refuses: (seq<Row>, Row) -> bool, debug: bool)
    ensures var r := SubmitNames(t, names, build, refuses, debug);
      && |t.committed| <= |r.tally.committed| && r.tally.committed[..|t.committed|] == t.committed
      && r.tally.uploaded - t.uploaded == |r.tally.committed| - |t.committed|
      && (debug ==> r.tally.errors == t.errors)
      && (!debug ==> (r.failure.None? <==> forall n :: n in names ==> build(n).Success?))
      && (!debug && r.failure.None? ==>
            r.tally.uploaded + |r.tally.errors| == t.uploaded + |t.errors| + RowCount(names, build))
    decreases |names|
  {
    if names != [] && build(names[0]).Success? {
      var f := build(names[0]).value;
      AddRowsAccounting(t, f.rows, refuses, debug);
      var a := AddRows(t, f.rows, refuses, debug);
      if a.failure.None? {
        SubmitAccounting(a.tally, names[1..], build, refuses, debug);
        var r := SubmitNames(a.tally, names[1..], build, refuses, debug);
        assert r.tally.committed[..|t.committed|] == r.tally.committed[..|a.tally.committed|][..|t.committed|];
        assert forall n :: n in names <==> n == names[0] || n in names[1..];
      }
    }
  }

  /**
    Row k is the first row the session refuses when the rows before it are committed one
    after another.
   */
  ghost predicate FirstRefused(committed: seq<Row>, rows: seq<Row>, refuses: (seq<Row>, Row) -> bool, k: int) {
    && 0 <= k < |rows|
    && refuses(committed + rows[..k], rows[k])
    && forall j :: 0 <= j < k ==> !refuses(committed + rows[..j], rows[j])
  }

  /**
    One run over some rows in debug mode: with no exception every row is committed, in
    order; otherwise the exception is the first refused row, the rows before it are
    committed and the rows after it are never tried.
   */
  lemma {:induction false} AddRowsDebug(t: Tally, rows: seq<Row>, refuses: (seq<Row>, Row) -> bool)
    ensures var r := AddRows(t, rows, refuses, true);
      r.failure.None? ==> r.tally.committed == t.committed + rows && r.tally.uploaded == t.uploaded + |rows|
    ensures var r := AddRows(t, rows, refuses, true);
      r.failure.Some? ==> exists k :: (
        && FirstRefused(t.committed, rows, refuses, k)
        && r.failure == Some(Rejected(rows[k]))
        && r.tally.committed == t.committed + rows[..k] && r.tally.uploaded == t.uploaded + k)
    decreases |rows|
  {
    if rows == [] {
      assert t.committed + rows == t.committed;
    } else if refuses(t.committed, rows[0]) {
      assert t.committed + rows[..0] == t.committed;
      assert FirstRefused(t.committed, rows, refuses, 0);
    } else {
      var next := Tally(t.committed + [rows[0]], t.uploaded + 1, t.errors);
      AddRowsDebug(next, rows[1..], refuses);
      var r := AddRows(next, rows[1..], refuses, true);
      assert AddRows(t, rows, refuses, true) == r;
      if r.failure.None? {
        assert next.committed + rows[1..] == t.committed + rows;
      } else {
        var k :| FirstRefused(next.committed, rows[1..], refuses, k)
          && r.failure == Some(Rejected(rows[1..][k]))
          && r.tally.committed == next.committed + rows[1..][..k] && r.tally.uploaded == next.uploaded + k;
        FirstRefusedCons(t.committed, rows, refuses, k);
      }
    }
  }

  /** A row the session accepts, in front of rows whose first refusal is k, moves it to k + 1. */
  lemma FirstRefusedCons(c: seq<Row>, rows: seq<Row>, refuses: (seq<Row>, Row) -> bool, k: int)
    requires |rows| > 0 && !refuses(c, rows[0]) && FirstRefused(c + [rows[0]], rows[1..], refuses, k)
    ensures FirstRefused(c, rows, refuses, k + 1)
    ensures c + rows[..k + 1] == (c + [rows[0]]) + rows[1..][..k]
  {
    forall j | 0 <= j <= k + 1
      ensures c + rows[..j] == if j == 0 then c else (c + [rows[0]]) + rows[1..][..j - 1]
    {
      if j > 0 {
        assert rows[..j] == [rows[0]] + rows[1..][..j - 1];
      } else {
        assert rows[..j] == [];
      }
    }
  }

  /** The rows of the built frames, one frame after another. */
  function BuiltRows(names: seq<string>, build: string -> Result<Frame, UploadError>): (r: seq<Row>)
    ensures |r| == RowCount(names, build)
    decreases |names|
  {
    if names == [] then []
    else (if build(names[0]).Success? then build(names[0]).value.rows else []) + BuiltRows(names[1..], build)
  }

  /**
    The whole submission in debug mode: when no exception ends it, every row of every
    built frame is committed in order, `uploaded` counts all of them and no error is
    recorded.
   */
  lemma {:induction false} SubmitDebug(t: Tally, names: seq<string>, build: string -> Result<Frame, UploadError>,
                                       refuses: (seq<Row>, Row) -> bool)
    ensures var r := SubmitNames(t, names, build, refuses, true);
      r.failure.None? ==>
        && r.tally.committed == t.committed + BuiltRows(names, build)
        && r.tally.uploaded == t.uploaded + RowCount(names, build)
        && r.tally.errors == t.errors
    decreases |names|
  {
    if names != [] && build(names[0]).Success? {
      var f := build(names[0]).value;
      AddRowsDebug(t, f.rows, refuses);
      AddRowsAccounting(t, f.rows, refuses, true);
      var a := AddRows(t, f.rows, refuses, true);
      if a.failure.None? {
        SubmitDebug(a.tally, names[1..], build, refuses);
        assert t.committed + f.rows + BuiltRows(names[1..], build) == t.committed + BuiltRows(names, build);
      }
    }
  }

  /** One step of the inner loop, on the rows from position k on. */
  lemma AddRowsFrom(t: Tally, rows: seq<Row>, k: int, refuses: (seq<Row>, Row) -> bool, debug: bool)
    requires 0 <= k < |rows|
    ensures AddRows(t, rows[k..], refuses, debug) ==
      if !refuses(t.committed, rows[k]) then AddRows(Tally(t.committed + [rows[k]], t.uploaded + 1, t.errors), rows[k + 1..], refuses, debug)
      else if debug then Run(t, Some(Rejected(rows[k])))
      else AddRows(Tally(t.committed, t.uploaded, t.errors + [Rejected(rows[k])]), rows[k + 1..], refuses, debug)
  {
    assert rows[k..][1..] == rows[k + 1..];
  }

  /** The uploader's counters and the settings the submission loop reads. */
  class Uploader {
    var uploaded: nat
    var errors: seq<UploadError>
    const dataNames: seq<string>
    const debug: bool

    constructor (dataNames: seq<string>, debug: bool)
      ensures uploaded == 0 && errors == []
      ensures this.dataNames == dataNames && this.debug == debug
    {
      uploaded := 0;
      errors := [];
      this.dataNames := dataNames;
      this.debug := debug;
    }

    /** add_one: commit the row; `uploaded` grows only when the commit succeeded. */
    method AddOne(session: Session, data: Row) returns (failure: Option<UploadError>)
      modifies this`uploaded, session
      ensures failure == if session.refuses(old(session.committed), data) then Some(Rejected(data)) else None
      ensures session.committed == if failure.None? then old(session.committed) + [data] else old(session.committed)
      ensures uploaded == if failure.None? then old(uploaded) + 1 else old(uploaded)
    {
      var ok := session.Commit(data);
      if ok {
        uploaded := uploaded + 1;
        failure := None;
      } else {
        failure := Some(Rejected(data));
      }
    }

    /**
      submit: for each data name, build its frame and add every row. Without debug a
      refused row is appended to `errors` and the loop goes on; with debug it ends the
      loop. A frame that cannot be built ends it in both modes.
     */
    method Submit(session: Session, build: string -> Result<Frame, UploadError>) returns (failure: Option<UploadError>)
      modifies this`uploaded, this`errors, session
      ensures var r := SubmitNames(Tally(old(session.committed), old(uploaded), old(errors)), dataNames, build, session.refuses, debug);
        Run(Tally(session.committed, uploaded, errors), failure) == r
    {
      ghost var goal := SubmitNames(Tally(session.committed, uploaded, errors), dataNames, build, session.refuses, debug);
      failure := None;
      var j := 0;
      while j < |dataNames|
        invariant 0 <= j <= |dataNames|
        invariant Continue(Run(Tally(session.committed, uploaded, errors), None), dataNames[j..], build, session.refuses, debug) == goal
      {
        assert dataNames[j..][1..] == dataNames[j + 1..];
        var built := build(dataNames[j]);
        if built.Failure? {
          failure := Some(built.error);
          return;
        }
        var rows := built.value.rows;
        var k := 0;
        while k < |rows|
          invariant 0 <= k <= |rows|
          invariant Continue(AddRows(Tally(session.committed, uploaded, errors), rows[k..], session.refuses, debug),
                             dataNames[j + 1..], build, session.refuses, debug) == goal
        {
          AddRowsFrom(Tally(session.committed, uploaded, errors), rows, k, session.refuses, debug);
          var e := AddOne(session, rows[k]);
          if e.Some? {
            if debug {
              failure := e;
              return;
            }
            errors := errors + [e.value];
          }
          k := k + 1;
        }
        j := j + 1;
      }
    }
  }
}

// The scan of the notice listing (scanner.py). Each listing row carries the link to a
// notice and its publication date. A row without a link is skipped. Otherwise the
// notice id is the text after the last "iRfxRound=" in the link, the date (its first
// 16 characters) is read with strptime, and when the id is not yet in the store a
// scraping task is created for `BASEURL + id + "/" + timestamp`, to fire
// `in_seconds` from now, after which `in_seconds` grows by 15. A date strptime rejects
// raises an exception nothing catches, which ends the scan with the tasks created so far.
//
// The store is the set of known ids (the scan only reads it), the task queue is the
// sequence of tasks created, and `time.mktime` is a parameter from the date to the
// whole number of seconds it returns.

module Scanner {
  import opened Optional
  import opened PyText
  import opened Calendar
  import opened NoticeFields

  /** `time_in_between` */
  const Spacing := 15

  /** A listing row: the details link (empty when the row has none) and the text of its
      publication-date cell. */
  datatype Row = Row(link: string, dateText: string)

  /** A scraping task: the address it calls and its delay in seconds from now. */
  datatype Task = Task(url: string, delay: int)

  /** An entry of `notices`. */
  datatype Notice = Notice(tenderId: string, datePublished: string)

  /** `in_seconds`, the tasks created and `notices`. */
  datatype ScanState = ScanState(inSeconds: int, tasks: seq<Task>, notices: seq<Notice>)

  /** Where the scan stands after some rows: `running` is false once it has raised. */
  datatype Outcome = Outcome(state: ScanState, running: bool)

  const Initial := ScanState(Spacing, [], [])

  /** `url.split("iRfxRound=")[-1]`: the text after the last "iRfxRound=", or the whole
      link when it has none. */
  function RowId(link: string): (r: string)
    ensures var k := RFind(link, RoundField);
      r == if k < 0 then link else link[k + |RoundField|..]
  {
    assert UniqueHead(RoundField);
    LastPieceAfterLast(link, RoundField);
    LastPiece(link, RoundField)
  }

  /** `str(t)[:-2]` for the float `t` mktime returns: dropping the trailing ".0" leaves
      the whole-second value. */
  function TimestampText(t: int): (r: string)
    ensures r == IntToString(t)
  {
    var s := IntToString(t) + ".0";
    assert s[..|s| - 2] == IntToString(t);
    SliceTo(s, -2)
  }

  /** `datetime.datetime.strptime(date_published_string[:16], "%Y-%m-%d %H:%M")` */
  function RowDate(row: Row): (r: Option<DateTime>)
    ensures r.Some? ==> Valid(r.value)
  {
    Strptime(SliceTo(row.dateText, 16))
  }

  /** One row of the scan; None when it raises. */
  function Step(st: ScanState, row: Row, baseUrl: string, known: set<string>,
                mktime: DateTime -> int): Option<ScanState>
  {
    if row.link == "" then Some(st)
    else
      var id := RowId(row.link);
      match RowDate(row)
      case None => None
      case Some(dt) =>
        if id in known then Some(st)
        else
          var ts := TimestampText(mktime(dt));
          Some(ScanState(st.inSeconds + Spacing,
                         st.tasks + [Task(baseUrl + id + "/" + ts, st.inSeconds)],
                         st.notices + [Notice(id, ts)]))
  }

  /** The scan of a listing, row by row from the top, stopping at the first raise. */
  function ScanOf(rows: seq<Row>, baseUrl: string, known: set<string>, mktime: DateTime -> int): Outcome
    decreases |rows|
  {
    if rows == [] then Outcome(Initial, true)
    else
      var o := ScanOf(rows[..|rows| - 1], baseUrl, known, mktime);
      if !o.running then o
      else match Step(o.state, rows[|rows| - 1], baseUrl, known, mktime)
        case None => Outcome(o.state, false)
        case Some(st) => Outcome(st, true)
  }

  /** The body of the scan loop for one row: None where it raises. */
  method ScanRow(st: ScanState, row: Row, baseUrl: string, known: set<string>, mktime: DateTime -> int)
    returns (next: Option<ScanState>)
    ensures next == Step(st, row, baseUrl, known, mktime)
  {
    if row.link == "" {
      StepKept(st, row, baseUrl, known, mktime);
      return Some(st);
    }
    var id := RowId(row.link);
    var date := RowDate(row);
    if date.None? {
      return None;
    }
    if id in known {
      StepKept(st, row, baseUrl, known, mktime);
      return Some(st);
    }
    var ts := TimestampText(mktime(date.value));
    var url := baseUrl + id + "/" + ts;
    StepNew(st, row, id, date.value, ts, baseUrl, known, mktime);
    next := Some(ScanState(st.inSeconds + Spacing, st.tasks + [Task(url, st.inSeconds)],
                           st.notices + [Notice(id, ts)]));
  }

  /** The scan loop. It returns the tasks created, `notices`, and whether it went
      through the whole listing. */
  method Scan(rows: seq<Row>, baseUrl: string, known: set<string>, mktime: DateTime -> int)
    returns (tasks: seq<Task>, notices: seq<Notice>, completed: bool)
    ensures Outcome(ScanState(Spacing * (|tasks| + 1), tasks, notices), completed)
      == ScanOf(rows, baseUrl, known, mktime)
  {
    var inSeconds := Spacing;
    tasks, notices := [], [];
    var i := 0;
    while i < |rows|
      invariant 0 <= i <= |rows|
      invariant Outcome(ScanState(inSeconds, tasks, notices), true) == ScanOf(rows[..i], baseUrl, known, mktime)
      invariant inSeconds == Spacing * (|tasks| + 1)
    {
      var st := ScanState(inSeconds, tasks, notices);
      var next := ScanRow(st, rows[i], baseUrl, known, mktime);
      ScanNext(rows, i, st, baseUrl, known, mktime);
      if next.None? {
        AbortStays(rows, i + 1, baseUrl, known, mktime);
        completed := false;
        return;
      }
      StepSpacing(st, rows[i], baseUrl, known, mktime);
      inSeconds, tasks, notices := next.value.inSeconds, next.value.tasks, next.value.notices;
      i := i + 1;
    }
    assert rows[..i] == rows;
    completed := true;
  }

  /** Proof step: one more row of a running scan is one `Step`. */
  lemma ScanNext(rows: seq<Row>, i: nat, st: ScanState, baseUrl: string, known: set<string>,
                 mktime: DateTime -> int)
    requires i < |rows| && ScanOf(rows[..i], baseUrl, known, mktime) == Outcome(st, true)
    ensures ScanOf(rows[..i + 1], baseUrl, known, mktime)
      == match Step(st, rows[i], baseUrl, known, mktime)
         case None => Outcome(st, false)
         case Some(next) => Outcome(next, true)
  {
    assert rows[..i + 1][..i] == rows[..i];
  }

  /** Proof step: a step keeps `in_seconds` at 15 seconds past the last task. */
  lemma StepSpacing(st: ScanState, row: Row, baseUrl: string, known: set<string>, mktime: DateTime -> int)
    requires st.inSeconds == Spacing * (|st.tasks| + 1)
    ensures var r := Step(st, row, baseUrl, known, mktime);
      r.Some? ==> r.value.inSeconds == Spacing * (|r.value.tasks| + 1)
  {
  }

  /** A step raises exactly when the row is linked and its date is unreadable.
      Otherwise it keeps the tasks and notices there were and adds one task, with its
      notice, exactly when the row is linked and its id is not in the store; each task
      added moves `in_seconds` on by 15. */
  lemma StepShape(st: ScanState, row: Row, baseUrl: string, known: set<string>, mktime: DateTime -> int)
    ensures var r := Step(st, row, baseUrl, known, mktime);
      && (r.None? <==> row.link != "" && RowDate(row).None?)
      && (r.Some? ==> st.tasks <= r.value.tasks && st.notices <= r.value.notices)
      && (r.Some? ==> |r.value.tasks| - |st.tasks| == |r.value.notices| - |st.notices| <= 1)
      && (r.Some? ==> r.value.inSeconds == st.inSeconds + Spacing * (|r.value.tasks| - |st.tasks|))
      && (r.Some? ==> (|r.value.tasks| == |st.tasks| + 1 <==> row.link != "" && RowId(row.link) !in known))
  {
  }

  /** Proof step: a new id with a readable date adds its task and notice. */
  lemma StepNew(st: ScanState, row: Row, id: string, dt: DateTime, ts: string, baseUrl: string,
                known: set<string>, mktime: DateTime -> int)
    requires row.link != "" && id == RowId(row.link) && RowDate(row) == Some(dt) && id !in known
    requires ts == TimestampText(mktime(dt))
    ensures Step(st, row, baseUrl, known, mktime)
      == Some(ScanState(st.inSeconds + Spacing, st.tasks + [Task(baseUrl + id + "/" + ts, st.inSeconds)],
                        st.notices + [Notice(id, ts)]))
  {
  }

  /** Proof step: a row without a link, or with a known id and a readable date, changes
      nothing. */
  lemma StepKept(st: ScanState, row: Row, baseUrl: string, known: set<string>, mktime: DateTime -> int)
    requires row.link == "" || (RowId(row.link) in known && RowDate(row).Some?)
    ensures Step(st, row, baseUrl, known, mktime) == Some(st)
  {
  }

  /** Once the scan has raised, later rows change nothing. */
  lemma {:induction false} AbortStays(rows: seq<Row>, k: nat, baseUrl: string, known: set<string>,
                                      mktime: DateTime -> int)
    requires k <= |rows| && !ScanOf(rows[..k], baseUrl, known, mktime).running
    ensures ScanOf(rows, baseUrl, known, mktime) == ScanOf(rows[..k], baseUrl, known, mktime)
    decreases |rows| - k
  {
    if k < |rows| {
      assert rows[..k + 1][..k] == rows[..k];
      AbortStays(rows, k + 1, baseUrl, known, mktime);
    } else {
      assert rows[..k] == rows;
    }
  }

  // ---------------------------------------------------------------------------
  // What the scan promises

  /** The rows the scan can read: a linked row whose date strptime accepts. */
  predicate Readable(row: Row) {
    row.link != "" ==> RowDate(row).Some?
  }

  /** The ids of the linked rows not yet in the store, in listing order. */
  function NewIds(rows: seq<Row>, known: set<string>): seq<string> {
    if rows == [] then []
    else
      var last := rows[|rows| - 1];
      NewIds(rows[..|rows| - 1], known)
        + (if last.link != "" && RowId(last.link) !in known then [RowId(last.link)] else [])
  }

  /** The notice a row records: for a linked row with a readable date whose id is not
      in the store, its id and the timestamp of its date; nothing otherwise. */
  function RowNotice(row: Row, known: set<string>, mktime: DateTime -> int): seq<Notice> {
    match RowDate(row)
    case Some(dt) =>
      if row.link != "" && RowId(row.link) !in known
      then [Notice(RowId(row.link), TimestampText(mktime(dt)))] else []
    case None => []
  }

  /** The notices of a listing's rows, in listing order. */
  function NewNotices(rows: seq<Row>, known: set<string>, mktime: DateTime -> int): seq<Notice> {
    if rows == [] then []
    else NewNotices(rows[..|rows| - 1], known, mktime) + RowNotice(rows[|rows| - 1], known, mktime)
  }

  function TenderIds(notices: seq<Notice>): seq<string> {
    if notices == [] then [] else TenderIds(notices[..|notices| - 1]) + [notices[|notices| - 1].tenderId]
  }

  /** The delay, address and notice of each created task. */
  predicate Consistent(st: ScanState, baseUrl: string) {
    && |st.tasks| == |st.notices|
    && st.inSeconds == Spacing * (|st.tasks| + 1)
    && forall k :: 0 <= k < |st.tasks| ==>
         && st.tasks[k].delay == Spacing * (k + 1)
         && st.tasks[k].url == baseUrl + st.notices[k].tenderId + "/" + st.notices[k].datePublished
  }

  /** Every scan state is consistent: the k-th task (from 0) fires 15·(k+1) seconds
      from now, its address is the base address, the id, "/" and the timestamp of the
      matching notice, and there are as many notices as tasks. */
  lemma {:induction false} ScanConsistent(rows: seq<Row>, baseUrl: string, known: set<string>,
                                          mktime: DateTime -> int)
    ensures Consistent(ScanOf(rows, baseUrl, known, mktime).state, baseUrl)
    decreases |rows|
  {
    if rows != [] {
      ScanConsistent(rows[..|rows| - 1], baseUrl, known, mktime);
    }
  }

  /** The scan runs through the listing exactly when every linked row has a date
      strptime accepts. */
  lemma {:induction false} CompletesIff(rows: seq<Row>, baseUrl: string, known: set<string>,
                                        mktime: DateTime -> int)
    ensures ScanOf(rows, baseUrl, known, mktime).running <==> forall r :: r in rows ==> Readable(r)
    decreases |rows|
  {
    if rows != [] {
      var init := rows[..|rows| - 1];
      var last := rows[|rows| - 1];
      CompletesIff(init, baseUrl, known, mktime);
      var o := ScanOf(init, baseUrl, known, mktime);
      assert Step(o.state, last, baseUrl, known, mktime).Some? <==> Readable(last);
      assert rows == init + [last];
      assert forall r :: r in rows <==> r in init || r == rows[|rows| - 1];
    }
  }

  /** When the scan completes, `notices` holds exactly the ids of the linked rows that
      are not in the store, in listing order (an id listed twice appears twice). */
  lemma {:induction false} NoticesAreNewIds(rows: seq<Row>, baseUrl: string, known: set<string>,
                                            mktime: DateTime -> int)
    requires ScanOf(rows, baseUrl, known, mktime).running
    ensures TenderIds(ScanOf(rows, baseUrl, known, mktime).state.notices) == NewIds(rows, known)
    decreases |rows|
  {
    if rows != [] {
      NoticesAreNewIds(rows[..|rows| - 1], baseUrl, known, mktime);
    }
  }

  /** When the scan completes, `notices` is exactly the list of new notices: for each
      linked row whose id is not in the store, in listing order, its id and the
      timestamp of its own date. With `ScanConsistent` this fixes each task's address. */
  lemma {:induction false} NoticesRecordRows(rows: seq<Row>, baseUrl: string, known: set<string>,
                                             mktime: DateTime -> int)
    requires forall r :: r in rows ==> Readable(r)
    ensures ScanOf(rows, baseUrl, known, mktime).state.notices == NewNotices(rows, known, mktime)
    decreases |rows|
  {
    if rows != [] {
      var init := rows[..|rows| - 1];
      var last := rows[|rows| - 1];
      assert forall r :: r in init ==> r in rows;
      assert last in rows;
      NoticesRecordRows(init, baseUrl, known, mktime);
      CompletesIff(init, baseUrl, known, mktime);
      var st := ScanOf(init, baseUrl, known, mktime).state;
      ScanNext(rows, |rows| - 1, st, baseUrl, known, mktime);
      StepNotices(st, last, baseUrl, known, mktime);
    }
  }

  /** Proof step: a readable row adds its own notice and nothing else. */
  lemma StepNotices(st: ScanState, row: Row, baseUrl: string, known: set<string>, mktime: DateTime -> int)
    requires Readable(row)
    ensures var r := Step(st, row, baseUrl, known, mktime);
      r.Some? && r.value.notices == st.notices + RowNotice(row, known, mktime)
  {
    if row.link != "" && RowId(row.link) !in known {
      var dt := RowDate(row).value;
      StepNew(st, row, RowId(row.link), dt, TimestampText(mktime(dt)), baseUrl, known, mktime);
    } else {
      StepKept(st, row, baseUrl, known, mktime);
    }
  }

  /** Ids already in the store never get a task. */
  lemma {:induction false} KnownNeverScheduled(rows: seq<Row>, baseUrl: string, known: set<string>,
                                               mktime: DateTime -> int)
    ensures forall n :: n in ScanOf(rows, baseUrl, known, mktime).state.notices ==> n.tenderId !in known
    decreases |rows|
  {
    if rows != [] {
      KnownNeverScheduled(rows[..|rows| - 1], baseUrl, known, mktime);
    }
  }

  /** A row whose id is already stored still has its date read, so a malformed date
      there ends the scan. */
  lemma KnownRowWithBadDateAborts(rows: seq<Row>, row: Row, baseUrl: string, known: set<string>,
                                  mktime: DateTime -> int)
    requires ScanOf(rows, baseUrl, known, mktime).running
    requires row.link != "" && RowId(row.link) in known && RowDate(row).None?
    ensures !ScanOf(rows + [row], baseUrl, known, mktime).running
    ensures ScanOf(rows + [row], baseUrl, known, mktime).state == ScanOf(rows, baseUrl, known, mktime).state
  {
    assert (rows + [row])[..|rows|] == rows;
  }

  /** The store is only read: a new id listed twice is scheduled twice. */
  lemma DuplicateScheduledTwice(row: Row, baseUrl: string, known: set<string>, mktime: DateTime -> int)
    requires row.link != "" && RowId(row.link) !in known && RowDate(row).Some?
    ensures |ScanOf([row, row], baseUrl, known, mktime).state.tasks| == 2
  {
    assert ScanOf([], baseUrl, known, mktime).state.tasks == [];
    assert [] + [row] == [row];
    NewRowScheduled([], row, baseUrl, known, mktime);
    assert [row] + [row] == [row, row];
    NewRowScheduled([row], row, baseUrl, known, mktime);
  }

  /** A linked row with a readable date and a new id adds one task. */
  lemma NewRowScheduled(rows: seq<Row>, row: Row, baseUrl: string, known: set<string>,
                        mktime: DateTime -> int)
    requires ScanOf(rows, baseUrl, known, mktime).running
    requires row.link != "" && RowId(row.link) !in known && RowDate(row).Some?
    ensures ScanOf(rows + [row], baseUrl, known, mktime).running
    ensures |ScanOf(rows + [row], baseUrl, known, mktime).state.tasks|
      == |ScanOf(rows, baseUrl, known, mktime).state.tasks| + 1
  {
    assert (rows + [row])[..|rows|] == rows;
  }

  /** Only the first 16 characters of the date cell are read. */
  lemma RowDateReadsSixteen(link: string, text: string, more: string)
    requires |text| == 16
    ensures RowDate(Row(link, text + more)) == RowDate(Row(link, text))
  {
    FirstSixteen(text, more);
    RowDateOf(Row(link, text + more), text);
    RowDateOf(Row(link, text), text);
  }

  lemma FirstSixteen(text: string, more: string)
    requires |text| == 16
    ensures SliceTo(text + more, 16) == text && SliceTo(text, 16) == text
  {
    assert (text + more)[..16] == text;
  }

  /** Proof step: the date read from a row whose cell starts with `cut`. */
  lemma RowDateOf(row: Row, cut: string)
    requires SliceTo(row.dateText, 16) == cut
    ensures RowDate(row) == Strptime(cut)
  {
  }

  /** A numeric id after "iRfxRound=" at the end of the link is read back as it is. */
  lemma RowIdOfLink(prefix: string, id: string)
    requires AllDigits(id)
    ensures RowId(prefix + RoundField + id) == id
  {
    assert UniqueHead(RoundField);
    DigitsExclude(id, 'i');
    LastPieceOfTail(prefix, RoundField, id);
  }

  /** One new row with a readable date gives one task, fired 15 seconds from now, whose
      address ends with the id and the timestamp of its publication date. */
  lemma SingleNewRow(prefix: string, id: string, date: DateTime, baseUrl: string,
                     known: set<string>, mktime: DateTime -> int)
    requires AllDigits(id) && id !in known && Valid(date) && date.year >= 1000
    ensures var o := ScanOf([Row(prefix + RoundField + id, Strftime(date))], baseUrl, known, mktime);
      && o.running
      && o.state.tasks == [Task(baseUrl + id + "/" + IntToString(mktime(date)), Spacing)]
      && o.state.notices == [Notice(id, IntToString(mktime(date)))]
  {
    var row := Row(prefix + RoundField + id, Strftime(date));
    RowIdOfLink(prefix, id);
    StrptimeStrftime(date);
    assert SliceTo(row.dateText, 16) == Strftime(date);
    assert [row][..0] == [];
  }
}

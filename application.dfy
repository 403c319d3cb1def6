/** The application object: the policy table, the session fields the monitor overwrites line
    by line, the breach check over them, the upload handler that records each decision, and
    the loading of the policy table from the mapping sheet. */
module Application {
  import opened JavaText
  import opened PathMatcher
  import opened LogLines
  import opened Models

  const DataBreachStatus: string := "Data breach"
  const SecureStatus: string := "Secure"

  /** The session fields at one moment. */
  datatype Session = Session(user: string, localPath: string, remotePath: string)

  const InitialSession: Session := Session("", "", "")

  /** The session after a classified line: each event overwrites its own field. */
  function Apply(s: Session, e: LogEvent): Session
  {
    match e
    case UserOpened(u) => s.(user := u)
    case FileUploaded(l) => s.(localPath := l)
    case DirectoryChanged(r) => s.(remotePath := r)
    case Unrecognized => s
  }

  /** A line changes at most one session field, and exactly the one its event names. */
  lemma ApplyChangesOneField(s: Session, e: LogEvent)
    ensures e.Unrecognized? ==> Apply(s, e) == s
    ensures e.UserOpened? ==> Apply(s, e) == Session(e.user, s.localPath, s.remotePath)
    ensures e.FileUploaded? ==> Apply(s, e) == Session(s.user, e.localPath, s.remotePath)
    ensures e.DirectoryChanged? ==> Apply(s, e) == Session(s.user, s.localPath, e.remotePath)
  {
  }

  /** The record of one evaluation: the session snapshot, the time, and the status the
      matcher decides. */
  function Evaluate(t: Table, s: Session, now: int): (r: TransferRecord)
    ensures r.time == now && r.user == s.user
    ensures r.localPath == s.localPath && r.remotePath == s.remotePath
    ensures r.status == DataBreachStatus <==> IsBreach(t, s.localPath, s.remotePath)
    ensures r.status == SecureStatus <==> !IsBreach(t, s.localPath, s.remotePath)
  {
    var status := if IsBreach(t, s.localPath, s.remotePath) then DataBreachStatus else SecureStatus;
    TransferRecord(now, s.user, s.localPath, s.remotePath, status)
  }

  /** What one line appends to the operations: one record when it is an upload. */
  function Emitted(t: Table, s: Session, e: LogEvent, now: int): seq<TransferRecord>
  {
    if e.FileUploaded? then [Evaluate(t, Apply(s, e), now)] else []
  }

  datatype Replayed = Replayed(session: Session, records: seq<TransferRecord>)

  /** The session and the records after the monitor has handled `lines`, line `k` at
      clock reading `clock[k]`, starting from session `s0` with no records. */
  function Replay(t: Table, startTime: int, stampTime: string -> int, s0: Session,
                  lines: seq<string>, clock: seq<int>): Replayed
    requires |clock| == |lines|
  {
    if lines == [] then Replayed(s0, [])
    else
      var before := Replay(t, startTime, stampTime, s0, DropLast(lines), DropLast(clock));
      var e := Classify(Last(lines), startTime, stampTime);
      Replayed(Apply(before.session, e), before.records + Emitted(t, before.session, e, Last(clock)))
  }

  /** The number of lines that count as uploads. */
  function Uploads(startTime: int, stampTime: string -> int, lines: seq<string>): nat
  {
    if lines == [] then 0
    else
      var last := if Classify(Last(lines), startTime, stampTime).FileUploaded? then 1 else 0;
      Uploads(startTime, stampTime, DropLast(lines)) + last
  }

  /** One record per upload line, and records once produced are never changed: the records
      after any first `k` lines are a prefix of the records after all of them. */
  lemma {:induction false} ReplayRecordsGrow(t: Table, startTime: int, stampTime: string -> int,
                                             s0: Session, lines: seq<string>, clock: seq<int>, k: nat)
    requires |clock| == |lines| && k <= |lines|
    ensures |Replay(t, startTime, stampTime, s0, lines, clock).records| == Uploads(startTime, stampTime, lines)
    ensures Replay(t, startTime, stampTime, s0, lines[..k], clock[..k]).records
         <= Replay(t, startTime, stampTime, s0, lines, clock).records
  {
    if lines != [] {
      ReplayRecordsGrow(t, startTime, stampTime, s0, DropLast(lines), DropLast(clock),
                        if k == |lines| then 0 else k);
      if k == |lines| {
        assert lines[..k] == lines && clock[..k] == clock;
      } else {
        assert DropLast(lines)[..k] == lines[..k] && DropLast(clock)[..k] == clock[..k];
      }
    }
  }

  /** Every record carries the status the matcher gives for that record's own paths. */
  lemma {:induction false} ReplayStatusesAgreeWithMatcher(t: Table, startTime: int, stampTime: string -> int,
                                                          s0: Session, lines: seq<string>, clock: seq<int>)
    requires |clock| == |lines|
    ensures forall r :: r in Replay(t, startTime, stampTime, s0, lines, clock).records ==>
      (r.status == DataBreachStatus <==> IsBreach(t, r.localPath, r.remotePath)) &&
      (r.status == SecureStatus <==> !IsBreach(t, r.localPath, r.remotePath))
  {
    if lines != [] {
      ReplayStatusesAgreeWithMatcher(t, startTime, stampTime, s0, DropLast(lines), DropLast(clock));
    }
  }

  /** The current user is never reset: it is the user of the last user line, or the starting
      user when no line has the user shape. */
  lemma {:induction false} ReplayUserIsLastOpened(t: Table, startTime: int, stampTime: string -> int,
                                                  s0: Session, lines: seq<string>, clock: seq<int>, k: int)
    requires |clock| == |lines|
    requires -1 <= k < |lines|
    requires k >= 0 ==> Matches(UserShape, lines[k])
    requires forall j :: k < j < |lines| ==> !Matches(UserShape, lines[j])
    ensures Replay(t, startTime, stampTime, s0, lines, clock).session.user ==
      if k >= 0 then Find(UserShape, lines[k]).value else s0.user
  {
    if lines != [] {
      var e := Classify(Last(lines), startTime, stampTime);
      ClassifyCases(Last(lines), startTime, stampTime);
      if k < |lines| - 1 {
        ReplayUserIsLastOpened(t, startTime, stampTime, s0, DropLast(lines), DropLast(clock), k);
        assert !e.UserOpened?;
      }
    }
  }

  /** Lines without a leading stamp never trigger an evaluation. */
  lemma {:induction false} UnstampedLogHasNoRecords(t: Table, startTime: int, stampTime: string -> int,
                                                    s0: Session, lines: seq<string>, clock: seq<int>)
    requires |clock| == |lines| && startTime > 0
    requires forall j :: 0 <= j < |lines| ==> !HasDatePrefix(lines[j])
    ensures Replay(t, startTime, stampTime, s0, lines, clock).records == []
  {
    if lines != [] {
      UnstampedLogHasNoRecords(t, startTime, stampTime, s0, DropLast(lines), DropLast(clock));
      UnstampedLineNeverUploads(Last(lines), startTime, stampTime);
    }
  }

  lemma ReplaySnoc(t: Table, startTime: int, stampTime: string -> int, s0: Session,
                   lines: seq<string>, clock: seq<int>, k: nat)
    requires |clock| == |lines| && k < |lines|
    ensures var before := Replay(t, startTime, stampTime, s0, lines[..k], clock[..k]);
      var e := Classify(lines[k], startTime, stampTime);
      Replay(t, startTime, stampTime, s0, lines[..k + 1], clock[..k + 1]) ==
        Replayed(Apply(before.session, e), before.records + Emitted(t, before.session, e, clock[k]))
  {
    assert DropLast(lines[..k + 1]) == lines[..k] && DropLast(clock[..k + 1]) == clock[..k];
  }

  /** Handling line `k` after the first `k` lines gives the replay of the first `k + 1`. */
  lemma ReplayStep(t: Table, startTime: int, stampTime: string -> int, s0: Session,
                   lines: seq<string>, clock: seq<int>, k: nat, base: seq<TransferRecord>,
                   session: Session, records: seq<TransferRecord>,
                   session': Session, records': seq<TransferRecord>)
    requires |clock| == |lines| && k < |lines|
    requires var before := Replay(t, startTime, stampTime, s0, lines[..k], clock[..k]);
      session == before.session && records == base + before.records
    requires session' == Apply(session, Classify(lines[k], startTime, stampTime))
    requires records' == records + Emitted(t, session, Classify(lines[k], startTime, stampTime), clock[k])
    ensures var after := Replay(t, startTime, stampTime, s0, lines[..k + 1], clock[..k + 1]);
      session' == after.session && records' == base + after.records
  {
    ReplaySnoc(t, startTime, stampTime, s0, lines, clock, k);
  }

  lemma ReadPairsSnoc(rows: seq<seq<string>>, r: nat)
    requires r < |rows|
    ensures ReadPairs(rows[..r + 1]) ==
      var (pairs, ok) := ReadPairs(rows[..r]);
      if !ok then (pairs, false) else (pairs + RowPairs(rows[r]), |rows[r]| % 2 == 0)
  {
    assert DropLast(rows[..r + 1]) == rows[..r];
  }

  /** Once the read has failed, later rows are not read. */
  lemma {:induction false} ReadPairsStopsAtFailure(rows: seq<seq<string>>, r: nat)
    requires r <= |rows| && !ReadPairs(rows[..r]).1
    ensures ReadPairs(rows) == ReadPairs(rows[..r])
  {
    if r < |rows| {
      assert DropLast(rows)[..r] == rows[..r];
      ReadPairsStopsAtFailure(DropLast(rows), r);
    } else {
      assert rows[..r] == rows;
    }
  }

  /** Folding two runs of pairs one after the other is folding their concatenation. */
  lemma {:induction false} FoldPairsAppend(t: Table, a: seq<(string, string)>, b: seq<(string, string)>)
    ensures FoldPairs(t, a + b) == FoldPairs(FoldPairs(t, a), b)
  {
    if b != [] {
      FoldPairsAppend(t, a, DropLast(b));
      assert DropLast(a + b) == a + DropLast(b);
    } else {
      assert a + b == a;
    }
  }

  lemma FoldPairsSnoc(t: Table, pairs: seq<(string, string)>, key: string, value: string)
    ensures FoldPairs(t, pairs + [(key, value)]) == AddPair(FoldPairs(t, pairs), key, value)
  {
    assert DropLast(pairs + [(key, value)]) == pairs;
  }

  class SecurityApplication {
    /** Local prefix -> remote prefixes it may send to. */
    var resourceMap: Table
    var currentUser: string
    var currentLocalPath: string
    var currentRemotePath: string
    /** The rows appended to the operations sheet, oldest first. */
    var operations: seq<TransferRecord>
    /** The date format's reading of a `yyyy-MM-dd HH:mm:ss` stamp, in milliseconds. */
    const stampTime: string -> int

    constructor (stampTime: string -> int)
      ensures resourceMap == map[] && Snapshot() == InitialSession && operations == []
      ensures this.stampTime == stampTime
    {
      resourceMap := map[];
      currentUser, currentLocalPath, currentRemotePath := "", "", "";
      operations := [];
      this.stampTime := stampTime;
    }

    /** The session fields as a value. */
    function Snapshot(): Session
      reads this
    {
      Session(currentUser, currentLocalPath, currentRemotePath)
    }

    /** One cell pair of the mapping sheet joins the table. */
    method InsertPair(key: string, value: string)
      modifies this
      ensures resourceMap == AddPair(old(resourceMap), key, value)
      ensures key in resourceMap && resourceMap[key] == Allowed(old(resourceMap), key) + {value}
      ensures Snapshot() == old(Snapshot()) && operations == old(operations)
    {
      if key in resourceMap {
        resourceMap := resourceMap[key := resourceMap[key] + {value}];
      } else {
        assert Allowed(resourceMap, key) + {value} == {value};
        resourceMap := resourceMap[key := {value}];
      }
    }

    /** Reads the sheet row by row, two cells at a time; `ok` is false when a row ends on a
        key without a value, which abandons the rest of the sheet. */
    method InitializeMappingSheet(rows: seq<seq<string>>) returns (ok: bool)
      modifies this
      ensures resourceMap == FoldPairs(old(resourceMap), ReadPairs(rows).0)
      ensures ok == ReadPairs(rows).1
      ensures Snapshot() == old(Snapshot()) && operations == old(operations)
    {
      var r := 0;
      while r < |rows|
        invariant 0 <= r <= |rows|
        invariant ReadPairs(rows[..r]).1
        invariant resourceMap == FoldPairs(old(resourceMap), ReadPairs(rows[..r]).0)
        invariant Snapshot() == old(Snapshot()) && operations == old(operations)
      {
        ReadPairsSnoc(rows, r);
        FoldPairsAppend(old(resourceMap), ReadPairs(rows[..r]).0, RowPairs(rows[r]));
        var complete := ReadRowCells(rows[r]);
        if !complete {
          ReadPairsStopsAtFailure(rows, r + 1);
          return false;
        }
        r := r + 1;
      }
      assert rows[..r] == rows;
      return true;
    }

    /** The cells of one row, read as (key, value) pairs; `complete` is false when the last
        key has no value cell, the point where the source's read throws. */
    method ReadRowCells(cells: seq<string>) returns (complete: bool)
      modifies this
      ensures resourceMap == FoldPairs(old(resourceMap), RowPairs(cells))
      ensures complete == (|cells| % 2 == 0)
      ensures Snapshot() == old(Snapshot()) && operations == old(operations)
    {
      var n := 0;  // pairs read so far; the next key is cell 2 * n
      while 2 * n < |cells|
        invariant 0 <= 2 * n <= |cells|
        invariant resourceMap == FoldPairs(old(resourceMap), RowPairs(cells)[..n])
        invariant Snapshot() == old(Snapshot()) && operations == old(operations)
      {
        var key := cells[2 * n];
        if 2 * n + 1 >= |cells| {
          // no cell left for the value
          assert RowPairs(cells)[..n] == RowPairs(cells);
          return false;
        }
        var value := cells[2 * n + 1];
        ghost var before := RowPairs(cells)[..n];
        assert RowPairs(cells)[..n + 1] == before + [(key, value)];
        FoldPairsSnoc(old(resourceMap), before, key, value);
        InsertPair(key, value);
        n := n + 1;
      }
      assert RowPairs(cells)[..n] == RowPairs(cells);
      return true;
    }

    /** `checkForDataBreach`: true exactly when no (local prefix, remote prefix) pair of the
        session's paths is permitted by the table. */
    method CheckForDataBreach() returns (breach: bool)
      ensures breach == IsBreach(resourceMap, currentLocalPath, currentRemotePath)
    {
      var localDirectories := JavaSplit(currentLocalPath, LocalSeparator);
      var remoteDirectories := JavaSplit(currentRemotePath, RemoteSeparator);
      ghost var lp, rp := LocalPrefixes(currentLocalPath), RemotePrefixes(currentRemotePath);
      var localPathBuilder := "";
      var i := 0;
      while i < |localDirectories|
        invariant 0 <= i <= |localDirectories|
        invariant localPathBuilder == Opened(localDirectories[..i], LocalSeparator)
        invariant forall a, b :: 0 <= a < i && 0 <= b < |rp| ==> !Permits(resourceMap, lp[a], rp[b])
      {
        JoinSnoc(localDirectories, i, LocalSeparator);
        localPathBuilder := localPathBuilder + localDirectories[i];
        var remotePathBuilder := "";
        var j := 0;
        while j < |remoteDirectories|
          invariant 0 <= j <= |remoteDirectories|
          invariant remotePathBuilder == Opened(remoteDirectories[..j], RemoteSeparator)
          invariant forall b :: 0 <= b < j ==> !Permits(resourceMap, lp[i], rp[b])
        {
          JoinSnoc(remoteDirectories, j, RemoteSeparator);
          remotePathBuilder := remotePathBuilder + remoteDirectories[j];
          var key := localPathBuilder;
          if key in resourceMap && remotePathBuilder in resourceMap[key] {
            assert Permits(resourceMap, lp[i], rp[j]);
            return false;
          }
          remotePathBuilder := remotePathBuilder + [RemoteSeparator];
          j := j + 1;
        }
        localPathBuilder := localPathBuilder + [LocalSeparator];
        i := i + 1;
      }
      return true;
    }

    /** `appendToOperations`: the operation becomes the next row. */
    method AppendToOperations(io: IO)
      modifies this
      ensures operations == old(operations) + [io.Row()]
      ensures resourceMap == old(resourceMap) && Snapshot() == old(Snapshot())
    {
      operations := operations + [io.Row()];
    }

    /** `handleFileUpload`: decides the current session's transfer and records it, stamped
        with the clock reading `now`. */
    method HandleFileUpload(now: int)
      modifies this
      ensures operations == old(operations) + [Evaluate(resourceMap, Snapshot(), now)]
      ensures resourceMap == old(resourceMap) && Snapshot() == old(Snapshot())
    {
      var dataBreach := CheckForDataBreach();
      var io := new IO();
      io.SetUser(currentUser);
      io.SetLocalPath(currentLocalPath);
      io.SetRemotePath(currentRemotePath);
      io.SetTime(now);
      if dataBreach {
        io.SetStatus(DataBreachStatus);
      } else {
        io.SetStatus(SecureStatus);
      }
      AppendToOperations(io);
    }

    /** The monitor's handling of one log line read at clock reading `now`. */
    method Step(line: string, startTime: int, now: int)
      modifies this
      ensures Snapshot() == Apply(old(Snapshot()), Classify(line, startTime, stampTime))
      ensures operations == old(operations) +
        Emitted(resourceMap, old(Snapshot()), Classify(line, startTime, stampTime), now)
      ensures resourceMap == old(resourceMap)
    {
      ClassifyCases(line, startTime, stampTime);
      if Matches(UserShape, line) {
        var m := Find(UserShape, line);
        if m.Some? {
          currentUser := m.value;
        }
      } else if ParseDate(line, stampTime) > startTime && Matches(PutShape, line) {
        var m := Find(PutShape, line);
        if m.Some? {
          currentLocalPath := m.value;
          HandleFileUpload(now);
        }
      } else if Matches(DirectoryShape, line) {
        var m := Find(DirectoryShape, line);
        if m.Some? {
          currentRemotePath := m.value;
        }
      }
    }

    /** The monitor's loop over the lines of the log, line `k` handled at clock reading
        `clock[k]`; `startTime` is the moment monitoring began. */
    method RunMonitor(lines: seq<string>, clock: seq<int>, startTime: int)
      requires |clock| == |lines| && startTime > 0
      modifies this
      ensures var replayed := Replay(resourceMap, startTime, stampTime, old(Snapshot()), lines, clock);
        Snapshot() == replayed.session && operations == old(operations) + replayed.records
      ensures resourceMap == old(resourceMap)
    {
      var k := 0;
      while k < |lines|
        invariant 0 <= k <= |lines|
        invariant resourceMap == old(resourceMap)
        invariant var replayed := Replay(resourceMap, startTime, stampTime, old(Snapshot()), lines[..k], clock[..k]);
          Snapshot() == replayed.session && operations == old(operations) + replayed.records
      {
        ghost var session, records := Snapshot(), operations;
        Step(lines[k], startTime, clock[k]);
        ReplayStep(resourceMap, startTime, stampTime, old(Snapshot()), lines, clock, k,
                   old(operations), session, records, Snapshot(), operations);
        k := k + 1;
      }
      assert lines[..k] == lines && clock[..k] == clock;
    }
  }
}

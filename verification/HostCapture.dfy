/** Copying a browser's live cookie database without its locks: the reader stats,
  * reads twice, stats again and accepts only what did not move, while the browser
  * writes between any two of the reader's system calls.
  */
module HostCapture {
  import opened Options

  const HOST_COPY_MAX_BYTES: nat := 64 * 1024 * 1024
  const HOST_COPY_ATTEMPTS: nat := 5

  type Bytes = seq<bv8>
  type FileId = (nat, nat)

  datatype FileVersion = FileVersion(device: nat, inode: nat, size: nat, modified: (int, int), changed: (int, int))

  datatype Name = Database | Wal | Journal

  const NAMES: seq<Name> := [Database, Wal, Journal]

  /** What the paths name at one instant, and what each file, linked or not, holds. */
  datatype Disk = Disk(versions: map<Name, FileVersion>, contents: map<FileId, Bytes>)

  function IdOf(version: FileVersion): FileId {
    (version.device, version.inode)
  }

  function VersionOf(disk: Disk, name: Name): Option<FileVersion> {
    if name in disk.versions then Some(disk.versions[name]) else None
  }

  function ContentOf(disk: Disk, id: FileId): Bytes {
    if id in disk.contents then disk.contents[id] else []
  }

  function FileOf(disk: Disk, name: Name): Option<Bytes> {
    if name in disk.versions then Some(ContentOf(disk, IdOf(disk.versions[name]))) else None
  }

  function Clip(bytes: Bytes, cap: nat): Bytes {
    if |bytes| <= cap then bytes else bytes[..cap]
  }

  /** A rollback journal is active unless it is missing or its header is zeroed. */
  predicate Active(header: Option<Bytes>) {
    header.Some? && exists i :: 0 <= i < |header.value| && header.value[i] != 0
  }

  predicate ActiveOn(disk: Disk) {
    var journal := FileOf(disk, Journal);
    Active(if journal.Some? then Some(Clip(journal.value, 8)) else None)
  }

  /** Active means that one of the first eight bytes of the journal is not zero. */
  lemma ActiveByItsHeader(disk: Disk)
    ensures ActiveOn(disk) <==>
      && Journal in disk.versions
      && exists i :: 0 <= i < 8 && i < |FileOf(disk, Journal).value| && FileOf(disk, Journal).value[i] != 0
  {
    var journal := FileOf(disk, Journal);
    if journal.Some? {
      var header := Clip(journal.value, 8);
      assert forall i :: 0 <= i < |header| ==> header[i] == journal.value[i];
      if i :| 0 <= i < 8 && i < |journal.value| && journal.value[i] != 0 {
        assert header[i] != 0;
      }
    }
  }

  // ----- what changes are visible

  ghost predicate Same(a: Disk, b: Disk, name: Name) {
    VersionOf(a, name) == VersionOf(b, name) && FileOf(a, name) == FileOf(b, name)
  }

  ghost predicate Steady(history: seq<Disk>, from: nat, to: nat, name: Name)
    requires from <= to < |history|
  {
    forall i {:trigger Same(history[from], history[i], name)} ::
      from <= i <= to ==> Same(history[from], history[i], name)
  }

  /** Every change of a file gives the name a version it did not have earlier in this part
    * of the history. A rollback journal may also just disappear, as it does at the end of
    * every transaction; for the other files disappearing is a change like any other.
    */
  ghost predicate ChangesShow(history: seq<Disk>, start: nat, end: nat)
    requires end < |history|
  {
    forall name: Name, i, j :: start <= i < j <= end ==> ChangeShows(history, i, j, name)
  }

  ghost predicate ChangeShows(history: seq<Disk>, i: nat, j: nat, name: Name)
    requires i < j < |history|
  {
    NewSince(history, i, j, name) || (name == Journal && VersionOf(history[j], name).None?)
  }

  ghost predicate NewSince(history: seq<Disk>, i: nat, j: nat, name: Name)
    requires i < j < |history|
  {
    Same(history[j - 1], history[j], name) || VersionOf(history[i], name) != VersionOf(history[j], name)
  }

  lemma {:induction false} EqualVersionsMeanSteady(history: seq<Disk>, from: nat, to: nat, name: Name)
    requires from <= to < |history|
    requires forall j :: from < j <= to ==> NewSince(history, from, j, name)
    requires VersionOf(history[from], name) == VersionOf(history[to], name)
    ensures Steady(history, from, to, name)
  {
    if from < to {
      assert NewSince(history, from, to, name);
      EqualVersionsMeanSteady(history, from, to - 1, name);
      assert Same(history[from], history[to - 1], name);
    }
  }

  /** A file that exists, or any file but the journal, has only new versions. */
  lemma ShownIsNew(history: seq<Disk>, start: nat, from: nat, end: nat, name: Name)
    requires start <= from <= end < |history| && ChangesShow(history, start, end)
    requires name == Journal ==> VersionOf(history[from], name).Some?
    ensures forall j :: from < j <= end ==> NewSince(history, from, j, name)
  {
    forall j | from < j <= end
      ensures NewSince(history, from, j, name)
    {
      assert ChangeShows(history, from, j, name);
    }
  }

  /** A transaction whose journal comes and goes is one of the changes the capture is for. */
  lemma TransactionsShow(before: Disk, during: Disk, after: Disk)
    requires VersionOf(before, Journal).None? && VersionOf(during, Journal).Some? && VersionOf(after, Journal).None?
    requires Same(before, during, Wal) && Same(during, after, Wal) && Same(before, during, Database)
    requires Same(before, after, Database) || VersionOf(after, Database) != VersionOf(before, Database)
    ensures ChangesShow([before, during, after], 0, 2)
  {
    var history := [before, during, after];
    forall name: Name, i, j | 0 <= i < j <= 2
      ensures ChangeShows(history, i, j, name)
    {
      assert name == Database || name == Wal || name == Journal;
    }
  }

  // ----- the reader

  datatype Capture = Capture(database: Bytes, wal: Option<Bytes>)

  datatype CaptureError = JournalActive | Changed | DatabaseMissing | TooLarge | CopyFailed

  /** The captured bytes are exactly the files of this instant, and none is mid-transaction. */
  ghost predicate IsSnapshot(capture: Capture, disk: Disk) {
    FileOf(disk, Database) == Some(capture.database) && FileOf(disk, Wal) == capture.wal && !ActiveOn(disk)
  }

  /** The instant `from` had exactly the captured files and no active journal, and up to `to`
    * the files stayed as they were.
    */
  ghost predicate Captured(history: seq<Disk>, from: nat, to: nat, capture: Capture)
    requires from <= to < |history|
  {
    IsSnapshot(capture, history[from]) && FilesSteady(history, from, to)
  }

  /** Database and WAL do not move, nor does a journal that exists. */
  ghost predicate FilesSteady(history: seq<Disk>, from: nat, to: nat)
    requires from <= to < |history|
  {
    && Steady(history, from, to, Database) && Steady(history, from, to, Wal)
    && (VersionOf(history[from], Journal).Some? ==> Steady(history, from, to, Journal))
  }

  ghost predicate HeldThroughout(history: seq<Disk>, from: nat, to: nat, capture: Capture)
    requires from <= to < |history|
  {
    forall i :: from <= i <= to ==> IsSnapshot(capture, history[i])
  }

  /** Every instant of the window without an active journal is the captured one; where the
    * journal's disappearance would have shown too, that is all of them.
    */
  lemma CapturedThroughout(history: seq<Disk>, start: nat, window: Window, capture: Capture)
    requires WindowIn(window, start, history) && Captured(history, window.from, window.to, capture)
    ensures forall i :: window.from <= i <= window.to && !ActiveOn(history[i]) ==> IsSnapshot(capture, history[i])
    ensures (forall j :: window.from < j <= window.settled ==> NewSince(history, window.from, j, Journal)) ==>
      HeldThroughout(history, window.from, window.to, capture)
  {
    if forall j :: window.from < j <= window.settled ==> NewSince(history, window.from, j, Journal) {
      EqualVersionsMeanSteady(history, window.from, window.settled, Journal);
    }
    forall i | window.from <= i <= window.to
      ensures !ActiveOn(history[i]) ==> IsSnapshot(capture, history[i])
      ensures Steady(history, window.from, window.settled, Journal) ==> IsSnapshot(capture, history[i])
    {
      assert Same(history[window.from], history[i], Database) && Same(history[window.from], history[i], Wal);
      if Steady(history, window.from, window.settled, Journal) {
        assert Same(history[window.from], history[i], Journal);
      }
    }
  }

  /** An attempt's first stat, the end of its first round of stats, the start of its second
    * round and the end of that.
    */
  datatype Window = Window(begun: nat, from: nat, to: nat, settled: nat)

  /** The window is inside the history, and both rounds of stats saw the same journal. */
  ghost predicate WindowIn(window: Window, start: nat, history: seq<Disk>) {
    && start <= window.begun <= window.from <= window.to <= window.settled < |history|
    && VersionOf(history[window.from], Journal) == VersionOf(history[window.settled], Journal)
  }

  // ----- a disk that holds still

  /** No file moves. */
  ghost predicate Still(history: seq<Disk>, from: nat, to: nat)
    requires from <= to < |history|
  {
    && Steady(history, from, to, Database)
    && Steady(history, from, to, Wal)
    && Steady(history, from, to, Journal)
  }

  /** What reading database and WAL of one instant gives. */
  function ReadingOf(disk: Disk): Result<Capture, CaptureError> {
    var database, wal := FileOf(disk, Database), FileOf(disk, Wal);
    if database.None? then Err(DatabaseMissing)
    else if |database.value| + (if wal.Some? then |wal.value| else 0) > HOST_COPY_MAX_BYTES then Err(TooLarge)
    else Ok(Capture(database.value, wal))
  }

  function VersionsOf(disk: Disk): seq<Option<FileVersion>> {
    [VersionOf(disk, Database), VersionOf(disk, Wal), VersionOf(disk, Journal)]
  }

  function LookOf(disk: Disk): Result<Capture, CaptureError> {
    if ActiveOn(disk) then Err(JournalActive) else ReadingOf(disk)
  }

  /** What an attempt on a still disk comes to. */
  function AttemptOn(disk: Disk, copied: bool): Result<Capture, CaptureError> {
    var look := LookOf(disk);
    if look.Ok? && !copied then Err(CopyFailed) else look
  }

  /** It is accepted exactly when nothing is wrong with the files, and is what they hold. */
  lemma AcceptedExactlyWhen(disk: Disk, copied: bool, capture: Capture)
    ensures AttemptOn(disk, copied) == Ok(capture) <==>
      && copied && IsSnapshot(capture, disk) && |capture.database| + WalLength(capture) <= HOST_COPY_MAX_BYTES
  {
  }

  ghost predicate SameFiles(a: Disk, b: Disk) {
    Same(a, b, Database) && Same(a, b, Wal) && Same(a, b, Journal)
  }

  /** A part of a still history is still, and shows the same files. */
  lemma StillPart(whole: seq<Disk>, from: nat, part: seq<Disk>, at: nat)
    requires part <= whole && from <= at < |part| && Still(whole, from, |whole| - 1)
    ensures Still(part, at, |part| - 1) && SameFiles(whole[from], part[at])
  {
    SteadyPart(whole, from, part, at, Database);
    SteadyPart(whole, from, part, at, Wal);
    SteadyPart(whole, from, part, at, Journal);
  }

  lemma SteadyPart(whole: seq<Disk>, from: nat, part: seq<Disk>, at: nat, name: Name)
    requires part <= whole && from <= at < |part| && Steady(whole, from, |whole| - 1, name)
    ensures Steady(part, at, |part| - 1, name) && Same(whole[from], part[at], name)
  {
    Inside(whole, from, at, |part| - 1, |whole| - 1, name);
    SteadyEarlier(part, whole, at, |part| - 1, |part| - 1, name);
  }

  // What the reader's steps come to on a disk that is still from `start` on.

  ghost predicate LookAgrees(history: seq<Disk>, start: nat, look: Result<Capture, CaptureError>) {
    start < |history| && (Still(history, start, |history| - 1) ==> look == LookOf(history[start]))
  }

  ghost predicate ReadingAgrees(history: seq<Disk>, start: nat, reading: Result<Capture, CaptureError>) {
    start < |history| && (Still(history, start, |history| - 1) ==> reading == ReadingOf(history[start]))
  }

  ghost predicate AttemptAgrees(history: seq<Disk>, start: nat, copied: bool, outcome: Result<Capture, CaptureError>) {
    start < |history| && (Still(history, start, |history| - 1) ==> outcome == AttemptOn(history[start], copied))
  }

  ghost predicate JournalAgrees(history: seq<Disk>, start: nat, active: bool) {
    start < |history| && (Steady(history, start, |history| - 1, Journal) ==> active == ActiveOn(history[start]))
  }

  lemma LookByParts(history: seq<Disk>, start: nat, early: seq<Disk>, middle: seq<Disk>, active: bool,
                    reading: Result<Capture, CaptureError>)
    requires early <= middle <= history && start < |early|
    requires JournalAgrees(middle, |early| - 1, active)
    requires active || ReadingAgrees(history, |middle| - 1, reading)
    ensures LookAgrees(history, start, if active then Err(JournalActive) else reading)
  {
    if Still(history, start, |history| - 1) {
      StillPart(history, start, middle, |early| - 1);
      SameOutcomes(history[start], middle[|early| - 1]);
      if !active {
        StillPart(history, start, history, |middle| - 1);
        SameOutcomes(history[start], history[|middle| - 1]);
      }
    }
  }

  /** What the second reading, stats and journal check make of a first look. */
  function RecheckOf(disk: Disk, first: Capture, before: seq<Option<FileVersion>>): Result<Capture, CaptureError> {
    var second := ReadingOf(disk);
    if second.Err? then second
    else if second.value != first || before != VersionsOf(disk) || ActiveOn(disk) then Err(Changed)
    else Ok(first)
  }

  ghost predicate RecheckAgrees(history: seq<Disk>, start: nat, first: Capture, before: seq<Option<FileVersion>>,
                                outcome: Result<Capture, CaptureError>)
  {
    && start < |history|
    && (Still(history, start, |history| - 1) ==> outcome == RecheckOf(history[start], first, before))
  }

  ghost predicate VersionsAgree(history: seq<Disk>, start: nat, versions: seq<Option<FileVersion>>) {
    start < |history| && (Still(history, start, |history| - 1) ==> versions == VersionsOf(history[start]))
  }

  lemma VersionsByStats(history: seq<Disk>, start: nat, versions: seq<Option<FileVersion>>, at: seq<nat>)
    requires |versions| == |at| == 3 && start < |history|
    requires forall n :: 0 <= n < 3 ==> start <= at[n] < |history| && versions[n] == VersionOf(history[at[n]], NAMES[n])
    ensures VersionsAgree(history, start, versions)
  {
    if Still(history, start, |history| - 1) {
      StillPart(history, start, history, at[0]);
      StillPart(history, start, history, at[1]);
      StillPart(history, start, history, at[2]);
      assert NAMES[0] == Database && NAMES[1] == Wal && NAMES[2] == Journal;
    }
  }

  lemma StatsKept(late: seq<Disk>, history: seq<Disk>, versions: seq<Option<FileVersion>>, at: seq<nat>)
    requires late <= history && |versions| == |at| == 3
    requires forall n :: 0 <= n < 3 ==> at[n] < |late| && versions[n] == VersionOf(late[at[n]], NAMES[n])
    ensures forall n :: 0 <= n < 3 ==> versions[n] == VersionOf(history[at[n]], NAMES[n])
  {
  }

  lemma RecheckByParts(history: seq<Disk>, start: nat, read: seq<Disk>, late: seq<Disk>, first: Capture,
                       before: seq<Option<FileVersion>>, second: Capture, after: seq<Option<FileVersion>>, active: bool)
    requires read <= late <= history && start < |read|
    requires ReadingAgrees(read, start, Ok(second)) && VersionsAgree(late, |read| - 1, after)
    requires JournalAgrees(history, |late| - 1, active)
    ensures RecheckAgrees(history, start, first, before,
                          if first != second || before != after || active then Err(Changed) else Ok(first))
  {
    if Still(history, start, |history| - 1) {
      StillPart(history, start, read, start);
      StillPart(history, start, late, |read| - 1);
      SameOutcomes(history[start], late[|read| - 1]);
      StillPart(history, start, history, |late| - 1);
      SameOutcomes(history[start], history[|late| - 1]);
    }
  }

  lemma AttemptByParts(history: seq<Disk>, start: nat, looked: seq<Disk>, copied: bool, first: Capture,
                       before: seq<Option<FileVersion>>, second: Result<Capture, CaptureError>)
    requires looked <= history && LookAgrees(looked, start, Ok(first)) && VersionsAgree(looked, start, before)
    requires RecheckAgrees(history, |looked| - 1, first, before, second)
    ensures AttemptAgrees(history, start, copied, if second.Ok? && !copied then Err(CopyFailed) else second)
  {
    if Still(history, start, |history| - 1) {
      StillPart(history, start, looked, start);
      StillPart(history, start, history, |looked| - 1);
      SameOutcomes(history[start], history[|looked| - 1]);
    }
  }

  lemma SameOutcomes(a: Disk, b: Disk)
    requires SameFiles(a, b)
    ensures ActiveOn(a) == ActiveOn(b) && ReadingOf(a) == ReadingOf(b) && LookOf(a) == LookOf(b)
    ensures VersionsOf(a) == VersionsOf(b)
    ensures forall copied :: AttemptOn(a, copied) == AttemptOn(b, copied)
  {
  }

  /** On a still disk each attempt so far came to what the files say. */
  ghost predicate TriedOn(history: seq<Disk>, start: nat, copied: seq<bool>, tries: seq<Result<Capture, CaptureError>>)
    requires start < |history| && |tries| <= |copied|
  {
    Still(history, start, |history| - 1) ==>
      forall n :: 0 <= n < |tries| ==> tries[n] == AttemptOn(history[start], copied[n])
  }

  lemma TriedOnceMore(history: seq<Disk>, tried: seq<Disk>, start: nat, copied: seq<bool>,
                      tries: seq<Result<Capture, CaptureError>>, outcome: Result<Capture, CaptureError>)
    requires tried <= history && start < |tried| && |tries| < |copied|
    requires TriedOn(tried, start, copied, tries)
    requires AttemptAgrees(history, |tried| - 1, copied[|tries|], outcome)
    ensures TriedOn(history, start, copied, tries + [outcome])
  {
    if Still(history, start, |history| - 1) {
      StillPart(history, start, tried, start);
      StillPart(history, start, history, |tried| - 1);
      SameOutcomes(history[start], history[|tried| - 1]);
    }
  }

  function WalLength(capture: Capture): nat {
    if capture.wal.Some? then |capture.wal.value| else 0
  }

  predicate Retried(outcome: Result<Capture, CaptureError>) {
    outcome.Err? && outcome.error != TooLarge
  }

  /** One read call: some of the bytes past the ones read, or the end of the file. */
  method ReadMore(content: Bytes, read: Bytes, cap: nat) returns (more: Bytes, atEnd: bool)
    requires |read| < cap
    ensures atEnd <==> |content| <= |read|
    ensures atEnd ==> more == read
    ensures !atEnd ==> |read| < |more| <= cap && |more| <= |content| && more == read + content[|read|..|more|]
  {
    if |content| <= |read| {
      return read, true;
    }
    var left, room := |content| - |read|, cap - |read|;
    var chunk: nat :| 0 < chunk <= if left <= room then left else room;
    return read + content[|read|..|read| + chunk], false;
  }

  /** What was read is the front of a file that has not moved, and all of it at its end. */
  ghost predicate ReadSoFar(history: seq<Disk>, start: nat, name: Name, read: Bytes, atEnd: bool)
    requires start < |history|
  {
    Steady(history, start, |history| - 1, name) ==>
      var file := FileOf(history[start], name);
      file.Some? && read <= file.value && (atEnd ==> read == file.value)
  }

  lemma KeepsReading(earlier: seq<Disk>, later: seq<Disk>, start: nat, openedAt: nat, name: Name,
                     read: Bytes, more: Bytes, atEnd: bool)
    requires earlier <= later && start <= openedAt < |earlier| && name in later[openedAt].versions
    requires ReadSoFar(earlier, start, name, read, false)
    requires var content := ContentOf(later[|later| - 1], IdOf(later[openedAt].versions[name]));
      if atEnd then |content| <= |read| && more == read
      else |read| < |more| <= |content| && more == read + content[|read|..|more|]
    ensures ReadSoFar(later, start, name, more, atEnd)
  {
    if Steady(later, start, |later| - 1, name) {
      SteadyEarlier(earlier, later, start, |earlier| - 1, |later| - 1, name);
      assert Same(later[start], later[openedAt], name) && Same(later[start], later[|later| - 1], name);
    }
  }

  class Host {
    var disk: Disk
    ghost var history: seq<Disk>

    constructor (disk: Disk)
      ensures Valid() && history == [disk]
    {
      this.disk := disk;
      history := [disk];
    }

    ghost predicate Valid()
      reads this
    {
      history != [] && history[|history| - 1] == disk
    }

    /** Any number of writer steps, each leaving the files in any state. */
    method Interleave()
      requires Valid()
      modifies this
      ensures Valid() && old(history) <= history
    {
      var steps: nat := *;
      while steps > 0
        invariant Valid() && old(history) <= history
      {
        var next: Disk := *;
        disk := next;
        history := history + [next];
        steps := steps - 1;
      }
    }

    method Stat(name: Name) returns (version: Option<FileVersion>)
      requires Valid()
      modifies this
      ensures Valid() && old(history) <= history
      ensures version == VersionOf(history[|history| - 1], name)
    {
      Interleave();
      version := VersionOf(disk, name);
    }

    /** Open by path, then read the opened file in chunks of any size. */
    method Read(name: Name, cap: nat) returns (bytes: Option<Bytes>)
      requires Valid()
      modifies this
      ensures Valid() && old(history) <= history
      ensures bytes.Some? ==> |bytes.value| <= cap
      ensures Steady(history, |old(history)| - 1, |history| - 1, name) ==>
        var file := FileOf(history[|old(history)| - 1], name);
        bytes == if file.Some? then Some(Clip(file.value, cap)) else None
    {
      ghost var start := |history| - 1;
      Interleave();
      if name !in disk.versions {
        assert Same(history[start], history[|history| - 1], name) ==> FileOf(history[start], name) == None;
        return None;
      }
      var id := IdOf(disk.versions[name]);
      ghost var openedAt := |history| - 1;
      var read: Bytes := [];
      var atEnd := false;
      assert Steady(history, start, |history| - 1, name) ==> Same(history[start], history[openedAt], name);
      while |read| < cap && !atEnd
        invariant Valid() && old(history) <= history && openedAt < |history|
        invariant start <= openedAt && VersionOf(history[openedAt], name).Some?
        invariant IdOf(history[openedAt].versions[name]) == id
        invariant |read| <= cap
        invariant ReadSoFar(history, start, name, read, atEnd)
        decreases !atEnd, cap - |read|
      {
        ghost var earlier := history;
        Interleave();
        var content := ContentOf(disk, id);
        ghost var readBefore := read;
        read, atEnd := ReadMore(content, read, cap);
        KeepsReading(earlier, history, start, openedAt, name, readBefore, read, atEnd);
      }
      if Steady(history, start, |history| - 1, name) {
        var file := FileOf(history[start], name).value;
        assert read == file[..|read|];
        assert |file| <= |read| ==> read == file;
      }
      return Some(read);
    }

    method Versions() returns (versions: seq<Option<FileVersion>>, ghost at: seq<nat>)
      requires Valid()
      modifies this
      ensures Valid() && old(history) <= history
      ensures |versions| == |at| == 3
      ensures |old(history)| - 1 <= at[0] <= at[1] <= at[2] == |history| - 1
      ensures forall n :: 0 <= n < 3 ==> versions[n] == VersionOf(history[at[n]], NAMES[n])
    {
      var database := Stat(Database);
      ghost var first := |history| - 1;
      var wal := Stat(Wal);
      ghost var second := |history| - 1;
      var journal := Stat(Journal);
      versions := [database, wal, journal];
      at := [first, second, |history| - 1];
    }

    method ActiveJournal() returns (active: bool)
      requires Valid()
      modifies this
      ensures Valid() && old(history) <= history
      ensures Steady(history, |old(history)| - 1, |history| - 1, Journal) ==>
        active == ActiveOn(history[|old(history)| - 1])
    {
      var header := Read(Journal, 8);
      active := Active(header);
    }

    method ReadBoth() returns (outcome: Result<Capture, CaptureError>)
      requires Valid()
      modifies this
      ensures Valid() && old(history) <= history
      ensures outcome.Ok? ==> |outcome.value.database| + WalLength(outcome.value) <= HOST_COPY_MAX_BYTES
      ensures
        && outcome.Ok?
        && Steady(history, |old(history)| - 1, |history| - 1, Database)
        && Steady(history, |old(history)| - 1, |history| - 1, Wal)
        ==>
        && FileOf(history[|old(history)| - 1], Database) == Some(outcome.value.database)
        && FileOf(history[|old(history)| - 1], Wal) == outcome.value.wal
      ensures ReadingAgrees(history, |old(history)| - 1, outcome)
    {
      ghost var start := |history| - 1;
      var database := Read(Database, HOST_COPY_MAX_BYTES + 1);
      ghost var first := history;
      ghost var middle := |history| - 1;
      if database.Some? && |database.value| > HOST_COPY_MAX_BYTES {
        return Err(TooLarge);
      }
      if database.None? {
        return Err(DatabaseMissing);
      }
      var wal := Read(Wal, HOST_COPY_MAX_BYTES + 1);
      if Still(history, start, |history| - 1) {
        StillPart(history, start, first, start);
        StillPart(history, start, history, middle);
        assert Same(history[start], history[middle], Wal);
      }
      if wal.Some? && |database.value| + |wal.value| > HOST_COPY_MAX_BYTES {
        return Err(TooLarge);
      }
      Halves(history, start, middle, |history| - 1, Database);
      Halves(history, start, middle, |history| - 1, Wal);
      return Ok(Capture(database.value, wal));
    }

    /** The first round of stats, the journal check and the first reading. */
    method Look()
      returns (outcome: Result<Capture, CaptureError>, versions: seq<Option<FileVersion>>, ghost at: seq<nat>)
      requires Valid()
      modifies this
      ensures Valid() && old(history) <= history
      ensures |versions| == |at| == 3
      ensures |old(history)| - 1 <= at[0] <= at[1] <= at[2] < |history|
      ensures forall n :: 0 <= n < 3 ==> versions[n] == VersionOf(history[at[n]], NAMES[n])
      ensures outcome.Ok? ==> |outcome.value.database| + WalLength(outcome.value) <= HOST_COPY_MAX_BYTES
      ensures outcome.Ok? && FilesSteady(history, at[2], |history| - 1) ==> IsSnapshot(outcome.value, history[at[2]])
      ensures LookAgrees(history, |old(history)| - 1, outcome)
      ensures outcome.Ok? ==> VersionsAgree(history, |old(history)| - 1, versions)
    {
      ghost var start := |history| - 1;
      versions, at := Versions();
      ghost var early := history;
      var active := ActiveJournal();
      ghost var middle := history;
      if active {
        LookByParts(history, start, early, middle, active, Err(JournalActive));
        return Err(JournalActive), versions, at;
      }
      outcome := ReadBoth();
      LookByParts(history, start, early, middle, active, outcome);
      if outcome.Ok? && FilesSteady(history, at[2], |history| - 1) {
        FirstReadingIsSnapshot(middle, history, at[2], outcome.value);
      }
      assert forall n :: 0 <= n < 3 ==> history[at[n]] == early[at[n]];
      VersionsByStats(history, start, versions, at);
    }

    /** The second reading, round of stats and journal check, against the first. */
    method Recheck(first: Capture, before: seq<Option<FileVersion>>)
      returns (outcome: Result<Capture, CaptureError>, ghost to: nat, ghost restated: seq<nat>)
      requires Valid() && |before| == 3
      modifies this
      ensures Valid() && old(history) <= history
      ensures outcome.Ok? ==>
        && outcome.value == first && |restated| == 3
        && |old(history)| - 1 <= to <= restated[0] <= restated[1] <= restated[2] < |history|
        && forall n :: 0 <= n < 3 ==> before[n] == VersionOf(history[restated[n]], NAMES[n])
      ensures RecheckAgrees(history, |old(history)| - 1, first, before, outcome)
    {
      ghost var start := |history| - 1;
      to, restated := 0, [];
      var second := ReadBoth();
      if second.Err? {
        return Err(second.error), to, restated;
      }
      ghost var read := history;
      to := |history| - 1;
      var after;
      after, restated := Versions();
      ghost var late := history;
      VersionsByStats(late, to, after, restated);
      var activeAfter := ActiveJournal();
      RecheckByParts(history, start, read, late, first, before, second.value, after, activeAfter);
      if first != second.value || before != after || activeAfter {
        return Err(Changed), to, restated;
      }
      StatsKept(late, history, after, restated);
      return Ok(first), to, restated;
    }

    /** One attempt. `copied` stands for copying the frozen bytes through SQLite and
      * checking the copy. If between its first stat, at `begun`, and its last, at `settled`,
      * every change showed, an accepted attempt returns the files of the instant `from`; on a
      * disk that holds still its outcome is what the files say.
      */
    method Attempt(copied: bool)
      returns (outcome: Result<Capture, CaptureError>, ghost window: Window)
      requires Valid()
      modifies this
      ensures Valid() && old(history) <= history
      ensures outcome.Ok? ==> copied && |outcome.value.database| + WalLength(outcome.value) <= HOST_COPY_MAX_BYTES
      ensures outcome.Ok? ==> WindowIn(window, |old(history)| - 1, history)
      ensures outcome.Ok? && ChangesShow(history, window.begun, window.settled) ==>
        Captured(history, window.from, window.to, outcome.value)
      ensures AttemptAgrees(history, |old(history)| - 1, copied, outcome)
    {
      window := Window(0, 0, 0, 0);
      ghost var start := |history| - 1;
      var first, before, stated := Look();
      ghost var looked := history;
      if first.Err? {
        return Err(first.error), window;
      }
      var second;
      ghost var to, restated;
      second, to, restated := Recheck(first.value, before);
      AttemptByParts(history, start, looked, copied, first.value, before, second);
      if second.Err? {
        return Err(second.error), window;
      }
      if !copied {
        return Err(CopyFailed), window;
      }
      window := Window(stated[0], stated[2], to, restated[2]);
      if ChangesShow(history, window.begun, window.settled) {
        EqualStatsMeanSteady(history, before, looked, stated, history, restated, to);
        CapturedAtLook(looked, history, stated[2], to, first.value);
      }
      return Ok(first.value), window;
    }

    /** Up to five attempts; too large is final, anything else is tried again. Only the
      * accepted attempt has to see every change. `tries` has the outcome of each attempt.
      */
    method SnapshotHost(copied: seq<bool>)
      returns (outcome: Result<Capture, CaptureError>, ghost window: Window,
               ghost tries: seq<Result<Capture, CaptureError>>)
      requires Valid() && |copied| == HOST_COPY_ATTEMPTS
      modifies this
      ensures Valid() && old(history) <= history
      ensures outcome.Ok? ==> |outcome.value.database| + WalLength(outcome.value) <= HOST_COPY_MAX_BYTES
      ensures outcome.Ok? ==> WindowIn(window, |old(history)| - 1, history)
      ensures outcome.Ok? && ChangesShow(history, window.begun, window.settled) ==>
        Captured(history, window.from, window.to, outcome.value)
      ensures 1 <= |tries| <= HOST_COPY_ATTEMPTS && outcome == tries[|tries| - 1]
      ensures TriedOn(history, |old(history)| - 1, copied, tries)
      ensures forall n :: 0 <= n < |tries| - 1 ==> Retried(tries[n])
      ensures |tries| < HOST_COPY_ATTEMPTS ==> !Retried(outcome)
    {
      outcome := Err(Changed);
      window := Window(0, 0, 0, 0);
      tries := [];
      ghost var start := |history| - 1;
      for attempt := 0 to HOST_COPY_ATTEMPTS
        invariant Valid() && old(history) <= history
        invariant |tries| == attempt && TriedOn(history, start, copied, tries)
        invariant outcome.Err? && forall n :: 0 <= n < attempt ==> Retried(tries[n])
        invariant attempt > 0 ==> outcome == tries[attempt - 1]
      {
        ghost var tried := history;
        outcome, window := Attempt(copied[attempt]);
        TriedOnceMore(history, tried, start, copied, tries, outcome);
        tries := tries + [outcome];
        if outcome.Ok? || outcome.error == TooLarge {
          return;
        }
      }
    }
  }

  lemma Inside(history: seq<Disk>, a: nat, b: nat, c: nat, d: nat, name: Name)
    requires a <= b <= c <= d < |history|
    requires Steady(history, a, d, name)
    ensures Steady(history, b, c, name) && Same(history[a], history[b], name)
  {
    assert Same(history[a], history[b], name);
    forall i | b <= i <= c
      ensures Same(history[b], history[i], name)
    {
      assert Same(history[a], history[i], name);
    }
  }

  lemma Halves(history: seq<Disk>, a: nat, b: nat, c: nat, name: Name)
    requires a <= b <= c < |history|
    ensures Steady(history, a, c, name) ==>
      Steady(history, a, b, name) && Steady(history, b, c, name) && Same(history[a], history[b], name)
  {
    if Steady(history, a, c, name) {
      Inside(history, a, a, b, c, name);
      Inside(history, a, b, c, c, name);
    }
  }

  lemma SteadyEarlier(earlier: seq<Disk>, later: seq<Disk>, from: nat, to: nat, end: nat, name: Name)
    requires earlier <= later && from <= to < |earlier| && to <= end < |later|
    requires Steady(later, from, end, name)
    ensures Steady(earlier, from, to, name)
  {
    forall i | from <= i <= to
      ensures Same(earlier[from], earlier[i], name)
    {
      assert Same(later[from], later[i], name);
    }
  }

  lemma FirstReadingIsSnapshot(middle: seq<Disk>, history: seq<Disk>, from: nat, capture: Capture)
    requires middle <= history && from < |middle|
    requires FilesSteady(history, from, |history| - 1)
    requires Steady(middle, from, |middle| - 1, Journal) ==> !ActiveOn(middle[from])
    requires
      && Steady(history, |middle| - 1, |history| - 1, Database)
      && Steady(history, |middle| - 1, |history| - 1, Wal)
      ==>
      && FileOf(history[|middle| - 1], Database) == Some(capture.database)
      && FileOf(history[|middle| - 1], Wal) == capture.wal
    ensures IsSnapshot(capture, history[from])
  {
    if VersionOf(history[from], Journal).Some? {
      SteadyEarlier(middle, history, from, |middle| - 1, |history| - 1, Journal);
    }
    Inside(history, from, |middle| - 1, |history| - 1, |history| - 1, Database);
    Inside(history, from, |middle| - 1, |history| - 1, |history| - 1, Wal);
  }

  /** Two equal rounds of stats pin the files down between the rounds. */
  lemma EqualStatsMeanSteady(history: seq<Disk>, versions: seq<Option<FileVersion>>,
                             early: seq<Disk>, stated: seq<nat>, late: seq<Disk>, restated: seq<nat>, to: nat)
    requires |versions| == |stated| == |restated| == 3
    requires early <= history && late <= history
    requires stated[0] <= stated[1] <= stated[2] < |early| && stated[2] <= to
    requires to <= restated[0] <= restated[1] <= restated[2] < |late|
    requires forall n :: 0 <= n < 3 ==> versions[n] == VersionOf(early[stated[n]], NAMES[n])
    requires forall n :: 0 <= n < 3 ==> versions[n] == VersionOf(late[restated[n]], NAMES[n])
    requires ChangesShow(history, stated[0], restated[2])
    ensures FilesSteady(history, stated[2], to)
  {
    forall n | 0 <= n < 3 && (NAMES[n] == Journal ==> versions[n].Some?)
      ensures Steady(history, stated[2], to, NAMES[n])
    {
      ShownIsNew(history, stated[0], stated[n], restated[2], NAMES[n]);
      EqualVersionsMeanSteady(history, stated[n], restated[n], NAMES[n]);
      Inside(history, stated[n], stated[2], to, restated[n], NAMES[n]);
    }
    assert NAMES[0] == Database && NAMES[1] == Wal && NAMES[2] == Journal;
    assert versions[2] == VersionOf(early[stated[2]], Journal) && early[stated[2]] == history[stated[2]];
  }

  /** A first reading that is a snapshot stays one for the rest of the window. */
  lemma CapturedAtLook(looked: seq<Disk>, history: seq<Disk>, from: nat, to: nat, capture: Capture)
    requires looked <= history && from <= |looked| - 1 <= to < |history|
    requires FilesSteady(history, from, to)
    requires FilesSteady(looked, from, |looked| - 1) ==> IsSnapshot(capture, looked[from])
    ensures Captured(history, from, to, capture)
  {
    SteadyEarlier(looked, history, from, |looked| - 1, to, Database);
    SteadyEarlier(looked, history, from, |looked| - 1, to, Wal);
    if VersionOf(history[from], Journal).Some? {
      SteadyEarlier(looked, history, from, |looked| - 1, to, Journal);
    }
  }
}

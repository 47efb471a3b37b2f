/**
 From the parsed logs of the phases to the archive of write buffers: what each phase
 records of its files, and which buffer ids are handed to the archive at the end.
 */
module WriteBuffers {
  import opened Wrappers
  import opened Ordering
  import opened StringOrder
  import opened StraceEvents
  import opened StraceSummary
  import opened StraceParser
  import opened StraceFiles
  import LogWriter

  // ----- remove duplicates -----

  function Deduplicated<T(==)>(items: seq<T>): seq<T> {
    if items == [] then []
    else
      var n := |items| - 1;
      if items[n] in items[..n] then Deduplicated(items[..n]) else Deduplicated(items[..n]) + [items[n]]
  }

  method RemoveDuplicates<T(==)>(items: seq<T>) returns (unique: seq<T>)
    ensures unique == Deduplicated(items)
  {
    var seen: set<T> := {};
    unique := [];
    for i := 0 to |items|
      invariant unique == Deduplicated(items[..i])
      invariant forall x :: x in seen <==> x in items[..i]
    {
      if items[i] !in seen {
        seen := seen + {items[i]};
        unique := unique + [items[i]];
      }
      assert items[..i + 1][..i] == items[..i];
      assert items[..i + 1] == items[..i] + [items[i]];
    }
    assert items[..|items|] == items;
  }

  ghost predicate Covers<T(!new)>(items: seq<T>, unique: seq<T>) { forall x :: x in unique <==> x in items }

  /** Every item once, in the order of first occurrence. */
  lemma {:induction false} DeduplicatedSpec<T(!new)>(items: seq<T>)
    ensures Covers(items, Deduplicated(items)) && InFirstOrder(items, Deduplicated(items))
  {
    if items != [] {
      var n := |items| - 1;
      var before, unique := Deduplicated(items[..n]), Deduplicated(items);
      DeduplicatedSpec(items[..n]);
      assert items == items[..n] + [items[n]];
      forall i, j | 0 <= i < j < |unique| ensures FirstIndex(items, unique[i]) < FirstIndex(items, unique[j]) {
        assert unique[i] == before[i] && before[i] in before;
        FirstIndexPrefix(items, unique[i]);
        if j < |before| {
          assert unique[j] == before[j] && before[j] in before;
          FirstIndexPrefix(items, unique[j]);
        }
      }
    }
  }

  /** No other sequence lists the items once each in the order of first occurrence. */
  lemma DeduplicatedUnique<T(!new)>(items: seq<T>, s: seq<T>)
    requires Covers(items, s) && InFirstOrder(items, s)
    ensures s == Deduplicated(items)
  {
    var less := (x: T, y: T) => FirstIndex(items, x) < FirstIndex(items, y);
    var S := set x | x in items;
    forall x, y | x in S && y in S && x != y ensures less(x, y) || less(y, x) {
      var i, j := FirstIndex(items, x), FirstIndex(items, y);
      assert items[..|items|] == items;
      assert i < |items| && j < |items|;
    }
    DeduplicatedSpec(items);
    ListingUnique(less, S, s, Deduplicated(items));
  }

  // ----- one phase -----

  datatype FileResult = FileResult(path: string, read: bool, write: bool, del: bool)

  datatype FileWriteResult = FileWriteResult(path: string, writes: seq<WriteInfo>)

  function FileResults(fs: seq<FileInfo>): seq<FileResult> {
    if fs == [] then []
    else
      var f := fs[|fs| - 1];
      FileResults(fs[..|fs| - 1]) + [FileResult(f.path, f.read, f.write, f.del)]
  }

  /** The files reported: every touched path once, in order, with the flags its effects give it. */
  ghost predicate ReportsFiles(xs: seq<Effect>, files: seq<FileResult>) {
    && (forall i, j :: 0 <= i < j < |files| ==> Less(files[i].path, files[j].path))
    && (forall x :: x in files <==> IsReported(xs, x))
  }

  ghost predicate IsReported(xs: seq<Effect>, x: FileResult) {
    && Seen(xs, x.path, Any)
    && (x.read <==> Seen(xs, x.path, Reading))
    && (x.write <==> Seen(xs, x.path, Writing))
    && (x.del <==> Seen(xs, x.path, Deleting))
  }

  ghost predicate Copies(f: FileInfo, x: FileResult) {
    f.path == x.path && f.read == x.read && f.write == x.write && f.del == x.del
  }

  lemma {:induction false} FileResultAt(fs: seq<FileInfo>)
    ensures |FileResults(fs)| == |fs|
    ensures forall i :: 0 <= i < |fs| ==> Copies(fs[i], FileResults(fs)[i])
  {
    if fs != [] { FileResultAt(fs[..|fs| - 1]); }
  }

  lemma {:induction false} FileResultsMean(env: Env, xs: seq<Effect>, fs: seq<FileInfo>)
    requires IsFileList(env, xs, fs)
    ensures ReportsFiles(xs, FileResults(fs))
  {
    var files := FileResults(fs);
    FileResultAt(fs);
    forall x ensures x in files <==> IsReported(xs, x) {
      if x in files {
        var i :| 0 <= i < |files| && files[i] == x;
        assert fs[i] in fs && Summary(env, xs, fs[i].path) == Some(fs[i]);
      }
      if IsReported(xs, x) {
        var f := Summary(env, xs, x.path).value;
        assert Summary(env, xs, f.path) == Some(f);
        var i :| 0 <= i < |fs| && fs[i] == f;
        assert files[i] == x;
      }
    }
    forall i, j | 0 <= i < j < |files| ensures Less(files[i].path, files[j].path) {
      assert Copies(fs[i], files[i]) && Copies(fs[j], files[j]);
    }
  }

  /** A report of a log's files, told by the events of its lines. */
  lemma ReportExactly(env: Env, lines: seq<seq<LogWriter.byte>>, files: seq<FileResult>, x: FileResult)
    requires ReportsFiles(Effects(env, lines), files)
    ensures x in files <==>
            && LogSays(env, lines, x.path, Any)
            && (x.read <==> LogSays(env, lines, x.path, Reading))
            && (x.write <==> LogSays(env, lines, x.path, Writing))
            && (x.del <==> LogSays(env, lines, x.path, Deleting))
  {
    SeenExactly(env, lines, x.path, Any);
    SeenExactly(env, lines, x.path, Reading);
    SeenExactly(env, lines, x.path, Writing);
    SeenExactly(env, lines, x.path, Deleting);
    assert x in files <==> IsReported(Effects(env, lines), x);
  }

  function WriteResults(fs: seq<FileInfo>): seq<FileWriteResult> {
    if fs == [] then []
    else
      var f := fs[|fs| - 1];
      WriteResults(fs[..|fs| - 1]) + if |f.writes| > 0 then [FileWriteResult(f.path, f.writes)] else []
  }

  function IdsOf(writes: seq<WriteInfo>): seq<string> {
    if writes == [] then [] else IdsOf(writes[..|writes| - 1]) + [writes[|writes| - 1].bufferId]
  }

  function BufferIds(fs: seq<FileInfo>): seq<string> {
    if fs == [] then [] else BufferIds(fs[..|fs| - 1]) + IdsOf(fs[|fs| - 1].writes)
  }

  lemma {:induction false} IdInWrites(writes: seq<WriteInfo>, id: string)
    ensures id in IdsOf(writes) <==> exists w :: w in writes && w.bufferId == id
  {
    if writes != [] {
      var n := |writes| - 1;
      IdInWrites(writes[..n], id);
      assert writes == writes[..n] + [writes[n]];
    }
  }

  lemma {:induction false} IdInFiles(fs: seq<FileInfo>, id: string)
    ensures id in BufferIds(fs) <==> exists f :: f in fs && id in IdsOf(f.writes)
  {
    if fs != [] {
      var n := |fs| - 1;
      IdInFiles(fs[..n], id);
      assert fs == fs[..n] + [fs[n]];
    }
  }

  /** The ids a phase records are those of the buffers its log made the parser store. */
  lemma RecordedIdsAreStored(env: Env, xs: seq<Effect>, fs: seq<FileInfo>, id: string)
    requires IsFileList(env, xs, fs)
    ensures id in BufferIds(fs) <==> id in Stored(env, xs)
  {
    StoredExactlyRecorded(env, xs, id);
    IdInFiles(fs, id);
    if id in BufferIds(fs) {
      var f :| f in fs && id in IdsOf(f.writes);
      IdInWrites(f.writes, id);
      assert IdWrittenTo(env, xs, f.path, id);
    }
    if id in Stored(env, xs) {
      var p :| IdWrittenTo(env, xs, p, id);
      if !Seen(xs, p, Any) { Untouched(env, xs, p); }
      var f := Summary(env, xs, p).value;
      assert f in fs;
      IdInWrites(f.writes, id);
    }
  }

  lemma {:induction false} WriteResultIn(fs: seq<FileInfo>, w: FileWriteResult)
    ensures w in WriteResults(fs) <==> w.writes != [] && exists f :: f in fs && f.path == w.path && f.writes == w.writes
  {
    if fs != [] {
      var n := |fs| - 1;
      WriteResultIn(fs[..n], w);
      assert fs == fs[..n] + [fs[n]];
    }
  }

  /** A phase's write results give each written path its writes in log order. */
  lemma WriteResultsInLogOrder(env: Env, xs: seq<Effect>, fs: seq<FileInfo>, w: FileWriteResult)
    requires IsFileList(env, xs, fs)
    ensures w in WriteResults(fs) <==> w.writes != [] && w.writes == WritesTo(env, xs, w.path)
  {
    WriteResultIn(fs, w);
    if w in WriteResults(fs) {
      var f :| f in fs && f.path == w.path && f.writes == w.writes;
      assert Summary(env, xs, f.path) == Some(f);
    }
    if w.writes != [] && w.writes == WritesTo(env, xs, w.path) {
      if !Seen(xs, w.path, Any) { Untouched(env, xs, w.path); }
      assert Summary(env, xs, w.path).value in fs;
    }
  }

  /** The writes reported: every written path once, in order, with its writes in log order. */
  ghost predicate ReportsWrites(env: Env, xs: seq<Effect>, summary: seq<FileWriteResult>) {
    && (forall i, j :: 0 <= i < j < |summary| ==> Less(summary[i].path, summary[j].path))
    && (forall w :: w in summary <==> w.writes != [] && w.writes == WritesTo(env, xs, w.path))
  }

  lemma {:induction false} WriteResultPaths(fs: seq<FileInfo>)
    requires forall i, j :: 0 <= i < j < |fs| ==> Less(fs[i].path, fs[j].path)
    ensures forall i, j :: 0 <= i < j < |WriteResults(fs)| ==> Less(WriteResults(fs)[i].path, WriteResults(fs)[j].path)
  {
    if fs != [] {
      var n := |fs| - 1;
      var before, after := WriteResults(fs[..n]), WriteResults(fs);
      WriteResultPaths(fs[..n]);
      forall i, j | 0 <= i < j < |after| ensures Less(after[i].path, after[j].path) {
        assert after[i] == before[i] && before[i] in before;
        WriteResultIn(fs[..n], before[i]);
      }
    }
  }

  lemma WriteResultsMean(env: Env, xs: seq<Effect>, fs: seq<FileInfo>)
    requires IsFileList(env, xs, fs)
    ensures ReportsWrites(env, xs, WriteResults(fs))
  {
    WriteResultPaths(fs);
    forall w ensures w in WriteResults(fs) <==> w.writes != [] && w.writes == WritesTo(env, xs, w.path) {
      WriteResultsInLogOrder(env, xs, fs, w);
    }
  }

  /** The ids recorded are those of the writes of some path. */
  ghost predicate ReportsIds(env: Env, xs: seq<Effect>, ids: seq<string>) {
    forall id :: id in ids <==> IdWritten(env, xs, id)
  }

  lemma BufferIdsMean(env: Env, xs: seq<Effect>, fs: seq<FileInfo>)
    requires IsFileList(env, xs, fs)
    ensures ReportsIds(env, xs, BufferIds(fs))
  {
    forall id ensures id in BufferIds(fs) <==> IdWritten(env, xs, id) {
      RecordedIdsAreStored(env, xs, fs, id);
      StoredExactlyRecorded(env, xs, id);
    }
  }

  lemma ReportMeans(env: Env, xs: seq<Effect>, fs: seq<FileInfo>, files0: seq<FileResult>,
                    writes0: seq<FileWriteResult>, ids0: seq<string>)
    requires IsFileList(env, xs, fs)
    ensures files0 == [] ==> ReportsFiles(xs, files0 + FileResults(fs))
    ensures writes0 == [] ==> ReportsWrites(env, xs, writes0 + WriteResults(fs))
    ensures ids0 == [] ==> ReportsIds(env, xs, ids0 + BufferIds(fs))
  {
    FileResultsMean(env, xs, fs);
    WriteResultsMean(env, xs, fs);
    BufferIdsMean(env, xs, fs);
    assert [] + FileResults(fs) == FileResults(fs);
    assert [] + WriteResults(fs) == WriteResults(fs);
    assert [] + BufferIds(fs) == BufferIds(fs);
  }

  lemma ResultsSnoc(fs: seq<FileInfo>, f: FileInfo)
    ensures FileResults(fs + [f]) == FileResults(fs) + [FileResult(f.path, f.read, f.write, f.del)]
    ensures WriteResults(fs + [f])
            == WriteResults(fs) + if |f.writes| > 0 then [FileWriteResult(f.path, f.writes)] else []
    ensures BufferIds(fs + [f]) == BufferIds(fs) + IdsOf(f.writes)
  {
    assert (fs + [f])[..|fs|] == fs;
  }

  /** What a phase result holds of the files. */
  datatype Reported = Reported(files: seq<FileResult>, writes: seq<FileWriteResult>, ids: seq<string>)

  ghost function WithFiles(r: Reported, fs: seq<FileInfo>): Reported {
    Reported(r.files + FileResults(fs), r.writes + WriteResults(fs), r.ids + BufferIds(fs))
  }

  lemma WithOneMore(r: Reported, fs: seq<FileInfo>, f: FileInfo)
    ensures var was, more := WithFiles(r, fs), WithFiles(r, fs + [f]);
            && more.files == was.files + [FileResult(f.path, f.read, f.write, f.del)]
            && more.writes == (if |f.writes| > 0 then was.writes + [FileWriteResult(f.path, f.writes)] else was.writes)
            && more.ids == was.ids + IdsOf(f.writes)
  {
    ResultsSnoc(fs, f);
    LogWriter.Associative(r.ids, BufferIds(fs), IdsOf(f.writes));
  }

  class PhaseResult {
    var files: seq<FileResult>
    var fileWritesSummary: seq<FileWriteResult>
    var fileWriteBufferIds: seq<string>

    constructor ()
      ensures files == [] && fileWritesSummary == [] && fileWriteBufferIds == []
    {
      files, fileWritesSummary, fileWriteBufferIds := [], [], [];
    }

    method SetData(r: StraceResult) returns (ghost fs: seq<FileInfo>)
      requires r.Summarises()
      modifies this
      ensures IsFileList(r.env, r.effects, fs)
      ensures files == old(files) + FileResults(fs)
      ensures fileWritesSummary == old(fileWritesSummary) + WriteResults(fs)
      ensures fileWriteBufferIds == old(fileWriteBufferIds) + BufferIds(fs)
      ensures old(files) == [] ==> ReportsFiles(r.effects, files)
      ensures old(fileWritesSummary) == [] ==> ReportsWrites(r.env, r.effects, fileWritesSummary)
      ensures old(fileWriteBufferIds) == [] ==> ReportsIds(r.env, r.effects, fileWriteBufferIds)
    {
      var infos := r.Files();
      fs := infos;
      for i := 0 to |infos|
        invariant Holds(old(Report()), infos[..i])
      {
        assert infos[..i + 1] == infos[..i] + [infos[i]];
        AddFile(infos[i], infos[..i], old(Report()));
      }
      assert infos[..|infos|] == infos;
      ReportMeans(r.env, r.effects, fs, old(files), old(fileWritesSummary), old(fileWriteBufferIds));
    }

    ghost function Report(): Reported
      reads this
    {
      Reported(files, fileWritesSummary, fileWriteBufferIds)
    }

    /** The report has grown by what it says of the files fs. */
    ghost predicate Holds(before: Reported, fs: seq<FileInfo>)
      reads this
    {
      Report() == WithFiles(before, fs)
    }

    /** One file of SetData's loop. */
    method AddFile(f: FileInfo, ghost fs: seq<FileInfo>, ghost before: Reported)
      requires Holds(before, fs)
      modifies this
      ensures Holds(before, fs + [f])
    {
      WithOneMore(before, fs, f);
      files := files + [FileResult(f.path, f.read, f.write, f.del)];
      var w := AddWrites(f);
      if |f.writes| > 0 {
        fileWritesSummary := fileWritesSummary + [w];
      }
    }

    /** The loop over the writes of one file. */
    method AddWrites(f: FileInfo) returns (w: FileWriteResult)
      modifies `fileWriteBufferIds
      ensures w == FileWriteResult(f.path, f.writes)
      ensures fileWriteBufferIds == old(fileWriteBufferIds) + IdsOf(f.writes)
    {
      w := FileWriteResult(f.path, []);
      for i := 0 to |f.writes|
        invariant w == FileWriteResult(f.path, f.writes[..i])
        invariant fileWriteBufferIds == old(fileWriteBufferIds) + IdsOf(f.writes[..i])
      {
        assert f.writes[..i + 1][..i] == f.writes[..i];
        w := w.(writes := w.writes + [WriteInfo(f.writes[i].bufferId, f.writes[i].bytesWritten)]);
        fileWriteBufferIds := fileWriteBufferIds + [f.writes[i].bufferId];
      }
      assert f.writes[..|f.writes|] == f.writes;
    }
  }

  // ----- all phases, and the archive -----

  /** A phase as run: whether the sandbox could, whether it completed, its log, and whether reading that fails. */
  datatype PhaseRun = PhaseRun(name: string, ran: bool, completed: bool, log: seq<LogWriter.byte>, broken: bool)

  /** The phase was run and its log can be read to the end. */
  predicate HasLog(phase: PhaseRun) { phase.ran && !phase.broken }

  /** All ids recorded by some phase. */
  function AllIds(recorded: map<string, seq<string>>): set<string> {
    set phase, id | phase in recorded && id in recorded[phase] :: id
  }

  lemma AllIdsAdd(recorded: map<string, seq<string>>, phase: string, ids: seq<string>)
    requires phase !in recorded
    ensures AllIds(recorded[phase := ids]) == AllIds(recorded) + set id | id in ids
  {
    var after := recorded[phase := ids];
    forall id ensures id in AllIds(after) <==> id in AllIds(recorded) || id in ids {
      if id in AllIds(recorded) {
        var q :| q in recorded && id in recorded[q];
        assert q in after && id in after[q];
      }
      if id in ids { assert phase in after && id in after[phase]; }
    }
  }

  /** The buffers of the recorded phases are on disk under the hashes of their contents. */
  ghost predicate OnDisk(env: Env, files: map<string, string>, recorded: map<string, seq<string>>) {
    forall id :: id in AllIds(recorded) ==> id in files && env.hash(files[id]) == id
  }

  /** The buffers a log makes the parser store. */
  function LogStores(env: Env, text: seq<LogWriter.byte>): map<string, string> {
    Stored(env, Effects(env, LogLines(text)))
  }

  lemma PhaseIds(env: Env, text: seq<LogWriter.byte>, fs: seq<FileInfo>)
    requires IsFileList(env, Effects(env, LogLines(text)), fs)
    ensures forall id :: id in BufferIds(fs) <==> id in LogStores(env, text)
  {
    forall id ensures id in BufferIds(fs) <==> id in LogStores(env, text) {
      RecordedIdsAreStored(env, Effects(env, LogLines(text)), fs, id);
    }
  }

  /** Runs one phase and collects its ids; on an error nothing is collected. */
  method RunPhase(env: Env, dir: TempDir, phase: PhaseRun) returns (ids: seq<string>, ok: bool)
    modifies dir
    ensures old(dir.files).Keys <= dir.files.Keys
    ensures ok <==> phase.ran && !phase.broken && dir.failures == old(dir.failures)
    ensures dir.failures >= old(dir.failures)
    ensures ok ==> dir.files == old(dir.files) + LogStores(env, phase.log)
    ensures ok ==> forall id :: id in ids <==> id in LogStores(env, phase.log)
  {
    if !phase.ran { return [], false; }
    var r := Parse(env, dir, phase.log, phase.broken);
    if r == null { return [], false; }
    var result := new PhaseResult();
    ghost var fs := result.SetData(r);
    ids, ok := result.fileWriteBufferIds, true;
    assert ids == BufferIds(fs);
    PhaseIds(env, phase.log, fs);
  }

  /** The buffers of the first n phases. */
  function StoredBy(env: Env, phases: seq<PhaseRun>, n: nat): set<string>
    requires n <= |phases|
  {
    if n == 0 then {} else StoredBy(env, phases, n - 1) + LogStores(env, phases[n - 1].log).Keys
  }

  /** The number of phases up to and including the first that does not complete. */
  function RunLength(phases: seq<PhaseRun>): (n: nat)
    ensures n <= |phases|
  {
    if phases == [] then 0 else if !phases[0].completed then 1 else 1 + RunLength(phases[1..])
  }

  /** Every phase counted but the last one completes, and the last one does not or is the last of all. */
  lemma {:induction false} RunLengthMeans(phases: seq<PhaseRun>)
    ensures phases == [] <==> RunLength(phases) == 0
    ensures forall i :: 0 <= i < RunLength(phases) - 1 ==> phases[i].completed
    ensures RunLength(phases) < |phases| ==> !phases[RunLength(phases) - 1].completed
  {
    if phases != [] && phases[0].completed { RunLengthMeans(phases[1..]); }
  }

  ghost predicate BufferedBy(env: Env, phases: seq<PhaseRun>, n: nat, id: string)
    requires n <= |phases|
  {
    exists i :: 0 <= i < n && LogBuffers(env, phases[i].log, id)
  }

  /** Some write call of the log has the id. */
  ghost predicate LogBuffers(env: Env, text: seq<LogWriter.byte>, id: string) { BuffersIn(env, LogLines(text), id) }

  lemma LogStoresExactly(env: Env, text: seq<LogWriter.byte>, id: string)
    ensures id in LogStores(env, text) <==> LogBuffers(env, text, id)
  {
    StoredFromLog(env, LogLines(text), id);
  }

  /** The ids of the first n phases are those of the write calls in their logs. */
  lemma {:induction false} StoredByExactly(env: Env, phases: seq<PhaseRun>, n: nat, id: string)
    requires n <= |phases|
    ensures id in StoredBy(env, phases, n) <==> BufferedBy(env, phases, n, id)
  {
    if n > 0 {
      StoredByExactly(env, phases, n - 1, id);
      StoredByStep(env, phases, n - 1, id);
      BufferedByStep(env, phases, n - 1, id);
    }
  }

  lemma StoredByStep(env: Env, phases: seq<PhaseRun>, n: nat, id: string)
    requires n < |phases|
    ensures id in StoredBy(env, phases, n + 1) <==>
            id in StoredBy(env, phases, n) || LogBuffers(env, phases[n].log, id)
  {
    LogStoresExactly(env, phases[n].log, id);
  }

  lemma BufferedByStep(env: Env, phases: seq<PhaseRun>, n: nat, id: string)
    requires n < |phases|
    ensures BufferedBy(env, phases, n + 1, id) <==>
            BufferedBy(env, phases, n, id) || LogBuffers(env, phases[n].log, id)
  {
  }

  ghost predicate BuffersIn(env: Env, lines: seq<seq<LogWriter.byte>>, id: string) {
    env.writeContents && exists i :: 0 <= i < |lines| && Buffers(env, EventAt(env, lines[i]), id)
  }

  lemma StoredFromLog(env: Env, lines: seq<seq<LogWriter.byte>>, id: string)
    ensures id in Stored(env, Effects(env, lines)) <==> BuffersIn(env, lines, id)
  {
    if BuffersIn(env, lines, id) {
      var i :| 0 <= i < |lines| && Buffers(env, EventAt(env, lines[i]), id);
      var first := FirstBuffer(env, lines, id, i);
      BufferExactly(env, lines, id, first);
    } else {
      BufferExactly(env, lines, id, 0);
    }
  }

  /** The first write call with the id. */
  lemma {:induction false} FirstBuffer(env: Env, lines: seq<seq<LogWriter.byte>>, id: string, i: nat)
    returns (first: nat)
    requires i < |lines| && Buffers(env, EventAt(env, lines[i]), id)
    ensures FirstBufferAt(env, lines, id, first)
    decreases i
  {
    first := i;
    if j: nat :| j < i && Buffers(env, EventAt(env, lines[j]), id) {
      first := FirstBuffer(env, lines, id, j);
    }
  }

  lemma {:induction false} RunLengthIs(phases: seq<PhaseRun>, n: nat)
    requires n <= |phases| && forall i :: 0 <= i < n ==> phases[i].completed
    ensures n < |phases| && !phases[n].completed ==> RunLength(phases) == n + 1
    ensures n == |phases| ==> RunLength(phases) == n
    ensures n < |phases| ==> n < RunLength(phases)
  {
    if n > 0 { RunLengthIs(phases[1..], n - 1); }
  }

  /** After n phases: their ids are recorded, and the directory has gained exactly their buffers. */
  ghost predicate Gained(env: Env, before: map<string, string>, files: map<string, string>,
                         recorded: map<string, seq<string>>, phases: seq<PhaseRun>, n: nat)
    requires n <= |phases|
  {
    && AllIds(recorded) == StoredBy(env, phases, n)
    && files.Keys == before.Keys + AllIds(recorded)
    && OnDisk(env, files, recorded)
  }

  lemma GainsPhase(env: Env, before: map<string, string>, files: map<string, string>,
                   recorded: map<string, seq<string>>, phases: seq<PhaseRun>, n: nat, ids: seq<string>)
    requires n < |phases| && Gained(env, before, files, recorded, phases, n) && phases[n].name !in recorded
    requires forall id :: id in ids <==> id in LogStores(env, phases[n].log)
    ensures Gained(env, before, files + LogStores(env, phases[n].log), recorded[phases[n].name := ids], phases, n + 1)
  {
    var stored, after := LogStores(env, phases[n].log), recorded[phases[n].name := ids];
    AllIdsAdd(recorded, phases[n].name, ids);
    assert (set id | id in ids) == stored.Keys;
    StoredOnce(env, Effects(env, LogLines(phases[n].log)));
    forall id | id in AllIds(after) ensures id in files + stored && env.hash((files + stored)[id]) == id {
      assert id in AllIds(recorded) || id in stored;
    }
  }

  /** Some phase that is reached cannot be run, or its log cannot be read. */
  ghost predicate SomeLogMissing(phases: seq<PhaseRun>) {
    exists i :: 0 <= i < RunLength(phases) && !HasLog(phases[i])
  }

  ghost predicate WentThrough(phases: seq<PhaseRun>, n: nat)
    requires n <= |phases|
  {
    forall i :: 0 <= i < n ==> phases[i].completed && HasLog(phases[i])
  }

  /** Where the loop over the phases leaves off. */
  lemma LoopLeaves(phases: seq<PhaseRun>, n: nat)
    requires n <= |phases| && WentThrough(phases, n)
    ensures n == |phases| ==> RunLength(phases) == n && !SomeLogMissing(phases)
    ensures n < |phases| && !HasLog(phases[n]) ==> SomeLogMissing(phases)
    ensures n < |phases| && HasLog(phases[n]) && !phases[n].completed ==>
              RunLength(phases) == n + 1 && !SomeLogMissing(phases)
  {
    RunLengthIs(phases, n);
  }

  /**
   Runs the phases in order, until one cannot be run or parsed (an error) or does not complete.
   Each phase's ids are recorded; the directory gains exactly the recorded buffers.
   */
  method RunPhases(env: Env, dir: TempDir, phases: seq<PhaseRun>)
    returns (recorded: map<string, seq<string>>, failed: bool)
    requires forall i, j :: 0 <= i < j < |phases| ==> phases[i].name != phases[j].name
    modifies dir
    ensures old(dir.files).Keys <= dir.files.Keys
    ensures failed <==> dir.failures > old(dir.failures) || SomeLogMissing(phases)
    ensures !failed ==> Gained(env, old(dir.files), dir.files, recorded, phases, RunLength(phases))
  {
    recorded := map[];
    for i := 0 to |phases|
      invariant WentThrough(phases, i)
      invariant dir.failures == old(dir.failures)
      invariant forall j :: i <= j < |phases| ==> phases[j].name !in recorded
      invariant Gained(env, old(dir.files), dir.files, recorded, phases, i)
    {
      ghost var before := dir.files;
      var ids, ok := RunPhase(env, dir, phases[i]);
      if !ok {
        LoopLeaves(phases, i);
        return recorded, true;
      }
      GainsPhase(env, old(dir.files), before, recorded, phases, i, ids);
      recorded := recorded[phases[i].name := ids];
      if !phases[i].completed {
        LoopLeaves(phases, i);
        return recorded, false;
      }
    }
    LoopLeaves(phases, |phases|);
    return recorded, false;
  }

  /** The ids handed to the archive: those of all phases, taken in any order, without duplicates. */
  method CollectIds(recorded: map<string, seq<string>>) returns (ids: seq<string>)
    ensures forall id :: id in ids <==> id in AllIds(recorded)
    ensures forall i, j :: 0 <= i < j < |ids| ==> ids[i] != ids[j]
  {
    var all: seq<string> := [];
    var left := recorded;
    while left != map[]
      invariant forall q :: q in left ==> q in recorded && left[q] == recorded[q]
      invariant forall q :: q in recorded && q !in left ==> forall id :: id in recorded[q] ==> id in all
      invariant forall id :: id in all ==> id in AllIds(recorded)
      decreases |left|
    {
      ghost var w := Element(left.Keys);
      var q :| q in left;
      all := all + recorded[q];
      left := left - {q};
    }
    ids := RemoveDuplicates(all);
    DeduplicatedSpec(all);
  }

  /** The archive: one entry for each id, with the contents of its file; None if a file is missing. */
  method SaveTempFilesToZip(dir: TempDir, ids: seq<string>) returns (zip: Option<seq<(string, string)>>)
    ensures zip.Some? <==> forall id :: id in ids ==> id in dir.files
    ensures zip.Some? ==> |zip.value| == |ids|
    ensures zip.Some? ==> forall i :: 0 <= i < |ids| ==>
                            ids[i] in dir.files && zip.value[i] == (ids[i] + ".json", dir.files[ids[i]])
  {
    var entries: seq<(string, string)> := [];
    for i := 0 to |ids|
      invariant |entries| == i
      invariant forall j :: 0 <= j < i ==>
                  ids[j] in dir.files && entries[j] == (ids[j] + ".json", dir.files[ids[j]])
    {
      if ids[i] !in dir.files { return None; }
      entries := entries + [(ids[i] + ".json", dir.files[ids[i]])];
    }
    return Some(entries);
  }

  /** zip has one entry for each file of the directory, and nothing else. */
  ghost predicate Archives(zip: seq<(string, string)>, files: map<string, string>) {
    && (forall i, j :: 0 <= i < j < |zip| ==> zip[i] != zip[j])
    && (forall name, data :: (name + ".json", data) in zip <==> name in files && files[name] == data)
    && (forall e :: e in zip ==> exists name :: name in files && e.0 == name + ".json")
  }

  method SaveFileWriteResults(dir: TempDir, recorded: map<string, seq<string>>)
    returns (zip: Option<seq<(string, string)>>)
    modifies dir`files
    ensures zip.Some? <==> AllIds(recorded) <= old(dir.files).Keys
    ensures zip.Some? ==>
              Archives(zip.value, map id | id in old(dir.files) && id in AllIds(recorded) :: old(dir.files)[id])
    ensures dir.files == if zip.Some? then map[] else old(dir.files)
  {
    var ids := CollectIds(recorded);
    zip := SaveTempFilesToZip(dir, ids);
    if zip.None? { return; }
    ArchiveOf(zip.value, ids, dir.files, AllIds(recorded));
    dir.RemoveTempFilesDirectory();
  }

  lemma JsonInjective(a: string, b: string)
    requires a + ".json" == b + ".json"
    ensures a == b
  {
    assert (a + ".json")[..|a + ".json"| - 5] == a && (b + ".json")[..|b + ".json"| - 5] == b;
  }

  lemma ArchiveOf(zip: seq<(string, string)>, ids: seq<string>, files: map<string, string>, all: set<string>)
    requires |zip| == |ids|
    requires forall i :: 0 <= i < |ids| ==> ids[i] in files && zip[i] == (ids[i] + ".json", files[ids[i]])
    requires forall i, j :: 0 <= i < j < |ids| ==> ids[i] != ids[j]
    requires forall id :: id in ids <==> id in all
    ensures Archives(zip, map id | id in files && id in all :: files[id])
  {
    var part := map id | id in files && id in all :: files[id];
    forall i, j | 0 <= i < j < |zip| ensures zip[i] != zip[j] {
      if zip[i] == zip[j] { JsonInjective(ids[i], ids[j]); }
    }
    forall name, data ensures (name + ".json", data) in zip <==> name in part && part[name] == data {
      if (name + ".json", data) in zip {
        var i :| 0 <= i < |zip| && zip[i] == (name + ".json", data);
        JsonInjective(ids[i], name);
        assert ids[i] in ids;
      }
      if name in part && part[name] == data {
        var i :| 0 <= i < |ids| && ids[i] == name;
        assert zip[i] == (name + ".json", data);
      }
    }
    forall e | e in zip ensures exists name :: name in part && e.0 == name + ".json" {
      var i :| 0 <= i < |zip| && zip[i] == e;
      assert ids[i] in ids;
    }
  }

  lemma ArchivesWhole(zip: seq<(string, string)>, files: map<string, string>, ids: set<string>)
    requires Archives(zip, map id | id in files && id in ids :: files[id])
    ensures Archives(zip, files) <==> files.Keys <= ids
  {
    var part := map id | id in files && id in ids :: files[id];
    if files.Keys <= ids {
      assert part == files;
    }
    if Archives(zip, files) {
      forall name | name in files ensures name in ids {
        assert (name + ".json", files[name]) in zip;
        assert name in part;
      }
    }
  }

  /**
   Where results go: whether the two buckets are configured, and whether the uploads succeed that
   come before the directory is emptied.
   */
  datatype Stores = Stores(dynamicAnalysis: bool, fileWrites: bool, uploads: bool)

  predicate SavesBuffers(env: Env, stores: Stores) {
    env.writeContents && stores.dynamicAnalysis && stores.fileWrites && stores.uploads
  }

  /**
   One package: run the phases and, if none failed, archive their buffers. The archive then holds
   every buffer on disk once and nothing else exactly if the phases rewrote whatever was left there
   before. Without an archive, because a phase failed, the feature is off, a bucket is missing or an
   upload fails, the buffers stay on disk.
   */
  method AnalyzePackage(env: Env, dir: TempDir, stores: Stores, phases: seq<PhaseRun>)
    returns (zip: Option<seq<(string, string)>>, failed: bool, ghost onDisk: map<string, string>)
    requires forall i, j :: 0 <= i < j < |phases| ==> phases[i].name != phases[j].name
    modifies dir
    ensures failed <==> dir.failures > old(dir.failures) || SomeLogMissing(phases)
    ensures zip.Some? <==>
            !failed && env.writeContents && stores.dynamicAnalysis && stores.fileWrites && stores.uploads
    ensures zip.None? ==> dir.files == onDisk && old(dir.files).Keys <= onDisk.Keys
    ensures zip.Some? ==> dir.files == map[]
    ensures !failed ==> onDisk.Keys == old(dir.files).Keys + StoredBy(env, phases, RunLength(phases))
    ensures !failed ==> forall id :: id in StoredBy(env, phases, RunLength(phases)) ==> env.hash(onDisk[id]) == id
    ensures zip.Some? ==>
              (Archives(zip.value, onDisk) <==> old(dir.files).Keys <= StoredBy(env, phases, RunLength(phases)))
  {
    var recorded;
    recorded, failed := RunPhases(env, dir, phases);
    onDisk := dir.files;
    if failed || !SavesBuffers(env, stores) { return None, failed, onDisk; }
    zip := SaveFileWriteResults(dir, recorded);
    ArchivesWhole(zip.value, onDisk, AllIds(recorded));
  }
}

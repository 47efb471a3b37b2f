/** The strace log parser: a loop over the lines of a log that fills the maps of a result. */
module StraceParser {
  import opened Wrappers
  import opened Ordering
  import opened StringOrder
  import opened StraceEvents
  import opened StraceSummary
  import opened LogWriter
  import SocketKeys

  // ----- lines and effects of a log -----

  /** The lines the reader returns, without terminators: the last one may be empty. */
  function LogLines(text: seq<byte>): seq<seq<byte>> { Lines(text) + [Remainder(text)] }

  function EventAt(env: Env, line: seq<byte>): Event { env.event(TrimRight(line)) }

  function Effects(env: Env, lines: seq<seq<byte>>): seq<Effect> {
    if lines == [] then []
    else Effects(env, lines[..|lines| - 1]) + [EffectOf(env, EventAt(env, lines[|lines| - 1]))]
  }

  function Trace(env: Env, lines: seq<seq<byte>>): seq<string> {
    if lines == [] then []
    else Trace(env, lines[..|lines| - 1]) + Traced(EventAt(env, lines[|lines| - 1]))
  }

  /** Two logs with a newline between them have the lines of the first, then those of the second. */
  lemma {:induction false} LinesOfConcat(a: seq<byte>, b: seq<byte>)
    ensures Lines(a + [NEWLINE] + b) == LogLines(a) + Lines(b)
    ensures Remainder(a + [NEWLINE] + b) == Remainder(b)
  {
    if b == [] {
      assert a + [] + [NEWLINE] == a + [NEWLINE] + b;
      assert Remainder(a) + [] == Remainder(a);
      AppendLine(a, []);
    } else {
      var n := |b| - 1;
      LinesOfConcat(a, b[..n]);
      assert (a + [NEWLINE] + b)[..|a + [NEWLINE] + b| - 1] == a + [NEWLINE] + b[..n];
      Associative(LogLines(a), Lines(b[..n]), [Remainder(b[..n])]);
    }
  }

  lemma EffectsSnoc(env: Env, lines: seq<seq<byte>>, line: seq<byte>)
    ensures Effects(env, lines + [line]) == Effects(env, lines) + [EffectOf(env, EventAt(env, line))]
    ensures Trace(env, lines + [line]) == Trace(env, lines) + Traced(EventAt(env, line))
  {
    assert (lines + [line])[..|lines|] == lines;
  }

  lemma {:induction false} EffectsOfConcat(env: Env, s: seq<seq<byte>>, t: seq<seq<byte>>)
    ensures Effects(env, s + t) == Effects(env, s) + Effects(env, t)
  {
    if t == [] {
      assert s + t == s;
    } else {
      var init, line := t[..|t| - 1], t[|t| - 1];
      var last := [EffectOf(env, EventAt(env, line))];
      calc {
        Effects(env, s + t);
      == { assert s + t == (s + init) + [line]; }
        Effects(env, (s + init) + [line]);
      == { EffectsSnoc(env, s + init, line); }
        Effects(env, s + init) + last;
      == { EffectsOfConcat(env, s, init); }
        (Effects(env, s) + Effects(env, init)) + last;
      == { Associative(Effects(env, s), Effects(env, init), last); }
        Effects(env, s) + (Effects(env, init) + last);
      == { EffectsSnoc(env, init, line); assert t == init + [line]; }
        Effects(env, s) + Effects(env, t);
      }
    }
  }

  lemma {:induction false} TraceOfConcat(env: Env, s: seq<seq<byte>>, t: seq<seq<byte>>)
    ensures Trace(env, s + t) == Trace(env, s) + Trace(env, t)
  {
    if t == [] {
      assert s + t == s;
    } else {
      var init, line := t[..|t| - 1], t[|t| - 1];
      var last := Traced(EventAt(env, line));
      calc {
        Trace(env, s + t);
      == { assert s + t == (s + init) + [line]; }
        Trace(env, (s + init) + [line]);
      == { EffectsSnoc(env, s + init, line); }
        Trace(env, s + init) + last;
      == { TraceOfConcat(env, s, init); }
        (Trace(env, s) + Trace(env, init)) + last;
      == { Associative(Trace(env, s), Trace(env, init), last); }
        Trace(env, s) + (Trace(env, init) + last);
      == { EffectsSnoc(env, init, line); assert t == init + [line]; }
        Trace(env, s) + Trace(env, t);
      }
    }
  }

  lemma LogsConcat(env: Env, a: seq<byte>, b: seq<byte>)
    ensures Effects(env, LogLines(a + [NEWLINE] + b)) == Effects(env, LogLines(a)) + Effects(env, LogLines(b))
    ensures Trace(env, LogLines(a + [NEWLINE] + b)) == Trace(env, LogLines(a)) + Trace(env, LogLines(b))
  {
    LinesOfConcat(a, b);
    Associative(LogLines(a), Lines(b), [Remainder(b)]);
    EffectsOfConcat(env, LogLines(a), LogLines(b));
    TraceOfConcat(env, LogLines(a), LogLines(b));
  }

  // ----- maps that hold the summary of a sequence of effects -----

  function Lookup<K, V>(m: map<K, V>, k: K): Option<V> { if k in m then Some(m[k]) else None }

  ghost predicate HoldsFiles(env: Env, files: map<string, FileInfo>, xs: seq<Effect>) {
    forall p :: Lookup(files, p) == FileOf(env, xs, p)
  }

  ghost predicate HoldsSockets(sockets: map<string, SocketInfo>, xs: seq<Effect>) {
    forall k :: Lookup(sockets, k) == SocketOf(xs, k)
  }

  ghost predicate HoldsCommands(env: Env, commands: map<string, CommandInfo>, xs: seq<Effect>) {
    forall k :: Lookup(commands, k) == CommandOf(env, xs, k)
  }

  /** The effect x takes one map of file summaries to the other. */
  ghost predicate StepsTo(env: Env, files: map<string, FileInfo>, x: Effect, after: map<string, FileInfo>) {
    forall p :: Lookup(after, p) == Step(env, Lookup(files, p), x, p)
  }

  lemma TouchSteps(env: Env, files: map<string, FileInfo>, x: Effect, after: map<string, FileInfo>)
    requires x.Access?
    requires after == files[x.path := Updated(env, if x.path in files then files[x.path] else Blank(x.path), x)]
    ensures StepsTo(env, files, x, after)
  {
  }

  lemma Overwrite<K, V>(m: map<K, V>, k: K, a: V, b: V)
    ensures m[k := a][k := b] == m[k := b]
  {
  }

  lemma AddLast(a: map<string, string>, b: map<string, string>, k: string, v: string)
    ensures a + b[k := v] == (a + b)[k := v]
    ensures b[k := v].Keys == b.Keys + {k}
  {
  }

  /** A write is a write access that may also add a record of the buffer. */
  lemma AccessThenRecord(env: Env, files: map<string, FileInfo>, x: Effect, accessed: map<string, FileInfo>)
    requires x.Write?
    requires StepsTo(env, files, Access(x.path, false, true, false), accessed)
    ensures x.path in accessed
    ensures var f := accessed[x.path];
            StepsTo(env, files, x, accessed[x.path := f.(writes := f.writes + WriteInfoOf(env, x))])
  {
    assert Lookup(accessed, x.path).Some?;
    var f := accessed[x.path];
    var before := Lookup(files, x.path);
    var w := if before.Some? then before.value.writes else [];
    assert w + [] == w;
    assert f.writes == w;
  }

  lemma FilesStep(env: Env, files: map<string, FileInfo>, xs: seq<Effect>, x: Effect, after: map<string, FileInfo>)
    requires HoldsFiles(env, files, xs) && StepsTo(env, files, x, after)
    ensures HoldsFiles(env, after, xs + [x])
  {
    assert (xs + [x])[..|xs|] == xs;
  }

  lemma SocketsStep(sockets: map<string, SocketInfo>, xs: seq<Effect>, x: Effect, after: map<string, SocketInfo>)
    requires HoldsSockets(sockets, xs)
    requires forall k :: Lookup(after, k)
                         == if k !in sockets && x.Socket? && SocketKeys.SocketKey(x.address, x.port) == k
                            then Some(SocketInfo(x.address, x.port)) else Lookup(sockets, k)
    ensures HoldsSockets(after, xs + [x])
  {
    assert (xs + [x])[..|xs|] == xs;
    forall k ensures Lookup(after, k) == SocketOf(xs + [x], k) {
      assert Lookup(sockets, k) == SocketOf(xs, k);
    }
  }

  lemma CommandsStep(env: Env, commands: map<string, CommandInfo>, xs: seq<Effect>, x: Effect,
                     after: map<string, CommandInfo>)
    requires HoldsCommands(env, commands, xs)
    requires forall k :: Lookup(after, k)
                         == if k !in commands && x.Command? && env.commandKey(x.cmd, x.env) == k
                            then Some(CommandInfo(x.cmd, x.env)) else Lookup(commands, k)
    ensures HoldsCommands(env, after, xs + [x])
  {
    assert (xs + [x])[..|xs|] == xs;
    forall k ensures Lookup(after, k) == CommandOf(env, xs + [x], k) {
      assert Lookup(commands, k) == CommandOf(env, xs, k);
    }
  }

  lemma StoredStep(env: Env, xs: seq<Effect>, x: Effect)
    ensures Stored(env, xs + [x])
            == if x.Write? && env.writeContents && env.hash(x.buffer) !in Stored(env, xs)
               then Stored(env, xs)[env.hash(x.buffer) := x.buffer] else Stored(env, xs)
    ensures StoredIds(env, xs + [x])
            == if x.Write? && env.writeContents && env.hash(x.buffer) !in Stored(env, xs)
               then StoredIds(env, xs) + [env.hash(x.buffer)] else StoredIds(env, xs)
  {
    assert (xs + [x])[..|xs|] == xs;
  }

  // ----- the directory of write buffers -----

  /** The directory of buffer files; `created` lists the calls that create one, `failures` counts those that fail. */
  class TempDir {
    var files: map<string, string>
    ghost var created: seq<string>
    ghost var failures: nat

    constructor ()
      ensures files == map[] && created == [] && failures == 0
    {
      files, created, failures := map[], [], 0;
    }

    /** Creating or writing the file may fail, and may leave part of it behind. */
    method CreateAndWriteTempFile(name: string, data: string) returns (ok: bool)
      modifies this
      ensures created == old(created) + [name] && failures == old(failures) + if ok then 0 else 1
      ensures ok ==> files == old(files)[name := data]
      ensures !ok ==> old(files).Keys <= files.Keys && forall n :: n in files && n != name ==>
                                                         n in old(files) && files[n] == old(files)[n]
    {
      created := created + [name];
      ok := *;
      if ok {
        files := files[name := data];
      } else {
        failures := failures + 1;
        var begun: bool := *;
        var part: string := *;
        if begun { files := files[name := part]; }
      }
    }

    method RemoveTempFilesDirectory()
      modifies `files
      ensures files == map[]
    {
      files := map[];
    }
  }

  // ----- the result -----

  /** fs holds the summaries of all touched paths, by strictly increasing path. */
  ghost predicate IsFileList(env: Env, xs: seq<Effect>, fs: seq<FileInfo>) {
    && (forall i, j :: 0 <= i < j < |fs| ==> Less(fs[i].path, fs[j].path))
    && (forall f :: f in fs <==> Summary(env, xs, f.path) == Some(f))
  }

  datatype Outcome = Parsed | Malformed | DiskError

  class StraceResult {
    const env: Env
    const dir: TempDir
    var files: map<string, FileInfo>
    var sockets: map<string, SocketInfo>
    var commands: map<string, CommandInfo>
    var allWriteBufferIds: set<string>
    var syscallSequence: seq<string>

    /** The effects of the lines parsed so far, and the directory before them. */
    ghost var effects: seq<Effect>
    ghost const filesBefore: map<string, string>
    ghost const createdBefore: seq<string>

    /** The maps hold the summary of the effects. */
    ghost predicate Summarises()
      reads this
    {
      && HoldsFiles(env, files, effects)
      && HoldsSockets(sockets, effects)
      && HoldsCommands(env, commands, effects)
    }

    /** The directory has gained one file for each distinct buffer of xs, each created once. */
    ghost predicate HasStored(xs: seq<Effect>)
      reads `allWriteBufferIds, dir
    {
      && allWriteBufferIds == Stored(env, xs).Keys
      && dir.files == filesBefore + Stored(env, xs)
      && dir.created == createdBefore + StoredIds(env, xs)
    }

    ghost predicate Valid()
      reads this, dir
    {
      Summarises() && HasStored(effects)
    }

    constructor (env: Env, dir: TempDir)
      ensures Valid() && this.env == env && this.dir == dir
      ensures effects == [] && syscallSequence == []
      ensures filesBefore == dir.files && createdBefore == dir.created
    {
      this.env, this.dir := env, dir;
      files, sockets, commands := map[], map[], map[];
      allWriteBufferIds, syscallSequence, effects := {}, [], [];
      filesBefore, createdBefore := dir.files, dir.created;
    }

    method RecordFileAccess(file: string, read: bool, write: bool, del: bool)
      requires HoldsFiles(env, files, effects)
      modifies `files
      ensures StepsTo(env, old(files), Access(file, read, write, del), files)
      ensures HoldsFiles(env, files, effects + [Access(file, read, write, del)])
    {
      ghost var x := Access(file, read, write, del);
      var f := if file in files then files[file] else Blank(file);
      Overwrite(files, file, f, f.(read := f.read || read));
      if file !in files {
        files := files[file := f];
      }
      files := files[file := f.(read := f.read || read)];
      Overwrite(old(files), file, files[file], files[file].(write := f.write || write));
      files := files[file := files[file].(write := f.write || write)];
      Overwrite(old(files), file, files[file], files[file].(del := f.del || del));
      files := files[file := files[file].(del := f.del || del)];
      assert f.writes + [] == f.writes;
      TouchSteps(env, old(files), x, files);
      FilesStep(env, old(files), effects, x, files);
    }

    method RecordFileWrite(file: string, buffer: string, bytesWritten: int) returns (ok: bool)
      requires HasStored(effects) && HoldsFiles(env, files, effects)
      modifies `files, `allWriteBufferIds, dir
      ensures ok ==> HasStored(effects + [Write(file, buffer, bytesWritten)])
      ensures ok ==> HoldsFiles(env, files, effects + [Write(file, buffer, bytesWritten)])
      ensures old(dir.files).Keys <= dir.files.Keys
      ensures dir.failures == old(dir.failures) + if ok then 0 else 1
    {
      ghost var x := Write(file, buffer, bytesWritten);
      StoredStep(env, effects, x);
      RecordFileAccess(file, false, true, false);
      AccessThenRecord(env, old(files), x, files);
      var f := files[file];
      if !env.writeContents {
        assert f.(writes := f.writes + []) == f;
        assert files[file := f] == files;
        FilesStep(env, old(files), effects, x, files);
        return true;
      }
      var writeId := env.hash(buffer);
      files := files[file := f.(writes := f.writes + [WriteInfo(writeId, bytesWritten)])];
      FilesStep(env, old(files), effects, x, files);
      ok := SaveBuffer(x, writeId, buffer);
    }

    /** Writes the buffer of x to disk unless one with its id is there already. */
    method SaveBuffer(ghost x: Effect, writeId: string, buffer: string) returns (ok: bool)
      requires HasStored(effects)
      requires env.writeContents && x.Write? && x.buffer == buffer && writeId == env.hash(buffer)
      modifies `allWriteBufferIds, dir
      ensures ok ==> HasStored(effects + [x])
      ensures old(dir.files).Keys <= dir.files.Keys
      ensures dir.failures == old(dir.failures) + if ok then 0 else 1
    {
      StoredStep(env, effects, x);
      AddLast(filesBefore, Stored(env, effects), writeId, buffer);
      if writeId !in allWriteBufferIds {
        ok := dir.CreateAndWriteTempFile(writeId, buffer);
        if !ok { return; }
        allWriteBufferIds := allWriteBufferIds + {writeId};
        Associative(createdBefore, StoredIds(env, effects), [writeId]);
      }
      return true;
    }

    method RecordSocket(address: string, port: nat)
      requires HoldsSockets(sockets, effects)
      modifies `sockets
      ensures HoldsSockets(sockets, effects + [Socket(address, port)])
    {
      var key := SocketKeys.SocketKey(address, port);
      if key !in sockets {
        sockets := sockets[key := SocketInfo(address, port)];
      }
      SocketsStep(old(sockets), effects, Socket(address, port), sockets);
    }

    method RecordCommand(cmd: seq<string>, cmdEnv: seq<string>)
      requires HoldsCommands(env, commands, effects)
      modifies `commands
      ensures HoldsCommands(env, commands, effects + [Command(cmd, cmdEnv)])
    {
      var key := env.commandKey(cmd, cmdEnv);
      if key !in commands {
        commands := commands[key := CommandInfo(cmd, cmdEnv)];
      }
      CommandsStep(env, old(commands), effects, Command(cmd, cmdEnv), commands);
    }

    /** What an effect of another kind leaves as it was. */
    lemma Kept(x: Effect)
      requires Valid()
      ensures !x.Access? && !x.Write? ==> HoldsFiles(env, files, effects + [x])
      ensures !x.Socket? ==> HoldsSockets(sockets, effects + [x])
      ensures !x.Command? ==> HoldsCommands(env, commands, effects + [x])
      ensures !x.Write? ==> HasStored(effects + [x])
    {
      if !x.Access? && !x.Write? { FilesStep(env, files, effects, x, files); }
      if !x.Socket? { SocketsStep(sockets, effects, x, sockets); }
      if !x.Command? { CommandsStep(env, commands, effects, x, commands); }
      StoredStep(env, effects, x);
    }

    method ParseEnterSyscall(e: Event) returns (out: Outcome)
      requires Valid() && (e.EnterWrite? || e.EnterOther?)
      modifies this, dir
      ensures !out.DiskError? ==> Valid()
      ensures !out.DiskError? ==> effects == old(effects) + [EffectOf(env, e)]
      ensures !out.DiskError? ==> syscallSequence == old(syscallSequence) + Traced(e)
      ensures !out.DiskError? ==> (out.Malformed? <==> EffectOf(env, e).ParseFailure?)
      ensures old(dir.files).Keys <= dir.files.Keys
      ensures dir.failures == old(dir.failures) + if !out.DiskError? then 0 else 1
    {
      syscallSequence := syscallSequence + [e.raw];
      out := Parsed;
      if e.EnterWrite? {
        out := ParseWrite(e.file, e.args);
      } else {
        Kept(Nothing);
        effects := effects + [Nothing];
      }
    }

    /** The arguments of a write call. */
    method ParseWrite(file: string, args: string) returns (out: Outcome)
      requires Valid()
      modifies `files, `allWriteBufferIds, `effects, dir
      ensures !out.DiskError? ==> Valid() && effects == old(effects) + [WriteEffect(file, args)]
      ensures !out.DiskError? ==> (out.Malformed? <==> WriteEffect(file, args).ParseFailure?)
      ensures old(dir.files).Keys <= dir.files.Keys
      ensures dir.failures == old(dir.failures) + if !out.DiskError? then 0 else 1
    {
      var bytesWritten := WriteCount(args);
      if bytesWritten.None? {
        Kept(ParseFailure);
        effects := effects + [ParseFailure];
        return Malformed;
      }
      var buffer := QuotedText(args);
      Kept(Write(file, buffer, bytesWritten.value));
      var ok := RecordFileWrite(file, buffer, bytesWritten.value);
      if !ok { return DiskError; }
      effects := effects + [Write(file, buffer, bytesWritten.value)];
      return Parsed;
    }

    method ParseExitSyscall(e: Event) returns (out: Outcome)
      requires Valid() && !e.Unmatched? && !e.EnterWrite? && !e.EnterOther?
      modifies this
      ensures Valid() && effects == old(effects) + [EffectOf(env, e)]
      ensures syscallSequence == old(syscallSequence) + Traced(e)
      ensures out == if EffectOf(env, e).ParseFailure? then Malformed else Parsed
    {
      ghost var x := EffectOf(env, e);
      Kept(x);
      out := Parsed;
      syscallSequence := syscallSequence + [e.raw];
      match e {
        case Creat(_, path) =>
          if path.None? { out := Malformed; } else { RecordFileAccess(path.value, false, true, false); }
        case Open(_, m) =>
          if m.None? { out := Malformed; } else {
            var (read, write) := OpenFlags(m.value.1);
            RecordFileAccess(m.value.0, read, write, false);
          }
        case Openat(_, m) =>
          if m.None? { out := Malformed; } else {
            var (read, write) := OpenFlags(m.value.2);
            RecordFileAccess(JoinPaths(env, m.value.0, m.value.1), read, write, false);
          }
        case Execve(_, m) =>
          if m.None? { out := Malformed; } else { RecordCommand(m.value.0, m.value.1); }
        case Connect(_, m) =>
          if m.None? { out := Malformed; }
          else if m.value.0 == "AF_INET" || m.value.0 == "AF_INET6" {
            var port := ParseInt(m.value.2, 10);
            if port.None? || port.value < 0 { out := Malformed; } else { RecordSocket(m.value.1, port.value); }
          }
        case Stat(_, path) =>
          if path.None? { out := Malformed; } else { RecordFileAccess(path.value, true, false, false); }
        case Newfstatat(_, m) =>
          if m.None? { out := Malformed; } else {
            RecordFileAccess(JoinPaths(env, m.value.0, m.value.1), true, false, false);
          }
        case Unlink(_, path) =>
          if path.None? { out := Malformed; } else { RecordFileAccess(path.value, false, false, true); }
        case Unlinkat(_, m) =>
          if m.None? { out := Malformed; } else {
            RecordFileAccess(JoinPaths(env, m.value.0, m.value.1), false, false, true);
          }
        case ExitOther(_) =>
      }
      effects := effects + [x];
    }

    /** The result is that of parsing the lines. */
    ghost predicate HasParsed(lines: seq<seq<byte>>)
      reads this, dir
    {
      Valid() && effects == Effects(env, lines) && syscallSequence == Trace(env, lines)
    }

    /** One line as read: its event, if any, is parsed; malformed arguments are logged and passed over. */
    method ParseLine(line: seq<byte>, ghost lines: seq<seq<byte>>, ghost part: seq<byte>, ghost after: seq<seq<byte>>)
      returns (ok: bool)
      requires HasParsed(lines) && TrimRight(line) == TrimRight(part) && after == lines + [part]
      modifies this, dir
      ensures ok ==> HasParsed(after)
      ensures old(dir.files).Keys <= dir.files.Keys
      ensures dir.failures == old(dir.failures) + if ok then 0 else 1
    {
      EffectsSnoc(env, lines, part);
      var e := env.event(TrimRight(line));
      if e.Unmatched? {
        Kept(Nothing);
        effects := effects + [Nothing];
        assert syscallSequence + [] == syscallSequence;
      } else if e.EnterWrite? || e.EnterOther? {
        var out := ParseEnterSyscall(e);
        if out.DiskError? { return false; }
      } else {
        var out := ParseExitSyscall(e);
      }
      return true;
    }

    /** One round of the parsing loop: reads and parses one line. */
    method ParseNext(text: seq<byte>, read: nat) returns (ok: bool, next: nat, eof: bool)
      requires read <= |text| && AtLineStart(text, read) && HasParsed(LinesRead(text, read, false))
      modifies this, dir
      ensures next <= |text| && (eof || (read < next && AtLineStart(text, next)))
      ensures ok ==> HasParsed(LinesRead(text, next, eof))
      ensures old(dir.files).Keys <= dir.files.Keys
      ensures dir.failures == old(dir.failures) + if ok then 0 else 1
    {
      var line := ReadString(text, read);
      next, eof := read + |line|, AtEnd(text, read);
      ReadOne(text, read);
      TrimRead(text, read);
      ok := ParseLine(line, LinesRead(text, read, false), NextLine(text, read), LinesRead(text, next, eof));
    }

    // ----- sorted views -----

    method Files() returns (fs: seq<FileInfo>)
      requires Summarises()
      ensures IsFileList(env, effects, fs)
    {
      Linear(files.Keys);
      var paths := SortSet(ByString(), files.Keys);
      fs := [];
      forall p | p in files ensures files[p].path == p && Summary(env, effects, p) == Some(files[p]) {
        assert Lookup(files, p) == FileOf(env, effects, p);
        FileOfMeaning(env, effects, p);
      }
      for i := 0 to |paths|
        invariant |fs| == i
        invariant forall j :: 0 <= j < i ==> paths[j] in files && fs[j] == files[paths[j]]
      {
        assert paths[i] in paths;
        fs := fs + [files[paths[i]]];
      }
      forall f ensures f in fs <==> Summary(env, effects, f.path) == Some(f) {
        FileOfMeaning(env, effects, f.path);
        assert Lookup(files, f.path) == FileOf(env, effects, f.path);
        if Summary(env, effects, f.path) == Some(f) {
          var j :| 0 <= j < |paths| && paths[j] == f.path;
          assert fs[j] == f;
        }
      }
      forall i, j | 0 <= i < j < |fs| ensures Less(fs[i].path, fs[j].path) {
        assert ByString()(paths[i], paths[j]);
      }
    }

    /** Every pair of address and port that was bound or connected, each once, in the order of the keys. */
    method Sockets() returns (ss: seq<SocketInfo>)
      requires Summarises()
      ensures forall i, j :: 0 <= i < j < |ss| ==>
                Less(SocketKeys.SocketKey(ss[i].address, ss[i].port), SocketKeys.SocketKey(ss[j].address, ss[j].port))
      ensures forall s :: s in ss <==> Socket(s.address, s.port) in effects
    {
      Linear(sockets.Keys);
      var keys := SortSet(ByString(), sockets.Keys);
      ss := [];
      for i := 0 to |keys|
        invariant |ss| == i
        invariant forall j :: 0 <= j < i ==> keys[j] in sockets && ss[j] == sockets[keys[j]]
      {
        assert keys[i] in keys;
        ss := ss + [sockets[keys[i]]];
      }
      forall k | k in sockets ensures SocketKeys.SocketKey(sockets[k].address, sockets[k].port) == k {
        assert Lookup(sockets, k) == SocketOf(effects, k);
        SocketOfMeaning(effects, k, sockets[k].address, sockets[k].port);
      }
      forall s ensures s in ss <==> Socket(s.address, s.port) in effects {
        var k := SocketKeys.SocketKey(s.address, s.port);
        SocketOfMeaning(effects, k, s.address, s.port);
        assert Lookup(sockets, k) == SocketOf(effects, k);
        if Socket(s.address, s.port) in effects {
          var j :| 0 <= j < |keys| && keys[j] == k;
          assert ss[j] == s;
        }
      }
      forall i, j | 0 <= i < j < |ss| ensures
          Less(SocketKeys.SocketKey(ss[i].address, ss[i].port), SocketKeys.SocketKey(ss[j].address, ss[j].port)) {
        assert ByString()(keys[i], keys[j]);
      }
    }
  }

  // ----- parsing a log -----

  /** What the reader has returned after `read` bytes. */
  function LinesRead(text: seq<byte>, read: nat, eof: bool): seq<seq<byte>>
    requires read <= |text|
  {
    if eof then LogLines(text) else Lines(text[..read])
  }

  predicate AtLineStart(text: seq<byte>, read: nat)
    requires read <= |text|
  {
    Remainder(text[..read]) == []
  }

  /** The next line without its terminator. */
  function NextLine(text: seq<byte>, read: nat): (part: seq<byte>)
    requires read <= |text|
    ensures read + |part| <= |text| && NEWLINE !in part
    ensures text[read..read + |part|] == part
    ensures read + |part| < |text| ==> text[read + |part|] == NEWLINE
  {
    text[read..][..LineEnd(text[read..])]
  }

  predicate AtEnd(text: seq<byte>, read: nat)
    requires read <= |text|
  {
    read + |NextLine(text, read)| == |text|
  }

  /** ReadString: the next line with its terminator, if it has one. */
  function ReadString(text: seq<byte>, read: nat): (line: seq<byte>)
    requires read <= |text|
    ensures read + |line| <= |text| && text[read..read + |line|] == line
  {
    if AtEnd(text, read) then NextLine(text, read) else NextLine(text, read) + [NEWLINE]
  }

  /** Reading up to the next newline, or to the end, yields the next line. */
  lemma ReadOne(text: seq<byte>, read: nat)
    requires read <= |text| && AtLineStart(text, read)
    ensures var next, eof := read + |ReadString(text, read)|, AtEnd(text, read);
            && LinesRead(text, next, eof) == LinesRead(text, read, false) + [NextLine(text, read)]
            && (eof || AtLineStart(text, next))
  {
    if AtEnd(text, read) {
      ReadLast(text, read, NextLine(text, read));
    } else {
      ReadMiddle(text, read, NextLine(text, read));
    }
  }

  lemma TrimRead(text: seq<byte>, read: nat)
    requires read <= |text|
    ensures TrimRight(ReadString(text, read)) == TrimRight(NextLine(text, read))
  {
    TrimTerminator(NextLine(text, read));
  }

  lemma ReadLast(text: seq<byte>, read: nat, part: seq<byte>)
    requires read <= |text| && AtLineStart(text, read) && text == text[..read] + part && NEWLINE !in part
    ensures LogLines(text) == Lines(text[..read]) + [part]
  {
    AppendTail(text[..read], part);
    NothingBefore(part);
  }

  lemma ReadMiddle(text: seq<byte>, read: nat, part: seq<byte>)
    requires read + |part| < |text| && text[read..read + |part|] == part && text[read + |part|] == NEWLINE
    requires AtLineStart(text, read) && NEWLINE !in part
    ensures Lines(text[..read + |part| + 1]) == Lines(text[..read]) + [part]
    ensures AtLineStart(text, read + |part| + 1)
  {
    TakeLine(text, read, part);
    AppendLine(text[..read], part);
    NothingBefore(part);
  }

  lemma TakeLine(text: seq<byte>, read: nat, part: seq<byte>)
    requires read + |part| < |text| && text[read..read + |part|] == part && text[read + |part|] == NEWLINE
    ensures text[..read] + part + [NEWLINE] == text[..read + |part| + 1]
  {
  }

  lemma TrimTerminator(part: seq<byte>)
    ensures TrimRight(part + [NEWLINE]) == TrimRight(part)
  {
    assert TrailingSpace(part + [NEWLINE]) == 1 && (part + [NEWLINE])[..|part|] == part;
  }

  /**
   Reads a log line by line; `broken` says that the reader ends in an error, not at the end of the
   log. The result, unless the reader or the disk fails, summarises the effects of the lines; the
   directory gains the distinct buffers written.
   */
  method Parse(env: Env, dir: TempDir, text: seq<byte>, broken: bool) returns (r: StraceResult?)
    modifies dir
    ensures old(dir.files).Keys <= dir.files.Keys && old(dir.failures) <= dir.failures <= old(dir.failures) + 1
    ensures r != null <==> !broken && dir.failures == old(dir.failures)
    ensures r != null ==> fresh(r) && r.Valid() && r.env == env && r.dir == dir
    ensures r != null ==> r.effects == Effects(env, LogLines(text)) && r.syscallSequence == Trace(env, LogLines(text))
    ensures r != null ==> dir.files == old(dir.files) + Stored(env, Effects(env, LogLines(text)))
    ensures r != null ==> dir.created == old(dir.created) + StoredIds(env, Effects(env, LogLines(text)))
  {
    var result := new StraceResult(env, dir);
    var read: nat, eof := 0, false;
    while !eof
      invariant read <= |text| && (eof || AtLineStart(text, read)) && !(eof && broken)
      invariant result.HasParsed(LinesRead(text, read, eof))
      invariant fresh(result) && result.env == env && result.dir == dir
      invariant result.filesBefore == old(dir.files) && result.createdBefore == old(dir.created)
      invariant old(dir.files).Keys <= dir.files.Keys && dir.failures == old(dir.failures)
      decreases !eof, |text| - read
    {
      var ok;
      ok, read, eof := result.ParseNext(text, read);
      if !ok { return null; }
      if eof && broken { return null; }
    }
    return result;
  }
}

/** What a parsed log records, told by the events of its lines. */
module StraceFiles {
  import opened Wrappers
  import opened LogWriter
  import opened StraceEvents
  import opened StraceSummary
  import opened StraceParser
  import opened StraceLogs
  import MatchStrings

  // ----- which events name a path, and how -----

  /** The path that a directory and a file name stand for. */
  predicate Resolves(env: Env, dir: string, file: string, p: string) {
    if "/" <= file then p == file else p == env.join(dir, file)
  }

  predicate StatOf(env: Env, e: Event, p: string) {
    || (e.Stat? && e.path == Some(p))
    || (e.Newfstatat? && e.groups.Some? && Resolves(env, e.groups.value.0, e.groups.value.1, p))
  }

  predicate UnlinkOf(env: Env, e: Event, p: string) {
    || (e.Unlink? && e.path == Some(p))
    || (e.Unlinkat? && e.groups.Some? && Resolves(env, e.groups.value.0, e.groups.value.1, p))
  }

  predicate CreatOf(e: Event, p: string) { e.Creat? && e.path == Some(p) }

  /** A write call on p whose count parses. */
  predicate WriteOf(e: Event, p: string) { e.EnterWrite? && e.file == p && WriteCount(e.args).Some? }

  /** An open call on p with these flags. */
  predicate OpenOf(env: Env, e: Event, p: string, flags: string) {
    || (e.Open? && e.groups == Some((p, flags)))
    || (e.Openat? && e.at.Some? && e.at.value.2 == flags && Resolves(env, e.at.value.0, e.at.value.1, p))
  }

  /** The flags of an open call; "" for all other events. */
  function FlagsOf(e: Event): string {
    if e.Open? && e.groups.Some? then e.groups.value.1
    else if e.Openat? && e.at.Some? then e.at.value.2
    else ""
  }

  predicate OpensFor(env: Env, e: Event, p: string, flag: string) {
    OpenOf(env, e, p, FlagsOf(e)) && MatchStrings.Contains(FlagsOf(e), flag)
  }

  predicate Names(env: Env, e: Event, p: string) {
    || StatOf(env, e, p) || UnlinkOf(env, e, p) || CreatOf(e, p) || WriteOf(e, p)
    || OpenOf(env, e, p, FlagsOf(e))
  }

  predicate Reads(env: Env, e: Event, p: string) {
    StatOf(env, e, p) || OpensFor(env, e, p, "O_RDONLY") || OpensFor(env, e, p, "O_RDWR")
  }

  predicate Writes(env: Env, e: Event, p: string) {
    || CreatOf(e, p) || WriteOf(e, p)
    || OpensFor(env, e, p, "O_RDWR") || OpensFor(env, e, p, "O_CREAT") || OpensFor(env, e, p, "O_WRONLY")
  }

  predicate Says(env: Env, e: Event, p: string, f: Flag) {
    match f
    case Any => Names(env, e, p)
    case Reading => Reads(env, e, p)
    case Writing => Writes(env, e, p)
    case Deleting => UnlinkOf(env, e, p)
  }

  lemma {:induction false} EventSays(env: Env, e: Event, p: string, f: Flag)
    ensures Touches(EffectOf(env, e), p) && Has(EffectOf(env, e), f) <==> Says(env, e, p, f)
  {
    match e
    case Open(_, m) =>
    case Openat(_, m) =>
    case EnterWrite(_, file, args) =>
    case _ =>
  }

  /** Only these arguments are logged as malformed. */
  lemma MalformedExactly(env: Env, e: Event)
    ensures EffectOf(env, e).ParseFailure? <==>
            || (e.EnterWrite? && WriteCount(e.args).None?)
            || ((e.Creat? || e.Stat? || e.Unlink?) && e.path.None?)
            || ((e.Open? || e.Newfstatat? || e.Unlinkat?) && e.groups.None?)
            || (e.Openat? && e.at.None?)
            || (e.Execve? && e.command.None?)
            || (e.Connect? && e.socket.None?)
            || (e.Connect? && e.socket.Some? && e.socket.value.0 in {"AF_INET", "AF_INET6"}
                && !exists n: nat :: ParseInt(e.socket.value.2, 10) == Some(n))
  {
    if e.Connect? && e.socket.Some? {
      var port := ParseInt(e.socket.value.2, 10);
      if port.Some? && port.value >= 0 {
        var n: nat := port.value;
        assert ParseInt(e.socket.value.2, 10) == Some(n);
      }
    }
  }

  // ----- the lines of a log -----

  /** The lines with a newline between each and the next. */
  ghost function WithNewlines(lines: seq<seq<byte>>): seq<byte> {
    if lines == [] then []
    else if |lines| == 1 then lines[0]
    else WithNewlines(lines[..|lines| - 1]) + [NEWLINE] + lines[|lines| - 1]
  }

  lemma WithNewlinesSnoc(lines: seq<seq<byte>>, line: seq<byte>)
    ensures WithNewlines(lines + [line])
            == if lines == [] then line else WithNewlines(lines) + [NEWLINE] + line
  {
    assert (lines + [line])[..|lines|] == lines;
  }

  lemma LongerLast(lines: seq<seq<byte>>, line: seq<byte>, c: byte)
    ensures WithNewlines(lines + [line + [c]]) == WithNewlines(lines + [line]) + [c]
  {
    WithNewlinesSnoc(lines, line);
    WithNewlinesSnoc(lines, line + [c]);
  }

  ghost predicate NoneHasNewline(lines: seq<seq<byte>>) {
    forall i :: 0 <= i < |lines| ==> NEWLINE !in lines[i]
  }

  /** The lines read are the log cut at its newlines. */
  lemma {:induction false} LogLinesExactly(text: seq<byte>)
    ensures WithNewlines(LogLines(text)) == text && NoneHasNewline(LogLines(text))
  {
    if text != [] {
      var init, c := text[..|text| - 1], text[|text| - 1];
      LogLinesExactly(init);
      assert text == init + [c];
      if c == NEWLINE {
        assert LogLines(text) == LogLines(init) + [[]];
        WithNewlinesSnoc(LogLines(init), []);
      } else {
        assert LogLines(text) == Lines(init) + [Remainder(init) + [c]];
        LongerLast(Lines(init), Remainder(init), c);
        LineLonger(Lines(init), Remainder(init), c);
      }
    }
  }

  lemma LineLonger(lines: seq<seq<byte>>, line: seq<byte>, c: byte)
    requires NoneHasNewline(lines + [line]) && c != NEWLINE
    ensures NoneHasNewline(lines + [line + [c]])
  {
    var was, now := lines + [line], lines + [line + [c]];
    forall i | 0 <= i < |now| ensures NEWLINE !in now[i] {
      assert NEWLINE !in was[i];
    }
  }

  // ----- the files of a log -----

  /** Some line of the log, without its trailing white space, says so. */
  ghost predicate LogSays(env: Env, lines: seq<seq<byte>>, p: string, f: Flag) {
    exists i :: 0 <= i < |lines| && Says(env, env.event(TrimRight(lines[i])), p, f)
  }

  lemma {:induction false} EffectsByLine(env: Env, lines: seq<seq<byte>>)
    ensures |Effects(env, lines)| == |lines|
    ensures forall i :: 0 <= i < |lines| ==> Effects(env, lines)[i] == EffectOf(env, EventAt(env, lines[i]))
  {
    if lines != [] {
      EffectsByLine(env, lines[..|lines| - 1]);
    }
  }

  lemma {:induction false} SeenExactly(env: Env, lines: seq<seq<byte>>, p: string, f: Flag)
    ensures Seen(Effects(env, lines), p, f) <==> LogSays(env, lines, p, f)
  {
    var xs := Effects(env, lines);
    EffectsByLine(env, lines);
    if Seen(xs, p, f) {
      var i :| 0 <= i < |xs| && Touches(xs[i], p) && Has(xs[i], f);
      EventSays(env, EventAt(env, lines[i]), p, f);
    }
    if LogSays(env, lines, p, f) {
      var i :| 0 <= i < |lines| && Says(env, EventAt(env, lines[i]), p, f);
      EventSays(env, EventAt(env, lines[i]), p, f);
      assert Touches(xs[i], p) && Has(xs[i], f);
    }
  }

  /** The flags of f are those its path has in the log. */
  ghost predicate FlagsAsLogged(env: Env, lines: seq<seq<byte>>, f: FileInfo) {
    && (f.read <==> LogSays(env, lines, f.path, Reading))
    && (f.write <==> LogSays(env, lines, f.path, Writing))
    && (f.del <==> LogSays(env, lines, f.path, Deleting))
  }

  /**
   A path has a summary exactly if some event of the log names it, and each flag is set exactly if
   some event says so.
   */
  lemma {:induction false} FileExactly(env: Env, text: seq<byte>, r: StraceResult, p: string)
    requires ResultOf(r, env, text)
    ensures p in r.files <==> LogSays(env, LogLines(text), p, Any)
    ensures p in r.files ==> r.files[p].path == p && FlagsAsLogged(env, LogLines(text), r.files[p])
    ensures p in r.files ==> r.files[p].writes == WritesTo(env, Effects(env, LogLines(text)), p)
  {
    assert Lookup(r.files, p) == FileOf(env, r.effects, p);
    FileOfMeaning(env, r.effects, p);
    SeenExactly(env, LogLines(text), p, Any);
    SeenExactly(env, LogLines(text), p, Reading);
    SeenExactly(env, LogLines(text), p, Writing);
    SeenExactly(env, LogLines(text), p, Deleting);
  }

  ghost predicate Lists(fs: seq<FileInfo>, p: string) { exists f :: f in fs && f.path == p }

  /** The same of the list of files. */
  lemma {:induction false} ListedExactly(env: Env, lines: seq<seq<byte>>, fs: seq<FileInfo>, p: string)
    requires IsFileList(env, Effects(env, lines), fs)
    ensures Lists(fs, p) <==> LogSays(env, lines, p, Any)
    ensures forall f :: f in fs && f.path == p ==> FlagsAsLogged(env, lines, f)
  {
    var xs := Effects(env, lines);
    SeenExactly(env, lines, p, Any);
    SeenExactly(env, lines, p, Reading);
    SeenExactly(env, lines, p, Writing);
    SeenExactly(env, lines, p, Deleting);
    if Seen(xs, p, Any) {
      var f := Summary(env, xs, p).value;
      assert Summary(env, xs, f.path) == Some(f);
      assert f in fs;
    }
    if Lists(fs, p) {
      var f :| f in fs && f.path == p;
      assert Summary(env, xs, f.path) == Some(f);
    }
  }

  // ----- what is kept in log order -----

  /** The places are those of a log with n lines, in order. */
  ghost predicate InOrder(places: seq<nat>, n: nat) {
    && (forall k :: 0 <= k < |places| ==> places[k] < n)
    && (forall j, k :: 0 <= j < k < |places| ==> places[j] < places[k])
  }

  /** The record of a write call: the hash of what stands between its outer quotes, and its count. */
  ghost predicate Records(env: Env, e: Event, w: WriteInfo) {
    e.EnterWrite? && w.bufferId == env.hash(QuotedText(e.args)) && Some(w.bytesWritten) == WriteCount(e.args)
  }

  ghost predicate RecordedAt(env: Env, lines: seq<seq<byte>>, p: string, ws: seq<WriteInfo>, places: seq<nat>) {
    && |ws| == |places| && InOrder(places, |lines|)
    && (forall k :: 0 <= k < |places| ==> Records(env, EventAt(env, lines[places[k]]), ws[k]))
    && (forall i: nat :: i in places <==> i < |lines| && WriteOf(EventAt(env, lines[i]), p))
  }

  lemma PlacesSnoc(env: Env, lines: seq<seq<byte>>, p: string, ws: seq<WriteInfo>, places: seq<nat>,
                   line: seq<byte>, w: WriteInfo)
    requires RecordedAt(env, lines, p, ws, places)
    ensures !WriteOf(EventAt(env, line), p) ==> RecordedAt(env, lines + [line], p, ws, places)
    ensures WriteOf(EventAt(env, line), p) && Records(env, EventAt(env, line), w) ==>
              RecordedAt(env, lines + [line], p, ws + [w], places + [|lines|])
  {
    var next: seq<seq<byte>> := lines + [line];
    assert forall i: nat :: i < |next| ==> next[i] == if i < |lines| then lines[i] else line;
    if WriteOf(EventAt(env, line), p) {
      var more := places + [|lines|];
      assert forall i: nat :: i in more <==> i in places || i == |lines|;
    }
  }

  /**
   The writes listed for a path are the records of its write calls, each once and in log order; with
   the feature off there are none.
   */
  lemma {:induction false} WritesInLogOrder(env: Env, lines: seq<seq<byte>>, p: string) returns (places: seq<nat>)
    ensures !env.writeContents ==> WritesTo(env, Effects(env, lines), p) == []
    ensures env.writeContents ==> RecordedAt(env, lines, p, WritesTo(env, Effects(env, lines), p), places)
  {
    places := [];
    if lines != [] {
      var n := |lines| - 1;
      var e := EventAt(env, lines[n]);
      var xs := Effects(env, lines[..n]);
      places := WritesInLogOrder(env, lines[..n], p);
      assert lines == lines[..n] + [lines[n]];
      EffectsSnoc(env, lines[..n], lines[n]);
      assert (xs + [EffectOf(env, e)])[..|xs|] == xs;
      var more := if Touches(EffectOf(env, e), p) then WriteInfoOf(env, EffectOf(env, e)) else [];
      assert WritesTo(env, Effects(env, lines), p) == WritesTo(env, xs, p) + more;
      if env.writeContents {
        if WriteOf(e, p) {
          var w := WriteInfo(env.hash(QuotedText(e.args)), WriteCount(e.args).value);
          assert more == [w];
          PlacesSnoc(env, lines[..n], p, WritesTo(env, xs, p), places, lines[n], w);
          places := places + [n];
        } else {
          assert more == [];
          PlacesSnoc(env, lines[..n], p, WritesTo(env, xs, p), places, lines[n], WriteInfo("", 0));
        }
      }
    }
  }

  ghost predicate TracedAt(env: Env, lines: seq<seq<byte>>, trace: seq<string>, places: seq<nat>) {
    && |trace| == |places| && InOrder(places, |lines|)
    && (forall i: nat :: i in places <==> i < |lines| && !EventAt(env, lines[i]).Unmatched?)
    && (forall k :: 0 <= k < |places| ==>
          var e := EventAt(env, lines[places[k]]); !e.Unmatched? && trace[k] == e.raw)
  }

  lemma TracedSnoc(env: Env, lines: seq<seq<byte>>, trace: seq<string>, places: seq<nat>, line: seq<byte>)
    requires TracedAt(env, lines, trace, places)
    ensures EventAt(env, line).Unmatched? ==> TracedAt(env, lines + [line], trace, places)
    ensures !EventAt(env, line).Unmatched? ==>
              TracedAt(env, lines + [line], trace + [EventAt(env, line).raw], places + [|lines|])
  {
    var next: seq<seq<byte>> := lines + [line];
    assert forall i: nat :: i < |next| ==> next[i] == if i < |lines| then lines[i] else line;
    var more := places + [|lines|];
    assert forall i: nat :: i in more <==> i in places || i == |lines|;
  }

  /** The syscall sequence holds the calls of all matched lines, parsed or not, in log order. */
  lemma {:induction false} TraceInLogOrder(env: Env, lines: seq<seq<byte>>) returns (places: seq<nat>)
    ensures TracedAt(env, lines, Trace(env, lines), places)
  {
    places := [];
    if lines != [] {
      var n := |lines| - 1;
      places := TraceInLogOrder(env, lines[..n]);
      assert lines == lines[..n] + [lines[n]];
      EffectsSnoc(env, lines[..n], lines[n]);
      TracedSnoc(env, lines[..n], Trace(env, lines[..n]), places, lines[n]);
      if EventAt(env, lines[n]).Unmatched? {
        assert Trace(env, lines[..n]) + [] == Trace(env, lines[..n]);
      } else {
        places := places + [n];
      }
    }
  }

  // ----- sockets, commands and buffers -----

  /** The event binds or connects to the address and port. */
  predicate ConnectsTo(e: Event, address: string, port: nat) {
    && e.Connect? && e.socket.Some?
    && e.socket.value.0 in {"AF_INET", "AF_INET6"}
    && e.socket.value.1 == address
    && ParseInt(e.socket.value.2, 10) == Some(port)
  }

  ghost predicate Connected(env: Env, lines: seq<seq<byte>>, address: string, port: nat) {
    exists i :: 0 <= i < |lines| && ConnectsTo(EventAt(env, lines[i]), address, port)
  }

  lemma {:induction false} EventConnects(env: Env, e: Event, address: string, port: nat)
    ensures EffectOf(env, e) == Socket(address, port) <==> ConnectsTo(e, address, port)
  {
    match e
    case Connect(_, m) =>
    case _ =>
  }

  /** The sockets recorded are those some event binds or connects to. */
  lemma {:induction false} SocketExactly(env: Env, lines: seq<seq<byte>>, address: string, port: nat)
    ensures Socket(address, port) in Effects(env, lines) <==> Connected(env, lines, address, port)
  {
    EffectsByLine(env, lines);
    var xs := Effects(env, lines);
    if Connected(env, lines, address, port) {
      var i :| 0 <= i < |lines| && ConnectsTo(EventAt(env, lines[i]), address, port);
      EventConnects(env, EventAt(env, lines[i]), address, port);
      assert xs[i] == Socket(address, port);
    }
    if Socket(address, port) in xs {
      var i :| 0 <= i < |xs| && xs[i] == Socket(address, port);
      EventConnects(env, EventAt(env, lines[i]), address, port);
    }
  }

  predicate Runs(env: Env, e: Event, key: string) {
    e.Execve? && e.command.Some? && env.commandKey(e.command.value.0, e.command.value.1) == key
  }

  ghost predicate FirstRunAt(env: Env, lines: seq<seq<byte>>, key: string, i: int) {
    && 0 <= i < |lines| && Runs(env, EventAt(env, lines[i]), key)
    && (forall j :: 0 <= j < i ==> !Runs(env, EventAt(env, lines[j]), key))
  }

  /** The command under a key is that of the first execve with the key, and there is none without one. */
  lemma {:induction false} CommandExactly(env: Env, lines: seq<seq<byte>>, key: string, i: int)
    ensures FirstRunAt(env, lines, key, i) ==>
              var c := EventAt(env, lines[i]).command.value;
              CommandOf(env, Effects(env, lines), key) == Some(CommandInfo(c.0, c.1))
    ensures (forall j :: 0 <= j < |lines| ==> !Runs(env, EventAt(env, lines[j]), key)) ==>
              CommandOf(env, Effects(env, lines), key) == None
  {
    if lines != [] {
      var n := |lines| - 1;
      var xs := Effects(env, lines[..n]);
      var e := EventAt(env, lines[n]);
      CommandExactly(env, lines[..n], key, i);
      assert lines == lines[..n] + [lines[n]];
      EffectsSnoc(env, lines[..n], lines[n]);
      assert (xs + [EffectOf(env, e)])[..|xs|] == xs;
      var x := EffectOf(env, e);
      assert Runs(env, e, key) <==> (x.Command? && env.commandKey(x.cmd, x.env) == key);
      assert forall j :: 0 <= j < n ==> lines[..n][j] == lines[j];
      if FirstRunAt(env, lines, key, i) && i < n {
        assert FirstRunAt(env, lines[..n], key, i);
      }
    }
  }

  /** A write call whose count parses and whose buffer has the id. */
  predicate Buffers(env: Env, e: Event, id: string) {
    e.EnterWrite? && WriteCount(e.args).Some? && env.hash(QuotedText(e.args)) == id
  }

  ghost predicate FirstBufferAt(env: Env, lines: seq<seq<byte>>, id: string, i: int) {
    && 0 <= i < |lines| && Buffers(env, EventAt(env, lines[i]), id)
    && (forall j :: 0 <= j < i ==> !Buffers(env, EventAt(env, lines[j]), id))
  }

  lemma {:induction false} EventBuffers(env: Env, e: Event, id: string)
    ensures Buffers(env, e, id) <==> EffectOf(env, e).Write? && env.hash(EffectOf(env, e).buffer) == id
    ensures Buffers(env, e, id) ==> EffectOf(env, e).buffer == QuotedText(e.args)
  {
    match e
    case EnterWrite(_, file, args) =>
    case _ =>
  }

  lemma StoredAfter(env: Env, xs: seq<Effect>, e: Event, id: string)
    ensures Lookup(Stored(env, xs + [EffectOf(env, e)]), id)
            == if env.writeContents && Buffers(env, e, id) && id !in Stored(env, xs) then Some(QuotedText(e.args))
               else Lookup(Stored(env, xs), id)
  {
    EventBuffers(env, e, id);
    StoredStep(env, xs, EffectOf(env, e));
  }

  lemma FirstBufferBefore(env: Env, lines: seq<seq<byte>>, id: string, i: int)
    requires FirstBufferAt(env, lines, id, i) && i < |lines| - 1
    ensures FirstBufferAt(env, lines[..|lines| - 1], id, i)
  {
    assert forall j :: 0 <= j <= i ==> lines[..|lines| - 1][j] == lines[j];
  }

  ghost predicate NoneBuffers(env: Env, lines: seq<seq<byte>>, id: string) {
    forall j :: 0 <= j < |lines| ==> !Buffers(env, EventAt(env, lines[j]), id)
  }

  lemma NoneBefore(env: Env, lines: seq<seq<byte>>, id: string, n: nat)
    requires n <= |lines|
    requires NoneBuffers(env, lines, id) || FirstBufferAt(env, lines, id, n)
    ensures NoneBuffers(env, lines[..n], id)
  {
    assert forall j :: 0 <= j < n ==> lines[..n][j] == lines[j];
  }

  /** With the feature on, the buffer stored under an id is that of the first write call with the id. */
  lemma {:induction false} BufferExactly(env: Env, lines: seq<seq<byte>>, id: string, i: int)
    ensures env.writeContents && FirstBufferAt(env, lines, id, i) ==>
              Lookup(Stored(env, Effects(env, lines)), id) == Some(QuotedText(EventAt(env, lines[i]).args))
    ensures !env.writeContents || NoneBuffers(env, lines, id) ==>
              id !in Stored(env, Effects(env, lines))
  {
    if lines != [] {
      var n := |lines| - 1;
      BufferExactly(env, lines[..n], id, i);
      assert lines == lines[..n] + [lines[n]];
      EffectsSnoc(env, lines[..n], lines[n]);
      StoredAfter(env, Effects(env, lines[..n]), EventAt(env, lines[n]), id);
      if NoneBuffers(env, lines, id) || FirstBufferAt(env, lines, id, n) { NoneBefore(env, lines, id, n); }
      if FirstBufferAt(env, lines, id, i) && i < n { FirstBufferBefore(env, lines, id, i); }
    }
  }
}

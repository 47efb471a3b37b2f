/** What a sequence of effects should be summarised as, and how summaries of consecutive logs combine. */
module StraceSummary {
  import opened Wrappers
  import opened StraceEvents
  import SocketKeys

  datatype WriteInfo = WriteInfo(bufferId: string, bytesWritten: int)

  datatype FileInfo = FileInfo(path: string, read: bool, write: bool, del: bool, writes: seq<WriteInfo>)

  datatype SocketInfo = SocketInfo(address: string, port: nat)

  datatype CommandInfo = CommandInfo(cmd: seq<string>, env: seq<string>)

  // ----- files -----

  predicate Touches(x: Effect, p: string) { (x.Access? || x.Write?) && x.path == p }

  datatype Flag = Any | Reading | Writing | Deleting

  predicate Has(x: Effect, f: Flag) {
    match f
    case Any => true
    case Reading => x.Access? && x.read
    case Writing => x.Write? || (x.Access? && x.write)
    case Deleting => x.Access? && x.del
  }

  function WriteInfoOf(env: Env, x: Effect): seq<WriteInfo> {
    if x.Write? && env.writeContents then [WriteInfo(env.hash(x.buffer), x.bytesWritten)] else []
  }

  function Updated(env: Env, info: FileInfo, x: Effect): FileInfo {
    FileInfo(info.path, info.read || Has(x, Reading), info.write || Has(x, Writing), info.del || Has(x, Deleting),
             info.writes + WriteInfoOf(env, x))
  }

  function Blank(p: string): FileInfo { FileInfo(p, false, false, false, []) }

  /** The summary of path p, effect by effect; None while nothing has touched it. */
  function FileOf(env: Env, xs: seq<Effect>, p: string): Option<FileInfo> {
    if xs == [] then None
    else
      var n := |xs| - 1;
      Step(env, FileOf(env, xs[..n], p), xs[n], p)
  }

  /** The writes to p in log order. */
  function WritesTo(env: Env, xs: seq<Effect>, p: string): seq<WriteInfo> {
    if xs == [] then []
    else
      var n := |xs| - 1;
      WritesTo(env, xs[..n], p) + if Touches(xs[n], p) then WriteInfoOf(env, xs[n]) else []
  }

  /** Some effect on p has the flag. */
  ghost predicate Seen(xs: seq<Effect>, p: string, f: Flag) {
    exists i :: 0 <= i < |xs| && Touches(xs[i], p) && Has(xs[i], f)
  }

  lemma SeenStep(xs: seq<Effect>, p: string, f: Flag)
    requires xs != []
    ensures Seen(xs, p, f) <==>
            Seen(xs[..|xs| - 1], p, f) || (Touches(xs[|xs| - 1], p) && Has(xs[|xs| - 1], f))
  {
    var n := |xs| - 1;
    if Seen(xs, p, f) {
      var i :| 0 <= i < |xs| && Touches(xs[i], p) && Has(xs[i], f);
      assert i < n ==> xs[..n][i] == xs[i];
    }
    if Seen(xs[..n], p, f) {
      var i :| 0 <= i < n && Touches(xs[..n][i], p) && Has(xs[..n][i], f);
      assert xs[i] == xs[..n][i];
    }
  }

  /** What an effect does to the summary of p. */
  function Step(env: Env, before: Option<FileInfo>, x: Effect, p: string): Option<FileInfo> {
    if Touches(x, p) then Some(Updated(env, if before.Some? then before.value else Blank(p), x)) else before
  }

  /** The summary of p, as its flags and writes give it. */
  ghost function Summary(env: Env, xs: seq<Effect>, p: string): Option<FileInfo> {
    if Seen(xs, p, Any)
    then Some(FileInfo(p, Seen(xs, p, Reading), Seen(xs, p, Writing), Seen(xs, p, Deleting), WritesTo(env, xs, p)))
    else None
  }

  lemma Untouched(env: Env, xs: seq<Effect>, p: string)
    requires !Seen(xs, p, Any)
    ensures !Seen(xs, p, Reading) && !Seen(xs, p, Writing) && !Seen(xs, p, Deleting)
    ensures WritesTo(env, xs, p) == []
  {
    if xs != [] {
      SeenStep(xs, p, Any);
      Untouched(env, xs[..|xs| - 1], p);
    }
  }

  /** A path is listed exactly if an effect touches it; its flags are the ORs over those effects. */
  lemma {:induction false} FileOfMeaning(env: Env, xs: seq<Effect>, p: string)
    ensures FileOf(env, xs, p) == Summary(env, xs, p)
  {
    if xs != [] {
      var n := |xs| - 1;
      FileOfMeaning(env, xs[..n], p);
      SummaryStep(env, xs, p);
    }
  }

  lemma SummaryStep(env: Env, xs: seq<Effect>, p: string)
    requires xs != []
    ensures Summary(env, xs, p) == Step(env, Summary(env, xs[..|xs| - 1], p), xs[|xs| - 1], p)
  {
    var n := |xs| - 1;
    forall f: Flag ensures Seen(xs, p, f) <==> Seen(xs[..n], p, f) || (Touches(xs[n], p) && Has(xs[n], f)) {
      SeenStep(xs, p, f);
    }
    if !Seen(xs[..n], p, Any) { Untouched(env, xs[..n], p); }
    var w := if Touches(xs[n], p) then WriteInfoOf(env, xs[n]) else [];
    assert WritesTo(env, xs, p) == WritesTo(env, xs[..n], p) + w;
    assert WritesTo(env, xs[..n], p) + [] == WritesTo(env, xs[..n], p);
  }

  function MergeFile(a: Option<FileInfo>, b: Option<FileInfo>): Option<FileInfo> {
    if a.None? then b
    else if b.None? then a
    else Some(FileInfo(a.value.path, a.value.read || b.value.read, a.value.write || b.value.write,
                       a.value.del || b.value.del, a.value.writes + b.value.writes))
  }

  lemma PathKept(env: Env, xs: seq<Effect>, p: string)
    ensures FileOf(env, xs, p).Some? ==> FileOf(env, xs, p).value.path == p
  {
    if xs != [] { PathKept(env, xs[..|xs| - 1], p); }
  }

  lemma MergeStep(env: Env, a: Option<FileInfo>, b: Option<FileInfo>, x: Effect, p: string)
    requires a.Some? ==> a.value.path == p
    ensures Step(env, MergeFile(a, b), x, p) == MergeFile(a, Step(env, b, x, p))
  {
    if a.Some? && Touches(x, p) {
      var w := WriteInfoOf(env, x);
      if b.Some? {
        assert (a.value.writes + b.value.writes) + w == a.value.writes + (b.value.writes + w);
      } else {
        assert [] + w == w;
      }
    }
  }

  /** The summary of two logs in a row merges the two summaries. */
  lemma {:induction false} FileOfConcat(env: Env, xs: seq<Effect>, ys: seq<Effect>, p: string)
    ensures FileOf(env, xs + ys, p) == MergeFile(FileOf(env, xs, p), FileOf(env, ys, p))
  {
    if ys == [] {
      assert xs + ys == xs;
    } else {
      var n := |ys| - 1;
      FileOfConcat(env, xs, ys[..n], p);
      assert (xs + ys)[..|xs + ys| - 1] == xs + ys[..n];
      PathKept(env, xs, p);
      MergeStep(env, FileOf(env, xs, p), FileOf(env, ys[..n], p), ys[n], p);
    }
  }

  // ----- sockets and commands: the first effect with a key stays -----

  function SocketOf(xs: seq<Effect>, key: string): Option<SocketInfo> {
    if xs == [] then None
    else
      var n := |xs| - 1;
      var before := SocketOf(xs[..n], key);
      if before.None? && xs[n].Socket? && SocketKeys.SocketKey(xs[n].address, xs[n].port) == key
      then Some(SocketInfo(xs[n].address, xs[n].port)) else before
  }

  function CommandOf(env: Env, xs: seq<Effect>, key: string): Option<CommandInfo> {
    if xs == [] then None
    else
      var n := |xs| - 1;
      var before := CommandOf(env, xs[..n], key);
      if before.None? && xs[n].Command? && env.commandKey(xs[n].cmd, xs[n].env) == key
      then Some(CommandInfo(xs[n].cmd, xs[n].env)) else before
  }

  /** A socket is recorded under a key exactly if it was connected or bound and the key is its own. */
  lemma {:induction false} SocketOfMeaning(xs: seq<Effect>, key: string, address: string, port: nat)
    ensures SocketOf(xs, key) == Some(SocketInfo(address, port)) <==>
            key == SocketKeys.SocketKey(address, port) && Socket(address, port) in xs
    ensures SocketOf(xs, key).Some? ==>
              key == SocketKeys.SocketKey(SocketOf(xs, key).value.address, SocketOf(xs, key).value.port)
  {
    if xs != [] {
      var n := |xs| - 1;
      SocketOfMeaning(xs[..n], key, address, port);
      assert xs == xs[..n] + [xs[n]];
      var before := SocketOf(xs[..n], key);
      if before.Some? {
        if key == SocketKeys.SocketKey(address, port) {
          SocketKeys.KeyInjective(before.value.address, before.value.port, address, port);
        }
      } else if xs[n].Socket? && SocketKeys.SocketKey(xs[n].address, xs[n].port) == key {
        if key == SocketKeys.SocketKey(address, port) {
          SocketKeys.KeyInjective(xs[n].address, xs[n].port, address, port);
        }
      }
    }
  }

  function First<T>(a: Option<T>, b: Option<T>): Option<T> { if a.Some? then a else b }

  /** Of two logs in a row, the first one's sockets and commands stay. */
  lemma {:induction false} FirstsConcat(env: Env, xs: seq<Effect>, ys: seq<Effect>, key: string)
    ensures SocketOf(xs + ys, key) == First(SocketOf(xs, key), SocketOf(ys, key))
    ensures CommandOf(env, xs + ys, key) == First(CommandOf(env, xs, key), CommandOf(env, ys, key))
  {
    if ys == [] {
      assert xs + ys == xs;
    } else {
      var n := |ys| - 1;
      FirstsConcat(env, xs, ys[..n], key);
      assert (xs + ys)[..|xs + ys| - 1] == xs + ys[..n];
      assert (xs + ys)[|xs + ys| - 1] == ys[n];
    }
  }

  // ----- write buffers -----

  /** The buffers written, by id; the first buffer with an id stays. */
  function Stored(env: Env, xs: seq<Effect>): map<string, string> {
    if xs == [] then map[]
    else
      var n := |xs| - 1;
      var before := Stored(env, xs[..n]);
      if xs[n].Write? && env.writeContents && env.hash(xs[n].buffer) !in before
      then before[env.hash(xs[n].buffer) := xs[n].buffer] else before
  }

  /** The ids in the order in which they were first written. */
  function StoredIds(env: Env, xs: seq<Effect>): seq<string> {
    if xs == [] then []
    else
      var n := |xs| - 1;
      if xs[n].Write? && env.writeContents && env.hash(xs[n].buffer) !in Stored(env, xs[..n])
      then StoredIds(env, xs[..n]) + [env.hash(xs[n].buffer)] else StoredIds(env, xs[..n])
  }

  /** Each id is stored once, under the hash of its buffer. */
  lemma {:induction false} StoredOnce(env: Env, xs: seq<Effect>)
    ensures forall i, j :: 0 <= i < j < |StoredIds(env, xs)| ==> StoredIds(env, xs)[i] != StoredIds(env, xs)[j]
    ensures forall id :: id in StoredIds(env, xs) <==> id in Stored(env, xs)
    ensures forall id :: id in Stored(env, xs) ==> env.hash(Stored(env, xs)[id]) == id
  {
    if xs != [] {
      StoredOnce(env, xs[..|xs| - 1]);
      var ids := StoredIds(env, xs[..|xs| - 1]);
      assert forall i :: 0 <= i < |ids| ==> ids[i] in ids;
    }
  }

  /** The ids recorded with the writes to some path. */
  ghost predicate IdWritten(env: Env, xs: seq<Effect>, id: string) {
    exists p :: IdWrittenTo(env, xs, p, id)
  }

  ghost predicate IdWrittenTo(env: Env, xs: seq<Effect>, p: string, id: string) {
    exists w :: w in WritesTo(env, xs, p) && w.bufferId == id
  }

  /** A buffer is stored exactly if some path's write record names it. */
  lemma {:induction false} StoredExactlyRecorded(env: Env, xs: seq<Effect>, id: string)
    ensures id in Stored(env, xs) <==> IdWritten(env, xs, id)
  {
    if xs == [] {
    } else {
      var n := |xs| - 1;
      var x := xs[n];
      StoredExactlyRecorded(env, xs[..n], id);
      if IdWritten(env, xs, id) {
        var p :| IdWrittenTo(env, xs, p, id);
        var w :| w in WritesTo(env, xs, p) && w.bufferId == id;
        if w in WritesTo(env, xs[..n], p) {
          assert IdWrittenTo(env, xs[..n], p, id);
        } else {
          assert w in WriteInfoOf(env, x);
        }
      }
      if id in Stored(env, xs) {
        if id in Stored(env, xs[..n]) {
          var p :| IdWrittenTo(env, xs[..n], p, id);
          var w :| w in WritesTo(env, xs[..n], p) && w.bufferId == id;
          assert w in WritesTo(env, xs, p);
          assert IdWrittenTo(env, xs, p, id);
        } else {
          var w := WriteInfo(env.hash(x.buffer), x.bytesWritten);
          assert w in WritesTo(env, xs, x.path);
          assert IdWrittenTo(env, xs, x.path, id);
        }
      }
    }
  }
}

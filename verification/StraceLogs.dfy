/** What holds of the results of parsing whole logs. */
module StraceLogs {
  import opened Wrappers
  import opened LogWriter
  import opened StraceEvents
  import opened StraceSummary
  import opened StraceParser

  /** r is the result of parsing the log. */
  ghost predicate ResultOf(r: StraceResult, env: Env, text: seq<byte>)
    reads r
  {
    r.env == env && r.Summarises() && r.effects == Effects(env, LogLines(text))
  }

  ghost predicate MergedFrom(whole: StraceResult, first: StraceResult, second: StraceResult)
    reads whole, first, second
  {
    && (forall p :: Lookup(whole.files, p) == MergeFile(Lookup(first.files, p), Lookup(second.files, p)))
    && (forall k :: Lookup(whole.sockets, k) == First(Lookup(first.sockets, k), Lookup(second.sockets, k)))
    && (forall k :: Lookup(whole.commands, k) == First(Lookup(first.commands, k), Lookup(second.commands, k)))
  }

  /** Parsing two logs with a newline between them merges their results. */
  lemma ParsingConcatenation(env: Env, a: seq<byte>, b: seq<byte>,
                             first: StraceResult, second: StraceResult, whole: StraceResult)
    requires ResultOf(first, env, a) && ResultOf(second, env, b) && ResultOf(whole, env, a + [NEWLINE] + b)
    ensures MergedFrom(whole, first, second)
  {
    LogsConcat(env, a, b);
    var xs, ys := first.effects, second.effects;
    assert whole.effects == xs + ys;
    forall p ensures Lookup(whole.files, p) == MergeFile(Lookup(first.files, p), Lookup(second.files, p)) {
      FileOfConcat(env, xs, ys, p);
      assert Lookup(whole.files, p) == FileOf(env, xs + ys, p);
    }
    forall k ensures Lookup(whole.sockets, k) == First(Lookup(first.sockets, k), Lookup(second.sockets, k)) {
      FirstsConcat(env, xs, ys, k);
      assert Lookup(whole.sockets, k) == SocketOf(xs + ys, k);
    }
    forall k ensures Lookup(whole.commands, k) == First(Lookup(first.commands, k), Lookup(second.commands, k)) {
      FirstsConcat(env, xs, ys, k);
      assert Lookup(whole.commands, k) == CommandOf(env, xs + ys, k);
    }
  }

  // ----- lines that fail to parse -----

  predicate Effective(x: Effect) { !x.Nothing? && !x.ParseFailure? }

  function Successes(xs: seq<Effect>): seq<Effect> {
    if xs == [] then []
    else
      var n := |xs| - 1;
      if Effective(xs[n]) then Successes(xs[..n]) + [xs[n]] else Successes(xs[..n])
  }

  /** Two sequences of effects come to the same for path p and key k, and store the same buffers. */
  ghost predicate SameAt(env: Env, xs: seq<Effect>, ys: seq<Effect>, p: string, k: string) {
    && FileOf(env, xs, p) == FileOf(env, ys, p)
    && SocketOf(xs, k) == SocketOf(ys, k)
    && CommandOf(env, xs, k) == CommandOf(env, ys, k)
    && Stored(env, xs) == Stored(env, ys)
  }

  lemma EffectAppended(env: Env, xs: seq<Effect>, ys: seq<Effect>, x: Effect, p: string, k: string)
    requires SameAt(env, xs, ys, p, k)
    ensures SameAt(env, xs + [x], ys + [x], p, k)
    ensures !Effective(x) ==> SameAt(env, xs + [x], ys, p, k)
  {
    assert (xs + [x])[..|xs|] == xs && (ys + [x])[..|ys|] == ys;
  }

  lemma SuccessesSnoc(xs: seq<Effect>, x: Effect)
    ensures Successes(xs + [x]) == if Effective(x) then Successes(xs) + [x] else Successes(xs)
  {
    assert (xs + [x])[..|xs|] == xs;
  }

  /** Effects that are none and parse failures, wherever they stand, change nothing recorded. */
  lemma {:induction false} FailedEffectsChangeNothing(env: Env, xs: seq<Effect>, p: string, k: string)
    ensures SameAt(env, xs, Successes(xs), p, k)
  {
    if xs != [] {
      var init, x := xs[..|xs| - 1], xs[|xs| - 1];
      FailedEffectsChangeNothing(env, init, p, k);
      EffectAppended(env, init, Successes(init), x, p, k);
      SuccessesSnoc(init, x);
      assert xs == init + [x];
    }
  }

  /** The lines of a log that record something: not those without effect or with malformed arguments. */
  function EffectiveLines(env: Env, lines: seq<seq<byte>>): seq<seq<byte>> {
    if lines == [] then []
    else
      var n := |lines| - 1;
      if Effective(EffectOf(env, EventAt(env, lines[n]))) then EffectiveLines(env, lines[..n]) + [lines[n]]
      else EffectiveLines(env, lines[..n])
  }

  lemma {:induction false} EffectsOfEffectiveLines(env: Env, lines: seq<seq<byte>>)
    ensures Effects(env, EffectiveLines(env, lines)) == Successes(Effects(env, lines))
  {
    if lines != [] {
      var n := |lines| - 1;
      EffectsOfEffectiveLines(env, lines[..n]);
      assert lines == lines[..n] + [lines[n]];
      EffectsSnoc(env, lines[..n], lines[n]);
      EffectsSnoc(env, EffectiveLines(env, lines[..n]), lines[n]);
      SuccessesSnoc(Effects(env, lines[..n]), EffectOf(env, EventAt(env, lines[n])));
    }
  }

  ghost predicate SameRecords(r: StraceResult, s: StraceResult)
    reads r, s
  {
    r.files == s.files && r.sockets == s.sockets && r.commands == s.commands
  }

  lemma SameMap<K(!new), V>(a: map<K, V>, b: map<K, V>)
    requires forall k :: Lookup(a, k) == Lookup(b, k)
    ensures a == b
  {
    forall k ensures k in a <==> k in b && (k in a ==> a[k] == b[k]) {
      assert Lookup(a, k) == Lookup(b, k);
    }
  }

  /**
   Two logs that differ in nothing but lines without effect and lines that fail to parse, wherever
   these stand and however many there are, give the same files, sockets, commands and buffers.
   */
  lemma FailuresChangeNothing(env: Env, a: seq<byte>, b: seq<byte>, first: StraceResult, second: StraceResult)
    requires EffectiveLines(env, LogLines(a)) == EffectiveLines(env, LogLines(b))
    requires ResultOf(first, env, a) && ResultOf(second, env, b)
    ensures SameRecords(first, second)
    ensures Stored(env, first.effects) == Stored(env, second.effects)
  {
    EffectsOfEffectiveLines(env, LogLines(a));
    EffectsOfEffectiveLines(env, LogLines(b));
    var xs, ys := first.effects, second.effects;
    assert Successes(xs) == Successes(ys);
    forall k
      ensures Lookup(first.files, k) == Lookup(second.files, k)
      ensures Lookup(first.sockets, k) == Lookup(second.sockets, k)
      ensures Lookup(first.commands, k) == Lookup(second.commands, k)
      ensures Stored(env, xs) == Stored(env, ys)
    {
      FailedEffectsChangeNothing(env, xs, k, k);
      FailedEffectsChangeNothing(env, ys, k, k);
    }
    SameMap(first.files, second.files);
    SameMap(first.sockets, second.sockets);
    SameMap(first.commands, second.commands);
    FailedEffectsChangeNothing(env, xs, "", "");
    FailedEffectsChangeNothing(env, ys, "", "");
  }

  /** With the feature off, writes are recorded as accesses only and nothing reaches the disk. */
  lemma {:induction false} NothingStoredWhenOff(env: Env, xs: seq<Effect>, p: string)
    requires !env.writeContents
    ensures Stored(env, xs) == map[] && StoredIds(env, xs) == [] && WritesTo(env, xs, p) == []
  {
    if xs != [] { NothingStoredWhenOff(env, xs[..|xs| - 1], p); }
  }
}

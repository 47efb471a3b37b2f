/** The line-buffering log writer. */
module LogWriter {

  newtype byte = b: int | 0 <= b < 256

  const NEWLINE: byte := 10

  // ----- trimming -----

  predicate NarrowSpace(c: byte) { 9 <= c <= 13 || c == 32 }

  predicate LatinSpace(a: byte, b: byte) { a == 0xC2 && (b == 0x85 || b == 0xA0) }

  predicate WideSpace(a: byte, b: byte, c: byte) {
    || (a == 0xE1 && b == 0x9A && c == 0x80)
    || (a == 0xE2 && b == 0x80 && (0x80 <= c <= 0x8A || c == 0xA8 || c == 0xA9 || c == 0xAF))
    || (a == 0xE2 && b == 0x81 && c == 0x9F)
    || (a == 0xE3 && b == 0x80 && c == 0x80)
  }

  /** c is the UTF-8 encoding of one white-space code point. */
  predicate IsSpace(c: seq<byte>) {
    || (|c| == 1 && NarrowSpace(c[0]))
    || (|c| == 2 && LatinSpace(c[0], c[1]))
    || (|c| == 3 && WideSpace(c[0], c[1], c[2]))
  }

  /** The code points that are white space. */
  ghost predicate IsWhite(cp: nat) {
    || 0x09 <= cp <= 0x0D || cp == 0x20 || cp == 0x85 || cp == 0xA0 || cp == 0x1680 || 0x2000 <= cp <= 0x200A
    || cp == 0x2028 || cp == 0x2029 || cp == 0x202F || cp == 0x205F || cp == 0x3000
  }

  /** The UTF-8 encoding of a code point of at most sixteen bits. */
  ghost function Utf8(cp: nat): seq<byte>
    requires cp < 0x10000
  {
    if cp < 0x80 then [cp as byte]
    else if cp < 0x800 then [(0xC0 + cp / 64) as byte, (0x80 + cp % 64) as byte]
    else [(0xE0 + cp / 4096) as byte, (0x80 + cp / 64 % 64) as byte, (0x80 + cp % 64) as byte]
  }

  ghost predicate EncodesWhite(c: seq<byte>, cp: nat) { IsWhite(cp) && c == Utf8(cp) }

  lemma WhiteIsSpace(cp: nat)
    requires IsWhite(cp)
    ensures IsSpace(Utf8(cp))
  {
  }

  /** The bytes trimmed are those of white-space code points. */
  lemma SpacesExactly(c: seq<byte>)
    ensures IsSpace(c) <==> exists cp :: EncodesWhite(c, cp)
  {
    forall cp | EncodesWhite(c, cp) ensures IsSpace(c) { WhiteIsSpace(cp); }
    if IsSpace(c) {
      var cp: nat := if |c| == 1 then c[0] as nat
                     else if |c| == 2 then (c[0] as nat - 0xC0) * 64 + c[1] as nat - 0x80
                     else (c[0] as nat - 0xE0) * 4096 + (c[1] as nat - 0x80) * 64 + c[2] as nat - 0x80;
      assert EncodesWhite(c, cp);
    }
  }

  /** The length of the white-space character that s ends with, or 0. */
  function TrailingSpace(s: seq<byte>): (n: nat)
    ensures n <= |s|
  {
    var n := |s|;
    if n >= 1 && NarrowSpace(s[n - 1]) then 1
    else if n >= 2 && LatinSpace(s[n - 2], s[n - 1]) then 2
    else if n >= 3 && WideSpace(s[n - 3], s[n - 2], s[n - 1]) then 3
    else 0
  }

  /** bytes.TrimRightFunc(s, unicode.IsSpace) */
  function TrimRight(s: seq<byte>): (r: seq<byte>)
    ensures |r| <= |s|
  {
    var n := TrailingSpace(s);
    if n == 0 then s else TrimRight(s[..|s| - n])
  }

  function Joined(chunks: seq<seq<byte>>): seq<byte> {
    if chunks == [] then [] else Joined(chunks[..|chunks| - 1]) + chunks[|chunks| - 1]
  }

  ghost predicate SpaceRun(chars: seq<seq<byte>>, s: seq<byte>) {
    (forall i :: 0 <= i < |chars| ==> IsSpace(chars[i])) && Joined(chars) == s
  }

  ghost predicate EndsInSpace(s: seq<byte>) { exists t, c :: IsSpace(c) && s == t + c }

  lemma NoTrailingSpace(s: seq<byte>)
    requires TrailingSpace(s) == 0
    ensures !EndsInSpace(s)
  {
    forall t, c | IsSpace(c) ensures s != t + c {
      SuffixOf(t, c);
    }
  }

  lemma SuffixOf(t: seq<byte>, c: seq<byte>)
    ensures (t + c)[|t + c| - |c|..] == c
  {
  }

  lemma TrailingSpaceIs(s: seq<byte>)
    requires TrailingSpace(s) > 0
    ensures IsSpace(s[|s| - TrailingSpace(s)..])
  {
  }

  lemma RunAppend(chars: seq<seq<byte>>, s: seq<byte>, c: seq<byte>)
    requires SpaceRun(chars, s) && IsSpace(c)
    ensures SpaceRun(chars + [c], s + c)
  {
    assert (chars + [c])[..|chars|] == chars;
  }

  lemma DropParts(s: seq<byte>, m: nat, k: nat)
    requires k <= m <= |s|
    ensures s[..m][k..] + s[m..] == s[k..]
  {
  }

  lemma {:induction false} TrimmedRun(s: seq<byte>) returns (chars: seq<seq<byte>>)
    ensures SpaceRun(chars, s[|TrimRight(s)|..])
    decreases |s|
  {
    var n := TrailingSpace(s);
    if n == 0 {
      chars := [];
    } else {
      TrailingSpaceIs(s);
      var u, c, k := s[..|s| - n], s[|s| - n..], |TrimRight(s)|;
      var before := TrimmedRun(u);
      RunAppend(before, u[k..], c);
      DropParts(s, |s| - n, k);
      chars := before + [c];
    }
  }

  lemma {:induction false} TrimmedEnd(s: seq<byte>)
    ensures TrailingSpace(TrimRight(s)) == 0 && TrimRight(s) <= s
    decreases |s|
  {
    if TrailingSpace(s) > 0 { TrimmedEnd(s[..|s| - TrailingSpace(s)]); }
  }

  /** Trimming removes a run of white-space characters from the end, and all of it. */
  lemma TrimRightSpec(s: seq<byte>)
    ensures TrimRight(s) <= s
    ensures exists chars :: SpaceRun(chars, s[|TrimRight(s)|..])
    ensures !EndsInSpace(TrimRight(s))
  {
    var chars := TrimmedRun(s);
    TrimmedEnd(s);
    NoTrailingSpace(TrimRight(s));
  }

  // ----- what a byte stream should be logged as -----

  /** The index of the first newline in s, or |s|. */
  function LineEnd(s: seq<byte>): (i: nat)
    ensures i <= |s| && NEWLINE !in s[..i] && (i < |s| ==> s[i] == NEWLINE)
  {
    if s == [] || s[0] == NEWLINE then 0 else 1 + LineEnd(s[1..])
  }

  /** The newline-terminated lines of a stream, without their newlines. */
  function Lines(stream: seq<byte>): seq<seq<byte>> {
    if stream == [] then []
    else
      var init := stream[..|stream| - 1];
      if stream[|stream| - 1] == NEWLINE then Lines(init) + [Remainder(init)] else Lines(init)
  }

  /** What follows the last newline. */
  function Remainder(stream: seq<byte>): seq<byte> {
    if stream == [] || stream[|stream| - 1] == NEWLINE then []
    else Remainder(stream[..|stream| - 1]) + [stream[|stream| - 1]]
  }

  /** One entry for each line that is not blank: the line without trailing space. */
  function Trimmed(lines: seq<seq<byte>>): seq<seq<byte>> {
    if lines == [] then []
    else
      var last := TrimRight(lines[|lines| - 1]);
      if |last| > 0 then Trimmed(lines[..|lines| - 1]) + [last] else Trimmed(lines[..|lines| - 1])
  }

  /** Everything logged for a stream that is written and then closed. */
  function Logged(stream: seq<byte>): seq<seq<byte>> {
    Trimmed(Lines(stream)) + if Remainder(stream) == [] then [] else [Remainder(stream)]
  }

  /** Adding bytes without a newline only lengthens the remainder. */
  lemma {:induction false} AppendTail(stream: seq<byte>, tail: seq<byte>)
    requires NEWLINE !in tail
    ensures Lines(stream + tail) == Lines(stream)
    ensures Remainder(stream + tail) == Remainder(stream) + tail
  {
    if tail == [] {
      assert stream + tail == stream;
    } else {
      var n := |tail| - 1;
      AppendTail(stream, tail[..n]);
      assert (stream + tail)[..|stream + tail| - 1] == stream + tail[..n];
      assert tail == tail[..n] + [tail[n]];
    }
  }

  /** Adding bytes up to and including the next newline completes one line. */
  lemma AppendLine(stream: seq<byte>, line: seq<byte>)
    requires NEWLINE !in line
    ensures Lines(stream + line + [NEWLINE]) == Lines(stream) + [Remainder(stream) + line]
    ensures Remainder(stream + line + [NEWLINE]) == []
  {
    AppendTail(stream, line);
    assert (stream + line + [NEWLINE])[..|stream + line|] == stream + line;
  }

  lemma TrimmedAppend(lines: seq<seq<byte>>, line: seq<byte>)
    ensures Trimmed(lines + [line])
            == if |TrimRight(line)| > 0 then Trimmed(lines) + [TrimRight(line)] else Trimmed(lines)
  {
    assert (lines + [line])[..|lines|] == lines;
  }

  lemma Associative<T>(a: seq<T>, b: seq<T>, c: seq<T>)
    ensures a + (b + c) == a + b + c
  {
  }

  /** Completing a line logs it, trimmed, unless it is blank. */
  lemma LineLogged(before: seq<seq<byte>>, stream: seq<byte>, part: seq<byte>)
    requires NEWLINE !in part
    ensures var line := TrimRight(Remainder(stream) + part);
            before + Trimmed(Lines(stream + part + [NEWLINE]))
            == if |line| > 0 then before + Trimmed(Lines(stream)) + [line] else before + Trimmed(Lines(stream))
    ensures Remainder(stream + part + [NEWLINE]) == []
  {
    var line := TrimRight(Remainder(stream) + part);
    AppendLine(stream, part);
    TrimmedAppend(Lines(stream), Remainder(stream) + part);
    Associative(before, Trimmed(Lines(stream)), [line]);
  }

  lemma Advance(base: seq<byte>, p: seq<byte>, at: nat, n: nat)
    requires at + n <= |p|
    ensures base + p[..at] + p[at..][..n] == base + p[..at + n]
    ensures p[at..][n..] == p[at + n..]
  {
  }

  lemma TakeLine(base: seq<byte>, p: seq<byte>, at: nat, i: nat)
    requires at + i < |p| && p[at..][i] == NEWLINE
    ensures base + p[..at] + p[at..][..i] + [NEWLINE] == base + p[..at + i + 1]
    ensures p[at..][i + 1..] == p[at + i + 1..]
  {
    Advance(base, p, at, i + 1);
    assert p[at..][..i + 1] == p[at..][..i] + [NEWLINE];
  }

  class Writer {
    var buffer: seq<byte>
    var log: seq<seq<byte>>

    /** The bytes received since the writer was opened or last closed, and the log before them. */
    ghost var received: seq<byte>
    ghost var before: seq<seq<byte>>

    ghost predicate Valid()
      reads this
    {
      log == before + Trimmed(Lines(received)) && buffer == Remainder(received)
    }

    constructor ()
      ensures Valid() && received == [] && log == [] && before == []
    {
      buffer, log, received, before := [], [], [], [];
    }

    method Write(p: seq<byte>) returns (written: nat)
      requires Valid()
      modifies this
      ensures Valid() && received == old(received) + p && before == old(before)
      ensures written == |p|
    {
      var rest := p;
      written := 0;
      assert old(received) + p[..0] == old(received);
      while true
        invariant Valid() && before == old(before)
        invariant written <= |p| && rest == p[written..]
        invariant received == old(received) + p[..written]
        decreases |rest|
      {
        if |rest| == 0 {
          assert p[..written] == p;
          return;
        }
        var i := LineEnd(rest);
        if i == |rest| {
          assert rest[..i] == rest;
          Gather(rest);
          Advance(old(received), p, written, |rest|);
          return |p|;
        }
        TakeLine(old(received), p, written, i);
        EmitLine(rest[..i]);
        rest := rest[i + 1..];
        written := written + i + 1;
      }
    }

    /** Saves bytes that complete no line. */
    method Gather(tail: seq<byte>)
      requires Valid() && NEWLINE !in tail
      modifies this
      ensures Valid() && before == old(before) && received == old(received) + tail
    {
      AppendTail(received, tail);
      buffer := buffer + tail;
      received := received + tail;
    }

    /** Appends the bytes before a newline to the buffer and logs it as a line. */
    method EmitLine(part: seq<byte>)
      requires Valid() && NEWLINE !in part
      modifies this
      ensures Valid() && before == old(before) && received == old(received) + part + [NEWLINE]
    {
      LineLogged(before, received, part);
      buffer := buffer + part;
      received := received + part + [NEWLINE];
      var line := TrimRight(buffer);
      log := if |line| > 0 then log + [line] else log;
      buffer := [];
    }

    method Close()
      requires Valid()
      modifies this
      ensures Valid() && received == [] && buffer == []
      ensures log == before == old(before) + Logged(old(received))
    {
      if |buffer| > 0 {
        log := log + [buffer];
        buffer := [];
      }
      before, received := log, [];
    }
  }

  /** However a stream is cut into writes, the log is that of the whole stream, and every write is full. */
  method WriteAll(chunks: seq<seq<byte>>) returns (log: seq<seq<byte>>, counts: seq<nat>)
    ensures log == Logged(Joined(chunks))
    ensures |counts| == |chunks| && forall i :: 0 <= i < |chunks| ==> counts[i] == |chunks[i]|
  {
    var w := new Writer();
    counts := [];
    for i := 0 to |chunks|
      invariant w.Valid() && fresh(w) && w.before == []
      invariant w.received == Joined(chunks[..i])
      invariant |counts| == i && forall j :: 0 <= j < i ==> counts[j] == |chunks[j]|
    {
      var n := w.Write(chunks[i]);
      counts := counts + [n];
      assert chunks[..i + 1][..i] == chunks[..i];
    }
    assert chunks[..|chunks|] == chunks;
    w.Close();
    log := w.log;
  }

  // ----- what the entries are, line by line -----

  ghost function Unlines(lines: seq<seq<byte>>): seq<byte> {
    if lines == [] then [] else Unlines(lines[..|lines| - 1]) + lines[|lines| - 1] + [NEWLINE]
  }

  lemma {:induction false} LinesOfUnlines(lines: seq<seq<byte>>)
    requires forall i :: 0 <= i < |lines| ==> NEWLINE !in lines[i]
    ensures Lines(Unlines(lines)) == lines && Remainder(Unlines(lines)) == []
  {
    if lines != [] {
      var n := |lines| - 1;
      LinesOfUnlines(lines[..n]);
      AppendLine(Unlines(lines[..n]), lines[n]);
      assert [] + lines[n] == lines[n];
      assert lines == lines[..n] + [lines[n]];
    }
  }

  /** A stream made of lines and an unterminated rest is logged as the trimmed lines, then the rest untrimmed. */
  lemma LoggedByLine(lines: seq<seq<byte>>, rest: seq<byte>)
    requires NEWLINE !in rest && forall i :: 0 <= i < |lines| ==> NEWLINE !in lines[i]
    ensures Logged(Unlines(lines) + rest) == Trimmed(lines) + if rest == [] then [] else [rest]
  {
    LinesOfUnlines(lines);
    AppendTail(Unlines(lines), rest);
    NothingBefore(rest);
    LoggedIs(Unlines(lines) + rest, lines, rest);
  }

  lemma NothingBefore(rest: seq<byte>)
    ensures [] + rest == rest
  {
  }

  lemma LoggedIs(stream: seq<byte>, lines: seq<seq<byte>>, rest: seq<byte>)
    requires Lines(stream) == lines && Remainder(stream) == rest
    ensures Logged(stream) == Trimmed(lines) + if rest == [] then [] else [rest]
  {
  }
}

/** The lengths of the lines of a source text, without their terminators. */
module LineLengths {

  function Sum(s: seq<int>): int { if s == [] then 0 else s[0] + Sum(s[1..]) }

  /** The bytes that end lines: every newline, and every carriage return right before one. */
  function Terminators(s: string): nat {
    if s == "" then 0
    else (if s[0] == '\n' || (s[0] == '\r' && |s| >= 2 && s[1] == '\n') then 1 else 0) + Terminators(s[1..])
  }

  /** reader.ReadString('\n'): up to and including the next newline, or everything if there is none. */
  function NextLine(s: string): (line: string)
    ensures |line| <= |s| && line == s[..|line|] && (line == "" <==> s == "")
    ensures '\n' !in s ==> line == s
    ensures forall i :: 0 <= i < |line| - 1 ==> line[i] != '\n'
  {
    if s == "" then "" else if s[0] == '\n' then [s[0]] else [s[0]] + NextLine(s[1..])
  }

  /** A line without its newline and the carriage return before that. */
  function Stripped(line: string): nat {
    var l := |line|;
    if l >= 1 && line[l - 1] == '\n' then (if l >= 2 && line[l - 2] == '\r' then l - 2 else l - 1) else l
  }

  lemma {:induction false} StrippedTerminators(line: string)
    requires forall i :: 0 <= i < |line| - 1 ==> line[i] != '\n'
    ensures Stripped(line) + Terminators(line) == |line|
  {
    if |line| > 1 {
      StrippedTerminators(line[1..]);
    }
  }

  lemma {:induction false} TerminatorsSplit(line: string, rest: string)
    requires line != "" && line[|line| - 1] == '\n'
    ensures Terminators(line + rest) == Terminators(line) + Terminators(rest)
  {
    assert (line + rest)[1..] == line[1..] + rest;
    if |line| > 1 {
      TerminatorsSplit(line[1..], rest);
    } else {
      assert line[1..] + rest == rest;
    }
  }

  /** The length of every line in turn, an unterminated last one included. */
  function Lengths(s: string): seq<int>
    decreases |s|
  {
    if s == "" then [] else [Stripped(NextLine(s))] + Lengths(s[|NextLine(s)|..])
  }

  method GetLineLengths(source: string) returns (lengths: seq<int>)
    ensures lengths == if source == "" then [0] else Lengths(source)
  {
    lengths := [];
    var rest := source;
    while true
      invariant lengths + Lengths(rest) == Lengths(source)
      decreases |rest|
    {
      var line := NextLine(rest);
      var eof := '\n' !in rest;
      if line != "" {
        lengths := lengths + [Stripped(line)];
      }
      rest := rest[|line|..];
      if eof {
        break;
      }
    }
    if |lengths| == 0 {
      lengths := lengths + [0];
    }
  }

  /** Line lengths and terminators add up to the size of the text. */
  lemma {:induction false} LengthsAddUp(s: string)
    ensures Sum(Lengths(s)) + Terminators(s) == |s|
    decreases |s|
  {
    if s != "" {
      var line := NextLine(s);
      var rest := s[|line|..];
      LengthsAddUp(rest);
      StrippedTerminators(line);
      if rest != "" {
        assert s == line + rest;
        NewlineBeforeRest(s);
        TerminatorsSplit(line, rest);
      } else {
        assert s == line;
      }
    }
  }

  lemma {:induction false} NewlineBeforeRest(s: string)
    requires |NextLine(s)| < |s|
    ensures NextLine(s)[|NextLine(s)| - 1] == '\n'
  {
    if s[0] != '\n' {
      NewlineBeforeRest(s[1..]);
    }
  }

  /** A line, its terminator and the rest: what the individual lengths are. */
  lemma LengthsByLine(line: string, rest: string, crlf: bool)
    requires '\n' !in line && (line != "" && !crlf ==> line[|line| - 1] != '\r')
    ensures Lengths(line + (if crlf then "\r\n" else "\n") + rest) == [|line|] + Lengths(rest)
    ensures line != "" ==> Lengths(line) == [|line|]
  {
    var full := line + if crlf then "\r\n" else "\n";
    NextLineIs(full, rest);
    assert (full + rest)[|full|..] == rest;
    NoNewlineIsOneLine(line);
    assert line[|line|..] == "";
  }

  lemma {:induction false} NextLineIs(full: string, rest: string)
    requires full != "" && full[|full| - 1] == '\n' && forall i :: 0 <= i < |full| - 1 ==> full[i] != '\n'
    ensures NextLine(full + rest) == full
  {
    if |full| > 1 {
      NextLineIs(full[1..], rest);
      assert (full + rest)[1..] == full[1..] + rest;
    }
  }

  lemma NoNewlineIsOneLine(line: string)
    requires '\n' !in line
    ensures NextLine(line) == line
  {
  }
}

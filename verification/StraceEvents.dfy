/**
 The events of an strace log and what each means for the summary. A line is taken as
 already matched against the patterns; the fields are the pattern's groups, and None
 stands for arguments that do not match.
 */
module StraceEvents {
  import opened Wrappers
  import LogWriter
  import MatchStrings

  datatype Event =
    | Unmatched
    | EnterWrite(raw: string, file: string, args: string)
    | EnterOther(raw: string)
    | Creat(raw: string, path: Option<string>)
    | Open(raw: string, groups: Option<(string, string)>)
    | Openat(raw: string, at: Option<(string, string, string)>)
    | Execve(raw: string, command: Option<(seq<string>, seq<string>)>)
    | Connect(raw: string, socket: Option<(string, string, string)>)
    | Stat(raw: string, path: Option<string>)
    | Newfstatat(raw: string, groups: Option<(string, string)>)
    | Unlink(raw: string, path: Option<string>)
    | Unlinkat(raw: string, groups: Option<(string, string)>)
    | ExitOther(raw: string)

  /**
   Calls into libraries: matching a trimmed line against the patterns, path joining, hashing and
   formatting of commands; and the feature flag.
   */
  datatype Env = Env(
    event: seq<LogWriter.byte> -> Event,
    join: (string, string) -> string,
    hash: string -> string,
    commandKey: (seq<string>, seq<string>) -> string,
    writeContents: bool)

  datatype Effect =
    | Nothing
    | ParseFailure
    | Access(path: string, read: bool, write: bool, del: bool)
    | Write(path: string, buffer: string, bytesWritten: int)
    | Socket(address: string, port: nat)
    | Command(cmd: seq<string>, env: seq<string>)

  // ----- small parsers -----

  const READ_FLAGS := {"O_RDWR", "O_RDONLY"}
  const WRITE_FLAGS := {"O_RDWR", "O_CREAT", "O_WRONLY"}

  ghost predicate HasOneOf(text: string, flags: set<string>) {
    exists f :: f in flags && MatchStrings.Contains(text, f)
  }

  /** Whether the flags of an open call read, and whether they write. */
  function OpenFlags(flags: string): (r: (bool, bool))
    ensures r == (HasOneOf(flags, READ_FLAGS), HasOneOf(flags, WRITE_FLAGS))
  {
    var rdwr := MatchStrings.Contains(flags, "O_RDWR");
    (rdwr || MatchStrings.Contains(flags, "O_RDONLY"),
     rdwr || MatchStrings.Contains(flags, "O_CREAT") || MatchStrings.Contains(flags, "O_WRONLY"))
  }

  function JoinPaths(env: Env, dir: string, file: string): string {
    if file != "" && file[0] == '/' then file else env.join(dir, file)
  }

  function DigitValue(c: char): (d: Option<int>)
    ensures d.Some? ==> d.value >= 0
  {
    if '0' <= c <= '9' then Some(c as int - '0' as int)
    else if 'a' <= c <= 'f' then Some(c as int - 'a' as int + 10)
    else if 'A' <= c <= 'F' then Some(c as int - 'A' as int + 10)
    else None
  }

  /** The value of a nonempty string of digits of the base. */
  function Unsigned(s: string, base: nat): (u: Option<int>)
    ensures u.Some? ==> u.value >= 0
  {
    if s == "" then None
    else
      var d := DigitValue(s[|s| - 1]);
      if d.None? || d.value >= base then None
      else if |s| == 1 then d
      else
        match Unsigned(s[..|s| - 1], base)
        case None => None
        case Some(v) => Some(v * base + d.value)
  }

  const INT64_LIMIT: int := 0x8000_0000_0000_0000

  /** strconv.ParseInt(s, base, 64): an optional sign, then digits, within 64 bits. */
  function ParseInt(s: string, base: nat): Option<int> {
    var negative := s != "" && s[0] == '-';
    match Unsigned(if s != "" && (s[0] == '-' || s[0] == '+') then s[1..] else s, base)
    case None => None
    case Some(v) =>
      if negative then (if v > INT64_LIMIT then None else Some(-v))
      else if v >= INT64_LIMIT then None else Some(v)
  }

  predicate HexPrefixAt(s: string, i: int) { 0 <= i <= |s| - 2 && s[i] == '0' && s[i + 1] == 'x' }

  /** strings.LastIndex(s, "0x") */
  function LastHexPrefix(s: string): (i: int)
    ensures i == -1 || HexPrefixAt(s, i)
    ensures forall j :: j > i ==> !HexPrefixAt(s, j)
  {
    if |s| < 2 then -1
    else if HexPrefixAt(s, |s| - 2) then |s| - 2
    else
      assert forall j :: j < |s| - 2 ==> (HexPrefixAt(s, j) <==> HexPrefixAt(s[..|s| - 1], j));
      LastHexPrefix(s[..|s| - 1])
  }

  predicate QuoteAt(s: string, i: int) { 0 <= i < |s| && s[i] == '"' }

  /** strings.Index(s, "\"") */
  function FirstQuote(s: string): (i: int)
    ensures i == -1 || QuoteAt(s, i)
    ensures forall j :: QuoteAt(s, j) ==> 0 <= i <= j
  {
    if s == "" then -1
    else if s[0] == '"' then 0
    else
      assert forall j :: j > 0 ==> (QuoteAt(s, j) <==> QuoteAt(s[1..], j - 1));
      var i := FirstQuote(s[1..]);
      if i == -1 then -1 else i + 1
  }

  /** strings.LastIndex(s, "\"") */
  function LastQuote(s: string): (i: int)
    ensures i == -1 || QuoteAt(s, i)
    ensures forall j :: QuoteAt(s, j) ==> j <= i
  {
    if s == "" then -1
    else if s[|s| - 1] == '"' then |s| - 1
    else
      assert forall j :: j < |s| - 1 ==> (QuoteAt(s, j) <==> QuoteAt(s[..|s| - 1], j));
      LastQuote(s[..|s| - 1])
  }

  /** What is between the first and the last quote. */
  function QuotedText(s: string): string {
    if FirstQuote(s) != -1 && LastQuote(s) > FirstQuote(s) then s[FirstQuote(s) + 1..LastQuote(s)] else ""
  }

  /** The hexadecimal count after the last 0x; None if there is none or it does not fit. */
  function WriteCount(args: string): Option<int> {
    var i := LastHexPrefix(args);
    if i == -1 || |args| <= i + 2 then None else ParseInt(args[i + 2..], 16)
  }

  function WriteEffect(path: string, args: string): Effect {
    match WriteCount(args)
    case None => ParseFailure
    case Some(n) => Write(path, QuotedText(args), n)
  }

  function SocketEffect(family: string, address: string, port: string): Effect {
    if family != "AF_INET" && family != "AF_INET6" then Nothing
    else
      match ParseInt(port, 10)
      case None => ParseFailure
      case Some(n) => if n >= 0 then Socket(address, n) else ParseFailure
  }

  // ----- the effect of an event -----

  function EffectOf(env: Env, e: Event): Effect {
    match e
    case Unmatched => Nothing
    case EnterWrite(_, file, args) => WriteEffect(file, args)
    case EnterOther(_) => Nothing
    case Creat(_, path) => if path.None? then ParseFailure else Access(path.value, false, true, false)
    case Open(_, m) =>
      if m.None? then ParseFailure
      else var (read, write) := OpenFlags(m.value.1); Access(m.value.0, read, write, false)
    case Openat(_, m) =>
      if m.None? then ParseFailure
      else
        var (read, write) := OpenFlags(m.value.2);
        Access(JoinPaths(env, m.value.0, m.value.1), read, write, false)
    case Execve(_, m) => if m.None? then ParseFailure else Command(m.value.0, m.value.1)
    case Connect(_, m) => if m.None? then ParseFailure else SocketEffect(m.value.0, m.value.1, m.value.2)
    case Stat(_, path) => if path.None? then ParseFailure else Access(path.value, true, false, false)
    case Newfstatat(_, m) =>
      if m.None? then ParseFailure else Access(JoinPaths(env, m.value.0, m.value.1), true, false, false)
    case Unlink(_, path) => if path.None? then ParseFailure else Access(path.value, false, false, true)
    case Unlinkat(_, m) =>
      if m.None? then ParseFailure else Access(JoinPaths(env, m.value.0, m.value.1), false, false, true)
    case ExitOther(_) => Nothing
  }

  /** Every matched line is kept in the syscall sequence, whether its arguments parse or not. */
  function Traced(e: Event): seq<string> { if e.Unmatched? then [] else [e.raw] }

  // ----- what is printed is parsed -----

  function DigitOf(d: nat): (c: char)
    requires d < 16
    ensures DigitValue(c) == Some(d) && c != '"' && c != 'x' && c != '-' && c != '+'
  {
    if d < 10 then '0' + d as char else 'a' + (d - 10) as char
  }

  /** n in a base, in lower-case digits and without a prefix. */
  function Format(n: nat, base: nat): (s: string)
    requires 2 <= base <= 16
    ensures s != "" && forall c :: c in s ==> c != '"' && c != 'x' && c != '-' && c != '+'
  {
    if n < base then [DigitOf(n)] else Format(n / base, base) + [DigitOf(n % base)]
  }

  lemma UnsignedSnoc(s: string, c: char, base: nat)
    requires s != "" && Unsigned(s, base).Some? && DigitValue(c).Some? && DigitValue(c).value < base
    ensures Unsigned(s + [c], base) == Some(Unsigned(s, base).value * base + DigitValue(c).value)
  {
    assert (s + [c])[..|s|] == s;
  }

  lemma DivMod(n: nat, base: nat)
    requires base > 0
    ensures n / base * base + n % base == n
  {
  }

  lemma {:induction false} UnsignedUndoesFormat(n: nat, base: nat)
    requires 2 <= base <= 16
    ensures Unsigned(Format(n, base), base) == Some(n)
  {
    if n >= base {
      UnsignedUndoesFormat(n / base, base);
      UnsignedSnoc(Format(n / base, base), DigitOf(n % base), base);
      DivMod(n, base);
    }
  }

  /** A number that fits 64 bits is parsed back, in every base the parser uses. */
  lemma ParseIntUndoesFormat(n: nat, base: nat)
    requires 2 <= base <= 16
    ensures ParseInt(Format(n, base), base) == if n < 0x8000_0000_0000_0000 then Some(n) else None
  {
    UnsignedUndoesFormat(n, base);
    assert Format(n, base)[0] in Format(n, base);
  }

  /** A sign is allowed, and -2^63 still fits. */
  lemma {:induction false} SignedNumbers(n: nat, base: nat)
    requires 2 <= base <= 16
    ensures ParseInt("+" + Format(n, base), base) == if n < 0x8000_0000_0000_0000 then Some(n) else None
    ensures var m: int := n;
            ParseInt("-" + Format(n, base), base) == if n <= 0x8000_0000_0000_0000 then Some(-m) else None
  {
    UnsignedUndoesFormat(n, base);
    assert ("+" + Format(n, base))[1..] == Format(n, base);
    assert ("-" + Format(n, base))[1..] == Format(n, base);
  }

  predicate IsDigit(c: char, base: nat) {
    var v := if '0' <= c <= '9' then c as int - 48 else if 'a' <= c <= 'f' then c as int - 87 else c as int - 55;
    0 <= v < base && ('0' <= c <= '9' || 'a' <= c <= 'f' || 'A' <= c <= 'F')
  }

  /** Only a nonempty string of digits is a number. */
  lemma {:induction false} DigitsExactly(s: string, base: nat)
    ensures Unsigned(s, base).Some? <==> s != "" && AllDigits(s, base)
  {
    if s != "" {
      var init, c := s[..|s| - 1], s[|s| - 1];
      OneDigit(c, base);
      AllDigitsSnoc(init, c, base);
      assert s == init + [c];
      if |s| > 1 { DigitsExactly(init, base); }
    }
  }

  ghost predicate AllDigits(s: string, base: nat) { forall i :: 0 <= i < |s| ==> IsDigit(s[i], base) }

  lemma OneDigit(c: char, base: nat)
    ensures IsDigit(c, base) <==> DigitValue(c).Some? && DigitValue(c).value < base
  {
  }

  lemma AllDigitsSnoc(s: string, c: char, base: nat)
    ensures AllDigits(s + [c], base) <==> AllDigits(s, base) && IsDigit(c, base)
  {
    assert (s + [c])[|s|] == c;
    assert forall i :: 0 <= i < |s| ==> (s + [c])[i] == s[i];
  }

  /** The count stands after the last hex prefix; without a prefix there is none. */
  lemma {:induction false} CountExactly(args: string, before: string, count: string)
    ensures args == before + "0x" + count && (forall i :: !HexPrefixAt(count, i)) ==>
              WriteCount(args) == ParseInt(count, 16)
    ensures (forall i :: !HexPrefixAt(args, i)) ==> WriteCount(args) == None
  {
    if args == before + "0x" + count && forall i :: !HexPrefixAt(count, i) {
      assert HexPrefixAt(args, |before|);
      assert forall j :: 0 <= j < |count| ==> args[|before| + 2 + j] == count[j];
      assert forall j :: j > |before| + 1 && HexPrefixAt(args, j) ==> HexPrefixAt(count, j - |before| - 2);
      assert args[|before| + 2..] == count;
    }
  }

  /** The buffer is what stands between the outer quotes, and empty if there are less than two. */
  lemma {:induction false} QuotedExactly(args: string, before: string, text: string, after: string)
    ensures args == before + "\"" + text + "\"" + after && '"' !in before && '"' !in after ==> QuotedText(args) == text
    ensures args == before + after && |before| == 1 && '"' !in after ==> QuotedText(args) == ""
    ensures '"' !in args ==> QuotedText(args) == ""
  {
    if args == before + "\"" + text + "\"" + after && '"' !in before && '"' !in after {
      QuotesFound(before, text, after, args);
    }
  }

  /** The arguments of a write call as strace prints them: descriptor and path, buffer, count. */
  function WriteArgs(before: string, text: string, n: nat): string {
    before + "\"" + text + "\", 0x" + Format(n, 16)
  }

  /**
   Whatever the buffer holds, quotes and hex prefixes included, it and the count are found again,
   exactly if the count fits and no quote stands before the buffer.
   */
  lemma WriteArgsAreParsed(path: string, before: string, text: string, n: nat)
    ensures WriteEffect(path, WriteArgs(before, text, n)) == Write(path, text, n)
            <==> '"' !in before && n < INT64_LIMIT
  {
    var s := WriteArgs(before, text, n);
    HexPrefixFound(before + "\"" + text + "\", ", Format(n, 16), s);
    QuotesFound(before, text, ", 0x" + Format(n, 16), s);
    ParseIntUndoesFormat(n, 16);
  }

  lemma HexPrefixFound(a: string, digits: string, s: string)
    requires s == a + "0x" + digits && 'x' !in digits
    ensures LastHexPrefix(s) == |a| && s[|a| + 2..] == digits
  {
    assert HexPrefixAt(s, |a|);
    assert forall i :: |a| + 2 <= i < |s| ==> s[i] == digits[i - |a| - 2];
    assert forall j :: j > |a| ==> !HexPrefixAt(s, j);
  }

  lemma QuotesFound(a: string, text: string, b: string, s: string)
    requires s == a + "\"" + text + "\"" + b && '"' !in b
    ensures QuotedText(s) == text <==> '"' !in a
  {
    var end := |a| + 1 + |text|;
    assert forall i :: 0 <= i < |a| ==> s[i] == a[i];
    assert forall i :: end < i < |s| ==> s[i] == b[i - end - 1];
    assert QuoteAt(s, |a|) && QuoteAt(s, end);
    assert forall j :: QuoteAt(s, j) ==> j <= end;
    assert s[|a| + 1..end] == text;
    if '"' in a {
      var i :| 0 <= i < |a| && a[i] == '"';
      assert QuoteAt(s, i) && FirstQuote(s) <= i;
    } else {
      assert forall j :: QuoteAt(s, j) ==> |a| <= j;
    }
  }

  /** A port of any number of digits reaches the socket, as long as it fits 64 bits. */
  lemma AnyPortIsParsed(family: string, address: string, port: nat)
    requires family == "AF_INET" || family == "AF_INET6"
    ensures SocketEffect(family, address, Format(port, 10)) == Socket(address, port) <==> port < INT64_LIMIT
  {
    ParseIntUndoesFormat(port, 10);
  }
}

/** Parsing package URLs, after "How to parse a purl string in its components" of the purl specification. */
module PurlParser {
  import opened Wrappers

  const SUPPORTED_ECOSYSTEMS: map<string, string> :=
    map["pypi" := "pypi", "npm" := "npm", "gem" := "rubygems", "maven" := "maven", "packagist" := "packagist"]

  datatype Purl = Purl(
    ecosystem: string,
    namespace: Option<string>,
    name: Option<string>,
    version: Option<string>,
    qualifiers: map<string, string>,
    originalPurl: string)

  datatype Error = NotAPurl | MissingSeparator | UnsupportedEcosystem(part: string)

  datatype Result = Ok(purl: Purl) | Err(error: Error)

  // ----- splitting -----

  function IndexOf(s: string, c: char): (i: nat)
    ensures i <= |s| && c !in s[..i] && (i < |s| ==> s[i] == c)
    ensures c in s ==> i < |s|
  {
    if s == "" || s[0] == c then 0
    else
      var i := IndexOf(s[1..], c);
      assert s[..i + 1] == [s[0]] + s[1..][..i];
      i + 1
  }

  /** s.split(c, 1) of a string that holds c */
  function Cut(s: string, c: char): (r: (string, string))
    requires c in s
    ensures s == r.0 + [c] + r.1 && c !in r.0
  {
    var i := IndexOf(s, c);
    (s[..i], s[i + 1..])
  }

  /** s.split(c) */
  function Split(s: string, c: char): seq<string>
    decreases |s|
  {
    if c in s then [Cut(s, c).0] + Split(Cut(s, c).1, c) else [s]
  }

  lemma {:induction false} IndexIs(a: string, c: char, b: string)
    requires c !in a
    ensures IndexOf(a + [c] + b, c) == |a|
  {
    if a != "" {
      IndexIs(a[1..], c, b);
      assert (a + [c] + b)[1..] == a[1..] + [c] + b;
    }
  }

  lemma CutIs(a: string, c: char, b: string)
    requires c !in a
    ensures c in a + [c] + b && Cut(a + [c] + b, c) == (a, b)
  {
    var s := a + [c] + b;
    assert s[|a|] == c;
    IndexIs(a, c, b);
    assert s[..|a|] == a && s[|a| + 1..] == b;
  }

  // ----- percent-decoding -----

  predicate IsHex(c: char) { '0' <= c <= '9' || 'a' <= c <= 'f' || 'A' <= c <= 'F' }

  function HexValue(c: char): (v: nat)
    requires IsHex(c)
    ensures v < 16
  {
    if c <= '9' then c as int - '0' as int
    else if c <= 'F' then c as int - 'A' as int + 10
    else c as int - 'a' as int + 10
  }

  predicate IsAscii(c: char) { c as int < 128 }

  /** The bytes of an ASCII run, with every escape of two hexadecimal digits decoded. */
  function Bytes(run: string): seq<int> {
    if run == "" then []
    else if run[0] == '%' && |run| >= 3 && IsHex(run[1]) && IsHex(run[2])
    then [16 * HexValue(run[1]) + HexValue(run[2])] + Bytes(run[3..])
    else [run[0] as int] + Bytes(run[1..])
  }

  function AsciiRun(s: string): (n: nat)
    ensures n <= |s| && forall i :: 0 <= i < n ==> IsAscii(s[i])
    ensures n < |s| ==> !IsAscii(s[n])
  {
    if s == "" || !IsAscii(s[0]) then 0 else 1 + AsciiRun(s[1..])
  }

  /** Turns bytes into text; on ASCII bytes it is the identity, as UTF-8 is. */
  type Decoder = seq<int> -> string

  ghost predicate DecodesAscii(decode: Decoder) {
    forall s: string :: (forall i :: 0 <= i < |s| ==> IsAscii(s[i])) ==> decode(Codes(s)) == s
  }

  function Codes(s: string): seq<int> { seq(|s|, i requires 0 <= i < |s| => s[i] as int) }

  /** unquote(s): each ASCII run is decoded on its own, other characters are kept. */
  function Unquote(decode: Decoder, s: string): string
    decreases |s|
  {
    if s == "" then ""
    else
      var n := AsciiRun(s);
      if n == 0 then [s[0]] + Unquote(decode, s[1..])
      else decode(Bytes(s[..n])) + Unquote(decode, s[n..])
  }

  // ----- parsing -----

  function AddQualifier(decode: Decoder, qualifiers: map<string, string>, pair: string): map<string, string> {
    if '=' in pair then
      var (key, value) := Cut(pair, '=');
      qualifiers[Unquote(decode, key) := Unquote(decode, value)]
    else qualifiers
  }

  /** The dictionary of the pairs; a later pair replaces an earlier one of the same key. */
  function QualifiersOf(decode: Decoder, pairs: seq<string>): map<string, string> {
    if pairs == [] then map[]
    else AddQualifier(decode, QualifiersOf(decode, pairs[..|pairs| - 1]), pairs[|pairs| - 1])
  }

  method ParseQualifiers(decode: Decoder, text: string) returns (qualifiers: map<string, string>)
    ensures qualifiers == if text == "" then map[] else QualifiersOf(decode, Split(text, '&'))
  {
    qualifiers := map[];
    if text != "" {
      var pairs := Split(text, '&');
      for i := 0 to |pairs|
        invariant qualifiers == QualifiersOf(decode, pairs[..i])
      {
        assert pairs[..i + 1][..i] == pairs[..i];
        if '=' in pairs[i] {
          var (key, value) := Cut(pairs[i], '=');
          qualifiers := qualifiers[Unquote(decode, key) := Unquote(decode, value)];
        }
      }
      assert pairs[..|pairs|] == pairs;
    }
  }

  /** The text before a separator, and what follows it if it is there. */
  function Before(s: string, c: char): string { if c in s then Cut(s, c).0 else s }

  function After(s: string, c: char): Option<string> { if c in s then Some(Cut(s, c).1) else None }

  function UnquoteOption(decode: Decoder, s: Option<string>): Option<string> {
    if s.Some? then Some(Unquote(decode, s.value)) else None
  }

  /** For maven the namespace is the group and joins the name; blank parts are left out. */
  function MavenName(namespace: Option<string>, name: string): Option<string> {
    if namespace.Some? && namespace.value != "" && name != "" then Some(namespace.value + ":" + name)
    else if name != "" then Some(name)
    else namespace
  }

  function ParsePurl(decode: Decoder, purl: string): Result {
    if !("pkg:" <= purl) then Err(NotAPurl)
    else if '/' !in purl[4..] then Err(MissingSeparator)
    else
      var (part, rest) := Cut(purl[4..], '/');
      if part !in SUPPORTED_ECOSYSTEMS then Err(UnsupportedEcosystem(part))
      else
        var ecosystem := SUPPORTED_ECOSYSTEMS[part];
        var body, query := Before(rest, '?'), After(rest, '?');
        var qualifiers := if query.None? || query.value == "" then map[]
                          else QualifiersOf(decode, Split(query.value, '&'));
        var path, version := Before(body, '@'), UnquoteOption(decode, After(body, '@'));
        var namespace := if '/' in path then Some(Unquote(decode, Cut(path, '/').0)) else None;
        var name := Unquote(decode, if '/' in path then Cut(path, '/').1 else path);
        if ecosystem == "maven"
        then Ok(Purl(ecosystem, None, MavenName(namespace, name), version, qualifiers, purl))
        else Ok(Purl(ecosystem, namespace, Some(name), version, qualifiers, purl))
  }

  /** Parsing as the program does it: cut by cut, with the loop over the qualifiers. */
  method Parse(decode: Decoder, purl: string) returns (r: Result)
    ensures r == ParsePurl(decode, purl)
  {
    if !("pkg:" <= purl) { return Err(NotAPurl); }
    if '/' !in purl[4..] { return Err(MissingSeparator); }
    var (part, rest) := Cut(purl[4..], '/');
    if part !in SUPPORTED_ECOSYSTEMS { return Err(UnsupportedEcosystem(part)); }
    var ecosystem := SUPPORTED_ECOSYSTEMS[part];
    var body, query := Before(rest, '?'), After(rest, '?');
    var qualifiers: map<string, string> := map[];
    if query.Some? {
      qualifiers := ParseQualifiers(decode, query.value);
    }
    var path, version := Before(body, '@'), UnquoteOption(decode, After(body, '@'));
    var namespace, name := None, Unquote(decode, path);
    if '/' in path {
      namespace, name := Some(Unquote(decode, Cut(path, '/').0)), Unquote(decode, Cut(path, '/').1);
    }
    if ecosystem == "maven" {
      return Ok(Purl(ecosystem, None, MavenName(namespace, name), version, qualifiers, purl));
    }
    return Ok(Purl(ecosystem, namespace, Some(name), version, qualifiers, purl));
  }

  /** The package name, version and ecosystem that an analysis is asked for. */
  function ExtractPackageInfo(decode: Decoder, purl: string): Option<(string, string, string)> {
    match ParsePurl(decode, purl)
    case Err(_) => None
    case Ok(p) =>
      var name := if p.namespace.Some? && p.namespace.value != "" && p.ecosystem == "npm"
                  then p.namespace.value + "/" + p.name.value else if p.name.Some? then p.name.value else "";
      Some((name, if p.version.Some? then p.version.value else "", p.ecosystem))
  }

  /** The ecosystem without full parsing. */
  function EcosystemOf(purl: string): Option<string> {
    if "pkg:" <= purl && Before(purl[4..], '/') in SUPPORTED_ECOSYSTEMS
    then Some(SUPPORTED_ECOSYSTEMS[Before(purl[4..], '/')]) else None
  }

  // ----- which strings parse -----

  /** A string parses exactly if it has the prefix and a supported type followed by a slash. */
  lemma ParsesExactly(decode: Decoder, purl: string)
    ensures ParsePurl(decode, purl).Ok? <==> EcosystemOf(purl).Some? && '/' in purl[4..]
    ensures ParsePurl(decode, purl).Ok? ==> Some(ParsePurl(decode, purl).purl.ecosystem) == EcosystemOf(purl)
  {
  }

  /** Whatever follows a supported type parses, so neither a blank name nor a blank version is rejected. */
  lemma AnyRestParses(decode: Decoder, part: string, rest: string)
    requires part in SUPPORTED_ECOSYSTEMS
    ensures ParsePurl(decode, "pkg:" + part + "/" + rest).Ok?
  {
    SupportedTypesHaveNoSlash(part);
    Head(part, rest);
  }

  lemma Head(part: string, rest: string)
    requires '/' !in part
    ensures var purl := "pkg:" + part + "/" + rest;
            "pkg:" <= purl && '/' in purl[4..] && Cut(purl[4..], '/') == (part, rest)
  {
    var purl := "pkg:" + part + "/" + rest;
    CutIs(part, '/', rest);
    assert purl[4..] == part + ['/'] + rest;
  }

  /** The supported types; all but gem give the ecosystem its name. */
  lemma SupportedTypes(part: string)
    ensures part in SUPPORTED_ECOSYSTEMS <==> part in {"pypi", "npm", "gem", "maven", "packagist"}
    ensures part in SUPPORTED_ECOSYSTEMS ==> SUPPORTED_ECOSYSTEMS[part] == if part == "gem" then "rubygems" else part
  {
  }

  /** What is wrong with a string that does not parse. */
  lemma {:induction false} RejectsFor(decode: Decoder, purl: string, part: string, rest: string)
    ensures ParsePurl(decode, purl) == Err(NotAPurl) <==> !("pkg:" <= purl)
    ensures ParsePurl(decode, purl) == Err(MissingSeparator) <==> "pkg:" <= purl && '/' !in purl[4..]
    ensures purl == "pkg:" + part + "/" + rest && '/' !in part && part !in SUPPORTED_ECOSYSTEMS ==>
              ParsePurl(decode, purl) == Err(UnsupportedEcosystem(part))
  {
    if purl == "pkg:" + part + "/" + rest && '/' !in part { Head(part, rest); }
  }

  /** The ecosystem is that of the text up to the first slash, whether there is one or not. */
  lemma {:induction false} EcosystemExactly(purl: string, part: string, rest: string)
    ensures !("pkg:" <= purl) ==> EcosystemOf(purl) == None
    ensures '/' !in part && purl in {"pkg:" + part, "pkg:" + part + "/" + rest} ==>
              EcosystemOf(purl) == if part in SUPPORTED_ECOSYSTEMS then Some(SUPPORTED_ECOSYSTEMS[part]) else None
  {
    if '/' !in part {
      if purl == "pkg:" + part + "/" + rest { Head(part, rest); }
      if purl == "pkg:" + part { assert purl[4..] == part; }
    }
  }

  /** Text without escapes stays, and so does an escape that is none. */
  lemma {:induction false} PlainBytes(run: string)
    ensures (forall i :: 0 <= i < |run| - 2 && run[i] == '%' ==> !IsHex(run[i + 1]) || !IsHex(run[i + 2])) ==>
              Bytes(run) == Codes(run)
  {
    if run != "" {
      PlainBytes(run[1..]);
      if forall i :: 0 <= i < |run| - 2 && run[i] == '%' ==> !IsHex(run[i + 1]) || !IsHex(run[i + 2]) {
        assert forall i :: 0 <= i < |run[1..]| ==> run[1..][i] == run[i + 1];
        assert Codes(run) == [run[0] as int] + Codes(run[1..]);
      }
    }
  }

  ghost predicate NoEscape(s: string) { forall i :: 0 <= i < |s| ==> s[i] != '%' }

  lemma PlainRun(decode: Decoder, run: string)
    requires DecodesAscii(decode) && NoEscape(run) && forall i :: 0 <= i < |run| ==> IsAscii(run[i])
    ensures decode(Bytes(run)) == run
  {
    PlainBytes(run);
  }

  lemma UnquoteStep(decode: Decoder, s: string)
    requires s != ""
    ensures Unquote(decode, s) == if AsciiRun(s) == 0 then [s[0]] + Unquote(decode, s[1..])
                                  else decode(Bytes(s[..AsciiRun(s)])) + Unquote(decode, s[AsciiRun(s)..])
  {
  }

  lemma PlainParts(s: string, n: nat)
    requires NoEscape(s) && n <= |s|
    ensures NoEscape(s[..n]) && NoEscape(s[n..]) && s[..n] + s[n..] == s
  {
  }

  lemma {:induction false} UnquoteKeepsPlain(decode: Decoder, s: string)
    requires DecodesAscii(decode) && NoEscape(s)
    ensures Unquote(decode, s) == s
    decreases |s|
  {
    if s != "" {
      var n := AsciiRun(s);
      var k := if n == 0 then 1 else n;
      PlainParts(s, k);
      UnquoteKeepsPlain(decode, s[k..]);
      if n > 0 { PlainRun(decode, s[..n]); }
      UnquoteStep(decode, s);
      assert n == 0 ==> s[..k] == [s[0]];
    }
  }

  /** The digits of escapes, in both cases. */
  lemma HexValues(v: nat)
    requires v < 16
    ensures IsHex("0123456789abcdef"[v]) && HexValue("0123456789abcdef"[v]) == v
    ensures IsHex("0123456789ABCDEF"[v]) && HexValue("0123456789ABCDEF"[v]) == v
  {
  }

  /** A pair of this key and value: both decoded, the key up to the first equals sign. */
  ghost predicate PairSays(decode: Decoder, pair: string, key: string, value: string) {
    exists a, b :: pair == a + "=" + b && '=' !in a && Unquote(decode, a) == key && Unquote(decode, b) == value
  }

  ghost predicate PairNames(decode: Decoder, pair: string, key: string) {
    exists value :: PairSays(decode, pair, key, value)
  }

  lemma PairAdds(decode: Decoder, before: map<string, string>, pair: string, key: string)
    ensures PairNames(decode, pair, key) ==>
              key in AddQualifier(decode, before, pair)
              && PairSays(decode, pair, key, AddQualifier(decode, before, pair)[key])
    ensures !PairNames(decode, pair, key) ==>
              (key in AddQualifier(decode, before, pair) <==> key in before)
              && (key in before ==> AddQualifier(decode, before, pair)[key] == before[key])
  {
    if '=' in pair {
      var (a, b) := Cut(pair, '=');
      assert pair == a + "=" + b;
      if Unquote(decode, a) == key {
        assert PairSays(decode, pair, key, Unquote(decode, b));
      } else {
        forall c, d | pair == c + "=" + d && '=' !in c ensures c == a { CutIs(c, '=', d); }
      }
    }
  }

  /** The last pair that has the key. */
  ghost predicate LastPairAt(decode: Decoder, pairs: seq<string>, key: string, i: nat) {
    && i < |pairs| && PairNames(decode, pairs[i], key)
    && (forall j :: i < j < |pairs| ==> !PairNames(decode, pairs[j], key))
  }

  ghost predicate NoPairNames(decode: Decoder, pairs: seq<string>, key: string) {
    forall j :: 0 <= j < |pairs| ==> !PairNames(decode, pairs[j], key)
  }

  lemma LastPairBefore(decode: Decoder, pairs: seq<string>, key: string, i: nat)
    requires pairs != []
    ensures NoPairNames(decode, pairs, key) ==> NoPairNames(decode, pairs[..|pairs| - 1], key)
    ensures LastPairAt(decode, pairs, key, i) && i < |pairs| - 1 ==> LastPairAt(decode, pairs[..|pairs| - 1], key, i)
  {
    assert forall j :: 0 <= j < |pairs| - 1 ==> pairs[..|pairs| - 1][j] == pairs[j];
  }

  /** The value of a key is that of the last pair that has it; pairs without an equals sign are passed over. */
  lemma {:induction false} LastPairCounts(decode: Decoder, pairs: seq<string>, key: string, i: nat)
    ensures LastPairAt(decode, pairs, key, i) ==>
              key in QualifiersOf(decode, pairs) && PairSays(decode, pairs[i], key, QualifiersOf(decode, pairs)[key])
    ensures NoPairNames(decode, pairs, key) ==> key !in QualifiersOf(decode, pairs)
  {
    if pairs != [] {
      var n := |pairs| - 1;
      LastPairCounts(decode, pairs[..n], key, i);
      LastPairBefore(decode, pairs, key, i);
      PairAdds(decode, QualifiersOf(decode, pairs[..n]), pairs[n], key);
    }
  }

  /** The undecoded parts of what follows the type. */
  datatype Rest = Rest(namespace: Option<string>, name: string, version: Option<string>, query: Option<string>)

  function PathText(r: Rest): string { if r.namespace.Some? then r.namespace.value + "/" + r.name else r.name }

  function BodyText(r: Rest): string { if r.version.Some? then PathText(r) + "@" + r.version.value else PathText(r) }

  function RestText(r: Rest): string { if r.query.Some? then BodyText(r) + "?" + r.query.value else BodyText(r) }

  /** Each part ends at the first separator that can end it. */
  ghost predicate CutFirst(r: Rest) {
    && (r.namespace.None? ==> '/' !in r.name)
    && (r.namespace.Some? ==> '/' !in r.namespace.value && '@' !in r.namespace.value && '?' !in r.namespace.value)
    && '@' !in r.name && '?' !in r.name
    && (r.version.Some? ==> '?' !in r.version.value)
  }

  lemma PathCuts(r: Rest)
    requires CutFirst(r)
    ensures '/' in PathText(r) <==> r.namespace.Some?
    ensures r.namespace.Some? ==> Cut(PathText(r), '/') == (r.namespace.value, r.name)
    ensures '@' !in PathText(r) && '?' !in PathText(r)
  {
    if r.namespace.Some? { CutIs(r.namespace.value, '/', r.name); }
  }

  lemma RestCuts(r: Rest)
    requires CutFirst(r)
    ensures Before(RestText(r), '?') == BodyText(r) && After(RestText(r), '?') == r.query
    ensures Before(BodyText(r), '@') == PathText(r) && After(BodyText(r), '@') == r.version
  {
    PathCuts(r);
    BeforeAfter(PathText(r), '@', if r.version.Some? then r.version.value else "");
    BeforeAfter(BodyText(r), '?', if r.query.Some? then r.query.value else "");
  }

  function Decoded(decode: Decoder, s: Option<string>): Option<string> {
    match s
    case Some(text) => Some(Unquote(decode, text))
    case None => None
  }

  function PairsOf(decode: Decoder, query: Option<string>): map<string, string> {
    if query.None? || query.value == "" then map[] else QualifiersOf(decode, Split(query.value, '&'))
  }

  lemma PartsParse(decode: Decoder, part: string, r: Rest, purl: string)
    requires part in SUPPORTED_ECOSYSTEMS && CutFirst(r)
    requires purl == "pkg:" + part + "/" + RestText(r)
    ensures var ecosystem := SUPPORTED_ECOSYSTEMS[part];
            var name, namespace := Unquote(decode, r.name), Decoded(decode, r.namespace);
            ParsePurl(decode, purl)
            == if ecosystem == "maven"
               then Ok(Purl(ecosystem, None, MavenName(namespace, name), Decoded(decode, r.version),
                            PairsOf(decode, r.query), purl))
               else Ok(Purl(ecosystem, namespace, Some(name), Decoded(decode, r.version),
                            PairsOf(decode, r.query), purl))
  {
    SupportedTypesHaveNoSlash(part);
    Head(part, RestText(r));
    RestCuts(r);
    PathCuts(r);
  }

  /**
   Any undecoded parts, whatever they hold after their first separator: each comes back decoded on its own, and
   the whole string beside them; for maven the group joins the name if both are there.
   */
  lemma PartsComeBack(decode: Decoder, part: string, r: Rest, purl: string)
    requires part in SUPPORTED_ECOSYSTEMS && CutFirst(r)
    requires purl == "pkg:" + part + "/" + RestText(r)
    ensures ParsePurl(decode, purl).Ok?
    ensures var p := ParsePurl(decode, purl).purl;
            p.ecosystem == SUPPORTED_ECOSYSTEMS[part] && p.version == Decoded(decode, r.version)
            && p.originalPurl == purl && p.qualifiers == PairsOf(decode, r.query)
    ensures var p := ParsePurl(decode, purl).purl;
            p.namespace == if p.ecosystem == "maven" then None else Decoded(decode, r.namespace)
    ensures var p, name, group := ParsePurl(decode, purl).purl, Unquote(decode, r.name), Decoded(decode, r.namespace);
            p.name == if p.ecosystem != "maven" || group == Some("") || (group.None? && name != "") then Some(name)
                      else if group.None? then None
                      else if name == "" then group
                      else Some(group.value + ":" + name)
  {
    PartsParse(decode, part, r, purl);
  }

  /** The pieces of a query: none holds an ampersand, and with ampersands between them they are the query. */
  lemma {:induction false} SplitMeans(s: string)
    ensures Split(s, '&') != []
    ensures forall i :: 0 <= i < |Split(s, '&')| ==> '&' !in Split(s, '&')[i]
    ensures Glued(Split(s, '&')) == s
    decreases |s|
  {
    if '&' in s {
      var (first, rest) := Cut(s, '&');
      SplitMeans(rest);
      assert Split(s, '&')[1..] == Split(rest, '&');
      assert s == first + "&" + rest;
    }
  }

  function Glued(pieces: seq<string>): string {
    if pieces == [] then "" else if |pieces| == 1 then pieces[0] else pieces[0] + "&" + Glued(pieces[1..])
  }

  // ----- printing -----

  predicate Separator(c: char) { c == '%' || c == '/' || c == '?' || c == '@' || c == '&' || c == '=' }

  /** e is s with every separator, and possibly other characters, percent-encoded; all of it ASCII. */
  ghost predicate Encodes(e: string, s: string) {
    if s == "" then e == ""
    else if e == "" then false
    else if e[0] == '%' then
      && |e| >= 3 && IsHex(e[1]) && IsHex(e[2])
      && 16 * HexValue(e[1]) + HexValue(e[2]) == s[0] as int < 128
      && Encodes(e[3..], s[1..])
    else
      e[0] == s[0] && IsAscii(e[0]) && !Separator(e[0]) && Encodes(e[1..], s[1..])
  }

  lemma {:induction false} EncodedChars(e: string, s: string)
    requires Encodes(e, s)
    ensures forall i :: 0 <= i < |e| ==> IsAscii(e[i]) && (e[i] == '%' || !Separator(e[i]))
    ensures forall i :: 0 <= i < |s| ==> IsAscii(s[i])
    ensures Bytes(e) == Codes(s)
    decreases |e|
  {
    if s != "" {
      var k := if e[0] == '%' then 3 else 1;
      EncodedChars(e[k..], s[1..]);
      assert forall i :: k <= i < |e| ==> e[i] == e[k..][i - k];
      assert forall i :: 1 <= i < |s| ==> s[i] == s[1..][i - 1];
      assert Codes(s) == [s[0] as int] + Codes(s[1..]);
    }
  }

  /** Decoding undoes any encoding. */
  lemma UnquoteUndoes(decode: Decoder, e: string, s: string)
    requires DecodesAscii(decode) && Encodes(e, s)
    ensures Unquote(decode, e) == s
    ensures forall c :: Separator(c) && c != '%' ==> c !in e
  {
    EncodedChars(e, s);
    if e != "" {
      var n := AsciiRun(e);
      assert n == |e|;
      assert e[..n] == e && e[n..] == "";
      assert Unquote(decode, e) == decode(Codes(s)) + "";
    }
  }

  function HexDigit(v: int): (c: char)
    requires 0 <= v < 16
    ensures IsHex(c) && HexValue(c) == v && !Separator(c)
  {
    if v < 10 then '0' + v as char else 'A' + (v - 10) as char
  }

  /** The canonical encoding: letters, digits and -._~ stay, everything else is escaped. */
  function Encode(s: string): string
    requires forall i :: 0 <= i < |s| ==> IsAscii(s[i])
  {
    if s == "" then ""
    else
      var c := s[0];
      assert IsAscii(c);
      (if 'a' <= c <= 'z' || 'A' <= c <= 'Z' || '0' <= c <= '9' || c == '-' || c == '.' || c == '_' || c == '~'
       then [c]
       else ['%', HexDigit(c as int / 16), HexDigit(c as int % 16)])
      + Encode(s[1..])
  }

  lemma {:induction false} EncodeEncodes(s: string)
    requires forall i :: 0 <= i < |s| ==> IsAscii(s[i])
    ensures Encodes(Encode(s), s)
  {
    if s != "" {
      EncodeEncodes(s[1..]);
      var e := Encode(s);
      var k := |e| - |Encode(s[1..])|;
      assert e[k..] == Encode(s[1..]);
    }
  }

  /** The encoded parts of a printed purl. */
  datatype Parts = Parts(part: string, namespace: Option<string>, name: string, version: Option<string>,
                         pairs: seq<(string, string)>)

  function Join(pairs: seq<(string, string)>): string {
    if pairs == [] then ""
    else pairs[0].0 + "=" + pairs[0].1 + if |pairs| == 1 then "" else "&" + Join(pairs[1..])
  }

  function PrintPath(p: Parts): string {
    if p.namespace.Some? then p.namespace.value + "/" + p.name else p.name
  }

  function PrintBody(p: Parts): string {
    if p.version.Some? then PrintPath(p) + "@" + p.version.value else PrintPath(p)
  }

  function PrintRest(p: Parts): string {
    if p.pairs == [] then PrintBody(p) else PrintBody(p) + "?" + Join(p.pairs)
  }

  function Print(p: Parts): string { "pkg:" + p.part + "/" + PrintRest(p) }

  ghost predicate EncodesOption(e: Option<string>, s: Option<string>) {
    if s.Some? then e.Some? && Encodes(e.value, s.value) else e.None?
  }

  ghost predicate EncodesPairs(e: seq<(string, string)>, s: seq<(string, string)>) {
    |e| == |s| && forall i :: 0 <= i < |s| ==> Encodes(e[i].0, s[i].0) && Encodes(e[i].1, s[i].1)
  }

  /** e is c with its components percent-encoded. */
  ghost predicate EncodesParts(e: Parts, c: Parts) {
    && e.part == c.part && EncodesOption(e.namespace, c.namespace) && Encodes(e.name, c.name)
    && EncodesOption(e.version, c.version) && EncodesPairs(e.pairs, c.pairs)
  }

  function Dictionary(pairs: seq<(string, string)>): map<string, string> {
    if pairs == [] then map[]
    else Dictionary(pairs[..|pairs| - 1])[pairs[|pairs| - 1].0 := pairs[|pairs| - 1].1]
  }

  // ----- parsing undoes printing -----

  lemma BeforeAfter(a: string, c: char, b: string)
    requires c !in a
    ensures Before(a, c) == a && After(a, c) == None
    ensures Before(a + [c] + b, c) == a && After(a + [c] + b, c) == Some(b)
  {
    CutIs(a, c, b);
  }

  function PairTexts(pairs: seq<(string, string)>): seq<string> {
    seq(|pairs|, i requires 0 <= i < |pairs| => pairs[i].0 + "=" + pairs[i].1)
  }

  function PairText(pair: (string, string)): string { pair.0 + "=" + pair.1 }

  lemma SplitFirst(first: string, rest: string)
    requires '&' !in first
    ensures Split(first, '&') == [first]
    ensures Split(first + ['&'] + rest, '&') == [first] + Split(rest, '&')
  {
    CutIs(first, '&', rest);
  }

  lemma PairTextsFirst(pairs: seq<(string, string)>)
    requires pairs != []
    ensures PairTexts(pairs) == [PairText(pairs[0])] + PairTexts(pairs[1..])
  {
  }

  lemma JoinFirst(pairs: seq<(string, string)>)
    requires |pairs| > 1
    ensures Join(pairs) == PairText(pairs[0]) + ['&'] + Join(pairs[1..])
  {
  }

  lemma {:induction false} SplitJoin(pairs: seq<(string, string)>)
    requires pairs != []
    requires forall i :: 0 <= i < |pairs| ==> '&' !in pairs[i].0 && '&' !in pairs[i].1
    ensures Split(Join(pairs), '&') == PairTexts(pairs)
  {
    var first := PairText(pairs[0]);
    PairTextsFirst(pairs);
    if |pairs| == 1 {
      SplitFirst(first, "");
      assert Join(pairs) == first + "" == first;
      assert PairTexts(pairs[1..]) == [];
    } else {
      JoinFirst(pairs);
      SplitFirst(first, Join(pairs[1..]));
      SplitJoin(pairs[1..]);
    }
  }

  lemma {:induction false} QualifiersUndo(decode: Decoder, e: seq<(string, string)>, s: seq<(string, string)>)
    requires DecodesAscii(decode) && EncodesPairs(e, s)
    ensures QualifiersOf(decode, PairTexts(e)) == Dictionary(s)
    decreases |s|
  {
    if s != [] {
      var n := |s| - 1;
      QualifiersUndo(decode, e[..n], s[..n]);
      LastText(e, n);
      AddUndo(decode, Dictionary(s[..n]), e[n], s[n]);
    }
  }

  lemma LastText(e: seq<(string, string)>, n: nat)
    requires |e| == n + 1
    ensures |PairTexts(e)| == n + 1 && PairTexts(e)[..n] == PairTexts(e[..n])
    ensures PairTexts(e)[n] == e[n].0 + "=" + e[n].1
  {
  }

  lemma AddUndo(decode: Decoder, qualifiers: map<string, string>, e: (string, string), s: (string, string))
    requires DecodesAscii(decode) && Encodes(e.0, s.0) && Encodes(e.1, s.1)
    ensures AddQualifier(decode, qualifiers, e.0 + "=" + e.1) == qualifiers[s.0 := s.1]
  {
    UnquoteUndoes(decode, e.0, s.0);
    UnquoteUndoes(decode, e.1, s.1);
    CutIs(e.0, '=', e.1);
  }

  lemma NotInPath(namespace: string, name: string, c: char)
    requires c !in namespace && c !in name && c != '/'
    ensures c !in namespace + "/" + name
  {
  }

  lemma PathUndo(decode: Decoder, e: Parts, c: Parts)
    requires DecodesAscii(decode) && EncodesParts(e, c)
    ensures var path := PrintPath(e);
            && (c.namespace.Some? <==> '/' in path)
            && (c.namespace.Some? ==> Unquote(decode, Cut(path, '/').0) == c.namespace.value)
            && Unquote(decode, if '/' in path then Cut(path, '/').1 else path) == c.name
            && '@' !in path && '?' !in path
  {
    UnquoteUndoes(decode, e.name, c.name);
    if c.namespace.Some? {
      var namespace := e.namespace.value;
      UnquoteUndoes(decode, namespace, c.namespace.value);
      CutIs(namespace, '/', e.name);
      NotInPath(namespace, e.name, '@');
      NotInPath(namespace, e.name, '?');
    }
  }

  lemma BodyUndo(decode: Decoder, e: Parts, c: Parts)
    requires DecodesAscii(decode) && EncodesParts(e, c)
    ensures Before(PrintBody(e), '@') == PrintPath(e)
    ensures UnquoteOption(decode, After(PrintBody(e), '@')) == c.version
    ensures '?' !in PrintBody(e)
  {
    PathUndo(decode, e, c);
    var path := PrintPath(e);
    if c.version.Some? {
      var version := e.version.value;
      UnquoteUndoes(decode, version, c.version.value);
      BeforeAfter(path, '@', version);
      assert PrintBody(e) == path + ['@'] + version;
    } else {
      BeforeAfter(path, '@', "");
    }
  }

  lemma RestUndo(decode: Decoder, e: Parts, c: Parts)
    requires DecodesAscii(decode) && EncodesParts(e, c)
    ensures Before(PrintRest(e), '?') == PrintBody(e)
    ensures var query := After(PrintRest(e), '?');
            (if query.None? || query.value == "" then map[] else QualifiersOf(decode, Split(query.value, '&')))
            == Dictionary(c.pairs)
  {
    BodyUndo(decode, e, c);
    if c.pairs != [] {
      BeforeAfter(PrintBody(e), '?', Join(e.pairs));
      forall i | 0 <= i < |e.pairs| ensures '&' !in e.pairs[i].0 && '&' !in e.pairs[i].1 {
        UnquoteUndoes(decode, e.pairs[i].0, c.pairs[i].0);
        UnquoteUndoes(decode, e.pairs[i].1, c.pairs[i].1);
      }
      SplitJoin(e.pairs);
      QualifiersUndo(decode, e.pairs, c.pairs);
      assert '=' in Join(e.pairs);
    }
  }

  /** Parsing a printed purl gives its components back; for maven the namespace joins the name. */
  lemma ParseUndoesPrint(decode: Decoder, e: Parts, c: Parts)
    requires DecodesAscii(decode) && EncodesParts(e, c)
    requires c.part in SUPPORTED_ECOSYSTEMS
    ensures var ecosystem := SUPPORTED_ECOSYSTEMS[c.part];
            ParsePurl(decode, Print(e)) == Ok(
              if ecosystem == "maven"
              then Purl(ecosystem, None, MavenName(c.namespace, c.name), c.version, Dictionary(c.pairs), Print(e))
              else Purl(ecosystem, c.namespace, Some(c.name), c.version, Dictionary(c.pairs), Print(e)))
  {
    SupportedTypesHaveNoSlash(c.part);
    Head(c.part, PrintRest(e));
    RestUndo(decode, e, c);
    BodyUndo(decode, e, c);
    PathUndo(decode, e, c);
  }

  /** The name an analysis is asked for: npm scopes and maven groups are part of it, other namespaces are not. */
  function PackageName(ecosystem: string, c: Parts): string {
    if c.namespace.None? || c.namespace.value == "" then c.name
    else if ecosystem == "npm" then c.namespace.value + "/" + c.name
    else if ecosystem == "maven" then if c.name == "" then c.namespace.value else c.namespace.value + ":" + c.name
    else c.name
  }

  /** What an analysis is asked for is what was printed. */
  lemma ExtractUndoesPrint(decode: Decoder, e: Parts, c: Parts)
    requires DecodesAscii(decode) && EncodesParts(e, c)
    requires c.part in SUPPORTED_ECOSYSTEMS
    ensures var ecosystem := SUPPORTED_ECOSYSTEMS[c.part];
            ExtractPackageInfo(decode, Print(e))
            == Some((PackageName(ecosystem, c), if c.version.Some? then c.version.value else "", ecosystem))
  {
    ParseUndoesPrint(decode, e, c);
  }

  /** Extraction fails exactly if parsing does. */
  lemma ExtractsExactly(decode: Decoder, purl: string)
    ensures ExtractPackageInfo(decode, purl).Some? <==> EcosystemOf(purl).Some? && '/' in purl[4..]
  {
    ParsesExactly(decode, purl);
  }

  ghost predicate AllAscii(s: string) { forall i :: 0 <= i < |s| ==> IsAscii(s[i]) }

  ghost predicate AsciiParts(c: Parts) {
    && (c.namespace.Some? ==> AllAscii(c.namespace.value)) && AllAscii(c.name)
    && (c.version.Some? ==> AllAscii(c.version.value))
    && AsciiPairs(c.pairs)
  }

  function EncodeOption(s: Option<string>): Option<string>
    requires s.Some? ==> forall i :: 0 <= i < |s.value| ==> IsAscii(s.value[i])
  {
    if s.Some? then Some(Encode(s.value)) else None
  }

  /** The canonical printer's encoding of the components. */
  ghost function EncodeParts(c: Parts): Parts
    requires AsciiParts(c)
  {
    Parts(c.part, EncodeOption(c.namespace), Encode(c.name), EncodeOption(c.version), EncodePairs(c.pairs))
  }

  ghost predicate AsciiPairs(pairs: seq<(string, string)>) {
    forall i :: 0 <= i < |pairs| ==> AllAscii(pairs[i].0) && AllAscii(pairs[i].1)
  }

  ghost function EncodePairs(pairs: seq<(string, string)>): seq<(string, string)>
    requires AsciiPairs(pairs)
  {
    seq(|pairs|, i requires 0 <= i < |pairs| => (Encode(pairs[i].0), Encode(pairs[i].1)))
  }

  /** Any ASCII components survive canonical printing and parsing. */
  lemma ParseUndoesCanonicalPrint(decode: Decoder, c: Parts)
    requires DecodesAscii(decode) && AsciiParts(c) && c.part in SUPPORTED_ECOSYSTEMS && c.part != "maven"
    ensures ParsePurl(decode, Print(EncodeParts(c)))
            == Ok(Purl(SUPPORTED_ECOSYSTEMS[c.part], c.namespace, Some(c.name), c.version, Dictionary(c.pairs),
                       Print(EncodeParts(c))))
  {
    EncodePartsEncodes(c);
    OnlyMaven(c.part);
    ParseUndoesPrint(decode, EncodeParts(c), c);
  }

  lemma OnlyMaven(part: string)
    requires part in SUPPORTED_ECOSYSTEMS && part != "maven"
    ensures SUPPORTED_ECOSYSTEMS[part] != "maven"
  {
  }

  lemma EncodePartsEncodes(c: Parts)
    requires AsciiParts(c)
    ensures EncodesParts(EncodeParts(c), c)
  {
    EncodePairsEncodes(c.pairs);
    EncodeOptionEncodes(c.namespace);
    EncodeEncodes(c.name);
    EncodeOptionEncodes(c.version);
  }

  lemma EncodeOptionEncodes(s: Option<string>)
    requires s.Some? ==> AllAscii(s.value)
    ensures EncodesOption(EncodeOption(s), s)
  {
    if s.Some? { EncodeEncodes(s.value); }
  }

  lemma EncodePairsEncodes(pairs: seq<(string, string)>)
    requires AsciiPairs(pairs)
    ensures EncodesPairs(EncodePairs(pairs), pairs)
  {
    forall i | 0 <= i < |pairs|
      ensures Encodes(EncodePairs(pairs)[i].0, pairs[i].0) && Encodes(EncodePairs(pairs)[i].1, pairs[i].1)
    {
      EncodeEncodes(pairs[i].0);
      EncodeEncodes(pairs[i].1);
    }
  }

  lemma SupportedTypesHaveNoSlash(part: string)
    requires part in SUPPORTED_ECOSYSTEMS
    ensures '/' !in part
  {
  }

  /** With distinct keys the dictionary holds exactly the printed pairs. */
  lemma {:induction false} DictionaryHoldsPairs(pairs: seq<(string, string)>)
    requires forall i, j :: 0 <= i < j < |pairs| ==> pairs[i].0 != pairs[j].0
    ensures forall i :: 0 <= i < |pairs| ==>
              pairs[i].0 in Dictionary(pairs) && Dictionary(pairs)[pairs[i].0] == pairs[i].1
    ensures forall k :: k in Dictionary(pairs) ==> exists i :: 0 <= i < |pairs| && pairs[i].0 == k
  {
    if pairs != [] {
      var n := |pairs| - 1;
      DictionaryHoldsPairs(pairs[..n]);
      forall k | k in Dictionary(pairs) ensures exists i :: 0 <= i < |pairs| && pairs[i].0 == k {
        if k != pairs[n].0 {
          var i :| 0 <= i < n && pairs[..n][i].0 == k;
          assert pairs[i].0 == k;
        }
      }
      forall i | 0 <= i < n ensures pairs[i].0 in Dictionary(pairs) && Dictionary(pairs)[pairs[i].0] == pairs[i].1 {
        assert pairs[..n][i] == pairs[i];
      }
    }
  }
}

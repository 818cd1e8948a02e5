/**
  The mapping rules of the proxy: `PathMaps.Set` parses one `path = url`
  rule and appends it to the list, `PathMaps.FromEnviron` feeds the values
  of the `DEVPROXY_MAP` / `DEVPROXY_MAP_*` environment entries to `Set`.
 */
module Mapping {
  import opened Wrappers
  import opened Strings
  import Paths
  import opened Urls

  /** One rule: requests under `path` go to `target`. */
  datatype PathMap = PathMap(path: string, target: Url)

  /** The errors `Set` returns, in the order it checks for them. */
  datatype SetError =
    | MissingSeparator
    | EmptyPath
    | BadUrl(cause: UrlError)
    | EmptyScheme
    | UnrecognizedScheme(scheme: string)
    | MissingHost

  /** The two trimmed sides of a rule, split at its first '='; None without a '='. */
  function RuleSides(arg: string): (r: Option<(string, string)>)
    ensures r.None? <==> '=' !in arg
  {
    match Cut(arg, '=')
    case None => None
    case Some((left, right)) => Some((TrimSpace(left), TrimSpace(right)))
  }

  /** The source path as stored: cleaned, with the trailing slash of the written path kept. */
  function SourcePath(src: string): string
  {
    var p := Paths.Clean(src);
    if HasSuffix(src, "/") && !HasSuffix(p, "/") then p + "/" else p
  }

  predicate IsHttpScheme(scheme: string) {
    scheme == "http" || scheme == "https"
  }

  /** How `Set` reads a target URL: `url.Parse`. */
  type UrlParser = string -> Result<Url, UrlError>

  /**
    The validation and normalisation of `PathMaps.Set`, without the append,
    when the target is read by `parse`. The lemmas below hold for every
    parser unless they say otherwise.
   */
  function ParseRuleWith(arg: string, parse: UrlParser): Result<PathMap, SetError>
  {
    match RuleSides(arg)
    case None => Err(MissingSeparator)
    case Some((src, targetStr)) =>
      if src == "" then Err(EmptyPath)
      else
        match parse(targetStr)
        case Err(e) => Err(BadUrl(e))
        case Ok(parsed) =>
          var t := if parsed.path == "" then parsed.(path := "/") else parsed;
          if t.scheme == "" then Err(EmptyScheme)
          else if !IsHttpScheme(t.scheme) then Err(UnrecognizedScheme(t.scheme))
          else if t.host == "" || HasPrefix(t.host, ":") then Err(MissingHost)
          else
            var target := if HasSuffix(targetStr, "/") && !HasSuffix(t.path, "/") then t.(path := t.path + "/") else t;
            Ok(PathMap(SourcePath(src), target))
  }

  /** The validation and normalisation of `PathMaps.Set`, with `url.Parse`. */
  function ParseRule(arg: string): Result<PathMap, SetError>
  {
    ParseRuleWith(arg, Parse)
  }

  /** A parser whose every result has the parts `url.Parse` guarantees. */
  ghost predicate ParsesWell(parse: UrlParser) {
    forall s :: parse(s).Ok? ==> WellParsed(parse(s).value)
  }

  lemma UrlParseWell()
    ensures ParsesWell(Parse)
  {
    forall s | Parse(s).Ok? ensures WellParsed(Parse(s).value) {
      ParsedParts(s);
    }
  }

  /** What every rule `Set` accepts satisfies: an http(s) target with a well-formed host and a rooted path whose every '%' begins an escape, and a non-empty source path. */
  ghost predicate Accepted(m: PathMap) {
    && m.path != ""
    && IsHttpScheme(m.target.scheme)
    && m.target.rootless == ""
    && m.target.host != "" && !HasPrefix(m.target.host, ":")
    && WellFormedHost(m.target.host) && WellFormedUser(m.target.user)
    && Paths.IsRooted(m.target.path)
    && '?' !in m.target.path && '#' !in m.target.path && !HasCtl(m.target.path)
    && ValidEscapes(m.target.path)
  }

  lemma HttpSchemes(scheme: string)
    requires IsHttpScheme(scheme)
    ensures IsScheme(scheme) && IsLower(scheme)
  {
    forall c | c in scheme ensures IsSchemeChar(c) && !('A' <= c <= 'Z') {
      assert c in {'h', 't', 'p', 's'};
    }
  }

  /** An accepted rule's origin is one `url.Parse` reads back from its printed form. */
  lemma AcceptedOrigin(m: PathMap)
    requires Accepted(m)
    ensures IsScheme(m.target.scheme) && IsLower(m.target.scheme)
    ensures Parse(OriginKey(m.target)) == Ok(Origin(m.target))
  {
    HttpSchemes(m.target.scheme);
    ParseOriginKey(m.target);
  }

  /**
    The stored source path has the clean form of the written one, is rooted
    exactly when it is, ends with a slash exactly when the written path does
    (or when it is "/"), and storing it again changes nothing.
   */
  lemma SourcePathShape(src: string)
    requires src != ""
    ensures var p := SourcePath(src);
      && p != ""
      && Paths.Clean(p) == Paths.Clean(src)
      && (Paths.IsRooted(p) <==> Paths.IsRooted(src))
      && (HasSuffix(p, "/") <==> HasSuffix(src, "/") || Paths.Clean(src) == "/")
      && Paths.NoDoubleSlash(p)
      && SourcePath(p) == p
  {
    var c := Paths.Clean(src);
    var p := SourcePath(src);
    Paths.CleanShape(src);
    Paths.CleanIdempotent(src);
    if HasSuffix(src, "/") && !HasSuffix(c, "/") {
      Paths.CleanTrailingSlash(c);
      assert c[|c| - 1] != '/' by {
        assert c[|c| - 1..] == [c[|c| - 1]];
      }
      forall i | 0 <= i < |p| - 1 ensures !(p[i] == '/' && p[i + 1] == '/') {
        if i < |c| - 1 {
          assert p[i] == c[i] && p[i + 1] == c[i + 1];
        }
      }
      assert p[0] == c[0];
    }
  }

  /** `Set` fails with "missing '=' separator" exactly when the rule has no '='. */
  lemma ParseRuleSeparator(arg: string, parse: UrlParser)
    ensures ParseRuleWith(arg, parse) == Err(MissingSeparator) <==> '=' !in arg
  {
  }

  /** `Set` fails with "path cannot be empty" exactly when there is a '=' and nothing but spaces before it. */
  lemma ParseRuleEmptyPath(arg: string, parse: UrlParser)
    ensures ParseRuleWith(arg, parse) == Err(EmptyPath) <==> '=' in arg && RuleSides(arg).value.0 == ""
  {
  }

  /**
    `Set` accepts a rule exactly when it has a '=', a non-empty trimmed
    source path, and a target that parses with scheme http or https and a
    host that is neither empty nor starts with ':'.
   */
  lemma ParseRuleAcceptance(arg: string, parse: UrlParser)
    ensures ParseRuleWith(arg, parse).Ok? <==>
      && '=' in arg
      && var (src, targetStr) := RuleSides(arg).value;
      && src != ""
      && parse(targetStr).Ok?
      && IsHttpScheme(parse(targetStr).value.scheme)
      && parse(targetStr).value.host != ""
      && !HasPrefix(parse(targetStr).value.host, ":")
  {
  }

  /** Each target error names what is wrong with the parsed target: the parse error itself, the empty or the offending scheme, or the host. */
  lemma ParseRuleTargetErrors(arg: string, parse: UrlParser)
    requires ParseRuleWith(arg, parse).Err? && '=' in arg && RuleSides(arg).value.0 != ""
    ensures var targetStr := RuleSides(arg).value.1;
      match ParseRuleWith(arg, parse).error
      case BadUrl(cause) => parse(targetStr) == Err(cause)
      case EmptyScheme => parse(targetStr).Ok? && parse(targetStr).value.scheme == ""
      case UnrecognizedScheme(scheme) =>
        && parse(targetStr).Ok? && parse(targetStr).value.scheme == scheme
        && scheme != "" && !IsHttpScheme(scheme)
      case MissingHost =>
        && parse(targetStr).Ok? && IsHttpScheme(parse(targetStr).value.scheme)
        && (parse(targetStr).value.host == "" || HasPrefix(parse(targetStr).value.host, ":"))
      case _ => false
  {
  }

  /**
    What an accepted rule holds, when the parser guarantees what `url.Parse`
    does: the stored path is the written source path in stored form, the
    target is the parsed target with only its path changed, that path is
    rooted, "/" when the parsed path was empty, ends with a slash whenever
    the written target does, and otherwise differs from the parsed path by
    at most that slash.
   */
  lemma ParseRuleAccepts(arg: string, parse: UrlParser)
    requires ParsesWell(parse) && ParseRuleWith(arg, parse).Ok?
    ensures var (src, targetStr) := RuleSides(arg).value;
      var m := ParseRuleWith(arg, parse).value;
      var parsed := parse(targetStr).value;
      && Accepted(m)
      && m.path == SourcePath(src)
      && m.target == parsed.(path := m.target.path)
      && (parsed.path == "" ==> m.target.path == "/")
      && (HasSuffix(targetStr, "/") ==> HasSuffix(m.target.path, "/"))
      && (!HasSuffix(targetStr, "/") && parsed.path != "" ==> m.target.path == parsed.path)
      && (parsed.path != "" ==> Paths.Clean(m.target.path) == Paths.Clean(parsed.path))
  {
    var (src, targetStr) := RuleSides(arg).value;
    var parsed := parse(targetStr).value;
    assert WellParsed(parsed);
    SourcePathShape(src);
    if parsed.path != "" && HasSuffix(targetStr, "/") && !HasSuffix(parsed.path, "/") {
      Paths.CleanTrailingSlash(parsed.path);
    }
    EscapesAppendSlash(parsed.path);
    var m := ParseRuleWith(arg, parse).value;
    assert Paths.IsRooted(m.target.path);
  }

  /** Every rule `Set` accepts is Accepted. */
  lemma RuleAccepted(arg: string)
    requires ParseRule(arg).Ok?
    ensures Accepted(ParseRule(arg).value)
  {
    UrlParseWell();
    ParseRuleAccepts(arg, Parse);
  }

  /** A target whose path holds a malformed escape is a bad URL: `Set` refuses "/x=http://h/%zz". */
  lemma RuleRejectsBadEscape()
    ensures ParseRule("/x=http://h/%zz") == Err(BadUrl(InvalidEscape("%zz")))
  {
    var left, right := "/x", "http://h/%zz";
    assert TrimSpace(left) == left && TrimSpace(right) == right by {
      TrimNoSpace(left);
      TrimNoSpace(right);
    }
    assert RuleSides("/x=http://h/%zz") == RuleSides(left + ['='] + right) by {
      assert "/x=http://h/%zz" == left + ['='] + right;
    }
    RuleSidesAt(left, right);
    ParseRejectsBadEscape();
  }

  /** A rule is split at its first '='. */
  lemma RuleSidesAt(left: string, right: string)
    requires '=' !in left
    ensures RuleSides(left + ['='] + right) == Some((TrimSpace(left), TrimSpace(right)))
  {
    CutAtFirst(left, '=', right);
  }

  /** A string that neither starts nor ends with white space is its own trimmed form. */
  lemma TrimNoSpace(a: string)
    requires |a| > 0 && !IsSpace(a[0]) && !IsSpace(a[|a| - 1])
    ensures TrimSpace(a) == a
  {
  }

  /** The list of rules, `type PathMaps []*PathMap`; `Set` appends to it in place. */
  class PathMaps {
    var items: seq<PathMap>

    constructor()
      ensures items == []
    {
      items := [];
    }

    /** `flag.Value.Set`: parse one rule; on success append it, on failure leave the list as it was. */
    method Set(arg: string) returns (err: Option<SetError>)
      modifies this
      ensures ParseRule(arg).Ok? ==> err.None? && items == old(items) + [ParseRule(arg).value]
      ensures ParseRule(arg).Err? ==> err == Some(ParseRule(arg).error) && items == old(items)
    {
      match ParseRule(arg)
      case Err(e) =>
        err := Some(e);
      case Ok(m) =>
        items := items + [m];
        err := None;
    }

    /** `FromEnviron`: `Set` each map entry's value, in order, and stop at the first rule that fails. */
    method FromEnviron(environ: seq<string>) returns (err: Option<EnvError>)
      modifies this
      ensures items == old(items) + Environ(environ).added
      ensures err == Environ(environ).err
    {
      var i := 0;
      while i < |environ|
        invariant 0 <= i <= |environ|
        invariant items == old(items) + Environ(environ[..i]).added
        invariant Environ(environ[..i]).err.None?
      {
        var entry := LineEntry(environ[i]);
        if entry.Some? {
          var e := Set(entry.value.1);
          if e.Some? {
            EnvironFailsAt(environ, i, LineEntry, ParseRule);
            return Some(EnvError(entry.value.0, e.value));
          }
        }
        EnvironPassesAt(environ, i, LineEntry, ParseRule);
        i := i + 1;
      }
      assert environ[..i] == environ;
      return None;
    }
  }

  const EnvironPrefixOne := "DEVPROXY_MAP"
  const EnvironPrefixMany := "DEVPROXY_MAP_"

  /** A rule error, with the environment key whose value it came from. */
  datatype EnvError = EnvError(key: string, cause: SetError)

  /** The rules an environment added, and the error it stopped at, if any. */
  datatype EnvOutcome = EnvOutcome(added: seq<PathMap>, err: Option<EnvError>)

  predicate IsMapKey(key: string) {
    key == EnvironPrefixOne || HasPrefix(key, EnvironPrefixMany)
  }

  /** The trimmed key and value of an environment line whose key names a rule; None for every other line. */
  function LineEntry(line: string): (r: Option<(string, string)>)
    ensures '=' !in line ==> r.None?
    ensures r.Some? ==> IsMapKey(r.value.0)
  {
    match Cut(line, '=')
    case None => None
    case Some((k, v)) =>
      var key := TrimSpace(k);
      if IsMapKey(key) then Some((key, TrimSpace(v))) else None
  }

  /**
    A line is read at its first '=': the key before it and the value after
    it, both trimmed, make an entry exactly when the trimmed key names a rule.
   */
  lemma LineEntryReads(k: string, v: string)
    requires '=' !in k
    ensures LineEntry(k + "=" + v) == if IsMapKey(TrimSpace(k)) then Some((TrimSpace(k), TrimSpace(v))) else None
  {
    CutAtFirst(k, '=', v);
  }

  /** The outcome of `FromEnviron` on the lines. */
  function Environ(lines: seq<string>): EnvOutcome
  {
    EnvironWith(lines, LineEntry, ParseRule)
  }

  /** How a line is read (LineEntry) and how a rule is parsed (ParseRule). */
  type LineReader = string -> Option<(string, string)>
  type RuleParser = string -> Result<PathMap, SetError>

  /**
    The outcome of `FromEnviron` when each line is read by `entry` and each
    rule parsed by `rule`, written over the prefixes of the lines. The
    lemmas below hold for every reader and parser: they are about the order
    of the lines alone.
   */
  function EnvironWith(lines: seq<string>, entry: LineReader, rule: RuleParser): EnvOutcome
  {
    if |lines| == 0 then EnvOutcome([], None)
    else
      var prev := EnvironWith(lines[..|lines| - 1], entry, rule);
      if prev.err.Some? then prev
      else
        match entry(lines[|lines| - 1])
        case None => prev
        case Some((key, value)) =>
          match rule(value)
          case Ok(m) => EnvOutcome(prev.added + [m], None)
          case Err(e) => EnvOutcome(prev.added, Some(EnvError(key, e)))
  }

  /** One more line while no rule has failed: it adds its rule, records its error, or is skipped. */
  lemma EnvironNext(lines: seq<string>, i: nat, entry: LineReader, rule: RuleParser)
    requires i < |lines| && EnvironWith(lines[..i], entry, rule).err.None?
    ensures var prev := EnvironWith(lines[..i], entry, rule);
      EnvironWith(lines[..i + 1], entry, rule) ==
        match entry(lines[i])
        case None => prev
        case Some((key, value)) =>
          match rule(value)
          case Ok(m) => EnvOutcome(prev.added + [m], None)
          case Err(e) => EnvOutcome(prev.added, Some(EnvError(key, e)))
  {
    assert lines[..i + 1][..i] == lines[..i];
  }

  /** A line whose rule fails ends `FromEnviron` with that error. */
  lemma EnvironFailsAt(lines: seq<string>, i: nat, entry: LineReader, rule: RuleParser)
    requires i < |lines| && EnvironWith(lines[..i], entry, rule).err.None?
    requires entry(lines[i]).Some? && rule(entry(lines[i]).value.1).Err?
    ensures EnvironWith(lines, entry, rule).added == EnvironWith(lines[..i], entry, rule).added
    ensures EnvironWith(lines, entry, rule).err == Some(EnvError(entry(lines[i]).value.0, rule(entry(lines[i]).value.1).error))
  {
    EnvironNext(lines, i, entry, rule);
    EnvironStops(lines, i + 1, entry, rule);
  }

  /** A line that is not a map entry, or whose rule parses, lets `FromEnviron` go on. */
  lemma EnvironPassesAt(lines: seq<string>, i: nat, entry: LineReader, rule: RuleParser)
    requires i < |lines| && EnvironWith(lines[..i], entry, rule).err.None?
    requires entry(lines[i]).Some? ==> rule(entry(lines[i]).value.1).Ok?
    ensures EnvironWith(lines[..i + 1], entry, rule).err.None?
    ensures EnvironWith(lines[..i + 1], entry, rule).added == EnvironWith(lines[..i], entry, rule).added +
      if entry(lines[i]).Some? then [rule(entry(lines[i]).value.1).value] else []
  {
    EnvironNext(lines, i, entry, rule);
  }

  /** Once a rule has failed, later lines change nothing. */
  lemma {:induction false} EnvironStops(lines: seq<string>, j: nat, entry: LineReader, rule: RuleParser)
    requires j <= |lines| && EnvironWith(lines[..j], entry, rule).err.Some?
    ensures EnvironWith(lines, entry, rule) == EnvironWith(lines[..j], entry, rule)
    decreases |lines| - j
  {
    if j < |lines| {
      var init := lines[..|lines| - 1];
      assert init[..j] == lines[..j];
      EnvironStops(init, j, entry, rule);
    } else {
      assert lines[..j] == lines;
    }
  }

  /** The key/value entries of the lines that name a rule, in order. */
  function MapEntries(lines: seq<string>, entry: LineReader): seq<(string, string)>
  {
    if |lines| == 0 then []
    else
      var prev := MapEntries(lines[..|lines| - 1], entry);
      match entry(lines[|lines| - 1])
      case None => prev
      case Some(e) => prev + [e]
  }

  /** The position of the first entry whose rule fails, or the number of entries when none fails. */
  function FirstFailure(entries: seq<(string, string)>, rule: RuleParser): (k: nat)
    ensures k <= |entries|
    ensures forall i :: 0 <= i < k ==> rule(entries[i].1).Ok?
    ensures k < |entries| ==> rule(entries[k].1).Err?
  {
    if |entries| == 0 then 0
    else if rule(entries[0].1).Err? then 0
    else 1 + FirstFailure(entries[1..], rule)
  }

  /** The rules of entries that all parse. */
  function Rules(entries: seq<(string, string)>, rule: RuleParser): (r: seq<PathMap>)
    requires forall i :: 0 <= i < |entries| ==> rule(entries[i].1).Ok?
    ensures |r| == |entries|
    ensures forall i :: 0 <= i < |entries| ==> r[i] == rule(entries[i].1).value
  {
    seq(|entries|, i requires 0 <= i < |entries| => rule(entries[i].1).value)
  }

  /** The first failure is the only position with passing entries before it and a failing one (or the end) at it. */
  lemma FirstFailureUnique(entries: seq<(string, string)>, rule: RuleParser, k: nat)
    requires k <= |entries|
    requires forall i :: 0 <= i < k ==> rule(entries[i].1).Ok?
    requires k < |entries| ==> rule(entries[k].1).Err?
    ensures FirstFailure(entries, rule) == k
  {
  }

  lemma FirstFailureExtend(entries: seq<(string, string)>, e: (string, string), rule: RuleParser)
    ensures var k := FirstFailure(entries, rule);
      FirstFailure(entries + [e], rule) == if k < |entries| || rule(e.1).Err? then k else k + 1
  {
    var k := FirstFailure(entries, rule);
    var es := entries + [e];
    assert forall i :: 0 <= i < |entries| ==> es[i] == entries[i];
    if k < |entries| || rule(e.1).Err? {
      FirstFailureUnique(es, rule, k);
    } else {
      FirstFailureUnique(es, rule, k + 1);
    }
  }

  /**
    `FromEnviron` in terms of the rule entries alone: it adds the rules of
    the entries before the first one that fails, and reports that one,
    with its key, as the error; it succeeds exactly when every entry's rule
    parses.
   */
  ghost predicate ByFirstFailure(lines: seq<string>, entry: LineReader, rule: RuleParser) {
    var es := MapEntries(lines, entry);
    var k := FirstFailure(es, rule);
    && EnvironWith(lines, entry, rule).added == Rules(es[..k], rule)
    && (EnvironWith(lines, entry, rule).err.None? <==> k == |es|)
    && (k < |es| ==> EnvironWith(lines, entry, rule).err == Some(EnvError(es[k].0, rule(es[k].1).error)))
  }

  lemma {:induction false} EnvironFirstFailure(lines: seq<string>, entry: LineReader, rule: RuleParser)
    ensures ByFirstFailure(lines, entry, rule)
  {
    if |lines| > 0 {
      EnvironFirstFailure(lines[..|lines| - 1], entry, rule);
      if EnvironWith(lines[..|lines| - 1], entry, rule).err.None? {
        FirstFailureNext(lines, entry, rule);
      } else {
        FirstFailureAfterError(lines, entry, rule);
      }
    }
  }

  lemma FirstFailureNext(lines: seq<string>, entry: LineReader, rule: RuleParser)
    requires |lines| > 0
    requires ByFirstFailure(lines[..|lines| - 1], entry, rule)
    requires EnvironWith(lines[..|lines| - 1], entry, rule).err.None?
    ensures ByFirstFailure(lines, entry, rule)
  {
    var n := |lines| - 1;
    var es := MapEntries(lines[..n], entry);
    var k := FirstFailure(es, rule);
    assert lines[..n + 1] == lines;
    EnvironNext(lines, n, entry, rule);
    match entry(lines[n])
    case None =>
    case Some(e) =>
      FirstFailureExtend(es, e, rule);
      if rule(e.1).Ok? {
        assert MapEntries(lines, entry)[..k + 1] == es[..k] + [e];
      } else {
        assert MapEntries(lines, entry)[..k] == es[..k];
      }
  }

  lemma FirstFailureAfterError(lines: seq<string>, entry: LineReader, rule: RuleParser)
    requires |lines| > 0
    requires ByFirstFailure(lines[..|lines| - 1], entry, rule)
    requires EnvironWith(lines[..|lines| - 1], entry, rule).err.Some?
    ensures ByFirstFailure(lines, entry, rule)
  {
    var n := |lines| - 1;
    var es := MapEntries(lines[..n], entry);
    var k := FirstFailure(es, rule);
    match entry(lines[n])
    case None =>
    case Some(e) =>
      FirstFailureExtend(es, e, rule);
      assert MapEntries(lines, entry)[..k] == es[..k];
      assert MapEntries(lines, entry)[k] == es[k];
  }

  /** The entries are exactly what the reader makes of some line. */
  lemma {:induction false} MapEntriesOfLines(lines: seq<string>, entry: LineReader)
    ensures forall e :: e in MapEntries(lines, entry) <==> exists i :: 0 <= i < |lines| && entry(lines[i]) == Some(e)
  {
    if |lines| > 0 {
      var init := lines[..|lines| - 1];
      MapEntriesOfLines(init, entry);
      forall e | (exists i :: 0 <= i < |lines| && entry(lines[i]) == Some(e))
        ensures e in MapEntries(lines, entry)
      {
        var i :| 0 <= i < |lines| && entry(lines[i]) == Some(e);
        if i < |init| {
          assert init[i] == lines[i];
        }
      }
      forall e | e in MapEntries(lines, entry)
        ensures exists i :: 0 <= i < |lines| && entry(lines[i]) == Some(e)
      {
        if e in MapEntries(init, entry) {
          var i :| 0 <= i < |init| && entry(init[i]) == Some(e);
          assert lines[i] == init[i];
        } else {
          assert entry(lines[|lines| - 1]) == Some(e);
        }
      }
    }
  }

  /** Every entry `FromEnviron` reads names a rule by its key, and is what LineEntry makes of one of the lines. */
  lemma MapEntryKeys(lines: seq<string>)
    ensures forall e :: e in MapEntries(lines, LineEntry) ==> IsMapKey(e.0)
    ensures forall e :: e in MapEntries(lines, LineEntry) <==> exists i :: 0 <= i < |lines| && LineEntry(lines[i]) == Some(e)
  {
    MapEntriesOfLines(lines, LineEntry);
  }

  /** Every rule `FromEnviron` adds passed `Set`'s checks: an http(s) target with a host and a rooted path. */
  lemma EnvironAccepted(lines: seq<string>)
    ensures forall m :: m in Environ(lines).added ==> Accepted(m)
  {
    var es := MapEntries(lines, LineEntry);
    var k := FirstFailure(es, ParseRule);
    EnvironFirstFailure(lines, LineEntry, ParseRule);
    var added := Rules(es[..k], ParseRule);
    forall i | 0 <= i < |added| ensures Accepted(added[i]) {
      RuleAccepted(es[i].1);
    }
  }
}

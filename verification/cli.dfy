/**
 The command line of main.py after option parsing: the trailing-slash check on
 `-u`, the choice between `-f` and `-u`, and the dispatch to the bee commands.
 `parser.error` becomes a `UsageError` outcome; the file system is a function
 from path to file text (None when the file cannot be opened).
 */
module Cli {
  import opened Wrappers
  import opened Text

  // ---------------------------------------------------------------------
  // NO_TRAILING_SLASH_REGEX = '^.*?\.\w+$', used with re.match
  // ---------------------------------------------------------------------

  /** `\w` without the LOCALE or UNICODE flags. */
  predicate IsWordChar(c: char) {
    ('a' <= c <= 'z') || ('A' <= c <= 'Z') || ('0' <= c <= '9') || c == '_'
  }

  /**
   One way the expression matches `s`: `.*?` takes `s[..i]` (no newline), `\.`
   is `s[i]`, `\w+` is `s[i + 1..j]`, and `$` holds at `j` (the end, or just
   before a final newline).
   */
  predicate MatchesAt(s: string, i: nat, j: nat) {
    && i + 1 < j <= |s|
    && '\n' !in s[..i]
    && s[i] == '.'
    && (forall k :: i < k < j ==> IsWordChar(s[k]))
    && (j == |s| || (j + 1 == |s| && s[j] == '\n'))
  }

  /** `NO_TRAILING_SLASH_REGEX.match(s)` succeeds. */
  ghost predicate RegexMatches(s: string) {
    exists i: nat, j: nat :: MatchesAt(s, i, j)
  }

  /** Position of the last character that is not a word character. */
  function LastNonWord(s: string): (r: Option<nat>)
    ensures r.None? ==> forall k :: 0 <= k < |s| ==> IsWordChar(s[k])
    ensures r.Some? ==> r.value < |s| && !IsWordChar(s[r.value])
    ensures r.Some? ==> forall k :: r.value < k < |s| ==> IsWordChar(s[k])
  {
    if |s| == 0 then None
    else if !IsWordChar(s[|s| - 1]) then Some(|s| - 1)
    else LastNonWord(s[..|s| - 1])
  }

  /** The text `$` can close on: without one final newline. */
  function MatchBody(s: string): (b: string)
    ensures b <= s && |s| - 1 <= |b|
  {
    if |s| > 0 && s[|s| - 1] == '\n' then s[..|s| - 1] else s
  }

  /**
   Decides the expression: the word characters at the end of the body must be
   preceded by a dot, and no newline may come before that dot.
   */
  function LacksTrailingSlash(url: string): bool {
    var b := MatchBody(url);
    match LastNonWord(b)
    case None => false
    case Some(k) => b[k] == '.' && k + 1 < |b| && '\n' !in b[..k]
  }

  lemma {:induction false} LastNonWordAt(s: string, i: nat)
    requires i < |s| && !IsWordChar(s[i])
    requires forall k :: i < k < |s| ==> IsWordChar(s[k])
    ensures LastNonWord(s) == Some(i)
    decreases |s|
  {
    if i < |s| - 1 {
      var p := s[..|s| - 1];
      assert IsWordChar(s[|s| - 1]);
      assert forall k :: i < k < |p| ==> p[k] == s[k];
      LastNonWordAt(p, i);
    }
  }

  /** A match found by the regular expression engine is a match of the decision procedure. */
  lemma MatchImpliesLacks(s: string, i: nat, j: nat)
    requires MatchesAt(s, i, j)
    ensures LacksTrailingSlash(s)
  {
    var b := MatchBody(s);
    assert IsWordChar(s[j - 1]);
    assert b == s[..j];
    LastNonWordAt(b, i);
    assert b[..i] == s[..i];
  }

  /** `LacksTrailingSlash` decides the regular expression. */
  lemma LacksTrailingSlashIsRegex(s: string)
    ensures LacksTrailingSlash(s) <==> RegexMatches(s)
  {
    if LacksTrailingSlash(s) {
      var b := MatchBody(s);
      var k := LastNonWord(b).value;
      assert b[..k] == s[..k];
      assert MatchesAt(s, k, |b|);
    }
    if RegexMatches(s) {
      var i: nat, j: nat :| MatchesAt(s, i, j);
      MatchImpliesLacks(s, i, j);
    }
  }

  /** A URL that ends with `/` passes the check. */
  lemma TrailingSlashAccepted(url: string)
    requires |url| > 0 && url[|url| - 1] == '/'
    ensures !LacksTrailingSlash(url)
  {
    LastNonWordAt(url, |url| - 1);
  }

  /** So does any URL without a dot, such as `http://localhost:8000`. */
  lemma DotlessAccepted(url: string)
    requires '.' !in url
    ensures !LacksTrailingSlash(url)
  {
    var b := MatchBody(url);
    match LastNonWord(b)
    case None =>
    case Some(k) =>
      assert b[k] in url;
  }

  /** A host name with a dotted domain and nothing after it is refused. */
  lemma DottedHostRefused(host: string, tld: string)
    requires '\n' !in host && |tld| > 0
    requires forall k :: 0 <= k < |tld| ==> IsWordChar(tld[k])
    ensures LacksTrailingSlash(host + "." + tld)
  {
    var s := host + "." + tld;
    forall k | |host| < k < |s|
      ensures IsWordChar(s[k])
    {
      assert s[k] == tld[k - |host| - 1];
    }
    assert s[..|host|] == host;
    MatchImpliesLacks(s, |host|, |s|);
  }

  // ---------------------------------------------------------------------
  // Choosing the target
  // ---------------------------------------------------------------------

  /** Python's truth value of an optional string option: present and non-empty. */
  predicate Given(o: Option<string>) {
    o.Some? && |o.value| > 0
  }

  /** The target of an attack, or the message `parser.error` exits with. */
  datatype Target = Url(url: string) | UsageError(message: string)

  /**
   The `attack` branch of `parse_options`: `-f` wins over `-u`; the first line of
   the file is used, stripped and unchecked; a `-u` URL must pass the trailing
   slash check; with neither option the attack is refused.
   */
  function SelectTarget(urlFile: Option<string>, url: Option<string>, files: string -> Option<string>): (r: Target)
    ensures Given(urlFile) && files(urlFile.value).Some? ==>
      r == Url(Strip(ReadLine(files(urlFile.value).value).0))
    ensures Given(urlFile) && files(urlFile.value).None? ==>
      r == UsageError("Could not open url file " + urlFile.value + " - please try again.")
    ensures !Given(urlFile) && Given(url) ==> r == Url(url.value) || r == UsageError(SlashMessage)
    ensures !Given(urlFile) && !Given(url) ==> r == UsageError(NoTargetMessage)
  {
    if Given(urlFile) then
      match files(urlFile.value)
      case Some(text) => Url(Strip(ReadLine(text).0))
      case None => UsageError("Could not open url file " + urlFile.value + " - please try again.")
    else if Given(url) then
      if LacksTrailingSlash(url.value) then UsageError(SlashMessage) else Url(url.value)
    else UsageError(NoTargetMessage)
  }

  const NoCommandMessage := "Please enter a command."
  const NoKeyMessage := "To spin up new instances you need to specify a key-pair name with -k"
  const SlashMessage := "It appears your URL lacks a trailing slash, this will disorient the bees. Please try again with a trailing slash."
  const NoTargetMessage := "To run an attack you need to specify either a url with -u or a file with -f."

  /** A `-u` URL is refused exactly when the trailing-slash expression matches it. */
  lemma SelectTargetChecksSlash(url: string, files: string -> Option<string>)
    requires |url| > 0
    ensures SelectTarget(None, Some(url), files) == Url(url) <==> !RegexMatches(url)
    ensures SelectTarget(None, Some(url), files) == UsageError(SlashMessage) <==> RegexMatches(url)
  {
    LacksTrailingSlashIsRegex(url);
  }

  /** A file whose whole text is one stripped line yields that line as the target, unchecked. */
  lemma FileLineIsTarget(path: string, line: string, files: string -> Option<string>)
    requires |path| > 0 && files(path) == Some(line) && LineValue(line)
    ensures SelectTarget(Some(path), None, files) == Url(line)
  {
    StripTrimmed(line);
  }

  /** The URL from a file is used as it stands: a file naming `host.tld` is accepted although `-u host.tld` is refused. */
  lemma FileSkipsSlashCheck(path: string, host: string, tld: string, files: string -> Option<string>)
    requires |path| > 0 && files(path) == Some(host + "." + tld)
    requires LineValue(host + "." + tld)
    requires '\n' !in host && |tld| > 0 && forall k :: 0 <= k < |tld| ==> IsWordChar(tld[k])
    ensures SelectTarget(Some(path), None, files) == Url(host + "." + tld)
    ensures SelectTarget(None, Some(host + "." + tld), files) == UsageError(SlashMessage)
  {
    FileLineIsTarget(path, host + "." + tld, files);
    DottedHostRefused(host, tld);
  }

  // ---------------------------------------------------------------------
  // Dispatch
  // ---------------------------------------------------------------------

  /** The options `parse_options` reads, after optparse has applied the defaults. */
  datatype Options = Options(
    key: Option<string>,
    servers: int,
    group: string,
    zone: string,
    instance: string,
    login: string,
    url: Option<string>,
    urlFile: Option<string>,
    number: int,
    concurrent: int,
    keepalive: bool,
    outputType: Option<string>)

  /** What a command line asks of bees.py. */
  datatype Action =
    | Up(servers: int, group: string, zone: string, imageId: string, username: string, keyName: string)
    | Attack(url: string, number: int, concurrent: int, keepalive: bool)
    | Down
    | Report
    | Nothing
    | Usage(message: string)
    | ArityError

  /**
   `parse_options` after parsing, as written: the attack call passes five
   arguments (url, number, concurrency, keepalive and the output type) to
   `bees.attack`, which takes four, so every attack that gets that far raises a
   TypeError.
   */
  function DispatchAsWritten(args: seq<string>, o: Options, files: string -> Option<string>): (r: Action)
    ensures |args| > 0 && args[0] == "attack" && SelectTarget(o.urlFile, o.url, files).Url? ==> r == ArityError
  {
    if |args| > 0 && args[0] == "attack" then
      match SelectTarget(o.urlFile, o.url, files)
      case UsageError(m) => Usage(m)
      case Url(_) => ArityError
    else Dispatch(args, o, files)
  }

  /**
   `parse_options` with the attack call matching `bees.attack`: no command is a
   usage error, `up` needs a key, `attack` needs a target, `down` and `report`
   take nothing, and any other word does nothing.
   */
  function Dispatch(args: seq<string>, o: Options, files: string -> Option<string>): (r: Action)
    ensures |args| == 0 <==> r == Usage(NoCommandMessage)
    ensures r.Up? <==> |args| > 0 && args[0] == "up" && Given(o.key)
    ensures r.Up? ==> r == Up(o.servers, o.group, o.zone, o.instance, o.login, o.key.value)
    ensures |args| > 0 && args[0] == "up" && !Given(o.key) ==> r == Usage(NoKeyMessage)
    ensures |args| > 0 && args[0] == "attack" ==>
      && (r.Attack? <==> SelectTarget(o.urlFile, o.url, files).Url?)
      && (SelectTarget(o.urlFile, o.url, files).Url? ==>
            r == Attack(SelectTarget(o.urlFile, o.url, files).url, o.number, o.concurrent, o.keepalive))
      && (SelectTarget(o.urlFile, o.url, files).UsageError? ==>
            r == Usage(SelectTarget(o.urlFile, o.url, files).message))
    ensures r.Attack? ==>
      (&& |args| > 0 && args[0] == "attack"
       && SelectTarget(o.urlFile, o.url, files) == Url(r.url)
       && r.number == o.number && r.concurrent == o.concurrent && r.keepalive == o.keepalive)
    ensures r.Down? <==> |args| > 0 && args[0] == "down"
    ensures r.Report? <==> |args| > 0 && args[0] == "report"
    ensures r.Nothing? <==> |args| > 0 && args[0] != "up" && args[0] != "attack" && args[0] != "down" && args[0] != "report"
    ensures r != ArityError
  {
    if |args| == 0 then Usage(NoCommandMessage)
    else if args[0] == "up" then
      if !Given(o.key) then Usage(NoKeyMessage)
      else Up(o.servers, o.group, o.zone, o.instance, o.login, o.key.value)
    else if args[0] == "attack" then
      match SelectTarget(o.urlFile, o.url, files)
      case UsageError(m) => Usage(m)
      case Url(u) => Attack(u, o.number, o.concurrent, o.keepalive)
    else if args[0] == "down" then Down
    else if args[0] == "report" then Report
    else Nothing
  }

  /** `bees attack -u http://example.com/`: the slash check passes, and the call as written fails. */
  lemma AttackCallFails(o: Options, files: string -> Option<string>)
    requires o.urlFile == None && o.url == Some("http://example.com/")
    ensures DispatchAsWritten(["attack"], o, files) == ArityError
    ensures Dispatch(["attack"], o, files) == Attack("http://example.com/", o.number, o.concurrent, o.keepalive)
  {
    TrailingSlashAccepted("http://example.com/");
  }

  /**
   An attack given by `-u` alone reaches `bees.attack` with that URL and the
   options exactly when the trailing-slash expression does not match it; the
   code as written then fails on the call.
   */
  lemma AttackWithUrl(url: string, rest: seq<string>, o: Options, files: string -> Option<string>)
    requires |url| > 0 && !Given(o.urlFile) && o.url == Some(url)
    ensures Dispatch(["attack"] + rest, o, files) == Attack(url, o.number, o.concurrent, o.keepalive)
            <==> !RegexMatches(url)
    ensures Dispatch(["attack"] + rest, o, files) == Usage(SlashMessage) <==> RegexMatches(url)
    ensures DispatchAsWritten(["attack"] + rest, o, files) == ArityError <==> !RegexMatches(url)
  {
    SelectTargetChecksSlash(url, files);
    assert SelectTarget(o.urlFile, o.url, files) == SelectTarget(None, Some(url), files);
    assert (["attack"] + rest)[0] == "attack";
  }

  /**
   An attack given by `-f` reaches `bees.attack` with the file's stripped line,
   whatever `-u` says; the code as written fails on the call.
   */
  lemma AttackWithFile(path: string, line: string, rest: seq<string>, o: Options, files: string -> Option<string>)
    requires |path| > 0 && o.urlFile == Some(path) && files(path) == Some(line) && LineValue(line)
    ensures Dispatch(["attack"] + rest, o, files) == Attack(line, o.number, o.concurrent, o.keepalive)
    ensures DispatchAsWritten(["attack"] + rest, o, files) == ArityError
  {
    FileLineIsTarget(path, line, files);
    assert SelectTarget(o.urlFile, o.url, files) == SelectTarget(Some(path), None, files);
    assert (["attack"] + rest)[0] == "attack";
  }

  /** Both readings agree everywhere except on the attacks that reach the call. */
  lemma DispatchAgreesElsewhere(args: seq<string>, o: Options, files: string -> Option<string>)
    ensures !Dispatch(args, o, files).Attack? ==> DispatchAsWritten(args, o, files) == Dispatch(args, o, files)
    ensures Dispatch(args, o, files).Attack? ==> DispatchAsWritten(args, o, files) == ArityError
  {
  }
}

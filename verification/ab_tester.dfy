/**
 `ABTester`: the `ab` command line a bee runs and the scan of `ab`'s text
 report into a `TesterResult`.

 Each measure is located with a regular expression of one fixed shape,
 an optional leading `\s+`, then `LABEL\s+(CLASS+)SUFFIX`, found with
 `re.search` (leftmost match).
 `Pattern` describes such an expression and `MatchAt` decides it at one
 position the way the backtracking engine does; `MatchAtComplete` and
 `MatchAtSound` relate it to the plain reading of the expression.
 */
module AbTester {
  import opened Wrappers
  import opened Text
  import opened Tester

  // ---------------------------------------------------------------------
  // get_command
  // ---------------------------------------------------------------------

  /** The words `get_command` collects before joining them with single spaces. */
  function CommandWords(numRequests: int, concurrentRequests: int, keepalive: bool, url: string): seq<string> {
    ["ab", "-r", "-n " + IntToString(numRequests), "-c " + IntToString(concurrentRequests)]
    + (if keepalive then ["-k"] else [])
    + ["\"" + url + "\""]
  }

  /** `ABTester.get_command`. */
  function GetCommand(numRequests: int, concurrentRequests: int, keepalive: bool, url: string): string {
    Join(CommandWords(numRequests, concurrentRequests, keepalive, url), ' ')
  }

  /** The parameters a command line carries. */
  datatype AbCommand = AbCommand(numRequests: int, concurrentRequests: int, keepalive: bool, url: string)

  /** The first space-delimited word and what follows the space after it; None when there is no space. */
  function NextWord(s: string): (r: Option<(string, string)>)
    ensures r.Some? <==> ' ' in s
    ensures r.Some? ==> ' ' !in r.value.0 && r.value.0 + [' '] + r.value.1 == s
  {
    if ' ' in s then
      var i := IndexOf(s, ' ');
      assert s == s[..i] + [' '] + s[i + 1..];
      Some((s[..i], s[i + 1..]))
    else None
  }

  /** What follows `word` and a space at the start of `s`, if `s` starts that way. */
  function Expect(s: string, word: string): (r: Option<string>)
    ensures r.Some? ==> s == word + [' '] + r.value
  {
    match NextWord(s)
    case Some((w, rest)) => if w == word then Some(rest) else None
    case None => None
  }

  /** The value of option `flag` at the start of `s` (`-n 100 …`) and what follows it. */
  function DecodeOption(s: string, flag: string): Option<(string, string)> {
    match Expect(s, flag)
    case Some(r) => NextWord(r)
    case None => None
  }

  /** The optional `-k` word and the quoted URL that ends the command line. */
  function DecodeQuoted(s: string): Option<(bool, string)> {
    var keepalive := Expect(s, "-k").Some?;
    var quoted := if keepalive then Expect(s, "-k").value else s;
    if |quoted| < 2 || quoted[0] != '"' || quoted[|quoted| - 1] != '"' then None
    else Some((keepalive, quoted[1..|quoted| - 1]))
  }

  /** Reads the parameters back out of a command line of the form `get_command` builds. */
  function DecodeCommand(cmd: string): Option<AbCommand> {
    match Expect(cmd, "ab")
    case None => None
    case Some(r0) =>
      match Expect(r0, "-r")
      case None => None
      case Some(r1) =>
        match DecodeOption(r1, "-n")
        case None => None
        case Some((nText, r2)) =>
          match DecodeOption(r2, "-c")
          case None => None
          case Some((cText, r3)) =>
            match (DecodeQuoted(r3), ParseInt(nText), ParseInt(cText))
            case (Some((keepalive, url)), Some(n), Some(c)) => Some(AbCommand(n, c, keepalive, url))
            case _ => None
  }

  lemma NextWordOf(w: string, rest: string)
    requires ' ' !in w
    ensures NextWord(w + [' '] + rest) == Some((w, rest))
  {
    IndexOfAfter(w, ' ', rest);
    var s := w + [' '] + rest;
    assert s[..|w|] == w;
    assert s[|w| + 1..] == rest;
  }

  lemma ExpectOf(w: string, rest: string)
    requires ' ' !in w
    ensures Expect(w + [' '] + rest, w) == Some(rest)
  {
    NextWordOf(w, rest);
  }

  /** An option word with its value (`-n 100`) reads as the flag, a space, the value. */
  lemma OptionWord(flag: string, value: string, rest: string)
    ensures (flag + " " + value) + [' '] + rest == flag + [' '] + (value + [' '] + rest)
  {
  }

  /** A quoted URL never starts with the `-k` word. */
  lemma QuotedIsNotKeepalive(url: string)
    ensures Expect("\"" + url + "\"", "-k").None?
  {
    var q := "\"" + url + "\"";
    match NextWord(q)
    case Some((w, rest)) =>
      assert q[0] == '"';
      assert w != "-k" by {
        if |w| > 0 {
          assert w[0] == q[0];
        }
      }
    case None =>
  }

  lemma DecodeOptionOf(flag: string, value: string, rest: string)
    requires ' ' !in flag && ' ' !in value
    ensures DecodeOption((flag + " " + value) + [' '] + rest, flag) == Some((value, rest))
  {
    OptionWord(flag, value, rest);
    ExpectOf(flag, value + [' '] + rest);
    NextWordOf(value, rest);
  }

  /** The words after the concurrency option give back the keepalive flag and the URL. */
  lemma DecodeQuotedOf(keepalive: bool, url: string)
    ensures DecodeQuoted(Join(TailWords(keepalive, url), ' '))
            == Some((keepalive, url))
  {
    var q := "\"" + url + "\"";
    if keepalive {
      JoinCons("-k", [q], ' ');
      assert ["-k"] + [q] == ["-k", q];
      ExpectOf("-k", q);
    } else {
      QuotedIsNotKeepalive(url);
    }
    assert q[1..|q| - 1] == url;
  }

  /** The words that follow the concurrency option. */
  function TailWords(keepalive: bool, url: string): seq<string> {
    if keepalive then ["-k", "\"" + url + "\""] else ["\"" + url + "\""]
  }

  /** `get_command`'s text, one separator at a time. */
  lemma CommandText(numRequests: int, concurrentRequests: int, keepalive: bool, url: string)
    ensures GetCommand(numRequests, concurrentRequests, keepalive, url)
         == "ab" + [' '] + ("-r" + [' '] + (("-n " + IntToString(numRequests)) + [' ']
            + (("-c " + IntToString(concurrentRequests)) + [' '] + Join(TailWords(keepalive, url), ' '))))
  {
    var n := "-n " + IntToString(numRequests);
    var c := "-c " + IntToString(concurrentRequests);
    var tail := TailWords(keepalive, url);
    assert CommandWords(numRequests, concurrentRequests, keepalive, url) == ["ab", "-r", n, c] + tail;
    JoinFour("ab", "-r", n, c, tail);
  }

  /** A word and a space in front of a known text followed by any tail. */
  lemma Prepend(word: string, text: string, joined: string, tail: string)
    requires joined == word + [' '] + text
    ensures word + [' '] + (text + tail) == joined + tail
  {
  }

  /** The numbers of the upstream `test_get_command`, as `'%s' % n` writes them. */
  lemma ExampleNumbers()
    ensures IntToString(3) == "3" && IntToString(6) == "6"
    ensures IntToString(10) == "10" && IntToString(100) == "100"
  {
  }

  /**
   The first command line the upstream `test_get_command` expects,
   `ab -r -n 3 -c 6 "http://magnetic.domdex.com/"`, for that URL and any other.
   */
  lemma GetCommandExample(url: string)
    ensures GetCommand(3, 6, false, url) == "ab -r -n 3 -c 6 " + ("\"" + url + "\"")
  {
    CommandText(3, 6, false, url);
    ExampleNumbers();
    var quoted := "\"" + url + "\"";
    assert Join([quoted], ' ') == quoted;
    PlainWords(quoted);
  }

  /** The words before the URL of the first upstream command line, one space after each. */
  lemma PlainWords(tail: string)
    ensures "ab" + [' '] + ("-r" + [' '] + ("-n 3" + [' '] + ("-c 6" + [' '] + tail)))
            == "ab -r -n 3 -c 6 " + tail
  {
    var c := "-c 6 " + tail;
    assert "-c 6" + [' '] + tail == c by {
      Prepend("-c 6", "", "-c 6 ", tail);
      assert "" + tail == tail;
    }
    var n := "-n 3 -c 6 " + tail;
    assert "-n 3" + [' '] + c == n by { Prepend("-n 3", "-c 6 ", "-n 3 -c 6 ", tail); }
    var r := "-r -n 3 -c 6 " + tail;
    assert "-r" + [' '] + n == r by { Prepend("-r", "-n 3 -c 6 ", "-r -n 3 -c 6 ", tail); }
    assert "ab" + [' '] + r == "ab -r -n 3 -c 6 " + tail by {
      Prepend("ab", "-r -n 3 -c 6 ", "ab -r -n 3 -c 6 ", tail);
    }
  }

  /** The words before the URL of the second upstream command line, one space after each. */
  lemma KeepaliveWords(tail: string)
    ensures "ab" + [' '] + ("-r" + [' '] + ("-n 10" + [' '] + ("-c 100" + [' '] + ("-k" + [' '] + tail))))
            == "ab -r -n 10 -c 100 -k " + tail
  {
    var k := "-k " + tail;
    assert "-k" + [' '] + tail == k by {
      Prepend("-k", "", "-k ", tail);
      assert "" + tail == tail;
    }
    var c := "-c 100 -k " + tail;
    assert "-c 100" + [' '] + k == c by { Prepend("-c 100", "-k ", "-c 100 -k ", tail); }
    var n := "-n 10 -c 100 -k " + tail;
    assert "-n 10" + [' '] + c == n by { Prepend("-n 10", "-c 100 -k ", "-n 10 -c 100 -k ", tail); }
    var r := "-r -n 10 -c 100 -k " + tail;
    assert "-r" + [' '] + n == r by { Prepend("-r", "-n 10 -c 100 -k ", "-r -n 10 -c 100 -k ", tail); }
    assert "ab" + [' '] + r == "ab -r -n 10 -c 100 -k " + tail by {
      Prepend("ab", "-r -n 10 -c 100 -k ", "ab -r -n 10 -c 100 -k ", tail);
    }
  }

  /**
   The second command line the upstream `test_get_command` expects,
   `ab -r -n 10 -c 100 -k "http://magnetic.domdex.com/"`: keepalive adds `-k`.
   */
  lemma GetCommandKeepaliveExample(url: string)
    ensures GetCommand(10, 100, true, url) == "ab -r -n 10 -c 100 -k " + ("\"" + url + "\"")
  {
    CommandText(10, 100, true, url);
    ExampleNumbers();
    var quoted := "\"" + url + "\"";
    JoinStep(["-k", quoted], ' ');
    assert ["-k", quoted][1..] == [quoted];
    KeepaliveWords(quoted);
  }

  /** Four words, then a non-empty list: one space after each of the four. */
  lemma JoinFour(a: string, b: string, c: string, d: string, tail: seq<string>)
    requires |tail| >= 1
    ensures Join([a, b, c, d] + tail, ' ') == a + [' '] + (b + [' '] + (c + [' '] + (d + [' '] + Join(tail, ' '))))
  {
    var ws := [a, b, c, d] + tail;
    assert ws[1..][1..] == ws[2..] && ws[2..][1..] == ws[3..] && ws[3..][1..] == tail;
    JoinStep(ws[3..], ' ');
    JoinStep(ws[2..], ' ');
    JoinStep(ws[1..], ' ');
    JoinStep(ws, ' ');
  }

  /** `DecodeCommand` reads the words one after the other. */
  lemma DecodeSteps(cmd: string, r0: string, r1: string, n: string, r2: string, c: string, tail: string)
    requires Expect(cmd, "ab") == Some(r0) && Expect(r0, "-r") == Some(r1)
    requires DecodeOption(r1, "-n") == Some((n, r2)) && DecodeOption(r2, "-c") == Some((c, tail))
    ensures DecodeCommand(cmd)
            == match (DecodeQuoted(tail), ParseInt(n), ParseInt(c))
               case (Some((keepalive, url)), Some(nv), Some(cv)) => Some(AbCommand(nv, cv, keepalive, url))
               case _ => None
  {
  }

  /** Decoding a text laid out as `CommandText` describes. */
  lemma DecodeText(n: string, c: string, tail: string)
    requires ' ' !in n && ' ' !in c
    ensures DecodeCommand("ab" + [' '] + ("-r" + [' '] + (("-n " + n) + [' '] + (("-c " + c) + [' '] + tail))))
            == match (DecodeQuoted(tail), ParseInt(n), ParseInt(c))
               case (Some((keepalive, url)), Some(nv), Some(cv)) => Some(AbCommand(nv, cv, keepalive, url))
               case _ => None
  {
    var r2 := ("-c " + c) + [' '] + tail;
    var r1 := ("-n " + n) + [' '] + r2;
    var r0 := "-r" + [' '] + r1;
    ExpectOf("ab", r0);
    ExpectOf("-r", r1);
    assert "-n " == "-n" + " " && "-c " == "-c" + " ";
    DecodeOptionOf("-n", n, r2);
    DecodeOptionOf("-c", c, tail);
    DecodeSteps("ab" + [' '] + r0, r0, r1, n, r2, c, tail);
  }

  /** The command line determines its parameters: decoding what `get_command` built gives them back. */
  lemma CommandRoundTrip(numRequests: int, concurrentRequests: int, keepalive: bool, url: string)
    ensures DecodeCommand(GetCommand(numRequests, concurrentRequests, keepalive, url))
            == Some(AbCommand(numRequests, concurrentRequests, keepalive, url))
  {
    CommandText(numRequests, concurrentRequests, keepalive, url);
    DecodeText(IntToString(numRequests), IntToString(concurrentRequests), Join(TailWords(keepalive, url), ' '));
    DecodeQuotedOf(keepalive, url);
    IntRoundTrip(numRequests);
    IntRoundTrip(concurrentRequests);
  }

  // ---------------------------------------------------------------------
  // Labelled-value scans
  // ---------------------------------------------------------------------

  /** The character class a measure is captured with: `[0-9]` or `[0-9.]`. */
  datatype CharClass = Digits | DigitsAndDots

  predicate InClass(c: char, k: CharClass) {
    match k
    case Digits => IsDigit(c)
    case DigitsAndDots => IsNumeralChar(c)
  }

  /**
   An optional leading `\s+`, then `LABEL\s+(CLASS+)SUFFIX`: the shape of every
   expression `parse_output` uses.
   */
  datatype Pattern = Pattern(leadingSpace: bool, marker: string, capture: CharClass, suffix: string)

  /**
   The conditions under which greedy matching is the only way the expression can
   match: the label starts with a non-space, and the suffix, if any, starts with
   a character outside the captured class.
   */
  predicate Unambiguous(pat: Pattern) {
    && |pat.marker| > 0 && !IsSpace(pat.marker[0])
    && (|pat.suffix| == 0 || !InClass(pat.suffix[0], pat.capture))
  }

  /** Length of the whitespace run starting at `k`. */
  function SpaceRun(s: string, k: nat): (n: nat)
    requires k <= |s|
    ensures k + n <= |s| && SpacesIn(s, k, k + n)
    ensures k + n == |s| || !IsSpace(s[k + n])
    decreases |s| - k
  {
    if k < |s| && IsSpace(s[k]) then 1 + SpaceRun(s, k + 1) else 0
  }

  /** Length of the run of class characters starting at `k`. */
  function ClassRun(s: string, k: nat, cls: CharClass): (n: nat)
    requires k <= |s|
    ensures k + n <= |s| && ClassIn(s, k, k + n, cls)
    ensures k + n == |s| || !InClass(s[k + n], cls)
    decreases |s| - k
  {
    if k < |s| && InClass(s[k], cls) then 1 + ClassRun(s, k + 1, cls) else 0
  }

  /** After the `\s+` that opens the expression (or at `p` when it has none). */
  function LeadEnd(s: string, p: nat, pat: Pattern): (q: Option<nat>)
    requires p <= |s|
    ensures q.Some? ==> p <= q.value <= |s|
  {
    if !pat.leadingSpace then Some(p)
    else
      var n := SpaceRun(s, p);
      if n == 0 then None else Some(p + n)
  }

  /** After the label, when it is found at `q`. */
  function LabelEnd(s: string, q: nat, marker: string): (r: Option<nat>)
    requires q <= |s|
    ensures r.Some? ==> r.value == q + |marker| <= |s|
  {
    if TextAt(s, q, marker) then Some(q + |marker|) else None
  }

  /** After the `\s+` that follows the label. */
  function GapEnd(s: string, q: nat): (r: Option<nat>)
    requires q <= |s|
    ensures r.Some? ==> q < r.value <= |s|
  {
    var n := SpaceRun(s, q);
    if n == 0 then None else Some(q + n)
  }

  /** End of the captured group, taken greedily, when the suffix follows it. */
  function CaptureEnd(s: string, q: nat, pat: Pattern): (r: Option<nat>)
    requires q <= |s|
    ensures r.Some? ==> q < r.value <= |s|
  {
    var d := ClassRun(s, q, pat.capture);
    if d == 0 || !TextAt(s, q + d, pat.suffix) then None else Some(q + d)
  }

  /** The capture of a match starting exactly at `p`, if the expression matches there. */
  function MatchAt(s: string, p: nat, pat: Pattern): Option<string>
    requires p <= |s|
  {
    match LeadEnd(s, p, pat)
    case None => None
    case Some(q) =>
      match LabelEnd(s, q, pat.marker)
      case None => None
      case Some(q2) =>
        match GapEnd(s, q2)
        case None => None
        case Some(q3) =>
          match CaptureEnd(s, q3, pat)
          case None => None
          case Some(q4) => Some(s[q3..q4])
  }

  /** Every character of `s[a..b]` is whitespace. */
  predicate SpacesIn(s: string, a: nat, b: nat) {
    b <= |s| && forall i :: a <= i < b ==> IsSpace(s[i])
  }

  /** Every character of `s[a..b]` belongs to the class. */
  predicate ClassIn(s: string, a: nat, b: nat, cls: CharClass) {
    b <= |s| && forall i :: a <= i < b ==> InClass(s[i], cls)
  }

  /** `t` occurs in `s` at position `a`. */
  predicate TextAt(s: string, a: nat, t: string) {
    a + |t| <= |s| && s[a..a + |t|] == t
  }

  /**
   The plain reading of the expression at `p`: `lead` spaces (at least one when the
   expression starts with `\s+`, none otherwise), the label, `w >= 1` spaces,
   `d >= 1` class characters, the suffix.
   */
  predicate MatchesWith(s: string, p: nat, pat: Pattern, lead: nat, w: nat, d: nat) {
    var q := p + lead;
    var q2 := q + |pat.marker|;
    var q3 := q2 + w;
    && (if pat.leadingSpace then lead >= 1 else lead == 0)
    && SpacesIn(s, p, q)
    && TextAt(s, q, pat.marker)
    && w >= 1 && SpacesIn(s, q2, q3)
    && d >= 1 && ClassIn(s, q3, q3 + d, pat.capture)
    && TextAt(s, q3 + d, pat.suffix)
  }

  lemma {:induction false} SpaceRunExact(s: string, k: nat, n: nat)
    requires SpacesIn(s, k, k + n)
    requires k + n == |s| || !IsSpace(s[k + n])
    ensures SpaceRun(s, k) == n
    decreases n
  {
    if n > 0 {
      SpaceRunExact(s, k + 1, n - 1);
    }
  }

  lemma {:induction false} ClassRunAtLeast(s: string, k: nat, cls: CharClass, n: nat)
    requires ClassIn(s, k, k + n, cls)
    ensures ClassRun(s, k, cls) >= n
    ensures k + n == |s| || !InClass(s[k + n], cls) ==> ClassRun(s, k, cls) == n
    decreases n
  {
    if n > 0 {
      ClassRunAtLeast(s, k + 1, cls, n - 1);
    }
  }

  lemma ClassIsNotSpace(c: char, cls: CharClass)
    requires InClass(c, cls)
    ensures !IsSpace(c)
  {
  }

  lemma LabelEndExact(s: string, q: nat, marker: string)
    requires TextAt(s, q, marker)
    ensures LabelEnd(s, q, marker) == Some(q + |marker|)
  {
  }

  lemma CaptureEndExact(s: string, q: nat, pat: Pattern, d: nat)
    requires Unambiguous(pat)
    requires d >= 1 && ClassIn(s, q, q + d, pat.capture) && TextAt(s, q + d, pat.suffix)
    ensures CaptureEnd(s, q, pat).Some? && CaptureEnd(s, q, pat).value >= q + d
    ensures |pat.suffix| > 0 ==> CaptureEnd(s, q, pat) == Some(q + d)
  {
    ClassRunAtLeast(s, q, pat.capture, d);
    if |pat.suffix| > 0 {
      assert s[q + d] == pat.suffix[0];
    }
  }

  lemma LeadEndExact(s: string, p: nat, pat: Pattern, lead: nat)
    requires Unambiguous(pat)
    requires if pat.leadingSpace then lead >= 1 else lead == 0
    requires SpacesIn(s, p, p + lead) && TextAt(s, p + lead, pat.marker)
    ensures LeadEnd(s, p, pat) == Some(p + lead)
  {
    if pat.leadingSpace {
      assert s[p + lead] == pat.marker[0] by {
        assert s[p + lead..p + lead + |pat.marker|][0] == s[p + lead];
      }
      SpaceRunExact(s, p, lead);
    }
  }

  lemma GapEndExact(s: string, q: nat, w: nat, d: nat, cls: CharClass)
    requires w >= 1 && SpacesIn(s, q, q + w)
    requires d >= 1 && ClassIn(s, q + w, q + w + d, cls)
    ensures GapEnd(s, q) == Some(q + w)
  {
    ClassIsNotSpace(s[q + w], cls);
    SpaceRunExact(s, q, w);
  }

  lemma SlicePrefix(s: string, a: nat, b: nat, d: nat)
    requires a + d <= b <= |s|
    ensures s[a..b][..d] == s[a..][..d]
  {
  }

  lemma MatchAtOfEnds(s: string, p: nat, pat: Pattern, q: nat, q2: nat, q3: nat, q4: nat)
    requires p <= |s| && LeadEnd(s, p, pat) == Some(q)
    requires LabelEnd(s, q, pat.marker) == Some(q2) && GapEnd(s, q2) == Some(q3)
    requires CaptureEnd(s, q3, pat) == Some(q4)
    ensures MatchAt(s, p, pat) == Some(s[q3..q4])
  {
  }

  /**
   Every plain match is found by `MatchAt`, with the longest possible capture
   (exactly the plain one when the expression has a suffix).
   */
  lemma MatchAtComplete(s: string, p: nat, pat: Pattern, lead: nat, w: nat, d: nat)
    requires Unambiguous(pat) && MatchesWith(s, p, pat, lead, w, d)
    ensures MatchAt(s, p, pat).Some?
    ensures |MatchAt(s, p, pat).value| >= d
    ensures MatchAt(s, p, pat).value[..d] == s[p + lead + |pat.marker| + w..][..d]
    ensures |pat.suffix| > 0 ==> |MatchAt(s, p, pat).value| == d
  {
    var q := p + lead;
    var q2 := q + |pat.marker|;
    var q3 := q2 + w;
    var q4 := PlainEnds(s, p, pat, lead, w, d);
    MatchAtOfEnds(s, p, pat, q, q2, q3, q4);
    SlicePrefix(s, q3, q4, d);
  }

  /** Each stage of `MatchAt` ends where the plain match says; the capture may run on past `d`. */
  lemma PlainEnds(s: string, p: nat, pat: Pattern, lead: nat, w: nat, d: nat) returns (q4: nat)
    requires Unambiguous(pat) && MatchesWith(s, p, pat, lead, w, d)
    ensures LeadEnd(s, p, pat) == Some(p + lead)
    ensures LabelEnd(s, p + lead, pat.marker) == Some(p + lead + |pat.marker|)
    ensures GapEnd(s, p + lead + |pat.marker|) == Some(p + lead + |pat.marker| + w)
    ensures CaptureEnd(s, p + lead + |pat.marker| + w, pat) == Some(q4)
    ensures p + lead + |pat.marker| + w + d <= q4 <= |s|
    ensures |pat.suffix| > 0 ==> q4 == p + lead + |pat.marker| + w + d
  {
    PlainLead(s, p, pat, lead, w, d);
    PlainLabel(s, p, pat, lead, w, d);
    PlainGap(s, p, pat, lead, w, d);
    q4 := PlainCapture(s, p, pat, lead, w, d);
  }

  lemma PlainLead(s: string, p: nat, pat: Pattern, lead: nat, w: nat, d: nat)
    requires Unambiguous(pat) && MatchesWith(s, p, pat, lead, w, d)
    ensures LeadEnd(s, p, pat) == Some(p + lead)
  {
    LeadEndExact(s, p, pat, lead);
  }

  lemma PlainLabel(s: string, p: nat, pat: Pattern, lead: nat, w: nat, d: nat)
    requires MatchesWith(s, p, pat, lead, w, d)
    ensures LabelEnd(s, p + lead, pat.marker) == Some(p + lead + |pat.marker|)
  {
    LabelEndExact(s, p + lead, pat.marker);
  }

  lemma PlainGap(s: string, p: nat, pat: Pattern, lead: nat, w: nat, d: nat)
    requires MatchesWith(s, p, pat, lead, w, d)
    ensures GapEnd(s, p + lead + |pat.marker|) == Some(p + lead + |pat.marker| + w)
  {
    GapEndExact(s, p + lead + |pat.marker|, w, d, pat.capture);
  }

  lemma PlainCapture(s: string, p: nat, pat: Pattern, lead: nat, w: nat, d: nat) returns (q4: nat)
    requires Unambiguous(pat) && MatchesWith(s, p, pat, lead, w, d)
    ensures CaptureEnd(s, p + lead + |pat.marker| + w, pat) == Some(q4)
    ensures p + lead + |pat.marker| + w + d <= q4 <= |s|
    ensures |pat.suffix| > 0 ==> q4 == p + lead + |pat.marker| + w + d
  {
    var q3 := p + lead + |pat.marker| + w;
    CaptureEndExact(s, q3, pat, d);
    q4 := CaptureEnd(s, q3, pat).value;
  }

  /** Whatever `MatchAt` finds is a plain match, and its capture is the text after the label's spaces. */
  lemma MatchAtSound(s: string, p: nat, pat: Pattern) returns (lead: nat, w: nat)
    requires p <= |s| && MatchAt(s, p, pat).Some?
    ensures MatchesWith(s, p, pat, lead, w, |MatchAt(s, p, pat).value|)
    ensures MatchAt(s, p, pat).value == s[p + lead + |pat.marker| + w..][..|MatchAt(s, p, pat).value|]
  {
    var q, q2, q3, q4 := MatchAtStages(s, p, pat);
    lead := q - p;
    w := q3 - q2;
    LeadEndSound(s, p, pat);
    GapEndSound(s, q2);
    CaptureEndSound(s, q3, pat);
    PlainOfStages(s, p, pat, q, q2, q3, q4);
    assert s[q3..q4] == s[q3..][..q4 - q3];
  }

  /** Stage ends that each read their part of the expression make a plain match. */
  lemma PlainOfStages(s: string, p: nat, pat: Pattern, q: nat, q2: nat, q3: nat, q4: nat)
    requires p <= q <= q2 < q3 < q4
    requires (if pat.leadingSpace then q >= p + 1 else q == p) && SpacesIn(s, p, q)
    requires q2 == q + |pat.marker| && TextAt(s, q, pat.marker)
    requires SpacesIn(s, q2, q3) && ClassIn(s, q3, q4, pat.capture) && TextAt(s, q4, pat.suffix)
    ensures MatchesWith(s, p, pat, q - p, q3 - q2, q4 - q3)
  {
  }

  /** The stage ends of a match found by `MatchAt`. */
  lemma MatchAtStages(s: string, p: nat, pat: Pattern) returns (q: nat, q2: nat, q3: nat, q4: nat)
    requires p <= |s| && MatchAt(s, p, pat).Some?
    ensures LeadEnd(s, p, pat) == Some(q) && LabelEnd(s, q, pat.marker) == Some(q2)
    ensures GapEnd(s, q2) == Some(q3) && CaptureEnd(s, q3, pat) == Some(q4)
    ensures q <= q2 <= q3 <= q4 <= |s| && MatchAt(s, p, pat).value == s[q3..q4]
    ensures |MatchAt(s, p, pat).value| == q4 - q3
  {
    q := LeadEnd(s, p, pat).value;
    q2 := LabelEnd(s, q, pat.marker).value;
    q3 := GapEnd(s, q2).value;
    q4 := CaptureEnd(s, q3, pat).value;
  }

  /** The opening `\s+`, when present, consumed at least one space and nothing else. */
  lemma LeadEndSound(s: string, p: nat, pat: Pattern)
    requires p <= |s| && LeadEnd(s, p, pat).Some?
    ensures var q := LeadEnd(s, p, pat).value;
      (if pat.leadingSpace then q >= p + 1 else q == p) && SpacesIn(s, p, q)
  {
  }

  /** The gap after the label is whitespace. */
  lemma GapEndSound(s: string, q: nat)
    requires q <= |s| && GapEnd(s, q).Some?
    ensures SpacesIn(s, q, GapEnd(s, q).value)
  {
  }

  /** The capture is made of class characters and the suffix follows it. */
  lemma CaptureEndSound(s: string, q: nat, pat: Pattern)
    requires q <= |s| && CaptureEnd(s, q, pat).Some?
    ensures ClassIn(s, q, CaptureEnd(s, q, pat).value, pat.capture)
    ensures TextAt(s, CaptureEnd(s, q, pat).value, pat.suffix)
  {
  }

  /** `re.search`: the leftmost position at or after `k` where the expression matches. */
  function FirstMatchFrom(s: string, pat: Pattern, k: nat): (p: Option<nat>)
    requires k <= |s|
    ensures p.Some? ==> k <= p.value <= |s| && MatchAt(s, p.value, pat).Some?
    ensures forall q :: k <= q <= |s| && (p.None? || q < p.value) ==> MatchAt(s, q, pat).None?
    decreases |s| - k
  {
    if MatchAt(s, k, pat).Some? then Some(k)
    else if k == |s| then None
    else FirstMatchFrom(s, pat, k + 1)
  }

  /** `re.search(expression, content).group(1)`, or None when nothing matches. */
  function Capture(s: string, pat: Pattern): (r: Option<string>)
    ensures r.Some? ==> |r.value| >= 1 && forall i :: 0 <= i < |r.value| ==> InClass(r.value[i], pat.capture)
  {
    match FirstMatchFrom(s, pat, 0)
    case Some(p) =>
      MatchAtInClass(s, p, pat);
      MatchAt(s, p, pat)
    case None => None
  }

  /** A capture is made of at least one character of the expression's class. */
  lemma MatchAtInClass(s: string, p: nat, pat: Pattern)
    requires p <= |s|
    ensures MatchAt(s, p, pat).Some? ==>
      |MatchAt(s, p, pat).value| >= 1
      && forall i :: 0 <= i < |MatchAt(s, p, pat).value| ==> InClass(MatchAt(s, p, pat).value[i], pat.capture)
  {
    if MatchAt(s, p, pat).Some? {
      var lead, w := MatchAtSound(s, p, pat);
    }
  }

  /** A capture comes from a plain match of the expression: the class characters after the label and its spaces. */
  lemma CaptureSound(s: string, pat: Pattern) returns (p: nat, lead: nat, w: nat)
    requires Capture(s, pat).Some?
    ensures p <= |s| && MatchesWith(s, p, pat, lead, w, |Capture(s, pat).value|)
    ensures Capture(s, pat).value == s[p + lead + |pat.marker| + w..][..|Capture(s, pat).value|]
  {
    p := FirstMatchFrom(s, pat, 0).value;
    lead, w := MatchAtSound(s, p, pat);
  }

  /**
   `re.search` finds the leftmost match: wherever the expression matches plainly,
   a capture exists and starts no later; a match starting there captures at least
   the plain capture's characters.
   */
  lemma CaptureIsLeftmost(s: string, pat: Pattern, q: nat, lead: nat, w: nat, d: nat)
    requires Unambiguous(pat) && MatchesWith(s, q, pat, lead, w, d)
    ensures Capture(s, pat).Some?
    ensures FirstMatchFrom(s, pat, 0).Some? && FirstMatchFrom(s, pat, 0).value <= q
    ensures FirstMatchFrom(s, pat, 0).value == q ==>
      |Capture(s, pat).value| >= d && Capture(s, pat).value[..d] == s[q + lead + |pat.marker| + w..][..d]
  {
    MatchAtComplete(s, q, pat, lead, w, d);
  }

  /** The text contains `t` somewhere. */
  predicate Occurs(s: string, t: string) {
    exists i :: 0 <= i <= |s| && TextAt(s, i, t)
  }

  /** No label in the text, no capture. */
  lemma CaptureNeedsLabel(s: string, pat: Pattern)
    ensures Capture(s, pat).Some? ==> Occurs(s, pat.marker)
  {
    if Capture(s, pat).Some? {
      var p, lead, w := CaptureSound(s, pat);
    }
  }

  // ---------------------------------------------------------------------
  // parse_output
  // ---------------------------------------------------------------------

  /** The expression `parse_output` uses for each field. */
  function PatternOf(f: Field): Pattern {
    match f
    case MsPerRequest => Pattern(false, "Time per request:", DigitsAndDots, " [ms] (mean)")
    case Concurrency => Pattern(false, "Concurrency Level:", Digits, "")
    case RequestsPerSecond => Pattern(false, "Requests per second:", DigitsAndDots, " [#/sec] (mean)")
    case TimeTaken => Pattern(false, "Time taken for tests:", DigitsAndDots, " seconds")
    case FiftyPercent => Pattern(true, "50%", Digits, "")
    case NinetyPercent => Pattern(true, "90%", Digits, "")
    case CompleteRequests => Pattern(false, "Complete requests:", Digits, "")
    case FailedRequests => Pattern(false, "Failed requests:", Digits, "")
    case Non2xxResponses => Pattern(false, "Non-2xx responses:", Digits, "")
    case TotalTransferred => Pattern(false, "Total transferred:", Digits, "")
  }

  lemma PatternsUnambiguous(f: Field)
    ensures Unambiguous(PatternOf(f))
  {
  }

  /**
   `float(self._parse_measure(expression, output[, default]))` for field `f`:
   every field but Non-2xx has default `''`, so a missing label makes `float`
   raise (None here); Non-2xx defaults to 0.
   */
  function Measure(output: string, f: Field): (r: Option<real>)
    ensures r.Some? ==> r.value >= 0.0
    ensures Capture(output, PatternOf(f)).None? ==> (r.Some? <==> f == Non2xxResponses)
  {
    match Capture(output, PatternOf(f))
    case None => if f == Non2xxResponses then Some(0.0) else None
    case Some(text) => DecodeFloat(text)
  }

  /** What `parse_output` produces: a record, `None`, or a ValueError raised by `float()`. */
  datatype ParseOutcome = Parsed(result: TesterResult) | NoData | ValueError

  /**
   The decisions of `parse_output` once every measure `m(f)` is known: the mean
   time per request first (a ValueError if it is missing, `None` if it is zero),
   then the other fields in turn, any of which may raise.
   */
  function Assemble(m: Field -> Option<real>): (r: ParseOutcome)
    ensures r.NoData? <==> m(MsPerRequest) == Some(0.0)
    ensures r.ValueError? <==> m(MsPerRequest).None? || (m(MsPerRequest) != Some(0.0) && exists f :: m(f).None?)
    ensures r.Parsed? ==> forall f :: m(f) == Some(Get(r.result, f))
    ensures r.Parsed? ==> r.result.msPerRequest != 0.0
  {
    var ms := m(MsPerRequest);
    if ms.None? then ValueError
    else if ms.value == 0.0 then NoData
    else if || m(Concurrency).None? || m(RequestsPerSecond).None? || m(TimeTaken).None?
            || m(FiftyPercent).None? || m(NinetyPercent).None? || m(CompleteRequests).None?
            || m(FailedRequests).None? || m(Non2xxResponses).None? || m(TotalTransferred).None?
    then
      ValueError
    else
      var r := TesterResult(
        concurrency := m(Concurrency).value,
        timeTaken := m(TimeTaken).value,
        completeRequests := m(CompleteRequests).value,
        failedRequests := m(FailedRequests).value,
        non2xxResponses := m(Non2xxResponses).value,
        totalTransferred := m(TotalTransferred).value,
        requestsPerSecond := m(RequestsPerSecond).value,
        msPerRequest := ms.value,
        fiftyPercent := m(FiftyPercent).value,
        ninetyPercent := m(NinetyPercent).value);
      assert forall f :: m(f) == Some(Get(r, f));
      Parsed(r)
  }

  /** `ABTester.parse_output`. */
  function ParseOutput(output: string): (r: ParseOutcome)
    ensures r.NoData? <==> Measure(output, MsPerRequest) == Some(0.0)
    ensures r.ValueError? <==>
      Measure(output, MsPerRequest).None?
      || (Measure(output, MsPerRequest) != Some(0.0) && exists f :: Measure(output, f).None?)
    ensures r.Parsed? ==> forall f :: Measure(output, f) == Some(Get(r.result, f))
    ensures r.Parsed? ==> NonNegative(r.result) && r.result.msPerRequest > 0.0
  {
    var m := (f: Field) => Measure(output, f);
    assert forall f :: m(f) == Measure(output, f);
    Assemble(m)
  }

  /**
   A label missing from the report: `float('')` raises for every field but
   Non-2xx, which defaults to 0.
   */
  lemma MissingLabel(output: string, f: Field)
    requires !Occurs(output, PatternOf(f).marker)
    ensures Measure(output, f) == (if f == Non2xxResponses then Some(0.0) else None)
  {
    CaptureNeedsLabel(output, PatternOf(f));
  }

  /** `ab` prints no Non-2xx line when every response was 2xx; the measure then defaults to 0. */
  lemma MissingNon2xxIsZero(output: string)
    requires !Occurs(output, "Non-2xx responses:")
    ensures Measure(output, Non2xxResponses) == Some(0.0)
  {
    MissingLabel(output, Non2xxResponses);
  }

  /** Output without a mean time per request (ab failed early) is a ValueError, not `None`. */
  lemma ParseOutputWithoutMean(output: string)
    requires !Occurs(output, "Time per request:")
    ensures ParseOutput(output) == ValueError
  {
    MissingLabel(output, MsPerRequest);
    MeanMissingIsValueError(output);
  }

  /** Without a mean time per request the report cannot be parsed. */
  lemma MeanMissingIsValueError(output: string)
    requires Measure(output, MsPerRequest).None?
    ensures ParseOutput(output) == ValueError
  {
  }
}

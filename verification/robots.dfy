/**
  The politeness check `can_parse` (main.py): URL validation, then a line-by-line reading of
  the site's robots.txt that collects path prefixes for the wildcard agent.

  The reading keeps the source's quirks: only a line that starts with lower-case `disallow`
  is a rule, the agent value is the second whitespace token of a `User-agent:` line, and the
  two situations in which the Python code raises (a `User-agent:` line with no value token, a
  `disallow` line read before any `User-agent:` line) end in "not permitted".
*/
module Robots {
  import opened Wrappers
  import opened Text

  /** The three parts of `urlparse(url)` that the crawler reads. */
  datatype Url = Url(scheme: string, netloc: string, path: string)

  /** The answer to the GET of `<scheme>://<netloc>/robots.txt`: its body already cut by
      `splitlines()`, or a transport failure (any `requests.RequestException`). */
  datatype RobotsFetch = RobotsText(lines: seq<string>) | RobotsUnreachable

  /** The exception that ends the reading, with the index of the line that raised it.
      `AgentWithoutValue` is the IndexError of `parts[1]`; `DisallowBeforeAgent` is the
      NameError of the still unbound `current_agent`. */
  datatype ScanError = AgentWithoutValue(line: nat) | DisallowBeforeAgent(line: nat)

  /** The scheme and host are present and the scheme is one the crawler speaks. */
  predicate ValidUrl(u: Url) {
    u.scheme != "" && u.netloc != "" && (u.scheme == "http" || u.scheme == "https")
  }

  /** `line.lower().startswith("user-agent:")`. */
  predicate IsAgentLine(line: string) {
    StartsWith(Lower(line), "user-agent:")
  }

  /** `line.startswith("disallow")`: case-sensitive, so `Disallow:` is not a rule. */
  predicate IsDisallowLine(line: string) {
    StartsWith(line, "disallow")
  }

  /** An agent line never starts with `disallow`, so the two branches of the loop are disjoint. */
  lemma AgentLinesAreNotRules(line: string)
    ensures !(IsAgentLine(line) && IsDisallowLine(line))
  {
    if IsDisallowLine(line) {
      assert line[0] == "disallow"[0];
      assert Lower(line)[0] == 'd';
    }
  }

  /** The loop of lines 95-102 from line `i` on, with `agent` the value of `current_agent`
      (None while unbound) and `acc` the prefixes collected so far. */
  function ScanFrom(lines: seq<string>, i: nat, agent: Option<string>, acc: seq<string>)
    : Result<seq<string>, ScanError>
    requires i <= |lines|
    decreases |lines| - i
  {
    if i == |lines| then Success(acc)
    else
      var line := lines[i];
      var parts := Split(line);
      if IsAgentLine(line) && |parts| < 2 then Failure(AgentWithoutValue(i))
      else
        var agent' := if IsAgentLine(line) then Some(parts[1]) else agent;
        if IsDisallowLine(line) && agent'.None? then Failure(DisallowBeforeAgent(i))
        else
          var acc' :=
            if IsDisallowLine(line) && agent' == Some("*") && |parts| > 1
            then acc + [parts[1]] else acc;
          ScanFrom(lines, i + 1, agent', acc')
  }

  /** The disallowed prefixes of a robots.txt body, or the exception its reading raises. */
  function Disallowed(lines: seq<string>): Result<seq<string>, ScanError> {
    ScanFrom(lines, 0, None, [])
  }

  /** `can_parse(args, url)` for a URL whose parts are `url` and whose robots.txt fetch
      produced `robots`. */
  function CanParse(url: Url, robots: RobotsFetch): (ok: bool)
    ensures ok ==> ValidUrl(url) && robots.RobotsText?
  {
    if url.scheme == "" || url.netloc == "" then false
    else if url.scheme != "http" && url.scheme != "https" then false
    else
      match robots
      case RobotsUnreachable => false
      case RobotsText(lines) =>
        match Disallowed(lines)
        case Failure(_) => false
        case Success(prefixes) => forall k :: 0 <= k < |prefixes| ==> !StartsWith(url.path, prefixes[k])
  }

  // ---------------------------------------------------------------------------------------
  // A declarative reading of the same file, line by line.

  /** The value of the most recent `User-agent:` line of `lines` (None when there is no such
      line, or when that line has no value token). */
  function CurrentAgent(lines: seq<string>): Option<string>
    decreases |lines|
  {
    if |lines| == 0 then None
    else
      var last := lines[|lines| - 1];
      if IsAgentLine(last) then
        var parts := Split(last);
        if |parts| > 1 then Some(parts[1]) else None
      else CurrentAgent(lines[..|lines| - 1])
  }

  /** No `User-agent:` line occurs among the first `i` lines. */
  predicate NoAgentBefore(lines: seq<string>, i: nat)
    requires i <= |lines|
  {
    forall j :: 0 <= j < i ==> !IsAgentLine(lines[j])
  }

  /** Line `i` makes the Python reading raise. */
  predicate BadLine(lines: seq<string>, i: nat)
    requires i < |lines|
  {
    || (IsAgentLine(lines[i]) && |Split(lines[i])| < 2)
    || (IsDisallowLine(lines[i]) && NoAgentBefore(lines, i))
  }

  /** Line `i` contributes the prefix `p`: a `disallow` line with a second token `p`, read
      while the current agent is `*`. */
  predicate Collects(lines: seq<string>, i: nat, p: string)
    requires i < |lines|
  {
    && IsDisallowLine(lines[i])
    && |Split(lines[i])| > 1
    && Split(lines[i])[1] == p
    && CurrentAgent(lines[..i]) == Some("*")
  }

  lemma {:induction false} NoAgentMeansNoCurrentAgent(lines: seq<string>, i: nat)
    requires i <= |lines|
    requires forall j :: 0 <= j < i ==> !BadLine(lines, j)
    ensures CurrentAgent(lines[..i]).None? <==> NoAgentBefore(lines, i)
    decreases i
  {
    if i > 0 {
      var pre := lines[..i];
      assert pre[..i - 1] == lines[..i - 1];
      assert pre[i - 1] == lines[i - 1];
      if !IsAgentLine(lines[i - 1]) {
        NoAgentMeansNoCurrentAgent(lines, i - 1);
      } else {
        assert !BadLine(lines, i - 1);
      }
    }
  }

  lemma {:induction false} ScanFromSpec(lines: seq<string>, i: nat, agent: Option<string>, acc: seq<string>)
    requires i <= |lines|
    requires agent == CurrentAgent(lines[..i])
    requires forall j :: 0 <= j < i ==> !BadLine(lines, j)
    requires forall p :: p in acc <==> exists j :: 0 <= j < i && Collects(lines, j, p)
    ensures var r := ScanFrom(lines, i, agent, acc);
      && (r.Failure? <==> exists j :: i <= j < |lines| && BadLine(lines, j))
      && (r.Failure? ==>
            && i <= r.error.line < |lines|
            && BadLine(lines, r.error.line)
            && forall j :: i <= j < r.error.line ==> !BadLine(lines, j))
      && (r.Success? ==> forall p :: p in r.value <==> exists j :: 0 <= j < |lines| && Collects(lines, j, p))
    decreases |lines| - i
  {
    if i < |lines| {
      var line := lines[i];
      var parts := Split(line);
      AgentLinesAreNotRules(line);
      NoAgentMeansNoCurrentAgent(lines, i);
      var pre := lines[..i + 1];
      assert pre[..i] == lines[..i];
      assert pre[i] == line;
      if IsAgentLine(line) && |parts| < 2 {
        assert BadLine(lines, i);
      } else {
        var agent' := if IsAgentLine(line) then Some(parts[1]) else agent;
        assert agent' == CurrentAgent(lines[..i + 1]);
        if IsDisallowLine(line) && agent'.None? {
          assert BadLine(lines, i);
        } else {
          assert !BadLine(lines, i);
          var acc' :=
            if IsDisallowLine(line) && agent' == Some("*") && |parts| > 1
            then acc + [parts[1]] else acc;
          forall p
            ensures p in acc' <==> exists j :: 0 <= j < i + 1 && Collects(lines, j, p)
          {
            if p in acc' && p !in acc {
              assert Collects(lines, i, p);
            }
            if exists j :: 0 <= j < i + 1 && Collects(lines, j, p) {
              var j :| 0 <= j < i + 1 && Collects(lines, j, p);
              if j == i {
                assert p == parts[1];
              }
            }
          }
          ScanFromSpec(lines, i + 1, agent', acc');
        }
      }
    }
  }

  /** The reading raises exactly when some line is bad, and then at the first bad line;
      otherwise it collects exactly the prefixes `Collects` describes. */
  lemma DisallowedSpec(lines: seq<string>)
    ensures Disallowed(lines).Failure? <==> exists j :: 0 <= j < |lines| && BadLine(lines, j)
    ensures Disallowed(lines).Failure? ==>
      && Disallowed(lines).error.line < |lines|
      && BadLine(lines, Disallowed(lines).error.line)
      && forall j :: 0 <= j < Disallowed(lines).error.line ==> !BadLine(lines, j)
    ensures Disallowed(lines).Success? ==>
      forall p :: p in Disallowed(lines).value <==> exists j :: 0 <= j < |lines| && Collects(lines, j, p)
  {
    assert lines[..0] == [];
    ScanFromSpec(lines, 0, None, []);
  }

  /** A URL is permitted iff it is a valid http(s) URL, its robots.txt was fetched, no line
      of it raises, and its path starts with no prefix collected for the wildcard agent. */
  lemma CanParseSpec(url: Url, robots: RobotsFetch)
    ensures CanParse(url, robots) <==>
      && ValidUrl(url)
      && robots.RobotsText?
      && (forall j :: 0 <= j < |robots.lines| ==> !BadLine(robots.lines, j))
      && (forall j, p :: 0 <= j < |robots.lines| && Collects(robots.lines, j, p) ==> !StartsWith(url.path, p))
  {
    if ValidUrl(url) && robots.RobotsText? {
      var lines := robots.lines;
      DisallowedSpec(lines);
      if Disallowed(lines).Success? {
        var prefixes := Disallowed(lines).value;
        if forall k :: 0 <= k < |prefixes| ==> !StartsWith(url.path, prefixes[k]) {
          forall j, p | 0 <= j < |lines| && Collects(lines, j, p)
            ensures !StartsWith(url.path, p)
          {
            assert p in prefixes;
          }
        } else {
          var k :| 0 <= k < |prefixes| && StartsWith(url.path, prefixes[k]);
          assert prefixes[k] in prefixes;
        }
      }
    }
  }

  /** A robots.txt without any lower-case `disallow` line, whose `User-agent:` lines all
      carry a value, permits every valid URL: in particular a file that writes its rules as
      `Disallow:`, and the empty file. */
  lemma NoRulesPermitsAll(url: Url, lines: seq<string>)
    requires ValidUrl(url)
    requires forall j :: 0 <= j < |lines| ==> !IsDisallowLine(lines[j])
    requires forall j :: 0 <= j < |lines| && IsAgentLine(lines[j]) ==> |Split(lines[j])| >= 2
    ensures CanParse(url, RobotsText(lines))
  {
    CanParseSpec(url, RobotsText(lines));
  }
}

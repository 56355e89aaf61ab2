/**
 * The IOC manager's pure string logic: parsing a script specifier
 * `[[user@]host:]/path/to/script` with the pattern
 * `^(?:(?P<user>.+)@)?(?:(?P<host>.+):)?(?P<path>/.+)$`, choosing a runner,
 * the argument lists the runner hands to its script, and classifying the
 * script's status reply with `^\S+ is (not)? ?running`.
 *
 * The pattern is matched the way Python's `re.match` does: anchored at the
 * start, `.` matching any character but a newline, `$` matching at the end or
 * just before one final newline, and greedy groups tried from the longest
 * down, the first full match winning.
 */
module Manager {

  datatype Option<T> = None | Some(value: T)

  // ---------------------------------------------------------------------------
  // What the script pattern matches, stated without search
  // ---------------------------------------------------------------------------

  /** Every character is one that `.` matches: anything but a newline. */
  predicate AnyChars(s: string)
  {
    forall k :: 0 <= k < |s| ==> s[k] != '\n'
  }

  /** The text a `.+` group can capture. */
  predicate DotPlus(s: string)
  {
    |s| >= 1 && AnyChars(s)
  }

  /** The text `(?P<path>/.+)` can capture: a slash and at least one more character. */
  predicate PathGroup(p: string)
  {
    |p| >= 2 && p[0] == '/' && AnyChars(p)
  }

  /** `(?P<path>/.+)$` matches all of t capturing p; `$` also matches before a final newline. */
  predicate PathMatches(t: string, p: string)
  {
    PathGroup(p) && (t == p || t == p + "\n")
  }

  /** An optional `(?:(.+)sep)?` group either did not take part or captured `.+` text. */
  predicate OptionalGroup(g: Option<string>)
  {
    g.Some? ==> DotPlus(g.value)
  }

  /** The text an optional `(?:(g)sep)?` group consumes. */
  function Lead(g: Option<string>, sep: char): string
  {
    if g.Some? then g.value + [sep] else ""
  }

  /** `(?:(?P<host>.+):)?(?P<path>/.+)$` matches all of r with these groups. */
  predicate HostPathMatches(r: string, host: Option<string>, path: string)
  {
    && OptionalGroup(host)
    && Lead(host, ':') <= r
    && PathMatches(r[|Lead(host, ':')|..], path)
  }

  /** The whole script pattern matches s with these groups. */
  predicate Matches(s: string, user: Option<string>, host: Option<string>, path: string)
  {
    && OptionalGroup(user)
    && Lead(user, '@') <= s
    && HostPathMatches(s[|Lead(user, '@')|..], host, path)
  }

  /** The length of a group's capture, 0 when it did not take part. */
  function GroupLength(g: Option<string>): nat
  {
    if g.Some? then |g.value| else 0
  }

  /**
   * Backtracking reaches the groups (user1, host1) no later than (user2, host2):
   * a longer user is tried first, a present user before an absent one, and for
   * the same user a longer host first.
   */
  predicate TriedNoLater(user1: Option<string>, host1: Option<string>,
                         user2: Option<string>, host2: Option<string>)
  {
    || GroupLength(user1) > GroupLength(user2)
    || (GroupLength(user1) == GroupLength(user2) && GroupLength(host1) >= GroupLength(host2))
  }

  // ---------------------------------------------------------------------------
  // The matcher: backtracking search
  // ---------------------------------------------------------------------------

  /** s[..i] is a `.+` capture immediately followed by sep. */
  predicate SplitsAt(s: string, sep: char, i: nat)
  {
    1 <= i < |s| && AnyChars(s[..i]) && s[i] == sep
  }

  /** Splitting at i works: the rest of the pattern matches what follows the separator. */
  predicate Candidate<R>(s: string, sep: char, rest: string -> Option<R>, i: nat)
  {
    SplitsAt(s, sep, i) && rest(s[i + 1..]).Some?
  }

  /**
   * A greedy `(.+)sep` followed by the rest of the pattern: the split
   * positions below k are tried from the longest capture down, and the first
   * one whose remainder the rest of the pattern matches is taken, together
   * with what the rest of the pattern captured there.
   */
  function LastSplit<R>(s: string, sep: char, rest: string -> Option<R>, k: nat): (r: Option<(nat, R)>)
    requires k <= |s|
    ensures r.Some? ==> r.value.0 < k
    decreases k
  {
    if k == 0 then None
    else
      var i := k - 1;
      if Candidate(s, sep, rest, i) then Some((i, rest(s[i + 1..]).value))
      else LastSplit(s, sep, rest, i)
  }

  /** The split returned works, and what comes with it is the rest of the pattern's capture there. */
  lemma {:induction false} LastSplitSound<R>(s: string, sep: char, rest: string -> Option<R>, k: nat)
    requires k <= |s|
    ensures var r := LastSplit(s, sep, rest, k);
            r.Some? ==> Candidate(s, sep, rest, r.value.0) && rest(s[r.value.0 + 1..]) == Some(r.value.1)
    decreases k
  {
    if k > 0 && !Candidate(s, sep, rest, k - 1) {
      LastSplitSound(s, sep, rest, k - 1);
    }
  }

  /** Every workable split below k is found, and none after the one returned is workable. */
  lemma {:induction false} LastSplitLatest<R>(s: string, sep: char, rest: string -> Option<R>, k: nat, j: nat)
    requires k <= |s| && j < k && Candidate(s, sep, rest, j)
    ensures LastSplit(s, sep, rest, k).Some? && LastSplit(s, sep, rest, k).value.0 >= j
    decreases k
  {
    if !Candidate(s, sep, rest, k - 1) {
      LastSplitLatest(s, sep, rest, k - 1, j);
    }
  }

  /** Without the separator there is no split to take. */
  lemma {:induction false} LastSplitAbsent<R>(s: string, sep: char, rest: string -> Option<R>, k: nat)
    requires k <= |s| && sep !in s
    ensures LastSplit(s, sep, rest, k).None?
    decreases k
  {
    if k > 0 {
      assert s[k - 1] in s;
      LastSplitAbsent(s, sep, rest, k - 1);
    }
  }

  /** `(?P<path>/.+)$` on the whole of t. */
  function MatchPath(t: string): Option<string>
  {
    if PathGroup(t) then Some(t)
    else if |t| >= 1 && t[|t| - 1] == '\n' && PathGroup(t[..|t| - 1]) then Some(t[..|t| - 1])
    else None
  }

  /** A returned path capture is a path match: the whole of t, or t less one final newline. */
  lemma MatchPathSound(t: string)
    ensures MatchPath(t).Some? ==> PathMatches(t, MatchPath(t).value)
  {
    if !PathGroup(t) && MatchPath(t).Some? {
      assert t == t[..|t| - 1] + "\n";
    }
  }

  /** Every path match is found, and it is the only one: `$` leaves no other choice. */
  lemma MatchPathComplete(t: string, p: string)
    requires PathMatches(t, p)
    ensures MatchPath(t) == Some(p)
  {
    if t != p {
      assert t[|t| - 1] == '\n';
      assert t[..|t| - 1] == p;
    }
  }

  datatype HostPath = HostPath(host: Option<string>, path: string)

  /** `(?:(?P<host>.+):)?(?P<path>/.+)$` on the whole of r. */
  function MatchHostPath(r: string): Option<HostPath>
  {
    var split := LastSplit(r, ':', MatchPath, |r|);
    if split.Some? then Some(HostPath(Some(r[..split.value.0]), split.value.1))
    else if MatchPath(r).Some? then Some(HostPath(None, MatchPath(r).value))
    else None
  }

  /** The groups `parse_script_location` returns; the path is kept as the matched text. */
  datatype ScriptLocation = ScriptLocation(user: Option<string>, host: Option<string>, path: string)

  /**
   * `parse_script_location`: None stands for the input the pattern does not
   * match, on which the source fails calling `.group` on a missing match.
   */
  function ParseScriptLocation(script: string): Option<ScriptLocation>
  {
    var split := LastSplit(script, '@', MatchHostPath, |script|);
    if split.Some? then
      var rest := split.value.1;
      Some(ScriptLocation(Some(script[..split.value.0]), rest.host, rest.path))
    else if MatchHostPath(script).Some? then
      Some(ScriptLocation(None, MatchHostPath(script).value.host, MatchHostPath(script).value.path))
    else None
  }

  // ---------------------------------------------------------------------------
  // The matcher finds exactly the first match in backtracking order
  // ---------------------------------------------------------------------------

  /** What the host-and-path matcher returns is a match. */
  lemma HostPathSound(r: string, hp: HostPath)
    requires MatchHostPath(r) == Some(hp)
    ensures HostPathMatches(r, hp.host, hp.path)
  {
    var split := LastSplit(r, ':', MatchPath, |r|);
    LastSplitSound(r, ':', MatchPath, |r|);
    if split.Some? {
      var j := split.value.0;
      MatchPathSound(r[j + 1..]);
      HostSplitMatches(r, j, split.value.1);
    } else {
      MatchPathSound(r);
    }
  }

  /** A host cut at a ':' followed by a path match is a host-and-path match. */
  lemma HostSplitMatches(r: string, j: nat, path: string)
    requires SplitsAt(r, ':', j) && PathMatches(r[j + 1..], path)
    ensures HostPathMatches(r, Some(r[..j]), path)
  {
    assert r[..j + 1] == r[..j] + [':'];
  }

  /** Every host-and-path match is found, and none is tried before the one returned. */
  lemma HostPathComplete(r: string, host: Option<string>, path: string)
    requires HostPathMatches(r, host, path)
    ensures MatchHostPath(r).Some?
    ensures GroupLength(host) <= GroupLength(MatchHostPath(r).value.host)
  {
    if host.Some? {
      var j := |host.value|;
      assert r[..j + 1] == host.value + [':'];
      assert r[..j] == host.value;
      assert r[j] == ':';
      MatchPathComplete(r[j + 1..], path);
      LastSplitLatest(r, ':', MatchPath, |r|, j);
    } else {
      MatchPathComplete(r, path);
    }
  }

  /** What the parser returns is a match of the script pattern. */
  lemma ParseSound(script: string, loc: ScriptLocation)
    requires ParseScriptLocation(script) == Some(loc)
    ensures Matches(script, loc.user, loc.host, loc.path)
  {
    var split := LastSplit(script, '@', MatchHostPath, |script|);
    if split.Some? {
      LastSplitSound(script, '@', MatchHostPath, |script|);
      UserSplitMatches(script, split.value.0, split.value.1, loc);
    } else {
      NoUserMatches(script, MatchHostPath(script).value, loc);
    }
  }

  lemma NoUserMatches(script: string, hp: HostPath, loc: ScriptLocation)
    requires MatchHostPath(script) == Some(hp) && loc == ScriptLocation(None, hp.host, hp.path)
    ensures Matches(script, loc.user, loc.host, loc.path)
  {
    HostPathSound(script, hp);
    assert script[|Lead(None, '@')|..] == script;
  }

  /** A user split whose remainder the host-and-path matcher accepts is a match. */
  lemma UserSplitMatches(script: string, i: nat, rest: HostPath, loc: ScriptLocation)
    requires SplitsAt(script, '@', i) && MatchHostPath(script[i + 1..]) == Some(rest)
    requires loc == ScriptLocation(Some(script[..i]), rest.host, rest.path)
    ensures Matches(script, loc.user, loc.host, loc.path)
  {
    var r := script[i + 1..];
    HostPathSound(r, rest);
    var user := Some(script[..i]);
    assert Lead(user, '@') == script[..i + 1];
    assert script[|Lead(user, '@')|..] == r;
  }

  /**
   * Every match of the script pattern is found, and the parser returns the
   * first one in backtracking order: the longest user, then the longest host.
   */
  lemma ParseComplete(script: string, user: Option<string>, host: Option<string>, path: string)
    requires Matches(script, user, host, path)
    ensures ParseScriptLocation(script).Some?
    ensures var loc := ParseScriptLocation(script).value;
            TriedNoLater(loc.user, loc.host, user, host)
  {
    if user.Some? {
      var i := |user.value|;
      LeadSeparator(script, user, '@');
      assert script[|Lead(user, '@')|..] == script[i + 1..];
      HostPathComplete(script[i + 1..], host, path);
      assert Candidate(script, '@', MatchHostPath, i);
      UserSplitFirst(script, i, host);
    } else {
      HostPathComplete(script, host, path);
      LastSplitSound(script, '@', MatchHostPath, |script|);
    }
  }

  /** A workable user split at i means the parser's user is at least i long, and when exactly i long its host is that split's. */
  lemma UserSplitFirst(script: string, i: nat, host: Option<string>)
    requires Candidate(script, '@', MatchHostPath, i)
    requires GroupLength(host) <= GroupLength(MatchHostPath(script[i + 1..]).value.host)
    ensures ParseScriptLocation(script).Some?
    ensures var loc := ParseScriptLocation(script).value;
            TriedNoLater(loc.user, loc.host, Some(script[..i]), host)
  {
    LastSplitLatest(script, '@', MatchHostPath, |script|, i);
    if LastSplit(script, '@', MatchHostPath, |script|).value.0 == i {
      LastSplitSound(script, '@', MatchHostPath, |script|);
    }
  }

  /** Two matches whose groups have the same lengths are the same match. */
  lemma MatchesUnique(s: string, u1: Option<string>, h1: Option<string>, p1: string,
                      u2: Option<string>, h2: Option<string>, p2: string)
    requires Matches(s, u1, h1, p1) && Matches(s, u2, h2, p2)
    requires GroupLength(u1) == GroupLength(u2) && GroupLength(h1) == GroupLength(h2)
    ensures u1 == u2 && h1 == h2 && p1 == p2
  {
    if u1.Some? {
      assert u1.value == s[..|u1.value|];
      assert u2.value == s[..|u2.value|];
    }
    var r := s[|Lead(u1, '@')|..];
    if h1.Some? {
      assert h1.value == r[..|h1.value|];
      assert h2.value == r[..|h2.value|];
    }
    var t := r[|Lead(h1, ':')|..];
    MatchPathComplete(t, p1);
    MatchPathComplete(t, p2);
  }

  /**
   * The parser's result is determined by the pattern alone: a match that
   * backtracking reaches no later than any other match is the result.
   */
  lemma ParseIsFirstMatch(script: string, user: Option<string>, host: Option<string>, path: string)
    requires Matches(script, user, host, path)
    requires forall u, h, p :: Matches(script, u, h, p) ==> TriedNoLater(user, host, u, h)
    ensures ParseScriptLocation(script) == Some(ScriptLocation(user, host, path))
  {
    ParseComplete(script, user, host, path);
    var loc := ParseScriptLocation(script).value;
    ParseSound(script, loc);
    assert TriedNoLater(user, host, loc.user, loc.host);
    MatchesUnique(script, user, host, path, loc.user, loc.host, loc.path);
  }

  /** The parser fails exactly on the inputs the pattern does not match. */
  lemma ParseFailsIffNoMatch(script: string)
    ensures ParseScriptLocation(script).None? <==>
              forall u, h, p :: !Matches(script, u, h, p)
  {
    if ParseScriptLocation(script).Some? {
      ParseSound(script, ParseScriptLocation(script).value);
    }
    forall u, h, p | Matches(script, u, h, p)
      ensures ParseScriptLocation(script).Some?
    {
      ParseComplete(script, u, h, p);
    }
  }

  // ---------------------------------------------------------------------------
  // Properties of parse_script_location
  // ---------------------------------------------------------------------------

  /** A sequence is its prefix followed by the rest. */
  lemma PrefixSplit(s: string, a: string)
    requires a <= s
    ensures s == a + s[|a|..]
  {
    assert s == s[..|a|] + s[|a|..];
  }

  /** A match is the concatenation of its groups with their separators. */
  lemma MatchesSpelledOut(s: string, user: Option<string>, host: Option<string>, path: string)
    requires Matches(s, user, host, path)
    ensures OptionalGroup(user) && OptionalGroup(host) && PathGroup(path)
    ensures || s == Lead(user, '@') + Lead(host, ':') + path
            || s == Lead(user, '@') + Lead(host, ':') + path + "\n"
  {
    var lu, lh := Lead(user, '@'), Lead(host, ':');
    var r := s[|lu|..];
    PrefixSplit(s, lu);
    PrefixSplit(r, lh);
    JoinGroups(s, lu, lh, r[|lh|..], path);
  }

  /** The associativity step of spelling a match out. */
  lemma JoinGroups(s: string, lu: string, lh: string, t: string, path: string)
    requires s == lu + (lh + t)
    requires t == path || t == path + "\n"
    ensures s == lu + lh + path || s == lu + lh + path + "\n"
  {
    if t == path {
      assert s == lu + lh + path;
    } else {
      assert s == lu + lh + path + "\n";
    }
  }

  /** With user and host both present, joining them back gives the input (less one final newline). */
  lemma ParseReconstructs(script: string, user: string, host: string, path: string)
    requires ParseScriptLocation(script) == Some(ScriptLocation(Some(user), Some(host), path))
    ensures || script == user + "@" + host + ":" + path
            || script == user + "@" + host + ":" + path + "\n"
  {
    ParseSound(script, ScriptLocation(Some(user), Some(host), path));
    MatchesSpelledOut(script, Some(user), Some(host), path);
    assert Lead(Some(user), '@') + Lead(Some(host), ':') == user + "@" + host + ":";
  }

  /** The parsed path starts with a slash, has at least one more character and no newline. */
  lemma ParsedPathShape(script: string)
    requires ParseScriptLocation(script).Some?
    ensures var p := ParseScriptLocation(script).value.path;
            |p| >= 2 && p[0] == '/' && AnyChars(p)
  {
    var loc := ParseScriptLocation(script).value;
    ParseSound(script, loc);
    MatchesSpelledOut(script, loc.user, loc.host, loc.path);
  }

  /** s ends with x. */
  predicate EndsWith(s: string, x: string)
  {
    |x| <= |s| && s[|s| - |x|..] == x
  }

  /** a + x ends with x. */
  lemma EndsWithConcat(a: string, x: string)
    ensures EndsWith(a + x, x)
  {
    assert (a + x)[|a|..] == x;
  }

  /** An input that does not end in a path (optionally followed by one newline) is rejected. */
  lemma ParseNeedsPathSuffix(script: string)
    ensures ParseScriptLocation(script).Some? ==>
              var p := ParseScriptLocation(script).value.path;
              PathGroup(p) && (EndsWith(script, p) || EndsWith(script, p + "\n"))
  {
    if ParseScriptLocation(script).Some? {
      var loc := ParseScriptLocation(script).value;
      ParseSound(script, loc);
      MatchesSpelledOut(script, loc.user, loc.host, loc.path);
      var lead := Lead(loc.user, '@') + Lead(loc.host, ':');
      if script == lead + loc.path {
        EndsWithConcat(lead, loc.path);
      } else {
        assert script == lead + (loc.path + "\n");
        EndsWithConcat(lead, loc.path + "\n");
      }
    }
  }

  /** A plain absolute path without '@', ':' or newline is all path. */
  lemma PlainPathParse(script: string)
    requires |script| >= 2 && script[0] == '/' && AnyChars(script)
    requires '@' !in script && ':' !in script
    ensures ParseScriptLocation(script) == Some(ScriptLocation(None, None, script))
  {
    LastSplitAbsent(script, '@', MatchHostPath, |script|);
    LastSplitAbsent(script, ':', MatchPath, |script|);
  }

  /** In a + [c] + b with no c in b, every c is at or before the one between them. */
  lemma LastOccurrence(a: string, c: char, b: string, k: nat)
    requires c !in b
    requires k < |a + [c] + b| && (a + [c] + b)[k] == c
    ensures k <= |a|
  {
  }

  /** The separator a present optional group is followed by. */
  lemma LeadSeparator(s: string, g: Option<string>, sep: char)
    requires g.Some? && Lead(g, sep) <= s
    ensures |g.value| < |s| && s[|g.value|] == sep && s[..|g.value|] == g.value
  {
    assert s[|g.value|] == Lead(g, sep)[|g.value|];
    assert s[..|g.value|] == Lead(g, sep)[..|g.value|];
  }

  /**
   * Both groups are cut at the last separator: in user@host:/path whose host
   * and path have no '@' and whose path has no ':', the user is all of user
   * (which may itself hold '@' and ':') and the host all of host (which may
   * itself hold ':').
   */
  lemma ParseRemote(user: string, host: string, path: string)
    requires DotPlus(user) && DotPlus(host) && PathGroup(path)
    requires '@' !in host && '@' !in path && ':' !in path
    ensures ParseScriptLocation(user + "@" + host + ":" + path)
            == Some(ScriptLocation(Some(user), Some(host), path))
  {
    var r := host + [':'] + path;
    var s := user + ['@'] + r;
    assert user + "@" + host + ":" + path == s;
    assert Lead(Some(user), '@') + r == s;
    assert Lead(Some(host), ':') + path == r;
    assert HostPathMatches(r, Some(host), path);
    assert Matches(s, Some(user), Some(host), path);
    assert '@' !in r;
    forall u, h, p | Matches(s, u, h, p)
      ensures TriedNoLater(Some(user), Some(host), u, h)
    {
      if u.Some? {
        LeadSeparator(s, u, '@');
        LastOccurrence(user, '@', r, |u.value|);
        if |u.value| == |user| {
          assert s[..|user|] == user;
          assert s[|Lead(u, '@')|..] == r;
          if h.Some? {
            LeadSeparator(r, h, ':');
            LastOccurrence(host, ':', path, |h.value|);
          }
        }
      }
    }
    ParseIsFirstMatch(s, Some(user), Some(host), path);
  }

  /**
   * In host:/path with no '@' anywhere and no ':' in the path there is no
   * user, and the host is all of host.
   */
  lemma ParseHostOnly(host: string, path: string)
    requires DotPlus(host) && PathGroup(path)
    requires '@' !in host && '@' !in path && ':' !in path
    ensures ParseScriptLocation(host + ":" + path) == Some(ScriptLocation(None, Some(host), path))
  {
    var s := host + [':'] + path;
    assert host + ":" + path == s;
    assert Lead(Some(host), ':') + path == s;
    assert Matches(s, None, Some(host), path);
    forall u, h, p | Matches(s, u, h, p)
      ensures TriedNoLater(None, Some(host), u, h)
    {
      if u.Some? {
        LeadSeparator(s, u, '@');
      }
      if h.Some? {
        LeadSeparator(s, h, ':');
        LastOccurrence(host, ':', path, |h.value|);
      }
    }
    ParseIsFirstMatch(s, None, Some(host), path);
  }

  /** The example of the module's documentation: "myuser@myhost:/path/to/script". */
  lemma RemoteScriptExample()
    ensures var user, host, path := "myuser", "myhost", "/path/to/script";
            ParseScriptLocation(user + "@" + host + ":" + path)
            == Some(ScriptLocation(Some(user), Some(host), path))
  {
    var user, host, path := "myuser", "myhost", "/path/to/script";
    assert DotPlus(user) && DotPlus(host) && PathGroup(path);
    assert '@' !in host && '@' !in path && ':' !in path;
    ParseRemote(user, host, path);
  }

  /** The user is cut at the last workable '@': "a@b@host:/p" has user "a@b". */
  lemma GreedyUser()
    ensures var user, host, path := "a@b", "host", "/p";
            ParseScriptLocation(user + "@" + host + ":" + path)
            == Some(ScriptLocation(Some(user), Some(host), path))
  {
    var user, host, path := "a@b", "host", "/p";
    assert DotPlus(user) && DotPlus(host) && PathGroup(path);
    assert '@' !in host && '@' !in path && ':' !in path;
    ParseRemote(user, host, path);
  }

  /** The host is cut at the last ':' before a path: "u@h:/a:/b" has host "h:/a" and path "/b". */
  lemma GreedyHost()
    ensures var user, host, path := "u", "h:/a", "/b";
            ParseScriptLocation(user + "@" + host + ":" + path)
            == Some(ScriptLocation(Some(user), Some(host), path))
  {
    var user, host, path := "u", "h:/a", "/b";
    assert DotPlus(user) && DotPlus(host) && PathGroup(path);
    assert '@' !in host && '@' !in path && ':' !in path;
    ParseRemote(user, host, path);
  }

  // ---------------------------------------------------------------------------
  // Runners and their argument lists
  // ---------------------------------------------------------------------------

  /** A runner stores only its constructor arguments. */
  datatype Runner =
    | BCDARunner(scriptPath: string)
    | BCDASSHRunner(user: string, host: string, scriptPath: string)

  /**
   * `guess_runner`: the SSH runner when the specifier names both a user and
   * a host, the local runner otherwise; None where parsing fails.
   */
  function GuessRunner(script: string): (r: Option<Runner>)
    ensures r.Some? <==> ParseScriptLocation(script).Some?
    ensures r.Some? ==>
              var loc := ParseScriptLocation(script).value;
              && r.value.scriptPath == loc.path
              && (r.value.BCDASSHRunner? <==> loc.user.Some? && loc.host.Some?)
              && (r.value.BCDASSHRunner? ==> r.value.user == loc.user.value && r.value.host == loc.host.value)
  {
    match ParseScriptLocation(script)
    case None => None
    case Some(loc) =>
      if loc.user.Some? && loc.host.Some? then Some(BCDASSHRunner(loc.user.value, loc.host.value, loc.path))
      else Some(BCDARunner(loc.path))
  }

  /** A host without a user falls back to the local runner: "myhost:/path/to/script". */
  lemma HostWithoutUserIsLocal()
    ensures var host, path := "myhost", "/path/to/script";
            GuessRunner(host + ":" + path) == Some(BCDARunner(path))
  {
    var host, path := "myhost", "/path/to/script";
    assert DotPlus(host) && PathGroup(path);
    assert '@' !in host && '@' !in path && ':' !in path;
    ParseHostOnly(host, path);
  }

  /** The documented remote specifier gets the SSH runner. */
  lemma RemoteScriptUsesSsh()
    ensures var user, host, path := "myuser", "myhost", "/path/to/script";
            GuessRunner(user + "@" + host + ":" + path) == Some(BCDASSHRunner(user, host, path))
  {
    RemoteScriptExample();
  }

  datatype Command = Start | Stop | Restart | Status

  /** The word each request passes to the script. */
  function Verb(command: Command): string
  {
    match command
    case Start => "start"
    case Stop => "stop"
    case Restart => "restart"
    case Status => "status"
  }

  /** The argument list a runner hands to `execute_script` for a request. */
  function RunArgs(runner: Runner, command: Command): (args: seq<string>)
    ensures |args| == 2 && args[0] == runner.scriptPath && args[1] == Verb(command)
  {
    [runner.scriptPath, Verb(command)]
  }

  /**
   * Different requests give different argument lists, and the SSH runner
   * builds the same list as the local runner for the same path.
   */
  lemma RunArgsDistinguishRequests(runner: Runner, c1: Command, c2: Command)
    ensures RunArgs(runner, c1) == RunArgs(runner, c2) <==> c1 == c2
    ensures RunArgs(runner, c1) == RunArgs(BCDARunner(runner.scriptPath), c1)
  {
    if RunArgs(runner, c1) == RunArgs(runner, c2) {
      assert Verb(c1) == RunArgs(runner, c1)[1];
    }
  }

  // ---------------------------------------------------------------------------
  // The status reply
  // ---------------------------------------------------------------------------

  datatype IOCStatus = Unknown | Stopped | Running

  /** The numeric value of each status. */
  function StatusCode(status: IOCStatus): (code: nat)
    ensures code <= 2
    ensures code == 0 <==> status == Unknown
    ensures code == 1 <==> status == Stopped
  {
    match status
    case Unknown => 0
    case Stopped => 1
    case Running => 2
  }

  /** `\s` in a Python `str` pattern: a character for which `str.isspace` holds. */
  predicate IsSpace(c: char)
  {
    var n := c as int;
    || 9 <= n <= 13 || 28 <= n <= 32
    || n == 0x85 || n == 0xA0 || n == 0x1680
    || 0x2000 <= n <= 0x200A
    || n == 0x2028 || n == 0x2029 || n == 0x202F || n == 0x205F || n == 0x3000
  }

  /** No character of s is whitespace. */
  predicate NoSpace(s: string)
  {
    forall k :: 0 <= k < |s| ==> !IsSpace(s[k])
  }

  /** What `(not)? ?running` matches with these choices for its two optional parts. */
  function PatternTail(negated: bool, spaced: bool): string
  {
    if negated then (if spaced then "not running" else "notrunning")
    else (if spaced then " running" else "running")
  }

  /** The text matched by `\S+ is (not)? ?running` with these choices for the two optional parts. */
  function StatusText(word: string, negated: bool, spaced: bool): string
  {
    word + " is " + PatternTail(negated, spaced)
  }

  /** `^\S+ is (not)? ?running` matches a prefix of the reply with these choices. */
  predicate StatusMatches(reply: string, word: string, negated: bool, spaced: bool)
  {
    |word| >= 1 && NoSpace(word) && StatusText(word, negated, spaced) <= reply
  }

  /** The length of the longest prefix of s without whitespace, which greedy `\S+` takes. */
  function NonSpaceRun(s: string): (n: nat)
    ensures n <= |s| && NoSpace(s[..n])
    ensures n < |s| ==> IsSpace(s[n])
  {
    if |s| == 0 || IsSpace(s[0]) then 0
    else
      var n := 1 + NonSpaceRun(s[1..]);
      assert s[..n] == [s[0]] + s[1..][..n - 1];
      n
  }

  /**
   * The status part of `ioc_status`: the reply is matched against
   * `^\S+ is (not)? ?running`; no match is Unknown, a captured "not" Stopped,
   * and any other match Running.
   */
  function ParseStatusReply(reply: string): IOCStatus
  {
    var n := NonSpaceRun(reply);
    if n == 0 || !(" is " <= reply[n..]) then Unknown
    else
      var tail := reply[n + 4..];
      if "not running" <= tail || "notrunning" <= tail then Stopped
      else if " running" <= tail || "running" <= tail then Running
      else Unknown
  }

  /** `\S+` must stop right before the " is ": a match's word is the reply's leading non-space run. */
  lemma StatusWordIsRun(reply: string, word: string, negated: bool, spaced: bool)
    requires StatusMatches(reply, word, negated, spaced)
    ensures word == reply[..NonSpaceRun(reply)]
  {
    ConcatPrefixes(reply, word, " is ", PatternTail(negated, spaced));
    PrefixSplit(reply, word);
    assert reply[|word|..][0] == ' ';
    NonSpaceRunOf(word, reply[|word|..]);
  }

  /** Each part of a concatenation that begins s begins s where that part starts. */
  lemma ConcatPrefixes(s: string, a: string, b: string, c: string)
    requires a + b + c <= s
    ensures a <= s && b <= s[|a|..] && c <= s[|a| + |b|..]
  {
    var x := s[|a + b + c|..];
    PrefixSplit(s, a + b + c);
    assert s == a + (b + c + x);
    assert s[|a|..] == b + (c + x);
    assert s[|a| + |b|..] == c + x;
  }

  /** A match decomposed: the word, then " is ", then the tail the source inspects. */
  lemma StatusMatchTail(reply: string, word: string, negated: bool, spaced: bool)
    requires StatusMatches(reply, word, negated, spaced)
    ensures var n := NonSpaceRun(reply);
            && n == |word| >= 1 && " is " <= reply[n..]
            && PatternTail(negated, spaced) <= reply[n + 4..]
  {
    StatusWordIsRun(reply, word, negated, spaced);
    ConcatPrefixes(reply, word, " is ", PatternTail(negated, spaced));
  }

  /** A match decides the classification: Stopped when it captured "not", Running otherwise. */
  lemma StatusMatchClassifies(reply: string, word: string, negated: bool, spaced: bool)
    requires StatusMatches(reply, word, negated, spaced)
    ensures ParseStatusReply(reply) == if negated then Stopped else Running
  {
    StatusMatchTail(reply, word, negated, spaced);
    var tail := reply[|word| + 4..];
    if negated {
      assert "not running" <= tail || "notrunning" <= tail;
    } else {
      assert " running" <= tail || "running" <= tail;
      assert tail[0] == ' ' || tail[0] == 'r';
    }
  }

  /** A recognised reply is its leading non-space run, " is ", and the tail the source inspects. */
  lemma RecognisedReplyShape(reply: string)
    requires ParseStatusReply(reply) != Unknown
    ensures var n := NonSpaceRun(reply);
            n >= 1 && reply == reply[..n] + " is " + reply[n + 4..]
  {
    InfixSplit(reply, NonSpaceRun(reply), " is ");
  }

  /** A sequence with x at position n is what comes before n, then x, then the rest. */
  lemma InfixSplit(s: string, n: nat, x: string)
    requires n <= |s| && x <= s[n..]
    ensures s == s[..n] + x + s[n + |x|..]
  {
    PrefixSplit(s[n..], x);
    assert s[n..][|x|..] == s[n + |x|..];
    assert s == s[..n] + s[n..];
  }

  /** A word, " is ", and a tail starting with the rest of the pattern make a match. */
  lemma StatusMatchOf(reply: string, word: string, tail: string, negated: bool, spaced: bool)
    requires |word| >= 1 && NoSpace(word) && reply == word + " is " + tail
    requires PatternTail(negated, spaced) <= tail
    ensures StatusMatches(reply, word, negated, spaced)
  {
    var rest := PatternTail(negated, spaced);
    assert StatusText(word, negated, spaced) == word + " is " + rest;
    assert word + " is " + rest <= word + " is " + tail;
  }

  /** A reply classified Stopped or Running has a match of the matching kind. */
  lemma StatusClassifiedHasMatch(reply: string, negated: bool)
    requires ParseStatusReply(reply) == if negated then Stopped else Running
    ensures exists w, sp :: StatusMatches(reply, w, negated, sp)
  {
    RecognisedReplyShape(reply);
    var n := NonSpaceRun(reply);
    var word, tail := reply[..n], reply[n + 4..];
    var spaced := if negated then "not running" <= tail else " running" <= tail;
    StatusMatchOf(reply, word, tail, negated, spaced);
  }

  /**
   * The classification agrees with the pattern: Stopped exactly when a match
   * captures "not", Running exactly when a match does not, Unknown exactly
   * when nothing matches. No reply has matches of both kinds.
   */
  lemma ParseStatusReplyCorrect(reply: string)
    ensures ParseStatusReply(reply) == Stopped <==> exists w, sp :: StatusMatches(reply, w, true, sp)
    ensures ParseStatusReply(reply) == Running <==> exists w, sp :: StatusMatches(reply, w, false, sp)
    ensures ParseStatusReply(reply) == Unknown <==> forall w, neg, sp :: !StatusMatches(reply, w, neg, sp)
  {
    forall w, neg, sp | StatusMatches(reply, w, neg, sp)
      ensures ParseStatusReply(reply) == if neg then Stopped else Running
    {
      StatusMatchClassifies(reply, w, neg, sp);
    }
    if ParseStatusReply(reply) != Unknown {
      StatusClassifiedHasMatch(reply, ParseStatusReply(reply) == Stopped);
    }
  }

  /** Text after the matched part does not change the classification. */
  lemma StatusIgnoresTrailingText(reply: string, extra: string)
    requires ParseStatusReply(reply) != Unknown
    ensures ParseStatusReply(reply + extra) == ParseStatusReply(reply)
  {
    ParseStatusReplyCorrect(reply);
    ParseStatusReplyCorrect(reply + extra);
    var w, neg, sp :| StatusMatches(reply, w, neg, sp);
    assert StatusText(w, neg, sp) <= reply + extra by {
      assert reply <= reply + extra;
    }
    assert StatusMatches(reply + extra, w, neg, sp);
  }

  /** Greedy `\S+` stops at the first whitespace character. */
  lemma {:induction false} NonSpaceRunOf(word: string, rest: string)
    requires NoSpace(word) && |rest| >= 1 && IsSpace(rest[0])
    ensures NonSpaceRun(word + rest) == |word|
  {
    if |word| == 0 {
      assert word + rest == rest;
    } else {
      assert (word + rest)[0] == word[0];
      assert (word + rest)[1..] == word[1..] + rest;
      NonSpaceRunOf(word[1..], rest);
    }
  }

  /**
   * A reply that starts with a word and " is " is classified by what follows:
   * "not" with or without one space before "running" is Stopped, "running"
   * with or without one space before it is Running, anything else Unknown.
   */
  lemma StatusOfWordReply(word: string, tail: string)
    requires |word| >= 1 && NoSpace(word)
    ensures ParseStatusReply(word + " is " + tail)
            == if "not running" <= tail || "notrunning" <= tail then Stopped
               else if " running" <= tail || "running" <= tail then Running
               else Unknown
  {
    var reply := word + " is " + tail;
    assert reply == word + (" is " + tail);
    NonSpaceRunOf(word, " is " + tail);
    assert reply[|word|..] == " is " + tail;
    assert reply[|word| + 4..] == tail;
  }

  /** "myioc is running" is Running. */
  lemma RunningReplyExample()
    ensures var word, tail := "myioc", "running";
            ParseStatusReply(word + " is " + tail) == Running
  {
    var word, tail := "myioc", "running";
    assert NoSpace(word);
    assert !("not running" <= tail) && !("notrunning" <= tail) && "running" <= tail;
    StatusOfWordReply(word, tail);
  }

  /** "myioc is not running" is Stopped. */
  lemma StoppedReplyExample()
    ensures var word, tail := "myioc", "not running";
            ParseStatusReply(word + " is " + tail) == Stopped
  {
    var word, tail := "myioc", "not running";
    assert NoSpace(word);
    assert "not running" <= tail;
    StatusOfWordReply(word, tail);
  }

  /** "myioc is sleeping" is Unknown. */
  lemma GarbledReplyExample()
    ensures var word, tail := "myioc", "sleeping";
            ParseStatusReply(word + " is " + tail) == Unknown
  {
    var word, tail := "myioc", "sleeping";
    assert NoSpace(word);
    assert tail[0] == 's';
    StatusOfWordReply(word, tail);
  }
}

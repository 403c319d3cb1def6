/** The three line shapes the monitor recognises, written as predicates over the line, the
    capture group each extracts, and the leading timestamp.

    Each shape is `^.* <keyword> <tail>$` checked with `String.matches`, so the whole line must
    fit: the leading `.*` takes any run of characters without a line terminator, and because
    it is greedy, `Matcher.find` then captures at the RIGHTMOST keyword occurrence that still
    completes the shape. */
module LogLines {
  import opened Wrappers
  import opened JavaText

  datatype Shape =
    | UserShape        // ^.*open "([^@]*)@.*$
    | PutShape         // ^.*put "([^"]+)".*$
    | DirectoryShape   // ^.*New directory is: "(.*)"$

  function Keyword(p: Shape): string
  {
    match p
    case UserShape => "open \""
    case PutShape => "put \""
    case DirectoryShape => "New directory is: \""
  }

  /** First position of `c` in `s`. */
  function IndexOf(s: string, c: char): (r: nat)
    requires c in s
    ensures r < |s| && s[r] == c && c !in s[..r]
  {
    if s[0] == c then 0
    else
      assert c in s[1..] by { var k :| 0 <= k < |s| && s[k] == c; assert s[1..][k - 1] == c; }
      var r := 1 + IndexOf(s[1..], c);
      assert s[..r] == [s[0]] + s[1..][..r - 1];
      r
  }

  lemma {:induction false} IndexOfFirst(s: string, c: char, j: nat)
    requires j < |s| && s[j] == c && c !in s[..j]
    ensures IndexOf(s, c) == j
  {
    if j > 0 {
      assert s[..j][0] == s[0];
      assert s[1..][..j - 1] == s[..j][1..];
      IndexOfFirst(s[1..], c, j - 1);
    }
  }

  /** The part of the line after the keyword fits the rest of the pattern. */
  predicate TailFits(p: Shape, t: string)
  {
    match p
    // ([^@]*)@.*$ : the group runs to the first '@'; what follows is matched by .*
    case UserShape => '@' in t && DotFree(t[IndexOf(t, '@') + 1..])
    // ([^"]+)".*$ : a non-empty group up to the first '"'; what follows is matched by .*
    case PutShape => '"' in t && IndexOf(t, '"') > 0 && DotFree(t[IndexOf(t, '"') + 1..])
    // (.*)"$ : the group is everything up to a '"' that ends the line
    case DirectoryShape => |t| > 0 && Last(t) == '"' && DotFree(DropLast(t))
  }

  /** The capture group taken from a fitting tail. */
  function Group(p: Shape, t: string): string
    requires TailFits(p, t)
  {
    match p
    case UserShape => t[..IndexOf(t, '@')]
    case PutShape => t[..IndexOf(t, '"')]
    case DirectoryShape => DropLast(t)
  }

  /** The whole line matches the pattern with the keyword starting at position `i`. */
  predicate MatchAt(p: Shape, line: string, i: int)
  {
    0 <= i && i + |Keyword(p)| <= |line| &&
    line[i..i + |Keyword(p)|] == Keyword(p) &&
    DotFree(line[..i]) &&
    TailFits(p, line[i + |Keyword(p)|..])
  }

  /** `line.matches(pattern)`. */
  predicate Matches(p: Shape, line: string)
  {
    exists i :: 0 <= i <= |line| && MatchAt(p, line, i)
  }

  /** The largest `k < n` with `f(k)`, if any: the order in which a greedy `^.*` gives back
      characters while the engine backtracks. */
  function LastBelow(f: nat -> bool, n: nat): (r: Option<nat>)
    ensures r.Some? ==> r.value < n && f(r.value)
    ensures r.Some? ==> forall k: nat :: r.value < k < n ==> !f(k)
    ensures r.None? ==> forall k: nat :: k < n ==> !f(k)
  {
    if n == 0 then None
    else if f(n - 1) then Some(n - 1)
    else LastBelow(f, n - 1)
  }

  /** `i` is the position the greedy `^.*` settles on. */
  predicate RightmostMatch(p: Shape, line: string, i: int)
  {
    MatchAt(p, line, i) && forall k :: i < k <= |line| ==> !MatchAt(p, line, k)
  }

  /** The group captured with the keyword at `i`: it starts right after the keyword. */
  function GroupAt(p: Shape, line: string, i: int): (r: string)
    requires MatchAt(p, line, i)
    ensures r <= line[i + |Keyword(p)|..]
  {
    Group(p, line[i + |Keyword(p)|..])
  }

  /** `matcher.find()` followed by `matcher.group(1)`, for a line on which `matches` held,
      which is the only way the monitor calls it (on such a line a `find` anchored by `^` and
      `$` agrees with `matches`). */
  function Find(p: Shape, line: string): (r: Option<string>)
    ensures r.Some? <==> Matches(p, line)
    ensures r.Some? ==> exists i :: RightmostMatch(p, line, i) && r.value == GroupAt(p, line, i)
    ensures r.Some? ==> forall i :: RightmostMatch(p, line, i) ==> r.value == GroupAt(p, line, i)
    ensures p == UserShape && r.Some? ==> '@' !in r.value
    ensures p == PutShape && r.Some? ==> r.value != "" && '"' !in r.value
  {
    var matchAt := (k: nat) => MatchAt(p, line, k);
    match LastBelow(matchAt, |line| + 1)
    case None =>
      assert forall i :: 0 <= i <= |line| ==> !MatchAt(p, line, i) by {
        forall i | 0 <= i <= |line| ensures !MatchAt(p, line, i) { assert !matchAt(i); }
      }
      None
    case Some(i) =>
      assert RightmostMatch(p, line, i) by {
        forall k | i < k <= |line| ensures !MatchAt(p, line, k) { assert !matchAt(k); }
      }
      RightmostMatchUnique(p, line, i);
      GroupFacts(p, line, i);
      Some(GroupAt(p, line, i))
  }

  /** There is one rightmost match. */
  lemma RightmostMatchUnique(p: Shape, line: string, i: int)
    requires RightmostMatch(p, line, i)
    ensures forall k :: RightmostMatch(p, line, k) ==> k == i
  {
  }

  /** A user group has no `@`; a local-path group is non-empty and has no `"`. */
  lemma GroupFacts(p: Shape, line: string, i: int)
    requires MatchAt(p, line, i)
    ensures p == UserShape ==> '@' !in GroupAt(p, line, i)
    ensures p == PutShape ==> GroupAt(p, line, i) != "" && '"' !in GroupAt(p, line, i)
  {
  }

  // ---- Extraction gives back what a line was built from ----

  lemma UserLineMatchesAtKeyword(pre: string, u: string, rest: string)
    requires DotFree(pre) && DotFree(rest)
    requires '@' !in u
    ensures MatchAt(UserShape, pre + Keyword(UserShape) + u + ['@'] + rest, |pre|)
    ensures GroupAt(UserShape, pre + Keyword(UserShape) + u + ['@'] + rest, |pre|) == u
  {
    var kw := Keyword(UserShape);
    var line := pre + kw + u + ['@'] + rest;
    var n := |pre|;
    assert line[n..n + 6] == kw;
    assert line[..n] == pre;
    var tail := line[n + 6..];
    assert tail == u + ['@'] + rest;
    assert tail[|u|] == '@' && tail[..|u|] == u;
    IndexOfFirst(tail, '@', |u|);
    assert tail[|u| + 1..] == rest;

  }

  /** No keyword starts after the one at `|pre|`: inside the user there is no quote, the `@`
      is in no keyword, and the rest holds no keyword. */
  lemma NoLaterUserKeyword(pre: string, u: string, rest: string, k: int)
    requires '"' !in u
    requires forall j :: !OccursAt(rest, Keyword(UserShape), j)
    requires |pre| < k
    ensures !OccursAt(pre + Keyword(UserShape) + u + ['@'] + rest, Keyword(UserShape), k)
  {
    var kw := Keyword(UserShape);
    var line := pre + kw + u + ['@'] + rest;
    var n := |pre|;
    var at := n + 6 + |u|;
    assert line[at] == '@';
    if k + 6 <= |line| {
      var w := line[k..k + 6];
      if k + 5 < at {
        assert w[5] == u[k + 5 - n - 6];
      } else if k <= at {
        assert w[at - k] == '@';
      } else {
        assert w == rest[k - at - 1..k - at - 1 + 6];
        assert !OccursAt(rest, kw, k - at - 1);
      }
    }
  }

  lemma NoLaterUserMatch(pre: string, u: string, rest: string, k: int)
    requires '"' !in u
    requires forall j :: !OccursAt(rest, Keyword(UserShape), j)
    requires |pre| < k
    ensures !MatchAt(UserShape, pre + Keyword(UserShape) + u + ['@'] + rest, k)
  {
    NoLaterUserKeyword(pre, u, rest, k);
  }

  /** A user line built around a user name gives that name back, also when the rest of the
      line holds further `@` characters. */
  lemma UserLineYieldsUser(pre: string, u: string, rest: string)
    requires DotFree(pre) && DotFree(rest)
    requires '@' !in u && '"' !in u
    requires forall j :: !OccursAt(rest, Keyword(UserShape), j)
    ensures Find(UserShape, pre + Keyword(UserShape) + u + ['@'] + rest) == Some(u)
  {
    var line := pre + Keyword(UserShape) + u + ['@'] + rest;
    UserLineMatchesAtKeyword(pre, u, rest);
    forall k | |pre| < k <= |line| ensures !MatchAt(UserShape, line, k) {
      NoLaterUserMatch(pre, u, rest, k);
    }
    assert RightmostMatch(UserShape, line, |pre|);
  }

  /** The line `open "alice@corp@host` gives user `alice`. */
  lemma SecondAtSignUserExample()
    ensures Find(UserShape, "open \"alice@corp@host") == Some("alice")
  {
    var rest := "corp@host";
    forall j ensures !OccursAt(rest, Keyword(UserShape), j) {
      if 0 <= j && j + 6 <= |rest| {
        assert rest[j..j + 6][5] != '"';
      }
    }
    assert DotFree(rest);
    assert "" + Keyword(UserShape) + "alice" + ['@'] + rest == "open \"alice@corp@host";
    UserLineYieldsUser("", "alice", rest);
  }

  lemma PutLineMatchesAtKeyword(pre: string, path: string, rest: string)
    requires DotFree(pre) && DotFree(rest)
    requires path != [] && '"' !in path
    ensures MatchAt(PutShape, pre + Keyword(PutShape) + path + ['"'] + rest, |pre|)
    ensures GroupAt(PutShape, pre + Keyword(PutShape) + path + ['"'] + rest, |pre|) == path
  {
    var line := pre + Keyword(PutShape) + path + ['"'] + rest;
    var n := |pre|;
    assert line[n..n + 5] == Keyword(PutShape);
    assert line[..n] == pre;
    var tail := line[n + 5..];
    assert tail == path + ['"'] + rest;
    assert tail[|path|] == '"' && tail[..|path|] == path;
    IndexOfFirst(tail, '"', |path|);
    assert tail[|path| + 1..] == rest;
  }

  /** `w` occurs in `s` starting at position `k`. */
  predicate OccursAt(s: string, w: string, k: int)
  {
    0 <= k && k + |w| <= |s| && s[k..k + |w|] == w
  }

  /** No keyword starts after the one at `|pre|`: inside the path there is no quote, the
      closing quote cannot be a keyword's last character unless the path ends in `put `, and
      the rest holds no keyword. */
  lemma NoLaterPutKeyword(pre: string, path: string, rest: string, k: int)
    requires '"' !in path && !(|path| >= 4 && path[|path| - 4..] == "put ")
    requires forall j :: !OccursAt(rest, Keyword(PutShape), j)
    requires |pre| < k
    ensures !OccursAt(pre + Keyword(PutShape) + path + ['"'] + rest, Keyword(PutShape), k)
  {
    var kw := Keyword(PutShape);
    var line := pre + kw + path + ['"'] + rest;
    var n := |pre|;
    var q := n + 5 + |path|;
    assert line[q] == '"';
    if k + 5 <= |line| {
      var w := line[k..k + 5];
      if k + 4 < q {
        assert w[4] == path[k + 4 - n - 5];
      } else if k + 4 == q && |path| >= 4 {
        assert w[..4] == path[|path| - 4..];
        assert kw[..4] == "put ";
      } else if k + 4 == q {
        assert w[n + 4 - k] == line[n + 4] == '"';
      } else if k <= q {
        assert w[q - k] == '"';
      } else {
        assert w == rest[k - q - 1..k - q - 1 + 5];
        assert !OccursAt(rest, kw, k - q - 1);
      }
    }
  }

  lemma NoLaterPutMatch(pre: string, path: string, rest: string, k: int)
    requires '"' !in path && !(|path| >= 4 && path[|path| - 4..] == "put ")
    requires forall j :: !OccursAt(rest, Keyword(PutShape), j)
    requires |pre| < k
    ensures !MatchAt(PutShape, pre + Keyword(PutShape) + path + ['"'] + rest, k)
  {
    NoLaterPutKeyword(pre, path, rest, k);
  }

  /** A put line built around a local path gives that path back, also when the rest of the
      line carries further quoted arguments. */
  lemma PutLineYieldsPath(pre: string, path: string, rest: string)
    requires DotFree(pre) && DotFree(rest)
    requires path != [] && '"' !in path && !(|path| >= 4 && path[|path| - 4..] == "put ")
    requires forall j :: !OccursAt(rest, Keyword(PutShape), j)
    ensures Find(PutShape, pre + Keyword(PutShape) + path + ['"'] + rest) == Some(path)
  {
    var line := pre + Keyword(PutShape) + path + ['"'] + rest;
    PutLineMatchesAtKeyword(pre, path, rest);
    forall k | |pre| < k <= |line| ensures !MatchAt(PutShape, line, k) {
      NoLaterPutMatch(pre, path, rest, k);
    }
    assert RightmostMatch(PutShape, line, |pre|);
  }

  /** The two-argument form `put "C:\a.csv" "/in/"` yields the local path. */
  lemma TwoArgumentPutYieldsLocalPath()
    ensures Find(PutShape, "put \"C:\\a.csv\" \"/in/\"") == Some("C:\\a.csv")
  {
    var rest := " \"/in/\"";
    forall j ensures !OccursAt(rest, Keyword(PutShape), j) {
      if 0 <= j && j + 5 <= |rest| {
        assert rest[j..j + 5][0] != 'p';
      }
    }
    assert DotFree(rest);
    assert "" + Keyword(PutShape) + "C:\\a.csv" + ['"'] + rest == "put \"C:\\a.csv\" \"/in/\"";
    PutLineYieldsPath("", "C:\\a.csv", rest);
  }

  lemma DirectoryLineMatchesAtKeyword(pre: string, path: string)
    requires DotFree(pre) && DotFree(path)
    ensures MatchAt(DirectoryShape, pre + Keyword(DirectoryShape) + path + ['"'], |pre|)
    ensures GroupAt(DirectoryShape, pre + Keyword(DirectoryShape) + path + ['"'], |pre|) == path
  {
    var line := pre + Keyword(DirectoryShape) + path + ['"'];
    var n := |pre|;
    assert line[n..n + 19] == Keyword(DirectoryShape);
    assert line[..n] == pre;
    assert line[n + 19..] == path + ['"'];
  }

  lemma NoLaterDirectoryMatch(pre: string, path: string, k: int)
    requires '"' !in path
    requires |pre| < k
    ensures !MatchAt(DirectoryShape, pre + Keyword(DirectoryShape) + path + ['"'], k)
  {
    var line := pre + Keyword(DirectoryShape) + path + ['"'];
    var n := |pre|;
    if k + 19 < |line| {
      assert line[k + 18] == path[k + 18 - n - 19];
      assert line[k..k + 19][18] != Keyword(DirectoryShape)[18];
    } else if k + 19 == |line| {
      assert line[k + 19..] == [];
    }
  }

  /** A directory line built around a remote path gives that path back. */
  lemma DirectoryLineYieldsPath(pre: string, path: string)
    requires DotFree(pre) && DotFree(path) && '"' !in path
    ensures Find(DirectoryShape, pre + Keyword(DirectoryShape) + path + ['"']) == Some(path)
  {
    var line := pre + Keyword(DirectoryShape) + path + ['"'];
    DirectoryLineMatchesAtKeyword(pre, path);
    forall k | |pre| < k <= |line| ensures !MatchAt(DirectoryShape, line, k) {
      NoLaterDirectoryMatch(pre, path, k);
    }
    assert RightmostMatch(DirectoryShape, line, |pre|);
  }

  // ---- The leading timestamp ----

  predicate IsDigit(c: char)
  {
    '0' <= c <= '9'
  }

  /** `\d{4}-\d{2}-\d{2} \d{2}:\d{2}:\d{2}`, the 19 characters of `yyyy-MM-dd HH:mm:ss`. */
  predicate IsStamp(s: string)
  {
    |s| == 19 &&
    IsDigit(s[0]) && IsDigit(s[1]) && IsDigit(s[2]) && IsDigit(s[3]) && s[4] == '-' &&
    IsDigit(s[5]) && IsDigit(s[6]) && s[7] == '-' &&
    IsDigit(s[8]) && IsDigit(s[9]) && s[10] == ' ' &&
    IsDigit(s[11]) && IsDigit(s[12]) && s[13] == ':' &&
    IsDigit(s[14]) && IsDigit(s[15]) && s[16] == ':' &&
    IsDigit(s[17]) && IsDigit(s[18])
  }

  /** The line matches `^(stamp).*`: a stamp followed by characters without a line terminator. */
  predicate HasDatePrefix(line: string)
  {
    |line| >= 19 && IsStamp(line[..19]) && DotFree(line[19..])
  }

  /** `parseDate(line)`, in milliseconds since the epoch: the calendar reading of the stamp
      (`stampTime`, the date format's parse), or the epoch itself when the line has no stamp. */
  function ParseDate(line: string, stampTime: string -> int): (r: int)
    ensures !HasDatePrefix(line) ==> r == 0
    ensures HasDatePrefix(line) ==> r == stampTime(line[..19])
  {
    if HasDatePrefix(line) then stampTime(line[..19]) else 0
  }

  // ---- Classifying one line ----


  datatype LogEvent =
    | UserOpened(user: string)
    | FileUploaded(localPath: string)
    | DirectoryChanged(remotePath: string)
    | Unrecognized

  /** The `if / else if` chain of the monitor: the user shape first; then a put line, but
      only when its stamp is strictly after the start time; then the directory shape. */
  function Classify(line: string, startTime: int, stampTime: string -> int): LogEvent
  {
    if Matches(UserShape, line) then
      match Find(UserShape, line)
      case Some(u) => UserOpened(u)
      case None => Unrecognized
    else if ParseDate(line, stampTime) > startTime && Matches(PutShape, line) then
      match Find(PutShape, line)
      case Some(l) => FileUploaded(l)
      case None => Unrecognized
    else if Matches(DirectoryShape, line) then
      match Find(DirectoryShape, line)
      case Some(r) => DirectoryChanged(r)
      case None => Unrecognized
    else Unrecognized
  }

  /** A stamp holds only digits, `-`, ` ` and `:`, none of them a line terminator. */
  lemma StampIsDotFree(stamp: string)
    requires IsStamp(stamp)
    ensures DotFree(stamp)
  {
    forall k | 0 <= k < |stamp| ensures !IsLineTerminator(stamp[k]) {
      assert IsDigit(stamp[k]) || stamp[k] in "- :" by {
        if k == 4 || k == 7 { assert stamp[k] == '-'; }
        else if k == 10 { assert stamp[k] == ' '; }
        else if k == 13 || k == 16 { assert stamp[k] == ':'; }
      }
    }
  }

  lemma DotFreeConcat(a: string, b: string)
    requires DotFree(a) && DotFree(b)
    ensures DotFree(a + b)
  {
    forall k | 0 <= k < |a + b| ensures !IsLineTerminator((a + b)[k]) {
      if k >= |a| { assert (a + b)[k] == b[k - |a|]; }
    }
  }

  /** A line that starts with a stamp, followed by anything `.*` matches, reads as that stamp. */
  lemma StampedLineReadsStamp(stamp: string, rest: string, stampTime: string -> int)
    requires IsStamp(stamp) && DotFree(rest)
    ensures ParseDate(stamp + rest, stampTime) == stampTime(stamp)
  {
    assert (stamp + rest)[..19] == stamp;
    assert (stamp + rest)[19..] == rest;
  }

  /** For instance, `2024-01-01 10:00:00 put "C:\x"` reads as its stamp. */
  lemma StampedLineExample(stampTime: string -> int)
    ensures ParseDate("2024-01-01 10:00:00 put \"C:\\x\"", stampTime) == stampTime("2024-01-01 10:00:00")
  {
    var rest := " put \"C:\\x\"";
    assert "2024-01-01 10:00:00" + rest == "2024-01-01 10:00:00 put \"C:\\x\"";
    assert DotFree(rest);
    assert IsStamp("2024-01-01 10:00:00");
    StampedLineReadsStamp("2024-01-01 10:00:00", rest, stampTime);
  }

  /** The date a put line built around a stamp reads as. */
  lemma StampedPutLineReadsStamp(stamp: string, pre: string, path: string, rest: string,
                                 stampTime: string -> int)
    requires IsStamp(stamp) && DotFree(pre) && DotFree(path) && DotFree(rest)
    ensures ParseDate(stamp + pre + Keyword(PutShape) + path + ['"'] + rest, stampTime) == stampTime(stamp)
  {
    var after := pre + Keyword(PutShape) + path + ['"'] + rest;
    assert stamp + pre + Keyword(PutShape) + path + ['"'] + rest == stamp + after;
    DotFreeConcat(pre, Keyword(PutShape));
    DotFreeConcat(pre + Keyword(PutShape), path);
    DotFreeConcat(pre + Keyword(PutShape) + path, ['"']);
    DotFreeConcat(pre + Keyword(PutShape) + path + ['"'], rest);
    StampedLineReadsStamp(stamp, after, stampTime);
  }

  /** A line that is not a user line, passes the time gate and yields a local path is an
      upload of that path. */
  lemma GatePassedMeansUpload(line: string, startTime: int, stampTime: string -> int, path: string)
    requires !Matches(UserShape, line) && ParseDate(line, stampTime) > startTime
    requires Find(PutShape, line) == Some(path)
    ensures Classify(line, startTime, stampTime) == FileUploaded(path)
  {
  }

  /** The positive side of the time gate: a put line stamped after the start time, that is
      not a user line, is an upload of the path it names. */
  lemma StampedPutLineUploads(stamp: string, pre: string, path: string, rest: string,
                              startTime: int, stampTime: string -> int)
    requires IsStamp(stamp) && DotFree(pre) && DotFree(path) && DotFree(rest)
    requires path != [] && '"' !in path && !(|path| >= 4 && path[|path| - 4..] == "put ")
    requires forall j :: !OccursAt(rest, Keyword(PutShape), j)
    requires stampTime(stamp) > startTime
    requires !Matches(UserShape, stamp + pre + Keyword(PutShape) + path + ['"'] + rest)
    ensures Classify(stamp + pre + Keyword(PutShape) + path + ['"'] + rest, startTime, stampTime)
            == FileUploaded(path)
  {
    StampIsDotFree(stamp);
    DotFreeConcat(stamp, pre);
    PutLineYieldsPath(stamp + pre, path, rest);
    StampedPutLineReadsStamp(stamp, pre, path, rest, stampTime);
    GatePassedMeansUpload(stamp + pre + Keyword(PutShape) + path + ['"'] + rest, startTime, stampTime, path);
  }

  /** Which event a line yields, both ways round, with the extracted value. */
  lemma ClassifyCases(line: string, startTime: int, stampTime: string -> int)
    ensures var e := Classify(line, startTime, stampTime);
      (e.UserOpened? <==> Matches(UserShape, line)) &&
      (e.FileUploaded? <==>
        !Matches(UserShape, line) && ParseDate(line, stampTime) > startTime && Matches(PutShape, line)) &&
      (e.DirectoryChanged? <==>
        !Matches(UserShape, line) && !(ParseDate(line, stampTime) > startTime && Matches(PutShape, line)) &&
        Matches(DirectoryShape, line)) &&
      (e.UserOpened? ==> Some(e.user) == Find(UserShape, line)) &&
      (e.FileUploaded? ==> Some(e.localPath) == Find(PutShape, line)) &&
      (e.DirectoryChanged? ==> Some(e.remotePath) == Find(DirectoryShape, line))
  {
  }

  /** A line without a leading stamp parses to the epoch, so with a start time after the
      epoch it never counts as an upload. */
  lemma UnstampedLineNeverUploads(line: string, startTime: int, stampTime: string -> int)
    requires startTime > 0
    requires !HasDatePrefix(line)
    ensures !Classify(line, startTime, stampTime).FileUploaded?
  {
  }

  /** The time gate applies to uploads alone: a directory line that is not a user line and
      does not take the put branch sets the remote path, whatever its stamp. That covers a
      line stamped after the start without the put shape and a put-shaped line that fails
      the gate. */
  lemma DirectoryLineIgnoresTime(line: string, startTime: int, stampTime: string -> int)
    requires !Matches(UserShape, line) && Matches(DirectoryShape, line)
    requires !(ParseDate(line, stampTime) > startTime && Matches(PutShape, line))
    ensures Classify(line, startTime, stampTime) == DirectoryChanged(Find(DirectoryShape, line).value)
  {
  }

  /** A user line is only ever a user line, whatever else it contains. */
  lemma UserLineIsNeverUploadOrDirectory(line: string, startTime: int, stampTime: string -> int)
    requires Matches(UserShape, line)
    ensures Classify(line, startTime, stampTime) == UserOpened(Find(UserShape, line).value)
    ensures '@' !in Classify(line, startTime, stampTime).user
  {
  }
}

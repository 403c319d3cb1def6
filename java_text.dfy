/** The two pieces of java.lang.String / java.util.regex behaviour the core leans on:
    what the regex dot matches, and String.split with a one-character separator. */
module JavaText {

  /** Java's line terminators, the characters `.` does not match (no DOTALL, no UNIX_LINES). */
  predicate IsLineTerminator(c: char)
  {
    c == '\n' || c == '\r' || c == '\U{85}' || c == '\U{2028}' || c == '\U{2029}'
  }

  /** `s` can be matched by `.*`. */
  predicate DotFree(s: string)
  {
    forall k :: 0 <= k < |s| ==> !IsLineTerminator(s[k])
  }

  function Last<T>(s: seq<T>): T
    requires |s| > 0
  {
    s[|s| - 1]
  }

  function DropLast<T>(s: seq<T>): seq<T>
    requires |s| > 0
  {
    s[..|s| - 1]
  }

  /** Every piece between separators, empty ones included: `k` separators give `k + 1` pieces.
      Built from the end of the string, like Join below. */
  function RawSplit(s: string, sep: char): (r: seq<string>)
    ensures |r| > 0
    ensures forall k :: 0 <= k < |r| ==> sep !in r[k]
  {
    if s == [] then [""]
    else if Last(s) == sep then RawSplit(DropLast(s), sep) + [""]
    else
      var pieces := RawSplit(DropLast(s), sep);
      DropLast(pieces) + [Last(pieces) + [Last(s)]]
  }

  /** Removes the empty pieces at the end of `parts`. */
  function DropTrailingEmpty(parts: seq<string>): (r: seq<string>)
    ensures r <= parts
    ensures r == [] || Last(r) != ""
    ensures forall k :: |r| <= k < |parts| ==> parts[k] == ""
  {
    if parts == [] then []
    else if Last(parts) == "" then DropTrailingEmpty(DropLast(parts))
    else parts
  }

  /** `s.split(sep)` for a one-character separator (regex limit 0): a string without the
      separator, the empty string included, gives `[s]`; otherwise the pieces with trailing
      empty ones removed, while leading and interior empty pieces stay. */
  function JavaSplit(s: string, sep: char): (r: seq<string>)
    ensures forall k :: 0 <= k < |r| ==> sep !in r[k]
    ensures sep !in s ==> r == [s]
    ensures sep in s ==> r == [] || Last(r) != ""
  {
    if sep !in s then [s] else DropTrailingEmpty(RawSplit(s, sep))
  }

  /** Joins `parts` with `sep` between consecutive parts; `[]` joins to "". */
  function Join(parts: seq<string>, sep: char): string
  {
    if |parts| == 0 then ""
    else if |parts| == 1 then parts[0]
    else Join(DropLast(parts), sep) + [sep] + Last(parts)
  }

  /** What a StringBuilder holds after appending the first `|parts|` parts, each followed by `sep`. */
  function Opened(parts: seq<string>, sep: char): string
  {
    if parts == [] then "" else Join(parts, sep) + [sep]
  }

  lemma JoinSnoc(parts: seq<string>, i: nat, sep: char)
    requires i < |parts|
    ensures Join(parts[..i + 1], sep) == Opened(parts[..i], sep) + parts[i]
    ensures Opened(parts[..i + 1], sep) == Join(parts[..i + 1], sep) + [sep]
  {
    if i > 0 {
      assert DropLast(parts[..i + 1]) == parts[..i];
    }
  }

  /** Joining the pieces of a split gives back the string. */
  lemma {:induction false} JoinRawSplit(s: string, sep: char)
    ensures Join(RawSplit(s, sep), sep) == s
  {
    if s != [] {
      JoinRawSplit(DropLast(s), sep);
      JoinRawSplitStep(s, sep);
    }
  }

  /** One step of JoinRawSplit: the last character either opens a new piece or extends the
      last one. */
  lemma JoinRawSplitStep(s: string, sep: char)
    requires s != [] && Join(RawSplit(DropLast(s), sep), sep) == DropLast(s)
    ensures Join(RawSplit(s, sep), sep) == s
  {
    var pieces := RawSplit(DropLast(s), sep);
    if Last(s) == sep {
      assert DropLast(pieces + [""]) == pieces;
      assert s == DropLast(s) + [sep];
    } else {
      JoinExtendLast(pieces, Last(s), sep);
      assert s == DropLast(s) + [Last(s)];
    }
  }

  /** Appending a character to the last part appends it to the join. */
  lemma JoinExtendLast(parts: seq<string>, c: char, sep: char)
    requires |parts| > 0
    ensures Join(DropLast(parts) + [Last(parts) + [c]], sep) == Join(parts, sep) + [c]
  {
    var r := DropLast(parts) + [Last(parts) + [c]];
    assert DropLast(r) == DropLast(parts);
    if |parts| == 1 {
      assert parts == [parts[0]];
    } else {
      assert Join(parts, sep) == Join(DropLast(parts), sep) + [sep] + Last(parts);
    }
  }

  /** Joining the first `k` parts gives a prefix of joining them all. */
  lemma {:induction false} JoinOfPrefix(parts: seq<string>, k: nat, sep: char)
    requires 1 <= k <= |parts|
    ensures Join(parts[..k], sep) <= Join(parts, sep)
  {
    if k < |parts| {
      JoinOfPrefix(DropLast(parts), k, sep);
      assert DropLast(parts)[..k] == parts[..k];
      if |parts| == 1 {
      } else {
        assert Join(parts, sep) == Join(DropLast(parts), sep) + [sep] + Last(parts);
      }
    } else {
      assert parts[..k] == parts;
    }
  }

  /** A join ends with the last character of its last part, when that part is not empty. */
  lemma JoinEndsInLastPart(parts: seq<string>, sep: char)
    requires |parts| > 0 && Last(parts) != ""
    ensures |Join(parts, sep)| > 0 && Last(Join(parts, sep)) == Last(Last(parts))
  {
    if |parts| > 1 {
      assert Join(parts, sep) == Join(DropLast(parts), sep) + [sep] + Last(parts);
    }
  }

  /** The last raw piece of a string that does not end in the separator is not empty. */
  lemma {:induction false} RawSplitLastNonEmpty(s: string, sep: char)
    requires s != [] && Last(s) != sep
    ensures Last(RawSplit(s, sep)) != ""
  {
  }

  /** Every `sep`-joined prefix of the split of `s` is a prefix of `s`, and when `s` does not
      end in `sep` the split is non-empty and all of it joins back to `s`. */
  lemma JavaSplitPrefixes(s: string, sep: char)
    ensures forall k :: 1 <= k <= |JavaSplit(s, sep)| ==> Join(JavaSplit(s, sep)[..k], sep) <= s
    ensures (s == [] || Last(s) != sep) ==> |JavaSplit(s, sep)| > 0 && Join(JavaSplit(s, sep), sep) == s
  {
    var r := JavaSplit(s, sep);
    if sep !in s {
      assert r == [s];
      forall k | 1 <= k <= |r| ensures Join(r[..k], sep) <= s {
        assert r[..k] == [s];
      }
    } else {
      var raw := RawSplit(s, sep);
      JoinRawSplit(s, sep);
      forall k | 1 <= k <= |r| ensures Join(r[..k], sep) <= s {
        assert r[..k] == raw[..k];
        JoinOfPrefix(raw, k, sep);
      }
      if Last(s) != sep {
        RawSplitLastNonEmpty(s, sep);
        assert r == raw;
      }
    }
  }

  /** A string without the separator is one raw piece. */
  lemma {:induction false} RawSplitNoSeparator(s: string, sep: char)
    requires sep !in s
    ensures RawSplit(s, sep) == [s]
  {
    if s != [] {
      RawSplitNoSeparator(DropLast(s), sep);
      assert DropLast(s) + [Last(s)] == s;
    }
  }

  /** What follows the last separator is the last raw piece. */
  lemma {:induction false} RawSplitLastPiece(a: string, b: string, sep: char)
    requires sep !in b
    ensures RawSplit(a + [sep] + b, sep) == RawSplit(a, sep) + [b]
  {
    if b == [] {
      assert DropLast(a + [sep] + b) == a;
    } else {
      RawSplitLastPiece(a, DropLast(b), sep);
      assert DropLast(a + [sep] + b) == a + [sep] + DropLast(b);
      assert DropLast(b) + [Last(b)] == b;
    }
  }

  /** Splitting undoes joining: pieces without the separator, the last of them non-empty
      unless it is the only one, come back from the split of their join. */
  lemma {:induction false} SplitJoinRoundTrip(parts: seq<string>, sep: char)
    requires |parts| > 0
    requires forall k :: 0 <= k < |parts| ==> sep !in parts[k]
    requires |parts| == 1 || Last(parts) != ""
    ensures JavaSplit(Join(parts, sep), sep) == parts
  {
    RawSplitOfJoin(parts, sep);
    if |parts| > 1 {
      assert Join(parts, sep) == Join(DropLast(parts), sep) + [sep] + Last(parts);
      assert sep in Join(parts, sep) by {
        assert Join(parts, sep)[|Join(DropLast(parts), sep)|] == sep;
      }
    }
  }

  lemma {:induction false} RawSplitOfJoin(parts: seq<string>, sep: char)
    requires |parts| > 0
    requires forall k :: 0 <= k < |parts| ==> sep !in parts[k]
    ensures RawSplit(Join(parts, sep), sep) == parts
  {
    if |parts| == 1 {
      RawSplitNoSeparator(parts[0], sep);
    } else {
      RawSplitOfJoin(DropLast(parts), sep);
      RawSplitLastPiece(Join(DropLast(parts), sep), Last(parts), sep);
      assert DropLast(parts) + [Last(parts)] == parts;
    }
  }
}
